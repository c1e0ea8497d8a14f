/**
 * The link table: the `Link` record, the queries the handlers make of the
 * store (find by code, create, update by id, delete by code, list newest
 * first) as functions on the rows, and `LinkStore`, an in-memory table that
 * carries them out in place and enforces the uniqueness of `short_code`.
 */
module Links {
  import opened Wrappers

  /** A timestamp (`new Date()`), in milliseconds. */
  type Time = int

  datatype Link = Link(
    id: nat,
    original_url: string,
    short_code: string,
    clicks: nat,
    last_clicked: Option<Time>,
    created_at: Time)

  /** A freshly created row: no clicks yet, never clicked. */
  function NewLink(id: nat, url: string, code: string, now: Time): Link {
    Link(id, url, code, 0, None, now)
  }

  predicate HasCode(rows: seq<Link>, code: string) {
    exists i :: 0 <= i < |rows| && rows[i].short_code == code
  }

  /** `findUnique({ where: { short_code } })`: the first row with that code. */
  function Lookup(rows: seq<Link>, code: string): (r: Option<Link>)
    ensures r.Some? ==> r.value in rows && r.value.short_code == code
    ensures r.None? <==> !HasCode(rows, code)
  {
    if rows == [] then None
    else if rows[0].short_code == code then Some(rows[0])
    else
      assert forall i :: 1 <= i < |rows| ==> rows[i] == rows[1..][i - 1];
      Lookup(rows[1..], code)
  }

  ghost predicate UniqueCodes(rows: seq<Link>) {
    forall i, j :: 0 <= i < j < |rows| ==> rows[i].short_code != rows[j].short_code
  }

  ghost predicate UniqueIds(rows: seq<Link>) {
    forall i, j :: 0 <= i < j < |rows| ==> rows[i].id != rows[j].id
  }

  /**
   * The table's invariant: codes are unique (the store's uniqueness
   * constraint), ids are unique and below the next id to be assigned.
   */
  ghost predicate WellFormed(rows: seq<Link>, nextId: nat) {
    UniqueCodes(rows) && UniqueIds(rows) &&
    forall i :: 0 <= i < |rows| ==> rows[i].id < nextId
  }

  /** How many rows carry `code`. */
  function CountCode(rows: seq<Link>, code: string): nat {
    if rows == [] then 0
    else CountCode(rows[..|rows| - 1], code) + (if rows[|rows| - 1].short_code == code then 1 else 0)
  }

  /** The table after `deleteMany({ where: { short_code } })`. */
  function Without(rows: seq<Link>, code: string): (r: seq<Link>)
    ensures |r| + CountCode(rows, code) == |rows|
    ensures forall i :: 0 <= i < |r| ==> r[i].short_code != code
    ensures forall l :: l in r ==> l in rows
  {
    if rows == [] then []
    else
      Without(rows[..|rows| - 1], code) +
      (if rows[|rows| - 1].short_code == code then [] else [rows[|rows| - 1]])
  }

  lemma {:induction false} WithoutKeepsOthers(rows: seq<Link>, code: string)
    ensures forall l :: l in rows && l.short_code != code ==> l in Without(rows, code)
  {
    if rows != [] {
      var init := rows[..|rows| - 1];
      WithoutKeepsOthers(init, code);
      assert rows == init + [rows[|rows| - 1]];
    }
  }

  lemma {:induction false} CountZeroIffAbsent(rows: seq<Link>, code: string)
    ensures CountCode(rows, code) == 0 <==> !HasCode(rows, code)
  {
    if rows != [] {
      var init := rows[..|rows| - 1];
      CountZeroIffAbsent(init, code);
      if HasCode(rows, code) && rows[|rows| - 1].short_code != code {
        var i :| 0 <= i < |rows| && rows[i].short_code == code;
        assert init[i] == rows[i];
      }
      if HasCode(init, code) {
        var i :| 0 <= i < |init| && init[i].short_code == code;
        assert rows[i] == init[i];
      }
    }
  }

  /** Deleting a code that no row carries leaves the table as it was. */
  lemma {:induction false} WithoutAbsent(rows: seq<Link>, code: string)
    requires !HasCode(rows, code)
    ensures Without(rows, code) == rows
  {
    if rows != [] {
      var init := rows[..|rows| - 1];
      WithoutAbsent(init, code);
      assert rows == init + [rows[|rows| - 1]];
    }
  }

  /** Under the uniqueness constraint a code is carried by at most one row. */
  lemma {:induction false} UniqueCountAtMostOne(rows: seq<Link>, code: string)
    requires UniqueCodes(rows)
    ensures CountCode(rows, code) <= 1
  {
    if rows != [] {
      var init := rows[..|rows| - 1];
      assert UniqueCodes(init);
      UniqueCountAtMostOne(init, code);
      if rows[|rows| - 1].short_code == code {
        assert !HasCode(init, code);
        CountZeroIffAbsent(init, code);
      }
    }
  }

  lemma {:induction false} WithoutWellFormed(rows: seq<Link>, code: string, nextId: nat)
    requires WellFormed(rows, nextId)
    ensures WellFormed(Without(rows, code), nextId)
  {
    if rows != [] {
      var init := rows[..|rows| - 1];
      var last := rows[|rows| - 1];
      assert WellFormed(init, nextId);
      WithoutWellFormed(init, code, nextId);
      var w := Without(init, code);
      forall l | l in w ensures l.short_code != last.short_code && l.id != last.id {
        var k :| 0 <= k < |init| && init[k] == l;
        assert rows[k] == l;
      }
    }
  }

  /** A row after `update({ where: { id }, data: { clicks, last_clicked } })`. */
  function Touched(l: Link, id: nat, clicks: nat, last: Option<Time>): Link {
    if l.id == id then l.(clicks := clicks, last_clicked := last) else l
  }

  /** The table after that update: the row with `id` gets the new counters. */
  function SetStats(rows: seq<Link>, id: nat, clicks: nat, last: Option<Time>): (r: seq<Link>)
    ensures |r| == |rows|
  {
    seq(|rows|, i requires 0 <= i < |rows| => Touched(rows[i], id, clicks, last))
  }

  lemma SetStatsWellFormed(rows: seq<Link>, id: nat, clicks: nat, last: Option<Time>, nextId: nat)
    requires WellFormed(rows, nextId)
    ensures WellFormed(SetStats(rows, id, clicks, last), nextId)
  {
    var r := SetStats(rows, id, clicks, last);
    assert forall i :: 0 <= i < |r| ==> r[i].id == rows[i].id && r[i].short_code == rows[i].short_code;
  }

  /** `orderBy: { created_at: "desc" }`: each row is at least as new as the rows after it. */
  predicate NewestFirstOrder(s: seq<Link>) {
    forall i, j :: 0 <= i < j < |s| ==> s[i].created_at >= s[j].created_at
  }

  /** Places `l` before the first row that is not newer than it. */
  function InsertByTime(l: Link, s: seq<Link>): seq<Link> {
    if s == [] then [l]
    else if l.created_at >= s[0].created_at then [l] + s
    else [s[0]] + InsertByTime(l, s[1..])
  }

  /**
   * The rows newest first. Rows created at the same time keep the later
   * insertion first.
   */
  function NewestFirst(rows: seq<Link>): seq<Link> {
    if rows == [] then []
    else InsertByTime(rows[|rows| - 1], NewestFirst(rows[..|rows| - 1]))
  }

  lemma {:induction false} InsertByTimeMembers(l: Link, s: seq<Link>)
    ensures multiset(InsertByTime(l, s)) == multiset(s) + multiset{l}
  {
    if s != [] && l.created_at < s[0].created_at {
      InsertByTimeMembers(l, s[1..]);
      assert s == [s[0]] + s[1..];
    }
  }

  lemma {:induction false} InsertByTimeSpec(l: Link, s: seq<Link>)
    requires NewestFirstOrder(s)
    ensures NewestFirstOrder(InsertByTime(l, s))
    ensures multiset(InsertByTime(l, s)) == multiset(s) + multiset{l}
  {
    InsertByTimeMembers(l, s);
    if s != [] && l.created_at < s[0].created_at {
      var tail := s[1..];
      InsertByTimeSpec(l, tail);
      var t := InsertByTime(l, tail);
      InsertByTimeMembers(l, tail);
      forall j | 0 <= j < |t| ensures s[0].created_at >= t[j].created_at {
        assert t[j] in multiset(t);
        if t[j] != l {
          assert t[j] in multiset(tail);
          var k :| 0 <= k < |tail| && tail[k] == t[j];
          assert s[k + 1] == t[j];
        }
      }
      assert InsertByTime(l, s) == [s[0]] + t;
    }
  }

  /** Listing returns every row exactly once, newest first. */
  lemma {:induction false} NewestFirstSpec(rows: seq<Link>)
    ensures NewestFirstOrder(NewestFirst(rows))
    ensures multiset(NewestFirst(rows)) == multiset(rows)
  {
    if rows != [] {
      var init := rows[..|rows| - 1];
      NewestFirstSpec(init);
      InsertByTimeSpec(rows[|rows| - 1], NewestFirst(init));
      assert rows == init + [rows[|rows| - 1]];
    }
  }

  /**
   * Two rows created at different times are listed in exactly one order:
   * the newer first.
   */
  lemma TwoRowsNewestFirst(s: seq<Link>, older: Link, newer: Link)
    requires NewestFirstOrder(s) && multiset(s) == multiset{older, newer}
    requires older.created_at < newer.created_at
    ensures s == [newer, older]
  {
    assert |s| == |multiset(s)| == 2;
    assert s[0] in multiset(s) && s[1] in multiset(s);
    assert older in multiset(s) && newer in multiset(s);
    assert older in s && newer in s;
  }

  /** The only failure the store reports: Prisma's `P2002`, a violated uniqueness constraint. */
  datatype StoreError = UniqueViolation

  /**
   * The `link` table as an in-memory store. `rows` is the table in insertion
   * order; `nextId` is the id the next created row receives.
   */
  class LinkStore {
    var rows: seq<Link>
    var nextId: nat

    ghost predicate Valid()
      reads this
    {
      WellFormed(rows, nextId)
    }

    constructor ()
      ensures Valid()
      ensures rows == [] && nextId == 1
    {
      rows := [];
      nextId := 1;
    }

    /** `findUnique({ where: { short_code: code } })`. */
    method FindUnique(code: string) returns (r: Option<Link>)
      ensures r == Lookup(rows, code)
    {
      var i := 0;
      while i < |rows|
        invariant 0 <= i <= |rows|
        invariant Lookup(rows[i..], code) == Lookup(rows, code)
      {
        if rows[i].short_code == code {
          return Some(rows[i]);
        }
        assert rows[i..][1..] == rows[i + 1..];
        i := i + 1;
      }
      return None;
    }

    /**
     * `create({ data: { original_url, short_code } })`: refused with
     * `UniqueViolation` when the code is already stored, otherwise appends
     * a new row with the next id.
     */
    method Create(url: string, code: string, now: Time) returns (res: Result<Link, StoreError>)
      requires Valid()
      modifies this
      ensures Valid()
      ensures HasCode(old(rows), code) ==>
        res == Err(UniqueViolation) && rows == old(rows) && nextId == old(nextId)
      ensures !HasCode(old(rows), code) ==>
        res == Ok(NewLink(old(nextId), url, code, now)) &&
        rows == old(rows) + [res.value] && nextId == old(nextId) + 1
    {
      var existing := FindUnique(code);
      if existing.Some? {
        return Err(UniqueViolation);
      }
      var link := NewLink(nextId, url, code, now);
      rows := rows + [link];
      nextId := nextId + 1;
      return Ok(link);
    }

    /** `update({ where: { id }, data: { clicks, last_clicked } })`. */
    method UpdateStats(id: nat, clicks: nat, last: Option<Time>)
      requires Valid()
      modifies this
      ensures Valid()
      ensures rows == SetStats(old(rows), id, clicks, last) && nextId == old(nextId)
    {
      var updated: seq<Link> := [];
      var i := 0;
      while i < |rows|
        invariant 0 <= i <= |rows|
        invariant |updated| == i
        invariant forall k :: 0 <= k < i ==> updated[k] == Touched(rows[k], id, clicks, last)
      {
        updated := updated + [Touched(rows[i], id, clicks, last)];
        i := i + 1;
      }
      SetStatsWellFormed(rows, id, clicks, last, nextId);
      rows := updated;
    }

    /** `deleteMany({ where: { short_code: code } })`, returning the count of rows removed. */
    method DeleteMany(code: string) returns (count: nat)
      requires Valid()
      modifies this
      ensures Valid()
      ensures rows == Without(old(rows), code) && nextId == old(nextId)
      ensures count == CountCode(old(rows), code)
    {
      var kept: seq<Link> := [];
      count := 0;
      var i := 0;
      while i < |rows|
        invariant 0 <= i <= |rows|
        invariant kept == Without(rows[..i], code)
        invariant count == CountCode(rows[..i], code)
      {
        assert rows[..i + 1][..i] == rows[..i];
        if rows[i].short_code == code {
          count := count + 1;
        } else {
          kept := kept + [rows[i]];
        }
        i := i + 1;
      }
      assert rows[..i] == rows;
      WithoutWellFormed(rows, code, nextId);
      rows := kept;
    }

    /** `findMany({ orderBy: { created_at: "desc" } })`. */
    method FindManyNewestFirst() returns (links: seq<Link>)
      ensures NewestFirstOrder(links)
      ensures multiset(links) == multiset(rows)
    {
      links := NewestFirst(rows);
      NewestFirstSpec(rows);
    }
  }
}
