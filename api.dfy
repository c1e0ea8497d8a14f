/**
 * The HTTP handlers of the short-link API, over an injected `LinkStore`:
 * create (`POST /api/links`), list (`GET /api/links`), stats
 * (`GET /api/links/:code`), delete (`DELETE /api/links/:code`) and redirect
 * (`GET /:code`). Each state-changing handler is proved to produce the
 * `Outcome` of a specification function on the table, and the properties
 * the service promises are lemmas about those functions.
 */
module Api {
  import opened Wrappers
  import opened ShortCodes
  import opened Urls
  import opened Links
  import opened Allocation

  const InvalidUrlError := "Invalid or missing original_url"
  const InvalidCustomCodeError := "custom_code must be 6-8 alphanumeric"
  const CodeExistsError := "code_exists"
  const InvalidCodeError := "invalid_code"
  const NotFoundError := "not_found"

  /** Path segments the redirect route hands on to the routes after it. */
  const ReservedSegments: seq<string> := ["api", "healthz", "code"]

  datatype Response =
    | CreatedLink(link: Link, shortUrl: string)  // 201, the created row and its short URL
    | LinkJson(link: Link)                      // 200, one row
    | LinkListJson(links: seq<Link>)            // 200, an array of rows
    | DeletedJson                               // 200, `{ ok: true }`
    | Redirect(location: string)                // 302
    | ErrorJson(status: nat, error: string)     // `{ error }` with the status given
    | NotFoundText                              // 404, plain text "Not found"
    | PassToNext                                // `next()`: no response from this route

  function Status(r: Response): nat
    requires !r.PassToNext?
  {
    match r
    case CreatedLink(_, _) => 201
    case LinkJson(_) => 200
    case LinkListJson(_) => 200
    case DeletedJson => 200
    case Redirect(_) => 302
    case ErrorJson(status, _) => status
    case NotFoundText => 404
  }

  /** JavaScript truthiness of an optional string field: present and not empty. */
  predicate Truthy(s: Option<string>) {
    s.Some? && s.value != ""
  }

  /** `original_url && isValidUrl(original_url)`. */
  predicate UrlAccepted(parse: UrlParser, originalUrl: Option<string>) {
    Truthy(originalUrl) && IsValidUrl(parse, originalUrl.value)
  }

  /** The response of a handler and the table it leaves behind. */
  datatype Outcome = Outcome(response: Response, rows: seq<Link>, nextId: nat)

  /** The code a create inserts once its input has passed the checks. */
  function ChosenCode(rows: seq<Link>, customCode: Option<string>, rand: RandomSource, fallback: seq<Base36Digit>): string {
    if Truthy(customCode) then customCode.value else AutoCode(rows, rand, fallback)
  }

  /** What `POST /api/links` does to a table `rows` whose next id is `nextId`. */
  function CreateSpec(rows: seq<Link>, nextId: nat, parse: UrlParser, originalUrl: Option<string>,
                      customCode: Option<string>, rand: RandomSource, fallback: seq<Base36Digit>,
                      origin: Origin, now: Time): Outcome
  {
    if !UrlAccepted(parse, originalUrl) then
      Outcome(ErrorJson(400, InvalidUrlError), rows, nextId)
    else if Truthy(customCode) && !CodeMatches(customCode.value) then
      Outcome(ErrorJson(400, InvalidCustomCodeError), rows, nextId)
    else if Truthy(customCode) && HasCode(rows, customCode.value) then
      Outcome(ErrorJson(409, CodeExistsError), rows, nextId)
    else
      var code := ChosenCode(rows, customCode, rand, fallback);
      if HasCode(rows, code) then
        Outcome(ErrorJson(409, CodeExistsError), rows, nextId)
      else
        var link := NewLink(nextId, originalUrl.value, code, now);
        Outcome(CreatedLink(link, ShortUrl(OriginBase(origin), code)), rows + [link], nextId + 1)
  }

  /** What `GET /:code` does. */
  function RedirectSpec(rows: seq<Link>, nextId: nat, code: string, now: Time): Outcome {
    if code in ReservedSegments then Outcome(PassToNext, rows, nextId)
    else if !CodeMatches(code) then Outcome(NotFoundText, rows, nextId)
    else
      match Lookup(rows, code)
      case None => Outcome(NotFoundText, rows, nextId)
      case Some(link) =>
        Outcome(Redirect(link.original_url), SetStats(rows, link.id, link.clicks + 1, Some(now)), nextId)
  }

  /** What `DELETE /api/links/:code` does. */
  function DeleteSpec(rows: seq<Link>, nextId: nat, code: string): Outcome {
    if !CodeMatches(code) then Outcome(ErrorJson(400, InvalidCodeError), rows, nextId)
    else if CountCode(rows, code) == 0 then Outcome(ErrorJson(404, NotFoundError), Without(rows, code), nextId)
    else Outcome(DeletedJson, Without(rows, code), nextId)
  }

  // ---------------------------------------------------------------------------
  // Handlers

  /** `POST /api/links` with body `{ original_url, custom_code }`. */
  method CreateLinkHandler(db: LinkStore, parse: UrlParser, originalUrl: Option<string>,
                           customCode: Option<string>, rand: RandomSource, fallback: seq<Base36Digit>,
                           origin: Origin, now: Time)
    returns (resp: Response)
    requires db.Valid()
    modifies db
    ensures db.Valid()
    ensures Outcome(resp, db.rows, db.nextId) ==
      CreateSpec(old(db.rows), old(db.nextId), parse, originalUrl, customCode, rand, fallback, origin, now)
  {
    if !Truthy(originalUrl) || !IsValidUrl(parse, originalUrl.value) {
      return ErrorJson(400, InvalidUrlError);
    }
    var shortCode := "";
    if Truthy(customCode) {
      if !CodeMatches(customCode.value) {
        return ErrorJson(400, InvalidCustomCodeError);
      }
      var existing := db.FindUnique(customCode.value);
      if existing.Some? {
        return ErrorJson(409, CodeExistsError);
      }
      shortCode := customCode.value;
    } else {
      ghost var lookups;
      shortCode, lookups := ProbeForCode(db, Candidates(rand), MakeShortCode(fallback, FallbackLength));
    }
    var created := db.Create(originalUrl.value, shortCode, now);
    match created
    case Err(UniqueViolation) =>
      return ErrorJson(409, CodeExistsError);
    case Ok(link) =>
      return CreatedLink(link, ShortUrl(OriginBase(origin), link.short_code));
  }

  /** `GET /api/links`. */
  method ListLinksHandler(db: LinkStore) returns (resp: Response)
    ensures resp.LinkListJson?
    ensures NewestFirstOrder(resp.links)
    ensures multiset(resp.links) == multiset(db.rows)
  {
    var links := db.FindManyNewestFirst();
    return LinkListJson(links);
  }

  /** `GET /api/links/:code`. */
  method GetLinkHandler(db: LinkStore, code: string) returns (resp: Response)
    ensures !CodeMatches(code) ==> resp == ErrorJson(400, InvalidCodeError)
    ensures CodeMatches(code) && !HasCode(db.rows, code) ==> resp == ErrorJson(404, NotFoundError)
    ensures CodeMatches(code) && HasCode(db.rows, code) ==>
      resp.LinkJson? && resp.link in db.rows && resp.link.short_code == code
  {
    if !CodeMatches(code) {
      return ErrorJson(400, InvalidCodeError);
    }
    var link := db.FindUnique(code);
    match link
    case None => return ErrorJson(404, NotFoundError);
    case Some(l) => return LinkJson(l);
  }

  /** `DELETE /api/links/:code`. */
  method DeleteLinkHandler(db: LinkStore, code: string) returns (resp: Response)
    requires db.Valid()
    modifies db
    ensures db.Valid()
    ensures Outcome(resp, db.rows, db.nextId) == DeleteSpec(old(db.rows), old(db.nextId), code)
  {
    if !CodeMatches(code) {
      return ErrorJson(400, InvalidCodeError);
    }
    var deleted := db.DeleteMany(code);
    if deleted == 0 {
      return ErrorJson(404, NotFoundError);
    }
    return DeletedJson;
  }

  /** `GET /:code`: counts a click and redirects. */
  method RedirectHandler(db: LinkStore, code: string, now: Time) returns (resp: Response)
    requires db.Valid()
    modifies db
    ensures db.Valid()
    ensures Outcome(resp, db.rows, db.nextId) == RedirectSpec(old(db.rows), old(db.nextId), code, now)
  {
    if code in ReservedSegments {
      return PassToNext;
    }
    if !CodeMatches(code) {
      return NotFoundText;
    }
    var link := db.FindUnique(code);
    match link
    case None => return NotFoundText;
    case Some(l) =>
      db.UpdateStats(l.id, l.clicks + 1, Some(now));
      return Redirect(l.original_url);
  }

  // ---------------------------------------------------------------------------
  // Create

  /**
   * A create answers 400 exactly when `original_url` is missing, empty or not
   * an http(s) URL, or a custom code is given that fails the code pattern;
   * the table is then left as it was.
   */
  lemma CreateBadRequest(rows: seq<Link>, nextId: nat, parse: UrlParser, originalUrl: Option<string>,
                         customCode: Option<string>, rand: RandomSource, fallback: seq<Base36Digit>,
                         origin: Origin, now: Time)
    ensures var o := CreateSpec(rows, nextId, parse, originalUrl, customCode, rand, fallback, origin, now);
      !o.response.PassToNext? &&
      (Status(o.response) == 400 <==>
        !UrlAccepted(parse, originalUrl) || (Truthy(customCode) && !CodeMatches(customCode.value))) &&
      (Status(o.response) == 400 ==> o.rows == rows && o.nextId == nextId)
  {
  }

  /**
   * A create answers only 201, 400 or 409; every answer but 201 leaves the
   * table as it was, and 201 appends exactly one row.
   */
  lemma CreateAddsOneRowOrNone(rows: seq<Link>, nextId: nat, parse: UrlParser, originalUrl: Option<string>,
                               customCode: Option<string>, rand: RandomSource, fallback: seq<Base36Digit>,
                               origin: Origin, now: Time)
    ensures var o := CreateSpec(rows, nextId, parse, originalUrl, customCode, rand, fallback, origin, now);
      !o.response.PassToNext? && Status(o.response) in {201, 400, 409} &&
      (Status(o.response) != 201 ==> o.rows == rows && o.nextId == nextId) &&
      (Status(o.response) == 201 ==>
        o.response.CreatedLink? && o.rows == rows + [o.response.link] && o.nextId == nextId + 1)
  {
  }

  /** A custom code that is already stored is refused with 409 `code_exists`. */
  lemma CreateTakenCustomCode(rows: seq<Link>, nextId: nat, parse: UrlParser, originalUrl: Option<string>,
                              customCode: Option<string>, rand: RandomSource, fallback: seq<Base36Digit>,
                              origin: Origin, now: Time)
    requires UrlAccepted(parse, originalUrl) && Truthy(customCode) && CodeMatches(customCode.value)
    ensures var o := CreateSpec(rows, nextId, parse, originalUrl, customCode, rand, fallback, origin, now);
      HasCode(rows, customCode.value) <==> o.response == ErrorJson(409, CodeExistsError)
    ensures var o := CreateSpec(rows, nextId, parse, originalUrl, customCode, rand, fallback, origin, now);
      HasCode(rows, customCode.value) ==> o.rows == rows && o.nextId == nextId
  {
  }

  /**
   * A successful create stores one new row that holds the given URL and the
   * chosen code with no clicks, answers with that row and its short URL, and
   * the code was not stored before: a valid custom code, or a generated
   * code that was free when probed (one of at most six), or else the
   * unchecked fallback.
   */
  lemma CreateSuccess(rows: seq<Link>, nextId: nat, parse: UrlParser, originalUrl: Option<string>,
                      customCode: Option<string>, rand: RandomSource, fallback: seq<Base36Digit>,
                      origin: Origin, now: Time)
    ensures var o := CreateSpec(rows, nextId, parse, originalUrl, customCode, rand, fallback, origin, now);
      o.response.CreatedLink? ==>
        var link := o.response.link;
        originalUrl.Some? && link == NewLink(nextId, originalUrl.value, link.short_code, now) &&
        o.rows == rows + [link] && !HasCode(rows, link.short_code) &&
        o.response.shortUrl == ShortUrl(OriginBase(origin), link.short_code) &&
        (if Truthy(customCode) then link.short_code == customCode.value && CodeMatches(link.short_code)
         else link.short_code == AutoCode(rows, rand, fallback))
  {
  }

  /**
   * A valid custom code that is not stored is always inserted: on a
   * sequential store the uniqueness constraint never refuses it.
   */
  lemma CreateFreeCustomCode(rows: seq<Link>, nextId: nat, parse: UrlParser, originalUrl: Option<string>,
                             customCode: Option<string>, rand: RandomSource, fallback: seq<Base36Digit>,
                             origin: Origin, now: Time)
    requires UrlAccepted(parse, originalUrl) && Truthy(customCode) && CodeMatches(customCode.value)
    requires !HasCode(rows, customCode.value)
    ensures var link := NewLink(nextId, originalUrl.value, customCode.value, now);
      CreateSpec(rows, nextId, parse, originalUrl, customCode, rand, fallback, origin, now) ==
      Outcome(CreatedLink(link, ShortUrl(OriginBase(origin), customCode.value)), rows + [link], nextId + 1)
  {
  }

  /**
   * With an accepted URL and no custom code, a create stores a generated code
   * unless all six probes collided and the fallback code is stored too: only
   * then does it answer 409.
   */
  lemma CreateGeneratedConflict(rows: seq<Link>, nextId: nat, parse: UrlParser, originalUrl: Option<string>,
                                customCode: Option<string>, rand: RandomSource, fallback: seq<Base36Digit>,
                                origin: Origin, now: Time)
    requires UrlAccepted(parse, originalUrl) && !Truthy(customCode)
    ensures var o := CreateSpec(rows, nextId, parse, originalUrl, customCode, rand, fallback, origin, now);
      o.response == ErrorJson(409, CodeExistsError) <==>
        (forall j :: 0 <= j < MaxTries ==> HasCode(rows, Candidate(rand, j))) &&
        HasCode(rows, MakeShortCode(fallback, FallbackLength))
  {
    AutoCodeProvenance(rows, rand, fallback);
  }

  /**
   * A 201's short URL is the `BASE_URL` setting when it is non-empty, else
   * the request's protocol `://` host, in both cases with at most one
   * trailing `/` removed, followed by `/` and the stored code.
   */
  lemma CreatedShortUrl(rows: seq<Link>, nextId: nat, parse: UrlParser, originalUrl: Option<string>,
                        customCode: Option<string>, rand: RandomSource, fallback: seq<Base36Digit>,
                        origin: Origin, now: Time)
    ensures var o := CreateSpec(rows, nextId, parse, originalUrl, customCode, rand, fallback, origin, now);
      o.response.CreatedLink? ==>
        var code := o.response.link.short_code;
        (origin.baseUrlSetting != "" ==>
          o.response.shortUrl == DropTrailingSlash(origin.baseUrlSetting) + "/" + code) &&
        (origin.baseUrlSetting == "" ==>
          o.response.shortUrl == DropTrailingSlash(origin.protocol + "://" + origin.host) + "/" + code)
  {
  }

  /** A create keeps the store's uniqueness of codes and ids. */
  lemma CreatePreservesWellFormed(rows: seq<Link>, nextId: nat, parse: UrlParser, originalUrl: Option<string>,
                                  customCode: Option<string>, rand: RandomSource, fallback: seq<Base36Digit>,
                                  origin: Origin, now: Time)
    requires WellFormed(rows, nextId)
    ensures var o := CreateSpec(rows, nextId, parse, originalUrl, customCode, rand, fallback, origin, now);
      WellFormed(o.rows, o.nextId)
  {
  }

  // ---------------------------------------------------------------------------
  // Redirect

  /**
   * A reserved segment is handed on, and a malformed or unknown code answers
   * 404; none of them changes the table.
   */
  lemma RedirectWithoutClick(rows: seq<Link>, nextId: nat, code: string, now: Time)
    ensures var o := RedirectSpec(rows, nextId, code, now);
      (code in ReservedSegments <==> o.response == PassToNext) &&
      (code !in ReservedSegments && (!CodeMatches(code) || !HasCode(rows, code)) <==> o.response == NotFoundText) &&
      (!o.response.Redirect? ==> o.rows == rows && o.nextId == nextId)
  {
  }

  /**
   * Redirecting a stored code answers 302 to its URL, and exactly that row's
   * `clicks` goes up by one and its `last_clicked` becomes `now`; every other
   * row, and every other field, stays as it was.
   */
  lemma RedirectCountsOneClick(rows: seq<Link>, nextId: nat, code: string, now: Time)
    requires WellFormed(rows, nextId)
    requires code !in ReservedSegments && CodeMatches(code) && HasCode(rows, code)
    ensures var o := RedirectSpec(rows, nextId, code, now);
      |o.rows| == |rows| && o.nextId == nextId &&
      (forall i :: 0 <= i < |rows| && rows[i].short_code == code ==>
         o.response == Redirect(rows[i].original_url) &&
         o.rows[i] == rows[i].(clicks := rows[i].clicks + 1, last_clicked := Some(now))) &&
      (forall i :: 0 <= i < |rows| && rows[i].short_code != code ==> o.rows[i] == rows[i])
  {
    var link := Lookup(rows, code).value;
    var k :| 0 <= k < |rows| && rows[k] == link;
    var r := SetStats(rows, link.id, link.clicks + 1, Some(now));
    forall i | 0 <= i < |rows|
      ensures rows[i].short_code == code <==> rows[i].id == link.id
    {
      if i != k {
        assert rows[i].short_code != rows[k].short_code;
        assert rows[i].id != rows[k].id;
      }
    }
  }

  /** A redirect never lowers a click count and keeps the table well formed. */
  lemma RedirectPreservesWellFormed(rows: seq<Link>, nextId: nat, code: string, now: Time)
    requires WellFormed(rows, nextId)
    ensures var o := RedirectSpec(rows, nextId, code, now);
      WellFormed(o.rows, o.nextId) && |o.rows| == |rows| &&
      forall i :: 0 <= i < |rows| ==>
        o.rows[i].clicks >= rows[i].clicks && o.rows[i].id == rows[i].id &&
        o.rows[i].short_code == rows[i].short_code && o.rows[i].original_url == rows[i].original_url &&
        o.rows[i].created_at == rows[i].created_at
  {
    match Lookup(rows, code)
    case None =>
    case Some(link) =>
      SetStatsWellFormed(rows, link.id, link.clicks + 1, Some(now), nextId);
      forall i | 0 <= i < |rows| && rows[i].id == link.id ensures rows[i] == link {
        var k :| 0 <= k < |rows| && rows[k] == link;
        if i != k { assert rows[i].id != rows[k].id; }
      }
  }

  /**
   * `healthz` matches the code pattern, so it can be created as a custom
   * code, yet the redirect route never looks it up.
   */
  lemma HealthzIsReservedYetWellFormed(rows: seq<Link>, nextId: nat, now: Time)
    ensures CodeMatches("healthz")
    ensures RedirectSpec(rows, nextId, "healthz", now) == Outcome(PassToNext, rows, nextId)
  {
    CodeMatchesIff("healthz");
  }

  // ---------------------------------------------------------------------------
  // Delete

  /**
   * Delete answers 400 for a malformed code; otherwise it removes every row
   * carrying the code, keeps every other row, and answers 404 exactly when
   * no row was removed. Under the uniqueness constraint it removes at most
   * one row.
   */
  lemma DeleteMeaning(rows: seq<Link>, nextId: nat, code: string)
    requires WellFormed(rows, nextId)
    ensures var o := DeleteSpec(rows, nextId, code);
      o.nextId == nextId && WellFormed(o.rows, o.nextId) &&
      (o.response == ErrorJson(400, InvalidCodeError) <==> !CodeMatches(code)) &&
      (o.response == ErrorJson(404, NotFoundError) <==> CodeMatches(code) && !HasCode(rows, code)) &&
      (o.response == DeletedJson <==> CodeMatches(code) && HasCode(rows, code)) &&
      (o.response != DeletedJson ==> o.rows == rows) &&
      (o.response == DeletedJson ==>
        |o.rows| == |rows| - 1 && !HasCode(o.rows, code) &&
        forall l :: l in rows && l.short_code != code ==> l in o.rows)
  {
    CountZeroIffAbsent(rows, code);
    UniqueCountAtMostOne(rows, code);
    WithoutWellFormed(rows, code, nextId);
    WithoutKeepsOthers(rows, code);
    if !HasCode(rows, code) {
      WithoutAbsent(rows, code);
    }
  }

  /** Deleting the same stored code twice answers `ok`, then 404. */
  lemma DeleteTwice(rows: seq<Link>, nextId: nat, code: string)
    requires CodeMatches(code) && HasCode(rows, code)
    ensures var first := DeleteSpec(rows, nextId, code);
      var second := DeleteSpec(first.rows, first.nextId, code);
      first.response == DeletedJson && second.response == ErrorJson(404, NotFoundError) &&
      second.rows == first.rows
  {
    var w := Without(rows, code);
    CountZeroIffAbsent(rows, code);
    CountZeroIffAbsent(w, code);
    WithoutAbsent(w, code);
  }

  // ---------------------------------------------------------------------------
  // Scenario

  /**
   * Creating two links with different free custom codes at increasing times
   * into an empty table, then listing: every listing that is newest first and
   * holds exactly the stored rows (the promise of `ListLinksHandler`) is the
   * later link, then the earlier one.
   */
  lemma ListingAfterTwoCreates(parse: UrlParser, urlA: string, urlB: string, codeA: string, codeB: string,
                               rand: RandomSource, fallback: seq<Base36Digit>, origin: Origin, t1: Time, t2: Time)
    requires UrlAccepted(parse, Some(urlA)) && UrlAccepted(parse, Some(urlB))
    requires CodeMatches(codeA) && CodeMatches(codeB) && codeA != codeB
    requires t1 < t2
    ensures var o1 := CreateSpec([], 1, parse, Some(urlA), Some(codeA), rand, fallback, origin, t1);
      var o2 := CreateSpec(o1.rows, o1.nextId, parse, Some(urlB), Some(codeB), rand, fallback, origin, t2);
      |o2.rows| == 2 && o2.rows[0].short_code == codeA && o2.rows[1].short_code == codeB &&
      forall s :: NewestFirstOrder(s) && multiset(s) == multiset(o2.rows) ==> s == [o2.rows[1], o2.rows[0]]
  {
    var a := NewLink(1, urlA, codeA, t1);
    var b := NewLink(2, urlB, codeB, t2);
    CreateFreeCustomCode([], 1, parse, Some(urlA), Some(codeA), rand, fallback, origin, t1);
    var o1 := CreateSpec([], 1, parse, Some(urlA), Some(codeA), rand, fallback, origin, t1);
    assert [] + [a] == [a];
    assert o1.rows == [a] && o1.nextId == 2;
    assert !HasCode([a], codeB);
    CreateFreeCustomCode([a], 2, parse, Some(urlB), Some(codeB), rand, fallback, origin, t2);
    var o2 := CreateSpec(o1.rows, o1.nextId, parse, Some(urlB), Some(codeB), rand, fallback, origin, t2);
    assert o2.rows == [a, b];
    assert multiset([a, b]) == multiset{a, b};
    forall s | NewestFirstOrder(s) && multiset(s) == multiset(o2.rows)
      ensures s == [b, a]
    {
      TwoRowsNewestFirst(s, a, b);
    }
  }
}
