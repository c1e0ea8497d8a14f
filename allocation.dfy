/**
 * Automatic code allocation for a create without a custom code: up to six
 * probes of the store with random candidates of 6 to 8 characters, then one
 * unchecked 8-character fallback.
 */
module Allocation {
  import opened Wrappers
  import opened ShortCodes
  import opened Links

  /** Probes made before falling back. */
  const MaxTries: nat := 6
  /** Length asked of the fallback code. */
  const FallbackLength: nat := 8

  /** `Math.floor(Math.random() * 3)`. */
  type LengthPick = k: nat | k < 3

  /**
   * The random input of one probe: the length pick, then the base-36 digits
   * of the `Math.random()` value that `makeShortCode` turns into a code.
   */
  datatype Draw = Draw(lengthPick: LengthPick, digits: seq<Base36Digit>)

  /** The draw of each probe, by probe number. */
  type RandomSource = nat -> Draw

  /** `makeShortCode(6 + Math.floor(Math.random() * 3))` at probe `i`. */
  function Candidate(rand: RandomSource, i: nat): string {
    MakeShortCode(rand(i).digits, MinCodeLength + rand(i).lengthPick)
  }

  /** A candidate is never empty: it has at least the leading `0`. */
  lemma CandidateNotEmpty(rand: RandomSource, i: nat)
    ensures Candidate(rand, i) != ""
  {
    MakeShortCodeShape(rand(i).digits, MinCodeLength + rand(i).lengthPick);
  }

  /** The candidates of all probes, by probe number. */
  function Candidates(rand: RandomSource): nat -> string {
    (i: nat) => Candidate(rand, i)
  }

  /** The first probe from `i` on whose candidate is not stored, if any. */
  function FirstFreeFrom(rows: seq<Link>, cands: nat -> string, i: nat): Option<nat>
    decreases MaxTries - i
  {
    if i >= MaxTries then None
    else if Lookup(rows, cands(i)).None? then Some(i)
    else FirstFreeFrom(rows, cands, i + 1)
  }

  /**
   * The code the probe loop leaves behind for candidates `cands`: the first
   * free candidate, unless there is none or it is the empty string, which
   * `if (!short_code)` takes for "nothing adopted"; then the fallback.
   */
  function ProbeOutcome(rows: seq<Link>, cands: nat -> string, fallbackCode: string): string {
    match FirstFreeFrom(rows, cands, 0)
    case Some(i) => if cands(i) != "" then cands(i) else fallbackCode
    case None => fallbackCode
  }

  /** The code adopted when no custom code is given. */
  function AutoCode(rows: seq<Link>, rand: RandomSource, fallback: seq<Base36Digit>): string {
    ProbeOutcome(rows, Candidates(rand), MakeShortCode(fallback, FallbackLength))
  }

  lemma {:induction false} FirstFreeFromSpec(rows: seq<Link>, cands: nat -> string, k: nat)
    ensures match FirstFreeFrom(rows, cands, k)
      case Some(i) =>
        k <= i < MaxTries && !HasCode(rows, cands(i)) &&
        forall j :: k <= j < i ==> HasCode(rows, cands(j))
      case None =>
        forall j :: k <= j < MaxTries ==> HasCode(rows, cands(j))
    decreases MaxTries - k
  {
    if k < MaxTries && HasCode(rows, cands(k)) {
      FirstFreeFromSpec(rows, cands, k + 1);
    }
  }

  /**
   * An adopted candidate comes from one of the six probes, was absent from
   * the store, and every earlier probe collided; the fallback is adopted
   * only after all six collided, and without a check of its own.
   */
  lemma AutoCodeProvenance(rows: seq<Link>, rand: RandomSource, fallback: seq<Base36Digit>)
    ensures var code := AutoCode(rows, rand, fallback);
      (exists i :: 0 <= i < MaxTries && code == Candidate(rand, i) && !HasCode(rows, Candidate(rand, i)) &&
        forall j :: 0 <= j < i ==> HasCode(rows, Candidate(rand, j)))
      || (code == MakeShortCode(fallback, FallbackLength) &&
          forall j :: 0 <= j < MaxTries ==> HasCode(rows, Candidate(rand, j)))
  {
    var cands := Candidates(rand);
    FirstFreeFromSpec(rows, cands, 0);
    match FirstFreeFrom(rows, cands, 0)
    case Some(i) =>
      CandidateNotEmpty(rand, i);
      assert forall j :: 0 <= j < i ==> cands(j) == Candidate(rand, j);
    case None =>
      assert forall j :: 0 <= j < MaxTries ==> cands(j) == Candidate(rand, j);
  }

  /**
   * Every generated code starts with `0` and has only lower-case letters and
   * digits; it has 1 to 8 characters, so it need not match the code pattern.
   */
  lemma AutoCodeShape(rows: seq<Link>, rand: RandomSource, fallback: seq<Base36Digit>)
    ensures var code := AutoCode(rows, rand, fallback);
      1 <= |code| <= MaxCodeLength && code[0] == '0' &&
      forall i :: 0 <= i < |code| ==> IsLowerAlnum(code[i])
  {
    match FirstFreeFrom(rows, Candidates(rand), 0)
    case Some(i) =>
      CandidateNotEmpty(rand, i);
      MakeShortCodeShape(rand(i).digits, MinCodeLength + rand(i).lengthPick);
    case None =>
      MakeShortCodeShape(fallback, FallbackLength);
  }

  /**
   * The probe loop `while (tries < 6)`, one store lookup per try, followed
   * by `if (!short_code)`: `cands(i)` is the candidate of try `i` and
   * `fallbackCode` the fallback. `lookups` counts the lookups made.
   */
  method ProbeForCode(db: LinkStore, cands: nat -> string, fallbackCode: string)
    returns (code: string, ghost lookups: nat)
    ensures code == ProbeOutcome(db.rows, cands, fallbackCode)
    ensures lookups == match FirstFreeFrom(db.rows, cands, 0)
                       case Some(i) => i + 1
                       case None => MaxTries
    ensures lookups <= MaxTries
  {
    code := "";
    lookups := 0;
    var tries := 0;
    while tries < MaxTries
      invariant 0 <= tries <= MaxTries
      invariant lookups == tries
      invariant code == ""
      invariant FirstFreeFrom(db.rows, cands, 0) == FirstFreeFrom(db.rows, cands, tries)
    {
      var candidate := cands(tries);
      var existing := db.FindUnique(candidate);
      lookups := lookups + 1;
      if existing.None? {
        code := candidate;
        break;
      }
      tries := tries + 1;
    }
    if code == "" {
      code := fallbackCode;
    }
  }
}
