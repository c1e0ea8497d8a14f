/**
 * Short codes: the pattern every code arriving from a client must match
 * (`CODE_REGEX`, `^[A-Za-z0-9]{6,8}$`) and the random code generator
 * `makeShortCode`, which derives a code from `Math.random().toString(36)`.
 */
module ShortCodes {

  const MinCodeLength: nat := 6
  const MaxCodeLength: nat := 8

  function Min(a: int, b: int): int {
    if a <= b then a else b
  }

  /** The character class `[A-Za-z0-9]`. */
  predicate IsAlnum(c: char) {
    ('A' <= c <= 'Z') || ('a' <= c <= 'z') || ('0' <= c <= '9')
  }

  /** The characters `Number.prototype.toString(36)` writes as digits. */
  predicate IsLowerAlnum(c: char) {
    ('a' <= c <= 'z') || ('0' <= c <= '9')
  }

  predicate AllAlnum(s: string) {
    forall i :: 0 <= i < |s| ==> IsAlnum(s[i])
  }

  /**
   * Runs the anchored pattern `^[A-Za-z0-9]{6,8}$` over the rest `s` of the
   * input, `n` characters of the class having been consumed already.
   */
  function MatchCode(s: string, n: nat): bool
    decreases |s|
  {
    if s == [] then MinCodeLength <= n
    else if n < MaxCodeLength && IsAlnum(s[0]) then MatchCode(s[1..], n + 1)
    else false
  }

  /** `CODE_REGEX.test(code)`. */
  function CodeMatches(code: string): bool {
    MatchCode(code, 0)
  }

  lemma {:induction false} MatchCodeMeaning(s: string, n: nat)
    requires n <= MaxCodeLength
    ensures MatchCode(s, n) <==> MinCodeLength <= n + |s| <= MaxCodeLength && AllAlnum(s)
    decreases |s|
  {
    if s != [] && n < MaxCodeLength && IsAlnum(s[0]) {
      MatchCodeMeaning(s[1..], n + 1);
      assert AllAlnum(s) <==> AllAlnum(s[1..]) by {
        if AllAlnum(s[1..]) {
          forall i | 0 <= i < |s| ensures IsAlnum(s[i]) {
            if i > 0 { assert s[i] == s[1..][i - 1]; }
          }
        }
      }
    }
  }

  /** The pattern accepts exactly the strings of 6 to 8 characters of `[A-Za-z0-9]`. */
  lemma CodeMatchesIff(code: string)
    ensures CodeMatches(code) <==> MinCodeLength <= |code| <= MaxCodeLength && AllAlnum(code)
  {
    MatchCodeMeaning(code, 0);
  }

  /** A base-36 digit, 0 to 35. */
  type Base36Digit = d: nat | d < 36

  /** The character `toString(36)` writes for one digit: `0`-`9`, then `a`-`z`. */
  function Digit36(d: Base36Digit): (c: char)
    ensures IsLowerAlnum(c)
  {
    if d < 10 then (('0' as int) + d) as char else (('a' as int) + d - 10) as char
  }

  function DigitChars(ds: seq<Base36Digit>): (s: string)
    ensures |s| == |ds|
    ensures forall i :: 0 <= i < |ds| ==> s[i] == Digit36(ds[i])
  {
    if ds == [] then "" else [Digit36(ds[0])] + DigitChars(ds[1..])
  }

  /**
   * `x.toString(36)` for the value `x` in [0, 1) that `Math.random()`
   * returned, given by the base-36 digits `ds` of its fraction: `"0"` when
   * there are none, otherwise `"0."` followed by them.
   */
  function FractionToString36(ds: seq<Base36Digit>): string {
    if ds == [] then "0" else "0." + DigitChars(ds)
  }

  /** `s.replace(/[^a-z0-9]/gi, "")`: drops every character outside `[A-Za-z0-9]`. */
  function StripNonAlnum(s: string): (r: string)
    ensures AllAlnum(r)
    ensures |r| <= |s|
  {
    if s == [] then ""
    else (if IsAlnum(s[0]) then [s[0]] else []) + StripNonAlnum(s[1..])
  }

  lemma {:induction false} StripKeepsAlnum(s: string)
    requires AllAlnum(s)
    ensures StripNonAlnum(s) == s
  {
    if s != [] {
      assert IsAlnum(s[0]);
      assert AllAlnum(s[1..]) by {
        forall i | 0 <= i < |s[1..]| ensures IsAlnum(s[1..][i]) {
          assert s[1..][i] == s[i + 1];
        }
      }
      StripKeepsAlnum(s[1..]);
    }
  }

  /** `s.slice(0, len)`: the first `len` characters, or all of `s` if it is shorter. */
  function Prefix(s: string, len: nat): (r: string)
    ensures |r| == Min(len, |s|)
    ensures r == s[..|r|]
  {
    if len <= |s| then s[..len] else s
  }

  /**
   * `makeShortCode(len)`, with the digits that `Math.random()` produced
   * passed in as `ds`.
   */
  function MakeShortCode(ds: seq<Base36Digit>, len: nat): string {
    Prefix(StripNonAlnum(FractionToString36(ds)), len)
  }

  /** Stripping `"0." + digits` leaves the leading `0` and the digits. */
  lemma StrippedFraction(ds: seq<Base36Digit>)
    ensures StripNonAlnum(FractionToString36(ds)) == "0" + DigitChars(ds)
  {
    var d := DigitChars(ds);
    assert AllAlnum(d);
    StripKeepsAlnum(d);
    if ds != [] {
      var s := "0." + d;
      assert s[1..][1..] == d;
      assert StripNonAlnum(s) == "0" + StripNonAlnum(s[1..]);
      assert StripNonAlnum(s[1..]) == StripNonAlnum(d);
    }
  }

  /**
   * A generated code is the `"0"` left over from the `"0."` prefix followed
   * by the random digits, lower-case letters and digits only, cut to at most
   * `len` characters: it is shorter than `len` when the random value has
   * fewer than `len - 1` base-36 digits.
   */
  lemma MakeShortCodeShape(ds: seq<Base36Digit>, len: nat)
    ensures |MakeShortCode(ds, len)| == Min(len, |ds| + 1)
    ensures len > 0 ==> MakeShortCode(ds, len)[0] == '0'
    ensures forall i :: 1 <= i < |MakeShortCode(ds, len)| ==> MakeShortCode(ds, len)[i] == Digit36(ds[i - 1])
    ensures forall i :: 0 <= i < |MakeShortCode(ds, len)| ==> IsLowerAlnum(MakeShortCode(ds, len)[i])
  {
    StrippedFraction(ds);
    var full := "0" + DigitChars(ds);
    var r := MakeShortCode(ds, len);
    assert r == full[..|r|];
    forall i | 0 <= i < |r| ensures IsLowerAlnum(r[i]) && (i >= 1 ==> r[i] == Digit36(ds[i - 1])) {
      assert r[i] == full[i];
      if i >= 1 { assert full[i] == DigitChars(ds)[i - 1]; }
    }
  }

  /**
   * A code generated for a length of 6 to 8 matches the code pattern exactly
   * when the random value supplied at least 5 base-36 digits.
   */
  lemma GeneratedCodeMatchesIff(ds: seq<Base36Digit>, len: nat)
    requires MinCodeLength <= len <= MaxCodeLength
    ensures CodeMatches(MakeShortCode(ds, len)) <==> |ds| >= MinCodeLength - 1
  {
    var r := MakeShortCode(ds, len);
    MakeShortCodeShape(ds, len);
    CodeMatchesIff(r);
    assert AllAlnum(r) by {
      forall i | 0 <= i < |r| ensures IsAlnum(r[i]) {
        assert IsLowerAlnum(r[i]);
      }
    }
  }

  /** Concretely: a random value of one base-36 digit (`0.i`, that is 0.5) yields the code `"0i"`. */
  lemma ShortRandomGivesMalformedCode()
    ensures MakeShortCode([18], 6) == "0i"
    ensures !CodeMatches(MakeShortCode([18], 6))
  {
    MakeShortCodeShape([18], 6);
    GeneratedCodeMatchesIff([18], 6);
    assert Digit36(18) == 'i';
  }
}
