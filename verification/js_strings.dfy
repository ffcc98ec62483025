/**
 * JavaScript strings as the post list compares them: sequences of UTF-16 code
 * units, ordered by the relational operators `<` and `>` (the IsLessThan
 * abstract operation of ECMA-262, section 7.2.13, for two String operands),
 * and lower-cased by `String.prototype.toLowerCase`, here restricted to ASCII.
 */
module JsStrings {

  /** One UTF-16 code unit. */
  type CodeUnit = c: int | 0 <= c < 0x1_0000

  /** A JavaScript string value. */
  type JsString = seq<CodeUnit>

  /**
   * The length of the longest common prefix of `a` and `b`: the smallest
   * index at which they differ, or the length of the shorter one.
   */
  function CommonPrefixLength(a: JsString, b: JsString): (k: nat)
    ensures k <= |a| && k <= |b|
    ensures a[..k] == b[..k]
    ensures k < |a| && k < |b| ==> a[k] != b[k]
  {
    if a == [] || b == [] || a[0] != b[0] then 0
    else
      var k' := CommonPrefixLength(a[1..], b[1..]);
      assert a[..k' + 1] == [a[0]] + a[1..][..k'] && b[..k' + 1] == [b[0]] + b[1..][..k'];
      k' + 1
  }

  /**
   * `a < b` on two strings: the first differing code unit decides; when one
   * string is a proper prefix of the other, the shorter one is smaller.
   * `a > b` is `IsLessThan(b, a)`.
   */
  predicate IsLessThan(a: JsString, b: JsString): (r: bool)
    ensures r ==> b != []
    ensures r && a != [] ==> a[0] <= b[0]
  {
    if a == [] then b != []
    else if b == [] then false
    else if a[0] < b[0] then true
    else if a[0] > b[0] then false
    else IsLessThan(a[1..], b[1..])
  }

  /**
   * The recursive walk is the definition in section 7.2.13 of ECMA-262: with
   * `k` the first index at which the strings differ, `a < b` when both have a
   * code unit at `k` and `a`'s is smaller, or when they do not differ before
   * `a` ends and `a` is a proper prefix of `b`.
   */
  lemma {:induction false} IsLessThanIsFirstDifference(a: JsString, b: JsString)
    ensures var k := CommonPrefixLength(a, b);
      IsLessThan(a, b) <==> if k < |a| && k < |b| then a[k] < b[k] else |a| < |b|
  {
    if a != [] && b != [] && a[0] == b[0] {
      IsLessThanIsFirstDifference(a[1..], b[1..]);
    }
  }

  lemma {:induction false} IsLessThanIrreflexive(a: JsString)
    ensures !IsLessThan(a, a)
  {
    if a != [] {
      IsLessThanIrreflexive(a[1..]);
    }
  }

  lemma {:induction false} IsLessThanAsymmetric(a: JsString, b: JsString)
    requires IsLessThan(a, b)
    ensures !IsLessThan(b, a)
  {
    if a != [] && b != [] && a[0] == b[0] {
      IsLessThanAsymmetric(a[1..], b[1..]);
    }
  }

  lemma {:induction false} IsLessThanTransitive(a: JsString, b: JsString, c: JsString)
    requires IsLessThan(a, b) && IsLessThan(b, c)
    ensures IsLessThan(a, c)
  {
    if a != [] && b != [] && c != [] && a[0] == b[0] && b[0] == c[0] {
      IsLessThanTransitive(a[1..], b[1..], c[1..]);
    }
  }

  /** Two different strings are always ordered one way or the other. */
  lemma {:induction false} IsLessThanTrichotomy(a: JsString, b: JsString)
    ensures a == b || IsLessThan(a, b) || IsLessThan(b, a)
  {
    if a != [] && b != [] && a[0] == b[0] {
      IsLessThanTrichotomy(a[1..], b[1..]);
      if a[1..] == b[1..] {
        assert a == [a[0]] + a[1..] && b == [b[0]] + b[1..];
      }
    }
  }

  /** A string written in the model's own source text, one code unit per character. */
  function FromLiteral(s: string): JsString
    requires forall i :: 0 <= i < |s| ==> s[i] as int < 0x1_0000
  {
    seq(|s|, i requires 0 <= i < |s| => s[i] as int)
  }

  predicate IsAsciiUpper(c: CodeUnit)
  {
    'A' as int <= c <= 'Z' as int
  }

  /** Distance between an ASCII capital letter and its small counterpart. */
  const CaseOffset: int := 'a' as int - 'A' as int

  function LowerUnit(c: CodeUnit): CodeUnit
  {
    if IsAsciiUpper(c) then c + CaseOffset else c
  }

  /**
   * `s.toLowerCase()` for the ASCII letters: every `A`..`Z` becomes its
   * `a`..`z` counterpart and every other code unit is kept, so the length is
   * kept and no capital is left.
   */
  function ToLowerCase(s: JsString): (r: JsString)
    ensures |r| == |s|
    ensures forall i :: 0 <= i < |r| ==> !IsAsciiUpper(r[i])
    ensures forall i :: 0 <= i < |s| && !IsAsciiUpper(s[i]) ==> r[i] == s[i]
    ensures forall i :: 0 <= i < |s| && IsAsciiUpper(s[i]) ==> r[i] as int == s[i] as int + CaseOffset
  {
    seq(|s|, i requires 0 <= i < |s| => LowerUnit(s[i]))
  }

  /** Lower-casing twice is lower-casing once. */
  lemma ToLowerCaseIdempotent(s: JsString)
    ensures ToLowerCase(ToLowerCase(s)) == ToLowerCase(s)
  {
  }
}
