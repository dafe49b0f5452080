/**
 * ECMAScript strings: sequences of UTF-16 code units, compared code unit by
 * code unit. This is the order `Array.prototype.sort` uses when it is given
 * no comparator, and the order `<` uses on two strings.
 */
module JsString {

  /** One UTF-16 code unit. */
  newtype CodeUnit = x: int | 0 <= x < 0x1_0000

  /** A JavaScript string value. */
  type JsStr = seq<CodeUnit>

  /** The UTF-16 encoding of one Unicode scalar value: one code unit, or a surrogate pair. */
  function EncodeChar(c: char): (u: JsStr)
    ensures 1 <= |u| <= 2
    ensures (c as int) < 0x1_0000 ==> u == [c as int as CodeUnit]
  {
    var v := c as int;
    if v < 0x1_0000 then [v as CodeUnit]
    else
      var w := v - 0x1_0000;
      [(0xD800 + w / 0x400) as CodeUnit, (0xDC00 + w % 0x400) as CodeUnit]
  }

  /** The JavaScript string that a Dafny string literal denotes. */
  function Utf16(s: string): (u: JsStr)
    ensures |s| <= |u| <= 2 * |s|
  {
    if s == [] then [] else EncodeChar(s[0]) + Utf16(s[1..])
  }

  /** A string of Basic Multilingual Plane characters encodes one code unit per character. */
  lemma {:induction false} Utf16OfBmp(s: string)
    requires forall i | 0 <= i < |s| :: (s[i] as int) < 0x1_0000
    ensures |Utf16(s)| == |s|
    ensures forall i | 0 <= i < |s| :: Utf16(s)[i] as int == s[i] as int
  {
    if s != [] {
      Utf16OfBmp(s[1..]);
    }
  }

  /** `u` holds, one code unit per character, the characters of a literal written without astral characters. */
  predicate Spells(u: JsStr, literal: string) {
    |u| == |literal| && forall i | 0 <= i < |u| :: u[i] as int == literal[i] as int
  }

  /** `s.endsWith(suffix)`: `s` is some string followed by `suffix`. */
  predicate EndsWith(s: JsStr, suffix: JsStr): (r: bool)
    ensures r <==> exists front :: front + suffix == s
  {
    if |suffix| <= |s| && s[|s| - |suffix|..] == suffix then
      assert s[..|s| - |suffix|] + suffix == s;
      true
    else
      false
  }

  lemma EndsWithAppend(p: JsStr, suffix: JsStr)
    ensures EndsWith(p + suffix, suffix)
  {
  }

  /**
   * `a < b` on two strings (IsLessThan): if `b` is a prefix of `a` it is
   * false, else if `a` is a prefix of `b` it is true, else the first code
   * unit where they differ decides.
   */
  predicate Less(a: JsStr, b: JsStr): (r: bool)
    ensures |a| < |b| && a == b[..|a|] ==> r
    ensures |b| <= |a| && b == a[..|b|] ==> !r
  {
    if b == [] then false
    else if a == [] then true
    else if a[0] != b[0] then a[0] < b[0]
    else Less(a[1..], b[1..])
  }

  /** Where neither string is a prefix of the other, the first differing code unit decides. */
  lemma {:induction false} LessAtFirstDifference(a: JsStr, b: JsStr, k: nat)
    requires k < |a| && k < |b| && a[..k] == b[..k] && a[k] != b[k]
    ensures Less(a, b) <==> a[k] < b[k]
  {
    if k > 0 {
      assert a[0] == a[..k][0] == b[..k][0] == b[0];
      assert a[1..][..k - 1] == a[..k][1..] && b[1..][..k - 1] == b[..k][1..];
      LessAtFirstDifference(a[1..], b[1..], k - 1);
    }
  }

  lemma LessIrreflexive(a: JsStr)
    ensures !Less(a, a)
  {
  }

  lemma {:induction false} LessTransitive(a: JsStr, b: JsStr, c: JsStr)
    requires Less(a, b) && Less(b, c)
    ensures Less(a, c)
  {
    if a != [] && a[0] == b[0] && b[0] == c[0] {
      LessTransitive(a[1..], b[1..], c[1..]);
    }
  }

  /** Two strings are equal or one is below the other. */
  lemma {:induction false} LessTotal(a: JsStr, b: JsStr)
    ensures a == b || Less(a, b) || Less(b, a)
  {
    if a != [] && b != [] && a[0] == b[0] {
      LessTotal(a[1..], b[1..]);
      if a[1..] == b[1..] {
        assert a == [a[0]] + a[1..] && b == [b[0]] + b[1..];
      }
    }
  }

  lemma LessAsymmetric(a: JsStr, b: JsStr)
    requires Less(a, b)
    ensures !Less(b, a)
  {
  }

  /** "Not above" is transitive: the relation a sorted array keeps between neighbours. */
  lemma NotLessTransitive(a: JsStr, b: JsStr, c: JsStr)
    requires !Less(b, a) && !Less(c, b)
    ensures !Less(c, a)
  {
  }

  /** A common prefix does not change the order of two strings. */
  lemma {:induction false} LessCommonPrefix(p: JsStr, a: JsStr, b: JsStr)
    ensures Less(p + a, p + b) == Less(a, b)
  {
    if p != [] {
      assert (p + a)[1..] == p[1..] + a;
      assert (p + b)[1..] == p[1..] + b;
      LessCommonPrefix(p[1..], a, b);
    } else {
      assert p + a == a && p + b == b;
    }
  }

  /** Below two strings of equal length, whatever follows does not change their order. */
  lemma {:induction false} LessUnderSuffixes(a: JsStr, b: JsStr, x: JsStr, y: JsStr)
    requires |a| == |b| && Less(a, b)
    ensures Less(a + x, b + y)
  {
    assert (a + x)[0] == a[0] && (b + y)[0] == b[0];
    if a[0] == b[0] {
      assert (a + x)[1..] == a[1..] + x && (b + y)[1..] == b[1..] + y;
      LessUnderSuffixes(a[1..], b[1..], x, y);
    }
  }
}
