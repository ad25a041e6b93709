/**
 * JavaScript strings as the extension sees them: sequences of UTF-16 code units
 * (`length`, `substring` and `slice` all count code units), together with the
 * few string operations the core uses.
 */
module JsStrings {

  /** One UTF-16 code unit. */
  newtype CodeUnit = x: int | 0 <= x < 0x1_0000

  /** A JavaScript string value. */
  type JsString = seq<CodeUnit>

  // ---------------------------------------------------------------------------
  // Literals
  // ---------------------------------------------------------------------------

  /**
   * The code unit of a character of a string literal. Every literal of the
   * source lies in the Basic Multilingual Plane, where a character is exactly
   * one UTF-16 code unit; anything else would become U+FFFD here.
   */
  function UnitOf(c: char): CodeUnit {
    if (c as int) < 0x1_0000 then c as int as CodeUnit else 0xFFFD
  }

  /** The code units of a string literal of the source. */
  function Js(s: string): (r: JsString)
    ensures |r| == |s|
    ensures forall i | 0 <= i < |s| :: r[i] == UnitOf(s[i])
  {
    seq(|s|, i requires 0 <= i < |s| => UnitOf(s[i]))
  }

  // ---------------------------------------------------------------------------
  // Surrogates and well-formedness
  // ---------------------------------------------------------------------------

  predicate IsHighSurrogate(u: CodeUnit) { 0xD800 <= u <= 0xDBFF }

  predicate IsLowSurrogate(u: CodeUnit) { 0xDC00 <= u <= 0xDFFF }

  /**
   * No lone surrogate: every high surrogate is followed by a low one and every
   * low surrogate follows a high one. These are exactly the strings on which
   * `encodeURIComponent` does not throw a URIError (the Encode operation of
   * ECMA-262, section 19.2.6, URI handling functions).
   */
  predicate WellFormed(s: JsString) {
    forall i | 0 <= i < |s| :: PairedAt(s, i)
  }

  /** The unit at `i` is not a surrogate, or is one half of a surrogate pair. */
  predicate PairedAt(s: JsString, i: int)
    requires 0 <= i < |s|
  {
    && (IsHighSurrogate(s[i]) ==> i + 1 < |s| && IsLowSurrogate(s[i + 1]))
    && (IsLowSurrogate(s[i]) ==> 0 < i && IsHighSurrogate(s[i - 1]))
  }

  lemma WellFormedConcat(a: JsString, b: JsString)
    requires WellFormed(a) && WellFormed(b)
    ensures WellFormed(a + b)
  {
    var s := a + b;
    forall i | 0 <= i < |s|
      ensures PairedAt(s, i)
    {
      if i < |a| {
        assert s[i] == a[i];
        assert PairedAt(a, i);
        if i + 1 < |a| { assert s[i + 1] == a[i + 1]; }
        if 0 < i { assert s[i - 1] == a[i - 1]; }
      } else {
        var k := i - |a|;
        assert s[i] == b[k];
        assert PairedAt(b, k);
        if k + 1 < |b| { assert s[i + 1] == b[k + 1]; }
        if 0 < k { assert s[i - 1] == b[k - 1]; }
      }
    }
  }

  /** Cutting a well-formed string anywhere but just after a high surrogate keeps it well-formed. */
  lemma WellFormedPrefix(s: JsString, k: nat)
    requires WellFormed(s) && k <= |s|
    requires k == 0 || !IsHighSurrogate(s[k - 1])
    ensures WellFormed(s[..k])
  {
    var p := s[..k];
    forall i | 0 <= i < |p|
      ensures PairedAt(p, i)
    {
      assert p[i] == s[i];
      assert PairedAt(s, i);
      if 0 < i { assert p[i - 1] == s[i - 1]; }
      if i + 1 < k { assert p[i + 1] == s[i + 1]; }
    }
  }

  /** Dropping a well-formed string's prefix anywhere but just before a low surrogate keeps it well-formed. */
  lemma WellFormedSuffix(s: JsString, k: nat)
    requires WellFormed(s) && k <= |s|
    requires k == |s| || !IsLowSurrogate(s[k])
    ensures WellFormed(s[k..])
  {
    var q := s[k..];
    forall i | 0 <= i < |q|
      ensures PairedAt(q, i)
    {
      assert q[i] == s[k + i];
      assert PairedAt(s, k + i);
      if 0 < i { assert q[i - 1] == s[k + i - 1]; }
      if i + 1 < |q| { assert q[i + 1] == s[k + i + 1]; }
    }
  }

  /** Dropping a leading surrogate pair keeps a string well-formed. */
  lemma WellFormedAfterPair(s: JsString)
    requires WellFormed(s) && s != [] && IsHighSurrogate(s[0])
    ensures |s| >= 2 && IsLowSurrogate(s[1]) && WellFormed(s[2..])
  {
    assert PairedAt(s, 0);
    if 2 < |s| { assert PairedAt(s, 2); }
    WellFormedSuffix(s, 2);
  }

  /** The middle of a well-formed string is well-formed when its neighbours cannot pair with its ends. */
  lemma WellFormedInfix(head: JsString, mid: JsString, tail: JsString)
    requires WellFormed(head + mid + tail)
    requires head == [] || !IsHighSurrogate(head[|head| - 1])
    requires tail == [] || !IsLowSurrogate(tail[0])
    ensures WellFormed(mid)
  {
    var s := head + mid + tail;
    var n := |head|;
    if n < |s| { assert PairedAt(s, n); }
    WellFormedSuffix(s, n);
    var q := s[n..];
    assert q == mid + tail;
    if 0 < |mid| {
      assert PairedAt(q, |mid| - 1);
      if |mid| < |q| { assert q[|mid|] == tail[0]; }
    }
    WellFormedPrefix(q, |mid|);
    assert q[..|mid|] == mid;
  }

  /** A literal holds no surrogate at all. */
  lemma LiteralWellFormed(s: string)
    ensures WellFormed(Js(s))
  {
    var r := Js(s);
    forall i | 0 <= i < |r| ensures PairedAt(r, i) {
      assert !IsHighSurrogate(r[i]) && !IsLowSurrogate(r[i]);
    }
  }

  // ---------------------------------------------------------------------------
  // Searching and case mapping
  // ---------------------------------------------------------------------------

  /** `s.includes(sub)`: `sub` occurs in `s` starting at some index. */
  predicate Contains(s: JsString, sub: JsString) {
    exists i | 0 <= i <= |s| - |sub| :: OccursAt(s, sub, i)
  }

  predicate OccursAt(s: JsString, sub: JsString, i: int)
    requires 0 <= i <= |s| - |sub|
  {
    s[i..i + |sub|] == sub
  }

  /** An occurrence of an occurrence is an occurrence. */
  lemma ContainsTransitive(s: JsString, t: JsString, u: JsString)
    requires Contains(s, t) && Contains(t, u)
    ensures Contains(s, u)
  {
    var i :| 0 <= i <= |s| - |t| && OccursAt(s, t, i);
    var j :| 0 <= j <= |t| - |u| && OccursAt(t, u, j);
    assert t == s[i..i + |t|];
    forall k | 0 <= k < |u| ensures s[i + j + k] == u[k] {
      assert u[k] == t[j + k] == s[i + j + k];
    }
    assert s[i + j..i + j + |u|] == u;
    assert OccursAt(s, u, i + j);
  }

  /** `String.prototype.toLowerCase` on one code unit, for the Basic Latin letters. */
  function LowerUnit(u: CodeUnit): (r: CodeUnit)
    ensures 0x41 <= u <= 0x5A ==> r == u + 0x20
    ensures !(0x41 <= u <= 0x5A) ==> r == u
  {
    if 0x41 <= u <= 0x5A then u + 0x20 else u
  }

  /** `s.toLowerCase()`, mapping Basic Latin capitals and keeping every other code unit. */
  function ToLowerCase(s: JsString): (r: JsString)
    ensures |r| == |s|
    ensures forall i | 0 <= i < |s| :: r[i] == LowerUnit(s[i])
  {
    seq(|s|, i requires 0 <= i < |s| => LowerUnit(s[i]))
  }

  // ---------------------------------------------------------------------------
  // Building strings
  // ---------------------------------------------------------------------------

  /** `text.substring(0, max) + marker` when `text.length > max`, else `text`. */
  function Truncate(text: JsString, max: nat, marker: JsString): (r: JsString)
    ensures |text| <= max ==> r == text
    ensures |text| > max ==> r == text[..max] + marker
    ensures |r| <= max + |marker|
    ensures text[..Min(|text|, max)] <= r
  {
    if |text| > max then text[..max] + marker else text
  }

  function Min(a: int, b: int): int { if a < b then a else b }

  /**
   * Truncating twice at the same ceiling: the first marker makes the text
   * longer than the ceiling, so the second cut happens at the same place and
   * only the second marker survives.
   */
  lemma TruncateTwice(text: JsString, max: nat, first: JsString, second: JsString)
    requires first != []
    ensures Truncate(Truncate(text, max, first), max, second) == Truncate(text, max, second)
  {
    if |text| > max {
      var once := text[..max] + first;
      assert |once| > max;
      assert once[..max] == text[..max];
    }
  }

  predicate IsDigit(u: CodeUnit) { 0x30 <= u <= 0x39 }

  /** The decimal numeral of `n`, as a template literal `${n}` produces it. */
  function Decimal(n: nat): (r: JsString)
    ensures r != [] && forall i | 0 <= i < |r| :: IsDigit(r[i])
    ensures n < 10 <==> |r| == 1
    ensures r[0] == 0x30 <==> n == 0
  {
    if n < 10 then [(0x30 + n) as CodeUnit]
    else Decimal(n / 10) + [(0x30 + n % 10) as CodeUnit]
  }

  /** The number a decimal numeral denotes. */
  function DigitsValue(s: JsString): nat
    requires forall i | 0 <= i < |s| :: IsDigit(s[i])
  {
    if s == [] then 0
    else
      assert IsDigit(s[|s| - 1]);
      DigitsValue(s[..|s| - 1]) * 10 + (s[|s| - 1] as int - 0x30)
  }

  lemma {:induction false} DecimalValue(n: nat)
    ensures DigitsValue(Decimal(n)) == n
  {
    if n >= 10 {
      var d := Decimal(n);
      assert d[..|d| - 1] == Decimal(n / 10);
      DecimalValue(n / 10);
    }
  }

  /**
   * `s.replace(/pat/g, rep)` for a pattern without regular-expression
   * metacharacters: scans left to right and replaces each non-overlapping
   * occurrence, never rescanning inserted text.
   */
  function ReplaceAll(s: JsString, pat: JsString, rep: JsString): JsString
    requires pat != []
    decreases |s|
  {
    if |s| < |pat| then s
    else if s[..|pat|] == pat then rep + ReplaceAll(s[|pat|..], pat, rep)
    else [s[0]] + ReplaceAll(s[1..], pat, rep)
  }

  /**
   * A piece `w` that the scan for `pat` passes over unchanged: it does not
   * contain the first unit of `pat`, or it starts with that unit, differs from
   * `pat` at the second unit and has no further occurrence of the first.
   */
  predicate PassesOver(w: JsString, pat: JsString)
    requires pat != []
  {
    || pat[0] !in w
    || (2 <= |w| && 2 <= |pat| && w[0] == pat[0] && w[1] != pat[1] && pat[0] !in w[1..])
  }

  lemma {:induction false} ReplaceAllPassesOver(w: JsString, rest: JsString, pat: JsString, rep: JsString)
    requires pat != [] && PassesOver(w, pat)
    ensures ReplaceAll(w + rest, pat, rep) == w + ReplaceAll(rest, pat, rep)
    decreases |w|
  {
    if w == [] {
      assert w + rest == rest;
    } else {
      var s := w + rest;
      if |s| < |pat| {
        assert ReplaceAll(rest, pat, rep) == rest;
      } else {
        if pat[0] !in w {
          assert s[0] == w[0] != pat[0];
        } else {
          assert s[1] == w[1] != pat[1];
        }
        assert s[..|pat|] != pat;
        assert s[1..] == w[1..] + rest;
        assert pat[0] !in w[1..];
        ReplaceAllPassesOver(w[1..], rest, pat, rep);
      }
    }
  }

  lemma ReplaceAllMatch(rest: JsString, pat: JsString, rep: JsString)
    requires pat != []
    ensures ReplaceAll(pat + rest, pat, rep) == rep + ReplaceAll(rest, pat, rep)
  {
    var s := pat + rest;
    assert s[..|pat|] == pat;
    assert s[|pat|..] == rest;
  }
}
