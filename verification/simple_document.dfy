/**
 * The HTML fallback document of the content script (`createSimplePDF`): the
 * text is cut at 2000 code units, its markup characters are escaped, it is
 * wrapped in a fixed `<pre>` page and returned as a `data:` URI (RFC 2397,
 * section 3) flagged `isHtml`.
 */
module SimpleDocument {
  import opened Wrappers
  import opened JsStrings
  import opened Messages

  /** The ceiling of `createSimplePDF`, in code units. */
  const MAX_LENGTH: nat := 2000


  const AMP: CodeUnit := 0x26  // '&'
  const LT: CodeUnit := 0x3C   // '<'
  const GT: CodeUnit := 0x3E   // '>'

  const AMP_ENTITY: JsString := [AMP, 0x61, 0x6D, 0x70, 0x3B]  // "&amp;"
  const LT_ENTITY: JsString := [AMP, 0x6C, 0x74, 0x3B]         // "&lt;"
  const GT_ENTITY: JsString := [AMP, 0x67, 0x74, 0x3B]         // "&gt;"

  /** Everything of the page before the escaped text. */
  const HTML_HEAD: JsString := Js("<!DOCTYPE html><html><head><meta charset=\"utf-8\"><title>PDF</title><style>body{font-family:monospace;margin:20mm;font-size:9pt}pre{white-space:pre-wrap;word-wrap:break-word;font-family:monospace}</style></head><body><pre>")

  /** Everything of the page after the escaped text. */
  const HTML_TAIL: JsString := Js("</pre></body></html>")

  /** The media type and parameter of the returned `data:` URI, up to and including the comma. */
  const DATA_URI_PREFIX: JsString := Js("data:text/html;charset=utf-8,")

  /** The message of the reply when building the page throws. */
  const FAILURE_MESSAGE: JsString := Js("Không thể tạo PDF do giới hạn dung lượng. Vui lòng giảm độ dài văn bản.")

  // ---------------------------------------------------------------------------
  // Escaping and its inverse
  // ---------------------------------------------------------------------------

  /** The three chained `replace` calls: `&` first, then `<`, then `>`. */
  function Escape(s: JsString): JsString {
    ReplaceAll(ReplaceAll(ReplaceAll(s, [AMP], AMP_ENTITY), [LT], LT_ENTITY), [GT], GT_ENTITY)
  }

  /** Decoding `&lt;`, then `&gt;`, then `&amp;`: the partner of `Escape`. */
  function Unescape(e: JsString): JsString {
    ReplaceAll(ReplaceAll(ReplaceAll(e, LT_ENTITY, [LT]), GT_ENTITY, [GT]), AMP_ENTITY, [AMP])
  }

  /** The image of every unit, concatenated. */
  function Flat(f: CodeUnit -> JsString, s: JsString): JsString {
    if s == [] then [] else f(s[0]) + Flat(f, s[1..])
  }

  // The units after each step of escaping and of decoding.
  function Unchanged(c: CodeUnit): JsString { [c] }
  function AmpEscaped(c: CodeUnit): JsString { if c == AMP then AMP_ENTITY else [c] }
  function AmpLtEscaped(c: CodeUnit): JsString {
    if c == AMP then AMP_ENTITY else if c == LT then LT_ENTITY else [c]
  }
  function EscapeUnit(c: CodeUnit): JsString {
    if c == AMP then AMP_ENTITY else if c == LT then LT_ENTITY else if c == GT then GT_ENTITY else [c]
  }
  function LtDecoded(c: CodeUnit): JsString {
    if c == AMP then AMP_ENTITY else if c == GT then GT_ENTITY else [c]
  }

  lemma {:induction false} FlatConcat(f: CodeUnit -> JsString, a: JsString, b: JsString)
    ensures Flat(f, a + b) == Flat(f, a) + Flat(f, b)
  {
    if a == [] {
      assert a + b == b;
    } else {
      assert (a + b)[1..] == a[1..] + b;
      FlatConcat(f, a[1..], b);
    }
  }

  lemma {:induction false} FlatUnchanged(s: JsString)
    ensures Flat(Unchanged, s) == s
  {
    if s != [] { FlatUnchanged(s[1..]); }
  }

  /**
   * One global replace maps the image of `s` under `f` to its image under
   * `g`, when each unit's image is the pattern (and becomes the replacement)
   * or is passed over by the scan (and stays).
   */
  lemma {:induction false} ReplaceAllFlat(s: JsString, f: CodeUnit -> JsString, g: CodeUnit -> JsString, pat: JsString, rep: JsString)
    requires pat != []
    requires forall c | c in s :: (f(c) == pat && g(c) == rep) || (PassesOver(f(c), pat) && g(c) == f(c))
    ensures ReplaceAll(Flat(f, s), pat, rep) == Flat(g, s)
  {
    if s != [] {
      var c := s[0];
      assert c in s;
      forall d | d in s[1..] ensures (f(d) == pat && g(d) == rep) || (PassesOver(f(d), pat) && g(d) == f(d)) {
        assert d in s;
      }
      ReplaceAllFlat(s[1..], f, g, pat, rep);
      if f(c) == pat && g(c) == rep {
        ReplaceAllMatch(Flat(f, s[1..]), pat, rep);
      } else {
        ReplaceAllPassesOver(f(c), Flat(f, s[1..]), pat, rep);
      }
    }
  }

  /** Every unit's image under `f` is the pattern and becomes the replacement, or is passed over and stays. */
  predicate Step(f: CodeUnit -> JsString, g: CodeUnit -> JsString, pat: JsString, rep: JsString)
    requires pat != []
  {
    forall c: CodeUnit :: (f(c) == pat && g(c) == rep) || (PassesOver(f(c), pat) && g(c) == f(c))
  }

  lemma EscapeAmpStep() ensures Step(Unchanged, AmpEscaped, [AMP], AMP_ENTITY) {}
  lemma EscapeLtStep() ensures Step(AmpEscaped, AmpLtEscaped, [LT], LT_ENTITY) {}
  lemma EscapeGtStep() ensures Step(AmpLtEscaped, EscapeUnit, [GT], GT_ENTITY) {}
  lemma DecodeLtStep() ensures Step(EscapeUnit, LtDecoded, LT_ENTITY, [LT]) {}
  lemma DecodeGtStep() ensures Step(LtDecoded, AmpEscaped, GT_ENTITY, [GT]) {}
  lemma DecodeAmpStep() ensures Step(AmpEscaped, Unchanged, AMP_ENTITY, [AMP]) {}

  /** Escaping replaces each markup unit by its entity and keeps every other unit. */
  lemma EscapeIsFlat(s: JsString)
    ensures Escape(s) == Flat(EscapeUnit, s)
  {
    FlatUnchanged(s);
    EscapeAmpStep();
    ReplaceAllFlat(s, Unchanged, AmpEscaped, [AMP], AMP_ENTITY);
    EscapeLtStep();
    ReplaceAllFlat(s, AmpEscaped, AmpLtEscaped, [LT], LT_ENTITY);
    EscapeGtStep();
    ReplaceAllFlat(s, AmpLtEscaped, EscapeUnit, [GT], GT_ENTITY);
  }

  /** Decoding `&lt;`, `&gt;` and then `&amp;` recovers the escaped text exactly. */
  lemma UnescapeEscape(s: JsString)
    ensures Unescape(Escape(s)) == s
  {
    EscapeIsFlat(s);
    DecodeLtStep();
    ReplaceAllFlat(s, EscapeUnit, LtDecoded, LT_ENTITY, [LT]);
    DecodeGtStep();
    ReplaceAllFlat(s, LtDecoded, AmpEscaped, GT_ENTITY, [GT]);
    DecodeAmpStep();
    ReplaceAllFlat(s, AmpEscaped, Unchanged, AMP_ENTITY, [AMP]);
    FlatUnchanged(s);
  }

  /** An entity starts at index `i`. */
  predicate EntityAt(e: JsString, i: nat) {
    || (i + |AMP_ENTITY| <= |e| && e[i..i + |AMP_ENTITY|] == AMP_ENTITY)
    || (i + |LT_ENTITY| <= |e| && e[i..i + |LT_ENTITY|] == LT_ENTITY)
    || (i + |GT_ENTITY| <= |e| && e[i..i + |GT_ENTITY|] == GT_ENTITY)
  }

  /** Escaped text has no raw `<` or `>`, and each of its `&` starts an entity. */
  predicate NoRawMarkup(e: JsString) {
    && LT !in e && GT !in e
    && forall i | 0 <= i < |e| && e[i] == AMP :: EntityAt(e, i)
  }

  lemma EntityBefore(a: JsString, b: JsString, i: nat)
    requires EntityAt(a, i)
    ensures EntityAt(a + b, i)
  {
    var e := a + b;
    if i + |AMP_ENTITY| <= |a| && a[i..i + |AMP_ENTITY|] == AMP_ENTITY {
      assert e[i..i + |AMP_ENTITY|] == a[i..i + |AMP_ENTITY|];
    } else if i + |LT_ENTITY| <= |a| && a[i..i + |LT_ENTITY|] == LT_ENTITY {
      assert e[i..i + |LT_ENTITY|] == a[i..i + |LT_ENTITY|];
    } else {
      assert e[i..i + |GT_ENTITY|] == a[i..i + |GT_ENTITY|];
    }
  }

  lemma EntityAfter(a: JsString, b: JsString, j: nat)
    requires EntityAt(b, j)
    ensures EntityAt(a + b, |a| + j)
  {
    var e := a + b;
    var i := |a| + j;
    if j + |AMP_ENTITY| <= |b| && b[j..j + |AMP_ENTITY|] == AMP_ENTITY {
      assert e[i..i + |AMP_ENTITY|] == b[j..j + |AMP_ENTITY|];
    } else if j + |LT_ENTITY| <= |b| && b[j..j + |LT_ENTITY|] == LT_ENTITY {
      assert e[i..i + |LT_ENTITY|] == b[j..j + |LT_ENTITY|];
    } else {
      assert e[i..i + |GT_ENTITY|] == b[j..j + |GT_ENTITY|];
    }
  }

  /** Text without raw markup stays so when concatenated: every entity lies wholly in one part. */
  lemma NoRawMarkupConcat(a: JsString, b: JsString)
    requires NoRawMarkup(a) && NoRawMarkup(b)
    ensures NoRawMarkup(a + b)
  {
    var e := a + b;
    forall i | 0 <= i < |e| && e[i] == AMP
      ensures EntityAt(e, i)
    {
      if i < |a| {
        assert a[i] == AMP;
        EntityBefore(a, b, i);
      } else {
        assert b[i - |a|] == AMP;
        EntityAfter(a, b, i - |a|);
      }
    }
  }

  lemma EscapeUnitNoRawMarkup(c: CodeUnit)
    ensures NoRawMarkup(EscapeUnit(c))
  {
    var e := EscapeUnit(c);
    if c == AMP || c == LT || c == GT {
      assert e[0] == AMP && e[1..] != [] && AMP !in e[1..];
      assert e[0..|e|] == e;
    }
  }

  lemma {:induction false} FlatEscapeNoRawMarkup(s: JsString)
    ensures NoRawMarkup(Flat(EscapeUnit, s))
  {
    if s != [] {
      FlatEscapeNoRawMarkup(s[1..]);
      EscapeUnitNoRawMarkup(s[0]);
      NoRawMarkupConcat(EscapeUnit(s[0]), Flat(EscapeUnit, s[1..]));
    }
  }

  /** The escaped body contains no markup of its own. */
  lemma EscapeNoRawMarkup(s: JsString)
    ensures NoRawMarkup(Escape(s))
  {
    EscapeIsFlat(s);
    FlatEscapeNoRawMarkup(s);
  }

  /** A unit that is not markup escapes to itself. */
  lemma FlatEscapeCons(s: JsString)
    requires s != [] && s[0] != AMP && s[0] != LT && s[0] != GT
    ensures Flat(EscapeUnit, s) == [s[0]] + Flat(EscapeUnit, s[1..])
  {}

  lemma {:induction false} FlatEscapeWellFormed(s: JsString)
    requires WellFormed(s)
    ensures WellFormed(Flat(EscapeUnit, s))
    decreases |s|
  {
    if s != [] {
      assert PairedAt(s, 0);
      if IsHighSurrogate(s[0]) {
        assert PairedAt(s, 1);
        if 2 < |s| { assert PairedAt(s, 2); }
        WellFormedSuffix(s, 2);
        FlatEscapeWellFormed(s[2..]);
        FlatEscapeCons(s);
        FlatEscapeCons(s[1..]);
        assert s[1..][1..] == s[2..];
        var pair := [s[0], s[1]];
        assert PairedAt(pair, 0) && PairedAt(pair, 1);
        WellFormedConcat(pair, Flat(EscapeUnit, s[2..]));
        assert Flat(EscapeUnit, s) == pair + Flat(EscapeUnit, s[2..]);
      } else {
        if 1 < |s| { assert PairedAt(s, 1); }
        WellFormedSuffix(s, 1);
        FlatEscapeWellFormed(s[1..]);
        var head := EscapeUnit(s[0]);
        assert forall i | 0 <= i < |head| :: !IsHighSurrogate(head[i]) && !IsLowSurrogate(head[i]);
        assert forall i | 0 <= i < |head| :: PairedAt(head, i);
        WellFormedConcat(head, Flat(EscapeUnit, s[1..]));
      }
    }
  }

  // ---------------------------------------------------------------------------
  // The document
  // ---------------------------------------------------------------------------

  /** The page around the escaped text. */
  function HtmlPage(text: JsString): JsString {
    HTML_HEAD + Escape(text) + HTML_TAIL
  }

  lemma TemplateWellFormed()
    ensures WellFormed(HTML_HEAD) && WellFormed(HTML_TAIL)
  {
    LiteralWellFormed("<!DOCTYPE html><html><head><meta charset=\"utf-8\"><title>PDF</title><style>body{font-family:monospace;margin:20mm;font-size:9pt}pre{white-space:pre-wrap;word-wrap:break-word;font-family:monospace}</style></head><body><pre>");
    LiteralWellFormed("</pre></body></html>");
  }

  /** The page of a well-formed text is well-formed, so `encodeURIComponent` accepts it. */
  lemma HtmlPageWellFormed(text: JsString)
    requires WellFormed(text)
    ensures WellFormed(HtmlPage(text))
  {
    EscapeIsFlat(text);
    FlatEscapeWellFormed(text);
    TemplateWellFormed();
    WellFormedConcat(HTML_HEAD, Escape(text));
    WellFormedConcat(HTML_HEAD + Escape(text), HTML_TAIL);
  }

  /** The first unit of an escaped text: `&` for a markup character, the unit itself otherwise. */
  lemma FlatEscapeHead(s: JsString)
    requires s != []
    ensures Flat(EscapeUnit, s) != []
    ensures Flat(EscapeUnit, s)[0] == (if s[0] == AMP || s[0] == LT || s[0] == GT then AMP else s[0])
  {}

  predicate IsMarkup(c: CodeUnit) { c == AMP || c == LT || c == GT }

  /** A markup character escapes to an entity ending in `;`, after which the escaped rest stays well-formed. */
  lemma FlatEscapeFirstMarkup(s: JsString)
    requires s != [] && IsMarkup(s[0]) && WellFormed(Flat(EscapeUnit, s))
    ensures WellFormed(Flat(EscapeUnit, s[1..]))
  {
    var e := Flat(EscapeUnit, s);
    var h := EscapeUnit(s[0]);
    assert e == h + Flat(EscapeUnit, s[1..]);
    if |h| < |e| {
      assert e[|h| - 1] == 0x3B;
      assert PairedAt(e, |h|);
    }
    WellFormedSuffix(e, |h|);
    assert e[|h|..] == Flat(EscapeUnit, s[1..]);
  }

  /** A unit that is neither markup nor a high surrogate is kept, so it is no lone low surrogate either. */
  lemma FlatEscapeFirstPlain(s: JsString)
    requires s != [] && !IsMarkup(s[0]) && !IsHighSurrogate(s[0]) && WellFormed(Flat(EscapeUnit, s))
    ensures !IsLowSurrogate(s[0]) && WellFormed(Flat(EscapeUnit, s[1..]))
  {
    var e := Flat(EscapeUnit, s);
    FlatEscapeCons(s);
    assert PairedAt(e, 0);
    if 1 < |e| { assert PairedAt(e, 1); }
    WellFormedSuffix(e, 1);
    assert e[1..] == Flat(EscapeUnit, s[1..]);
  }

  /** A high surrogate is kept, so the next unit is its low half, kept too. */
  lemma FlatEscapeFirstPair(s: JsString)
    requires s != [] && IsHighSurrogate(s[0]) && WellFormed(Flat(EscapeUnit, s))
    ensures |s| >= 2 && IsLowSurrogate(s[1]) && WellFormed(Flat(EscapeUnit, s[2..]))
  {
    var e := Flat(EscapeUnit, s);
    var t := Flat(EscapeUnit, s[1..]);
    FlatEscapeCons(s);
    WellFormedAfterPair(e);
    assert e[1..] == t;
    FlatEscapeHead(s[1..]);
    FlatEscapeCons(s[1..]);
    assert s[1..][1..] == s[2..];
    assert e[2..] == t[1..];
  }

  /** The converse of `FlatEscapeWellFormed`: escaping never pairs up a lone surrogate. */
  lemma {:induction false} FlatEscapeWellFormedConverse(s: JsString)
    requires WellFormed(Flat(EscapeUnit, s))
    ensures WellFormed(s)
    decreases |s|
  {
    if s != [] {
      if IsHighSurrogate(s[0]) {
        FlatEscapeFirstPair(s);
        FlatEscapeWellFormedConverse(s[2..]);
        var pair := [s[0], s[1]];
        assert PairedAt(pair, 0) && PairedAt(pair, 1);
        WellFormedConcat(pair, s[2..]);
        assert s == pair + s[2..];
      } else {
        if IsMarkup(s[0]) {
          FlatEscapeFirstMarkup(s);
        } else {
          FlatEscapeFirstPlain(s);
        }
        FlatEscapeWellFormedConverse(s[1..]);
        var single := [s[0]];
        assert PairedAt(single, 0);
        WellFormedConcat(single, s[1..]);
        assert s == single + s[1..];
      }
    }
  }

  /** The template's last unit before the text is `>` and its first unit after it is `<`. */
  lemma TemplateEdges()
    ensures |HTML_HEAD| > 0 && HTML_HEAD[|HTML_HEAD| - 1] == GT
    ensures |HTML_TAIL| > 0 && HTML_TAIL[0] == LT
  {}

  /** A well-formed page holds a well-formed text: the template cannot complete a lone surrogate. */
  lemma HtmlPageWellFormedConverse(text: JsString)
    requires WellFormed(HtmlPage(text))
    ensures WellFormed(text)
  {
    TemplateEdges();
    WellFormedInfix(HTML_HEAD, Escape(text), HTML_TAIL);
    EscapeIsFlat(text);
    FlatEscapeWellFormedConverse(text);
  }

  /**
   * `createSimplePDF` as written. `encodeUri` stands for the value
   * `encodeURIComponent` returns; that call throws (and the reply reports
   * failure) exactly when the page holds a lone surrogate.
   */
  function CreateSimplePdf(text: JsString, encodeUri: JsString -> JsString): (r: Reply)
    ensures r.GenerationReply?
    ensures r.success <==> WellFormed(Truncate(text, MAX_LENGTH, SHORT_MARKER))
    ensures r.success ==> r.isHtml && r.pdfData.Some? && DATA_URI_PREFIX <= r.pdfData.value && r.error.None?
    ensures r.success ==> r.pdfData.value[|DATA_URI_PREFIX|..] == encodeUri(HtmlPage(Truncate(text, MAX_LENGTH, SHORT_MARKER)))
    ensures !r.success ==> r == FailureReply(FAILURE_MESSAGE)
  {
    var body := Truncate(text, MAX_LENGTH, SHORT_MARKER);
    var page := HtmlPage(body);
    if WellFormed(page) then
      HtmlPageWellFormedConverse(body);
      HtmlReply(DATA_URI_PREFIX + encodeUri(page))
    else
      assert !WellFormed(body) by {
        if WellFormed(body) { HtmlPageWellFormed(body); }
      }
      FailureReply(FAILURE_MESSAGE)
  }

  // ---------------------------------------------------------------------------
  // Cutting a surrogate pair: the text as written and as intended
  // ---------------------------------------------------------------------------

  /** Escaping keeps a text that holds no markup character. */
  lemma {:induction false} FlatEscapePlain(s: JsString)
    requires AMP !in s && LT !in s && GT !in s
    ensures Flat(EscapeUnit, s) == s
  {
    if s != [] {
      assert s[0] in s;
      FlatEscapePlain(s[1..]);
    }
  }

  /** 1999 letters `a` followed by U+1F600, one character written as two code units. */
  function SplitPairText(): (t: JsString)
    ensures |t| == MAX_LENGTH + 1
  {
    seq(1999, _ => 0x61) + [0xD83D, 0xDE00]
  }

  lemma SplitPairWellFormed()
    ensures WellFormed(SplitPairText())
  {
    var t := SplitPairText();
    forall i | 0 <= i < |t| ensures PairedAt(t, i) {
      if i < 1999 { assert t[i] == 0x61; }
    }
  }

  /** The first 2000 units hold no markup and end with the high surrogate. */
  lemma SplitPairCutPlain()
    ensures var cut := SplitPairText()[..MAX_LENGTH];
      AMP !in cut && LT !in cut && GT !in cut && cut[1999] == 0xD83D
  {
    var cut := SplitPairText()[..MAX_LENGTH];
    forall c | c in cut ensures c != AMP && c != LT && c != GT {
      var i :| 0 <= i < |cut| && cut[i] == c;
      assert i < 1999 ==> c == 0x61;
    }
  }

  /** Escaping a markup-free prefix followed by a notice that opens with a newline keeps the prefix and then that newline. */
  lemma EscapePlainThenNewline(cut: JsString, marker: JsString)
    requires AMP !in cut && LT !in cut && GT !in cut && marker != [] && marker[0] == 0x0A
    ensures |Escape(cut + marker)| > |cut| && Escape(cut + marker)[..|cut|] == cut && Escape(cut + marker)[|cut|] == 0x0A
  {
    FlatEscapePlain(cut);
    FlatConcat(EscapeUnit, cut, marker);
    EscapeIsFlat(cut + marker);
    FlatEscapeCons(marker);
  }

  /** The escaped body keeps the high surrogate as its 2000th unit and follows it with the notice's newline. */
  lemma SplitPairEscaped()
    ensures var escaped := Escape(Truncate(SplitPairText(), MAX_LENGTH, SHORT_MARKER));
      |escaped| > MAX_LENGTH && escaped[1999] == 0xD83D && escaped[2000] == 0x0A
  {
    var cut := SplitPairText()[..MAX_LENGTH];
    assert Truncate(SplitPairText(), MAX_LENGTH, SHORT_MARKER) == cut + SHORT_MARKER;
    SplitPairCutPlain();
    assert SHORT_MARKER[0] == 0x0A;
    EscapePlainThenNewline(cut, SHORT_MARKER);
    var escaped := Escape(cut + SHORT_MARKER);
    assert escaped[1999] == escaped[..|cut|][1999];
  }

  /**
   * `substring(0, 2000)` separates the two halves of the last character, the
   * page then holds a lone high surrogate, `encodeURIComponent` throws, and the
   * fallback reports failure although the user's text is well-formed.
   */
  lemma SplitPairBreaksFallback(encodeUri: JsString -> JsString)
    ensures WellFormed(SplitPairText())
    ensures !CreateSimplePdf(SplitPairText(), encodeUri).success
  {
    SplitPairWellFormed();
    SplitPairEscaped();
    var body := Truncate(SplitPairText(), MAX_LENGTH, SHORT_MARKER);
    var escaped := Escape(body);
    var page := HtmlPage(body);
    var k := |HTML_HEAD| + 1999;
    assert page[k] == escaped[1999] && page[k + 1] == escaped[2000];
    assert !PairedAt(page, k);
  }

  /** Where a cut at `max` lands: one unit earlier when it would fall just after a high surrogate. */
  function CutPoint(text: JsString, max: nat): nat
    requires max <= |text|
  {
    if 0 < max && IsHighSurrogate(text[max - 1]) then max - 1 else max
  }

  /** Truncation at `max` code units that never splits a surrogate pair. */
  function TruncateAtBoundary(text: JsString, max: nat, marker: JsString): (r: JsString)
    ensures |text| <= max ==> r == text
    ensures max < |text| && (max == 0 || !IsHighSurrogate(text[max - 1])) ==> r == text[..max] + marker
    ensures 0 < max < |text| && IsHighSurrogate(text[max - 1]) ==> r == text[..max - 1] + marker
    ensures WellFormed(text) && WellFormed(marker) ==> WellFormed(r)
  {
    if |text| > max then
      var k := CutPoint(text, max);
      assert WellFormed(text) ==> WellFormed(text[..k]) by {
        if WellFormed(text) {
          if 0 < k { assert PairedAt(text, k - 1); }
          if k < max { assert PairedAt(text, max - 1); }
          WellFormedPrefix(text, k);
        }
      }
      assert WellFormed(text) && WellFormed(marker) ==> WellFormed(text[..k] + marker) by {
        if WellFormed(text) && WellFormed(marker) { WellFormedConcat(text[..k], marker); }
      }
      text[..k] + marker
    else
      text
  }

  /** The same first cut always lands on the same place: a text already cut and marked is cut again at the same unit. */
  lemma TruncateAtBoundaryAfterTruncate(text: JsString, max: nat, first: JsString, second: JsString)
    requires first != []
    ensures TruncateAtBoundary(Truncate(text, max, first), max, second) == TruncateAtBoundary(text, max, second)
  {
    if |text| > max {
      var once := text[..max] + first;
      assert |once| > max;
      if 0 < max { assert once[max - 1] == text[max - 1]; }
      assert once[..max] == text[..max];
      if 0 < max { assert once[..max - 1] == text[..max - 1]; }
    }
  }

  /** `createSimplePDF` with the cut moved to a character boundary. */
  function CreateSimplePdfAtBoundary(text: JsString, encodeUri: JsString -> JsString): (r: Reply)
    ensures r.GenerationReply?
    ensures r.success <==> WellFormed(TruncateAtBoundary(text, MAX_LENGTH, SHORT_MARKER))
    ensures WellFormed(text) ==> r.success
    ensures r.success ==> r.isHtml && r.pdfData.Some? && DATA_URI_PREFIX <= r.pdfData.value && r.error.None?
    ensures r.success ==> r.pdfData.value[|DATA_URI_PREFIX|..] == encodeUri(HtmlPage(TruncateAtBoundary(text, MAX_LENGTH, SHORT_MARKER)))
    ensures !r.success ==> r == FailureReply(FAILURE_MESSAGE)
  {
    var body := TruncateAtBoundary(text, MAX_LENGTH, SHORT_MARKER);
    var page := HtmlPage(body);
    if WellFormed(page) then
      HtmlPageWellFormedConverse(body);
      HtmlReply(DATA_URI_PREFIX + encodeUri(page))
    else
      assert !WellFormed(text) && !WellFormed(body) by {
        LiteralWellFormed("\n\n[Nội dung đã bị cắt ngắn...]");
        if WellFormed(body) { HtmlPageWellFormed(body); }
      }
      FailureReply(FAILURE_MESSAGE)
  }

  /** On the text that breaks the fallback as written, the corrected fallback produces the page. */
  lemma SplitPairFixed(encodeUri: JsString -> JsString)
    ensures CreateSimplePdfAtBoundary(SplitPairText(), encodeUri).success
  {
    SplitPairBreaksFallback(encodeUri);
  }

  // ---------------------------------------------------------------------------
  // Choosing the cut
  // ---------------------------------------------------------------------------

  /** Which cut the HTML fallback makes: the one of the source, or the one that keeps pairs whole. */
  datatype Cut = AsWritten | AtBoundary

  /** The text the fallback page shows under each cut. */
  function FallbackBody(cut: Cut, text: JsString): JsString {
    match cut
    case AsWritten => Truncate(text, MAX_LENGTH, SHORT_MARKER)
    case AtBoundary => TruncateAtBoundary(text, MAX_LENGTH, SHORT_MARKER)
  }

  /**
   * The HTML fallback under either cut: it succeeds exactly when the page's
   * text is well-formed, always so for a well-formed text once the cut keeps
   * pairs whole, and its document is the encoded page of that text.
   */
  function SimplePdf(cut: Cut, text: JsString, encodeUri: JsString -> JsString): (r: Reply)
    ensures r.GenerationReply?
    ensures r.success <==> WellFormed(FallbackBody(cut, text))
    ensures cut == AtBoundary && WellFormed(text) ==> r.success
    ensures r.success ==> r.isHtml && r.pdfData.Some? && DATA_URI_PREFIX <= r.pdfData.value && r.error.None?
    ensures r.success ==> r.pdfData.value[|DATA_URI_PREFIX|..] == encodeUri(HtmlPage(FallbackBody(cut, text)))
    ensures !r.success ==> r == FailureReply(FAILURE_MESSAGE)
  {
    match cut
    case AsWritten => CreateSimplePdf(text, encodeUri)
    case AtBoundary => CreateSimplePdfAtBoundary(text, encodeUri)
  }
}
