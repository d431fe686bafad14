/** The verbatim layer of `XmlParserWrapper`: the file text is cut into the
    text before the root element, the root element's own span (the only part
    handed to the XML parser) and the text after it; on writing, the two outer
    pieces are put back around the serialised root unchanged. */
module Verbatim {
  import opened Base
  import opened Text

  const TeiOpen: string := "<TEI"
  const TeiClose: string := "</TEI>"

  /** The spellings of the encoding name of which one must occur in the file. */
  const Encodings: seq<string> := ["utf-8", "utf8", "UTF8", "UTF-8"]

  /** `any(u in content for u in (...))`. */
  predicate DeclaresUtf8(content: string)
  {
    exists k :: 0 <= k < |Encodings| && Contains(content, Encodings[k])
  }

  /** The three pieces of the file: `before_root`, the root span, `after_root`. */
  datatype Pieces = Pieces(beforeRoot: string, root: string, afterRoot: string)

  /** `XmlParserWrapper.__init__` up to the parser: `ValueError` unless an
      encoding name occurs, a `<TEI` occurs, and a `</TEI>` occurs at or
      after the first `<TEI`; otherwise the text up to the first `<TEI`, the
      text from there up to and including the first `</TEI>` after it, and the
      rest. */
  function Split(content: string): (r: Result<Pieces>)
    ensures r.Err? ==> r.error == ValueError
  {
    if !DeclaresUtf8(content) then Err(ValueError)
    else
      var teiStart := Find(content, TeiOpen);
      if teiStart < 0 then Err(ValueError)
      else
        var before := content[..teiStart];
        var rest := content[teiStart..];
        var teiEnd := Find(rest, TeiClose);
        if teiEnd < 0 then Err(ValueError)
        else
          var cut := teiEnd + |TeiClose|;
          Ok(Pieces(before, rest[..cut], rest[cut..]))
  }

  /** A `<TEI` at `i` followed, at or after `i`, by a `</TEI>` at `j`. */
  predicate RootAt(content: string, i: int, j: int)
  {
    OccursAt(content, TeiOpen, i) && i <= j && OccursAt(content, TeiClose, j)
  }

  /** An occurrence of `sub` in a suffix of `s` is one in `s`, shifted. */
  lemma OccursInSuffix(s: string, sub: string, i: nat, m: int)
    requires i <= |s|
    ensures OccursAt(s[i..], sub, m) <==> 0 <= m && OccursAt(s, sub, i + m)
  {
    if 0 <= m && i + m + |sub| <= |s| {
      assert s[i..][m..m + |sub|] == s[i + m..i + m + |sub|];
    }
  }

  /** The split fails exactly when no encoding name occurs or no `<TEI` is
      followed by a `</TEI>`. */
  lemma SplitErr(content: string)
    ensures Split(content).Err? <==>
            !DeclaresUtf8(content) || !exists i, j :: RootAt(content, i, j)
  {
    if DeclaresUtf8(content) {
      var i0 := Find(content, TeiOpen);
      if exists i, j :: RootAt(content, i, j) {
        var i, j :| RootAt(content, i, j);
        assert i0 >= 0 && i0 <= i;
        var rest := content[i0..];
        OccursInSuffix(content, TeiClose, i0, j - i0);
        assert Find(rest, TeiClose) >= 0;
      } else if i0 >= 0 {
        var rest := content[i0..];
        var e := Find(rest, TeiClose);
        if e >= 0 {
          OccursInSuffix(content, TeiClose, i0, e);
          assert RootAt(content, i0, i0 + e);
        }
      }
    }
  }

  /** The pieces of a successful split, by the two `find` results. */
  lemma SplitOk(content: string)
    requires Split(content).Ok?
    ensures var i0 := Find(content, TeiOpen);
            0 <= i0 && Find(content[i0..], TeiClose) >= 0 &&
            var cut := Find(content[i0..], TeiClose) + |TeiClose|;
            cut <= |content| - i0 &&
            Split(content).value == Pieces(content[..i0], content[i0..][..cut], content[i0..][cut..])
  {
  }

  lemma ThreeSlices(s: string, i: nat, cut: nat)
    requires i <= |s| && cut <= |s| - i
    ensures s[..i] + s[i..][..cut] + s[i..][cut..] == s
  {
    assert s[i..][..cut] + s[i..][cut..] == s[i..];
    assert s[..i] + s[i..] == s;
  }

  /** The three pieces put together give back the file. */
  lemma SplitRoundTrip(content: string)
    requires Split(content).Ok?
    ensures var p := Split(content).value;
            p.beforeRoot + p.root + p.afterRoot == content
  {
    SplitOk(content);
    var i0 := Find(content, TeiOpen);
    ThreeSlices(content, i0, Find(content[i0..], TeiClose) + |TeiClose|);
  }

  /** `before_root` ends where the first `<TEI` starts, and the root span
      runs from there to the end of the first `</TEI>` that starts at or
      after it. */
  lemma SplitBoundaries(content: string)
    requires Split(content).Ok?
    ensures var p := Split(content).value;
            var i, j := |p.beforeRoot|, |p.beforeRoot| + |p.root|;
            OccursAt(content, TeiOpen, i) && (forall m :: 0 <= m < i ==> !OccursAt(content, TeiOpen, m)) &&
            |TeiClose| <= j - i && OccursAt(content, TeiClose, j - |TeiClose|) &&
            (forall m :: i <= m < j - |TeiClose| ==> !OccursAt(content, TeiClose, m))
  {
    SplitOk(content);
    var i0 := Find(content, TeiOpen);
    var e := Find(content[i0..], TeiClose);
    OccursInSuffix(content, TeiClose, i0, e);
    forall m | i0 <= m < i0 + e
      ensures !OccursAt(content, TeiClose, m)
    {
      OccursInSuffix(content, TeiClose, i0, m - i0);
    }
  }

  /** What `XmlParserWrapper.write` puts in the file: `before_root`, the
      serialised root `body`, `after_root`, and a newline unless `after_root`
      already ends with one. */
  function Assemble(p: Pieces, body: string): string
  {
    p.beforeRoot + body + p.afterRoot + (if EndsWith(p.afterRoot, "\n") then "" else "\n")
  }

  /** The text around the root is copied unchanged, and the file ends with a
      newline, added exactly when `after_root` lacks one. */
  lemma AssembleVerbatim(p: Pieces, body: string)
    ensures var out := Assemble(p, body);
            var b, a := |p.beforeRoot|, |p.beforeRoot| + |body|;
            a + |p.afterRoot| <= |out| &&
            out[..b] == p.beforeRoot && out[b..a] == body && out[a..a + |p.afterRoot|] == p.afterRoot &&
            EndsWith(out, "\n") &&
            |out| == a + |p.afterRoot| + (if EndsWith(p.afterRoot, "\n") then 0 else 1)
  {
    var out := Assemble(p, body);
    var a := |p.beforeRoot| + |body|;
    if EndsWith(p.afterRoot, "\n") {
      assert out[|out| - 1..] == p.afterRoot[|p.afterRoot| - 1..];
    }
  }

  /** Writing back an unchanged root span reproduces the file, plus a final
      newline when it had none. */
  lemma SplitAssemble(content: string)
    requires Split(content).Ok?
    ensures var p := Split(content).value;
            Assemble(p, p.root) == content + (if EndsWith(content, "\n") then "" else "\n")
  {
    var p := Split(content).value;
    SplitRoundTrip(content);
    assert EndsWith(content, "\n") <==> EndsWith(p.afterRoot, "\n") by {
      SplitBoundaries(content);
      assert content[|content| - |p.afterRoot|..] == p.afterRoot;
      if p.afterRoot == [] {
        assert content[|content| - 1] == '>';
      }
    }
  }
}
