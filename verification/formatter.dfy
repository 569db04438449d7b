/**
 * `format_agent_response`: the agent's raw reply turned into HTML. Citation
 * markers are removed, the text is split on fenced code regions, each region
 * becomes a `<pre><code>` block and each plain part becomes `<p>` paragraphs.
 * Nothing is HTML-escaped: every other character passes through as it is.
 */
module Formatter {
  import opened Wrappers
  import opened Text
  import opened Citations
  import opened Fences

  const CodeOpen: string := "<pre><code>"
  const CodeClose: string := "</code></pre>"
  const ParaOpen: string := "<p>"
  const ParaClose: string := "</p>"
  const ParaBreak: string := "\n\n"

  /**
   * `part.strip().split('\n', 1)[-1]`: the stripped region without its first
   * line (the language tag) when it has more than one line, else all of it.
   */
  function CodeBody(part: string): (body: string)
    ensures var t := Strip(part);
      && ('\n' !in t ==> body == t)
      && ('\n' in t ==> |body| < |t| && '\n' !in t[..|t| - |body| - 1]
                        && t == t[..|t| - |body| - 1] + "\n" + body)
  {
    var t := Strip(part);
    FirstLine(t);
    match IndexOf(t, "\n")
    case None => t
    case Some(k) => t[k + 1..]
  }

  lemma FirstLine(t: string)
    ensures IndexOf(t, "\n").None? ==> '\n' !in t
    ensures IndexOf(t, "\n").Some? ==> var k := IndexOf(t, "\n").value;
      k < |t| && '\n' !in t[..k] && t == t[..k] + "\n" + t[k + 1..]
  {
    match IndexOf(t, "\n")
    case None =>
      NoNewlineBefore(t, |t|);
    case Some(k) =>
      SplitAround(t, "\n", k);
      NoNewlineBefore(t, k);
  }

  /** Where `"\n"` does not occur before `n`, no character before `n` is a line break. */
  lemma NoNewlineBefore(t: string, n: nat)
    requires n <= |t| && forall j :: 0 <= j < n ==> !OccursAt(t, "\n", j)
    ensures '\n' !in t[..n]
  {
    forall i | 0 <= i < n ensures t[..n][i] != '\n' {
      OccursAtCharAt(t, "\n", i);
    }
  }

  /** The HTML for a fenced region. */
  function CodeBlock(part: string): string {
    CodeOpen + CodeBody(part) + CodeClose
  }

  /** The HTML for one piece of a plain part: nothing when it is empty. */
  function Paragraph(p: string): seq<string> {
    if p == "" then [] else [ParaOpen + BreakLines(p) + ParaClose]
  }

  /** The HTML for the pieces `ps`, in order. */
  function Paragraphs(ps: seq<string>): seq<string> {
    if ps == [] then [] else Paragraphs(ps[..|ps| - 1]) + Paragraph(ps[|ps| - 1])
  }

  /** The HTML for a plain part: stripped, split at blank lines, empty pieces dropped. */
  function TextBlocks(part: string): seq<string> {
    Paragraphs(SplitOn(Strip(part), ParaBreak))
  }

  /** The HTML for the part at index `i` of the split: odd indices are code. */
  function PartBlocks(i: nat, part: string): seq<string> {
    if i % 2 == 1 then [CodeBlock(part)] else TextBlocks(part)
  }

  /** The HTML fragments for `parts`, in order. */
  function Blocks(parts: seq<string>): seq<string> {
    if parts == [] then [] else Blocks(parts[..|parts| - 1]) + PartBlocks(|parts| - 1, parts[|parts| - 1])
  }

  lemma BlocksSnoc(parts: seq<string>, i: nat)
    requires i < |parts|
    ensures Blocks(parts[..i + 1]) == Blocks(parts[..i]) + PartBlocks(i, parts[i])
  {
    assert parts[..i + 1][..i] == parts[..i];
  }

  lemma ParagraphsSnoc(ps: seq<string>, j: nat)
    requires j < |ps|
    ensures Paragraphs(ps[..j + 1]) == Paragraphs(ps[..j]) + Paragraph(ps[j])
  {
    assert ps[..j + 1][..j] == ps[..j];
  }

  /** What `format_agent_response` returns for `text`. */
  function Formatted(text: string): string {
    Concat(Blocks(SplitFences(StripCitations(text))))
  }

  /**
   * `format_agent_response`. The loop over the split parts is this method's;
   * the loop over the paragraphs of a plain part is `AppendParagraphs`.
   */
  method FormatAgentResponse(responseText: string) returns (html: string)
    ensures html == Formatted(responseText)
  {
    var formattedText := StripCitations(responseText);
    var parts := SplitFences(formattedText);
    var formattedHtml: seq<string> := [];
    for i := 0 to |parts|
      invariant formattedHtml == Blocks(parts[..i])
    {
      var part := parts[i];
      if i % 2 == 1 {
        var codeContent := CodeBody(part);
        formattedHtml := formattedHtml + [CodeOpen + codeContent + CodeClose];
      } else {
        formattedHtml := AppendParagraphs(formattedHtml, part);
      }
      BlocksSnoc(parts, i);
    }
    assert parts[..|parts|] == parts;
    html := Concat(formattedHtml);
  }

  /** The inner loop of `format_agent_response`: one `<p>` per non-empty piece of the stripped part. */
  method AppendParagraphs(formattedHtml: seq<string>, part: string) returns (out: seq<string>)
    ensures out == formattedHtml + TextBlocks(part)
  {
    out := formattedHtml;
    var paragraphs := SplitOn(Strip(part), ParaBreak);
    for j := 0 to |paragraphs|
      invariant out == formattedHtml + Paragraphs(paragraphs[..j])
    {
      ghost var before := out;
      var p := paragraphs[j];
      if p != "" {
        p := BreakLines(p);
        out := out + [ParaOpen + p + ParaClose];
      }
      assert out == before + Paragraph(paragraphs[j]);
      ParagraphsSnoc(paragraphs, j);
      AppendAssoc(formattedHtml, Paragraphs(paragraphs[..j]), Paragraph(paragraphs[j]));
    }
    assert paragraphs[..|paragraphs|] == paragraphs;
    assert Paragraphs(paragraphs) == TextBlocks(part);
  }

  lemma AppendAssoc(a: seq<string>, b: seq<string>, c: seq<string>)
    ensures a + (b + c) == a + b + c
  {
  }

  /** Text without a backtick holds no fence: it is a single plain part. */
  lemma NoBacktickOnePart(s: string)
    requires '`' !in s
    ensures SplitFences(s) == [s]
  {
    forall k ensures !OccursAt(s, Fence, k) {
      if 0 <= k && k + |Fence| <= |s| {
        assert s[k..k + |Fence|][0] == s[k];
      }
    }
  }

  /** A plain part yields nothing exactly when it is whitespace only. */
  lemma TextBlocksEmpty(part: string)
    ensures TextBlocks(part) == [] <==> AllSpace(part)
  {
    var t := Strip(part);
    var ps := SplitOn(t, ParaBreak);
    if t == [] {
      assert ps == [""];
      assert Paragraphs(ps) == Paragraphs([]) + Paragraph("");
    } else {
      assert !OccursAt(t, ParaBreak, 0) by {
        assert t[0] != ParaBreak[0];
      }
      var first := ps[0];
      FirstPieceNonEmpty(t);
      ParagraphsNonEmpty(ps, 0);
    }
  }

  lemma FirstPieceNonEmpty(t: string)
    requires t != [] && !OccursAt(t, ParaBreak, 0)
    ensures SplitOn(t, ParaBreak)[0] != []
  {
  }

  /** A non-empty piece anywhere yields a paragraph. */
  lemma {:induction false} ParagraphsNonEmpty(ps: seq<string>, k: nat)
    requires k < |ps| && ps[k] != []
    ensures Paragraphs(ps) != []
    decreases |ps|
  {
    if k < |ps| - 1 {
      assert ps[..|ps| - 1][k] == ps[k];
      ParagraphsNonEmpty(ps[..|ps| - 1], k);
    }
  }

  /** Text without citation brackets or backticks is formatted as one plain part. */
  lemma FormatPlain(s: string)
    requires Open !in s && '`' !in s
    ensures Formatted(s) == Concat(TextBlocks(s))
  {
    NoOpenUnchanged(s);
    NoBacktickOnePart(s);
    assert [s][..0] == [];
    assert Blocks([s]) == TextBlocks(s);
  }

  /** Empty or whitespace-only input formats to the empty string. */
  lemma FormatWhitespace(s: string)
    requires AllSpace(s)
    ensures Formatted(s) == ""
  {
    forall k | 0 <= k < |s| ensures s[k] != Open && s[k] != '`' {
      assert IsSpace(s[k]);
    }
    FormatPlain(s);
    TextBlocksEmpty(s);
  }

  /** A stripped part with no blank line is one paragraph, its newlines turned into line breaks. */
  lemma OneParagraph(part: string)
    requires Strip(part) != [] && IndexOf(Strip(part), ParaBreak).None?
    ensures TextBlocks(part) == [ParaOpen + BreakLines(Strip(part)) + ParaClose]
  {
    var ps := SplitOn(Strip(part), ParaBreak);
    assert ps == [Strip(part)];
    assert Paragraphs(ps) == Paragraphs([]) + Paragraph(ps[0]);
  }

  /**
   * A text that is one fenced region, with no backtick and no citation
   * bracket inside, formats to one code block.
   */
  lemma FormatFencedBlock(c: string)
    requires Open !in c && '`' !in c
    ensures Formatted(Fence + c + Fence) == CodeOpen + CodeBody(c) + CodeClose
  {
    var s := Fence + c + Fence;
    assert Open !in s;
    NoOpenUnchanged(s);
    FencedBlockSplits(c);
    CodeOnlyBlocks(c);
  }

  lemma FencedBlockSplits(c: string)
    requires '`' !in c
    ensures SplitFences(Fence + c + Fence) == ["", c, ""]
  {
    var s := Fence + c + Fence;
    assert OccursAt(s, Fence, 0);
    IndexOfExact(s, Fence, 0);
    var body := s[|Fence|..];
    assert body == c + Fence;
    assert OccursAt(body, Fence, |c|);
    forall j | 0 <= j < |c| ensures !OccursAt(body, Fence, j) {
      assert body[j] == c[j];
      if j + |Fence| <= |body| {
        assert body[j..j + |Fence|][0] == body[j];
      }
    }
    IndexOfExact(body, Fence, |c|);
    assert body[..|c|] == c;
    assert body[|c| + |Fence|..] == "";
    assert SplitFences("") == [""];
  }

  lemma CodeOnlyBlocks(c: string)
    ensures Concat(Blocks(["", c, ""])) == CodeOpen + CodeBody(c) + CodeClose
  {
    var e: string := "";
    TextBlocksEmpty(e);
    BlocksThree(e, c, e);
    ConcatOne(CodeBlock(c));
  }

  /** A code region between two plain parts yields the plain parts' paragraphs around one code block. */
  lemma BlocksThree(a: string, c: string, b: string)
    ensures Blocks([a, c, b]) == TextBlocks(a) + [CodeBlock(c)] + TextBlocks(b)
  {
    var acb := [a, c, b];
    assert acb[..2] == [a, c];
    assert [a, c][..1] == [a];
    assert Blocks(acb) == Blocks([a]) + PartBlocks(1, c) + PartBlocks(2, b);
    BlocksOne(a);
    CodePart(1, c);
    PlainPart(2, b);
  }

  lemma BlocksOne(a: string)
    ensures Blocks([a]) == TextBlocks(a)
  {
    assert [a][..0] == [];
  }

  lemma CodePart(i: nat, x: string)
    requires i % 2 == 1
    ensures PartBlocks(i, x) == [CodeBlock(x)]
  {
  }

  lemma PlainPart(i: nat, x: string)
    requires i % 2 == 0
    ensures PartBlocks(i, x) == TextBlocks(x)
  {
  }

  /**
   * A run of text that the formatter passes through as it is: not empty,
   * without a line break, a backtick or a citation bracket, and with no
   * whitespace at either end.
   */
  predicate PlainRun(p: string) {
    p != [] && !IsSpace(p[0]) && !IsSpace(p[|p| - 1]) && '\n' !in p && '`' !in p && Open !in p
  }

  /**
   * A fenced region whose first line is a language tag loses that line; the
   * code itself, which may span several lines, is kept as it is.
   */
  lemma FormatCodeDropsLanguage(lang: string, code: string)
    requires PlainRun(lang)
    requires code != [] && !IsSpace(code[|code| - 1]) && '`' !in code && Open !in code
    ensures Formatted(Fence + lang + "\n" + code + "\n" + Fence) == CodeOpen + code + CodeClose
  {
    var c := lang + "\n" + code + "\n";
    assert Fence + lang + "\n" + code + "\n" + Fence == Fence + c + Fence;
    FormatFencedBlock(c);
    CodeBodyDropsLanguage(lang, code);
  }

  lemma CodeBodyDropsLanguage(lang: string, code: string)
    requires PlainRun(lang)
    requires code != [] && !IsSpace(code[|code| - 1])
    ensures CodeBody(lang + "\n" + code + "\n") == code
  {
    var c := lang + "\n" + code + "\n";
    var t := lang + "\n" + code;
    assert c[..0] == [] && c[0] == lang[0];
    assert c[|t|..] == "\n" && c[|t| - 1] == code[|code| - 1];
    StripExact(c, 0, |t|);
    assert c[0..|t|] == t;
    FirstNewline(lang, code);
    assert t[|lang| + 1..] == code;
  }

  lemma FirstNewline(lang: string, code: string)
    requires '\n' !in lang
    ensures IndexOf(lang + "\n" + code, "\n") == Some(|lang|)
  {
    var t := lang + "\n" + code;
    OccursAtChar(t, "\n");
    forall k | 0 <= k < |lang| ensures t[k] != '\n' {
      assert t[k] == lang[k];
    }
    IndexOfExact(t, "\n", |lang|);
  }

  /** A blank line between two runs gives two paragraphs. */
  lemma FormatTwoParagraphs(p: string, q: string)
    requires PlainRun(p) && PlainRun(q)
    ensures Formatted(p + ParaBreak + q) == (ParaOpen + p + ParaClose) + (ParaOpen + q + ParaClose)
  {
    var s := p + ParaBreak + q;
    PlainText(p, ParaBreak, q);
    FormatPlain(s);
    TwoParagraphBlocks(p, q);
    ConcatTwo(ParaOpen + p + ParaClose, ParaOpen + q + ParaClose);
  }

  lemma TwoParagraphBlocks(p: string, q: string)
    requires PlainRun(p) && PlainRun(q)
    ensures TextBlocks(p + ParaBreak + q) == [ParaOpen + p + ParaClose, ParaOpen + q + ParaClose]
  {
    var s := p + ParaBreak + q;
    StripJoined(p, ParaBreak, q);
    SplitTwo(p, q);
    ParagraphsTwo(p, q);
  }

  lemma ParagraphsTwo(p: string, q: string)
    requires '\n' !in p && '\n' !in q && p != [] && q != []
    ensures Paragraphs([p, q]) == [ParaOpen + p + ParaClose, ParaOpen + q + ParaClose]
  {
    var ps := [p, q];
    ParagraphsSnoc(ps, 0);
    ParagraphsSnoc(ps, 1);
    assert ps[..0] == [] && ps[..2] == ps;
  }

  lemma ConcatOne(x: string)
    ensures Concat([x]) == x
  {
    assert [x][1..] == [];
  }

  lemma ConcatTwo(x: string, y: string)
    ensures Concat([x, y]) == x + y
  {
    assert [x, y][1..] == [y];
    assert [y][1..] == [];
    assert Concat([y]) == y + Concat([]);
  }

  /** Two runs joined by `sep` hold no bracket or backtick and do not start or end with whitespace. */
  lemma PlainText(p: string, sep: string, q: string)
    requires PlainRun(p) && PlainRun(q) && '`' !in sep && Open !in sep
    ensures var s := p + sep + q;
      && Open !in s && '`' !in s
      && s != [] && !IsSpace(s[0]) && !IsSpace(s[|s| - 1])
      && AllSpace(s[..0]) && AllSpace(s[|s|..])
  {
    var s := p + sep + q;
    assert s[0] == p[0] && s[|s| - 1] == q[|q| - 1];
  }

  lemma SplitTwo(p: string, q: string)
    requires PlainRun(p) && PlainRun(q)
    ensures SplitOn(p + ParaBreak + q, ParaBreak) == [p, q]
  {
    var s := p + ParaBreak + q;
    forall k | 0 <= k < |p| ensures !OccursAt(s, ParaBreak, k) {
      assert s[k] == p[k] && s[k..k + 2][0] == s[k];
    }
    assert s[|p|..|p| + 2] == ParaBreak;
    IndexOfExact(s, ParaBreak, |p|);
    assert s[..|p|] == p && s[|p| + 2..] == q;
    NoBreakOnePiece(q);
  }

  lemma NoBreakOnePiece(q: string)
    requires '\n' !in q
    ensures SplitOn(q, ParaBreak) == [q]
  {
    forall k ensures !OccursAt(q, ParaBreak, k) {
      if 0 <= k && k + 2 <= |q| {
        assert q[k..k + 2][0] == q[k];
      }
    }
  }

  /** A single newline between two runs becomes a line break inside one paragraph. */
  lemma FormatLineBreak(p: string, q: string)
    requires PlainRun(p) && PlainRun(q)
    ensures Formatted(p + "\n" + q) == ParaOpen + (p + "<br>" + q) + ParaClose
  {
    var s := p + "\n" + q;
    PlainText(p, "\n", q);
    FormatPlain(s);
    LineBreakBlocks(p, q);
    ConcatOne(ParaOpen + (p + "<br>" + q) + ParaClose);
  }

  lemma LineBreakBlocks(p: string, q: string)
    requires PlainRun(p) && PlainRun(q)
    ensures TextBlocks(p + "\n" + q) == [ParaOpen + (p + "<br>" + q) + ParaClose]
  {
    var s := p + "\n" + q;
    StripJoined(p, "\n", q);
    NoBlankLine(p, q);
    OneParagraph(s);
    BreakLinesBetween(p, q);
  }

  /** Two runs joined by a separator without brackets or backticks are left alone by `strip`. */
  lemma StripJoined(p: string, sep: string, q: string)
    requires PlainRun(p) && PlainRun(q) && '`' !in sep && Open !in sep
    ensures Strip(p + sep + q) == p + sep + q
  {
    var s := p + sep + q;
    PlainText(p, sep, q);
    StripExact(s, 0, |s|);
    assert s[0..|s|] == s;
  }

  lemma BreakLinesBetween(p: string, q: string)
    requires '\n' !in p && '\n' !in q
    ensures BreakLines(p + "\n" + q) == p + "<br>" + q
  {
    var nl := "\n";
    assert BreakLines(nl) == "<br>" by {
      assert nl[1..] == [];
    }
    calc {
      BreakLines(p + nl + q);
      { BreakLinesAppend(p + nl, q); }
      BreakLines(p + nl) + BreakLines(q);
      { BreakLinesAppend(p, nl); }
      BreakLines(p) + BreakLines(nl) + BreakLines(q);
      p + "<br>" + q;
    }
  }

  lemma NoBlankLine(p: string, q: string)
    requires PlainRun(p) && PlainRun(q)
    ensures IndexOf(p + "\n" + q, ParaBreak).None?
  {
    var s := p + "\n" + q;
    forall k ensures !OccursAt(s, ParaBreak, k) {
      if 0 <= k && k + 2 <= |s| {
        assert s[k..k + 2][0] == s[k] && s[k..k + 2][1] == s[k + 1];
        if k < |p| {
          assert s[k] == p[k];
        } else {
          assert s[k + 1] == q[k + 1 - |p| - 1];
        }
      }
    }
  }
}
