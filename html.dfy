/**
 * The Markdown-to-HTML converter (`FormatConverter._markdown_to_html`).
 *
 * Like the LaTeX converter it walks the lines once, now carrying three flags
 * (the open list, an open paragraph, an open code block). Each line's effect
 * is specified as a short sequence of pieces; the rendered pieces between the
 * fixed page head and tail are the page.
 */
module Html {
  import opened Wrappers
  import opened Text
  import opened Inline

  datatype ListTag = Ul | Ol

  function Other(e: ListTag): ListTag {
    if e == Ul then Ol else Ul
  }

  function OpenTag(e: ListTag): string {
    if e == Ul then "<ul>\n" else "<ol>\n"
  }

  function CloseTag(e: ListTag): string {
    if e == Ul then "</ul>\n" else "</ol>\n"
  }

  /** What one line contributes: the opening and closing tags the converter
      tracks, or other text. */
  datatype Piece =
    | OpenPre(lang: string) | ClosePre
    | OpenList(tag: ListTag) | CloseList(tag: ListTag)
    | OpenP | CloseP
    | Chunk(text: string)

  function Render(p: Piece): string {
    match p
    case OpenPre(lang) => "<pre><code class=\"language-" + lang + "\">\n"
    case ClosePre => "</code></pre>\n"
    case OpenList(e) => OpenTag(e)
    case CloseList(e) => CloseTag(e)
    case OpenP => "<p>"
    case CloseP => "</p>\n"
    case Chunk(t) => t
  }

  function RenderAll(ps: seq<Piece>): string
    decreases |ps|
  {
    if ps == [] then "" else Render(ps[0]) + RenderAll(ps[1..])
  }

  lemma {:induction false} RenderAllAppend(a: seq<Piece>, b: seq<Piece>)
    ensures RenderAll(a + b) == RenderAll(a) + RenderAll(b)
    decreases |a|
  {
    if a == [] {
      assert a + b == b;
    } else {
      assert (a + b)[1..] == a[1..] + b;
      RenderAllAppend(a[1..], b);
    }
  }

  lemma RenderOne(p: Piece)
    ensures RenderAll([p]) == Render(p)
  {
    assert [p][1..] == [];
    assert RenderAll([p]) == Render(p) + "";
  }

  lemma RenderTwo(p: Piece, q: Piece)
    ensures RenderAll([p, q]) == Render(p) + Render(q)
  {
    assert [p, q][1..] == [q];
    RenderOne(q);
  }

  lemma RenderThree(p: Piece, q: Piece, r: Piece)
    ensures RenderAll([p, q, r]) == Render(p) + Render(q) + Render(r)
  {
    assert [p, q, r][1..] == [q, r];
    RenderTwo(q, r);
    assert RenderAll([p, q, r]) == Render(p) + (Render(q) + Render(r));
  }

  // ---------------------------------------------------------------------
  // Escaping inside code blocks

  /** `line.replace('&', '&amp;').replace('<', '&lt;').replace('>', '&gt;')`. */
  function Escape(s: string): (r: string)
    ensures '<' !in r && '>' !in r
  {
    var amp := ReplaceChar(s, '&', "&amp;");
    var lt := ReplaceChar(amp, '<', "&lt;");
    ReplaceCharAbsent(lt, '>', "&gt;", '<');
    ReplaceChar(lt, '>', "&gt;")
  }

  function EscapeChar(c: char): string {
    if c == '&' then "&amp;" else if c == '<' then "&lt;" else if c == '>' then "&gt;" else [c]
  }

  /** Reading the three entities back, left to right. */
  function Unescape(s: string): string
    decreases |s|
  {
    if s == [] then []
    else if StartsWith(s, "&amp;") then "&" + Unescape(s[5..])
    else if StartsWith(s, "&lt;") then "<" + Unescape(s[4..])
    else if StartsWith(s, "&gt;") then ">" + Unescape(s[4..])
    else [s[0]] + Unescape(s[1..])
  }

  lemma EscapeAppend(a: string, b: string)
    ensures Escape(a + b) == Escape(a) + Escape(b)
  {
    ReplaceCharAppend(a, b, '&', "&amp;");
    var a1, b1 := ReplaceChar(a, '&', "&amp;"), ReplaceChar(b, '&', "&amp;");
    ReplaceCharAppend(a1, b1, '<', "&lt;");
    ReplaceCharAppend(ReplaceChar(a1, '<', "&lt;"), ReplaceChar(b1, '<', "&lt;"), '>', "&gt;");
  }

  lemma EscapeSingle(c: char)
    ensures Escape([c]) == EscapeChar(c)
  {
    assert [c][1..] == [];
    assert ReplaceChar([c], '&', "&amp;") == (if c == '&' then "&amp;" else [c]) + ReplaceChar([], '&', "&amp;");
    var amp := ReplaceChar([c], '&', "&amp;");
    if c == '&' {
      assert '<' !in amp && '>' !in amp;
    } else {
      assert amp == [c];
      assert ReplaceChar([c], '<', "&lt;") == (if c == '<' then "&lt;" else [c]) + ReplaceChar([], '<', "&lt;");
      var lt := ReplaceChar([c], '<', "&lt;");
      if c == '<' {
        assert '>' !in lt;
      } else {
        assert lt == [c];
        assert ReplaceChar([c], '>', "&gt;") == (if c == '>' then "&gt;" else [c]) + ReplaceChar([], '>', "&gt;");
      }
    }
  }

  lemma UnescapeAmp(rest: string)
    ensures Unescape("&amp;" + rest) == "&" + Unescape(rest)
  {
    var s := "&amp;" + rest;
    assert s[..5] == "&amp;" && s[5..] == rest;
  }

  lemma UnescapeLt(rest: string)
    ensures Unescape("&lt;" + rest) == "<" + Unescape(rest)
  {
    var s := "&lt;" + rest;
    assert !StartsWith(s, "&amp;") by {
      assert s[1] == 'l';
    }
    assert s[..4] == "&lt;" && s[4..] == rest;
  }

  lemma UnescapeGt(rest: string)
    ensures Unescape("&gt;" + rest) == ">" + Unescape(rest)
  {
    var s := "&gt;" + rest;
    assert !StartsWith(s, "&amp;") && !StartsWith(s, "&lt;") by {
      assert s[1] == 'g';
    }
    assert s[..4] == "&gt;" && s[4..] == rest;
  }

  lemma UnescapeOther(c: char, rest: string)
    requires c != '&'
    ensures Unescape([c] + rest) == [c] + Unescape(rest)
  {
    var s := [c] + rest;
    assert !StartsWith(s, "&amp;") && !StartsWith(s, "&lt;") && !StartsWith(s, "&gt;") by {
      assert s[0] == c;
    }
    assert s[1..] == rest;
  }

  /** Escaping a character and reading it back gives the character. */
  lemma UnescapeChar(c: char, rest: string)
    ensures Unescape(EscapeChar(c) + rest) == [c] + Unescape(rest)
  {
    if c == '&' {
      UnescapeAmp(rest);
    } else if c == '<' {
      UnescapeLt(rest);
    } else if c == '>' {
      UnescapeGt(rest);
    } else {
      UnescapeOther(c, rest);
    }
  }

  /** Escaping loses nothing: the entities read back to the original line. */
  lemma {:induction false} EscapeRoundTrip(s: string)
    ensures Unescape(Escape(s)) == s
    decreases |s|
  {
    if s == [] {
      assert Escape(s) == [];
    } else {
      assert s == [s[0]] + s[1..];
      EscapeAppend([s[0]], s[1..]);
      EscapeSingle(s[0]);
      UnescapeChar(s[0], Escape(s[1..]));
      EscapeRoundTrip(s[1..]);
    }
  }

  // ---------------------------------------------------------------------
  // The page and the line-by-line specification

  const HeadStart := "<!DOCTYPE html>\n<html lang=\"en\">\n<head>\n    <meta charset=\"UTF-8\">\n    <meta name=\"viewport\" content=\"width=device-width, initial-scale=1.0\">\n    <title>"

  /** The rest of the head: the fixed style sheet, then `<body>`. */
  const HeadEnd :=
    "</title>\n" +
    "    <style>\n" +
    "        body {\n" +
    "            font-family: Arial, sans-serif;\n" +
    "            line-height: 1.6;\n" +
    "            margin: 0;\n" +
    "            padding: 20px;\n" +
    "            max-width: 800px;\n" +
    "            margin: 0 auto;\n" +
    "        }\n" +
    "        h1, h2, h3, h4, h5, h6 {\n" +
    "            margin-top: 1.5em;\n" +
    "            margin-bottom: 0.5em;\n" +
    "        }\n" +
    "        code {\n" +
    "            background-color: #f5f5f5;\n" +
    "            padding: 2px 4px;\n" +
    "            border-radius: 3px;\n" +
    "            font-family: monospace;\n" +
    "        }\n" +
    "        pre {\n" +
    "            background-color: #f5f5f5;\n" +
    "            padding: 16px;\n" +
    "            border-radius: 5px;\n" +
    "            overflow-x: auto;\n" +
    "            font-family: monospace;\n" +
    "        }\n" +
    "        blockquote {\n" +
    "            border-left: 4px solid #ddd;\n" +
    "            padding-left: 16px;\n" +
    "            margin-left: 0;\n" +
    "            color: #666;\n" +
    "        }\n" +
    "        a {\n" +
    "            color: #0366d6;\n" +
    "            text-decoration: none;\n" +
    "        }\n" +
    "        a:hover {\n" +
    "            text-decoration: underline;\n" +
    "        }\n" +
    "        table {\n" +
    "            border-collapse: collapse;\n" +
    "            width: 100%;\n" +
    "        }\n" +
    "        table, th, td {\n" +
    "            border: 1px solid #ddd;\n" +
    "        }\n" +
    "        th, td {\n" +
    "            padding: 8px;\n" +
    "            text-align: left;\n" +
    "        }\n" +
    "        th {\n" +
    "            background-color: #f5f5f5;\n" +
    "        }\n" +
    "        img {\n" +
    "            max-width: 100%;\n" +
    "        }\n" +
    "    </style>\n" +
    "</head>\n" +
    "<body>\n"

  function Head(title: string): string {
    HeadStart + title + HeadEnd
  }

  const Tail := "\n</body>\n</html>\n"

  /** What a line is, judged on its stripped form in the order the converter
      tests it, with the text each kind carries. Inside a code block every
      line but a fence is code, whatever its kind. */
  datatype LineKind =
    | FenceLine(lang: string)              // starts with three backticks
    | BlankLine
    | Heading(level: nat, text: string)    // `# ` to `###### `
    | BulletItem(text: string)             // `- ` or `* `
    | NumberedItem(text: string)           // `^\d+\.\s`
    | TextLine(text: string)

  function Classify(line: string): LineKind {
    var t := Strip(line);
    if StartsWith(t, "```") then FenceLine(Strip(t[3..])) else TextKind(t)
  }

  /** The kind of a stripped line that is no fence: blank lines first. */
  function TextKind(t: string): (k: LineKind)
    ensures !k.FenceLine?
  {
    if t == "" then BlankLine else HeadingKind(t)
  }

  /** The kind of a non-blank stripped line that is no fence: headers next. */
  function HeadingKind(t: string): (k: LineKind)
    ensures !k.FenceLine? && !k.BlankLine?
  {
    if StartsWith(t, "# ") then Heading(1, t[2..])
    else if StartsWith(t, "## ") then Heading(2, t[3..])
    else if StartsWith(t, "### ") then Heading(3, t[4..])
    else if StartsWith(t, "#### ") then Heading(4, t[5..])
    else if StartsWith(t, "##### ") then Heading(5, t[6..])
    else if StartsWith(t, "###### ") then Heading(6, t[7..])
    else BodyKind(t)
  }

  /** The kind of a stripped line that is neither fence, blank nor header. */
  function BodyKind(t: string): (k: LineKind)
    ensures k.BulletItem? || k.NumberedItem? || k.TextLine?
  {
    if StartsWith(t, "- ") || StartsWith(t, "* ") then BulletItem(t[2..])
    else if IsNumberedItem(t) then NumberedItem(ItemText(t))
    else TextLine(t)
  }

  function HeadingOpen(level: nat): string {
    if level == 1 then "<h1>" else if level == 2 then "<h2>" else if level == 3 then "<h3>"
    else if level == 4 then "<h4>" else if level == 5 then "<h5>" else "<h6>"
  }

  function HeadingClose(level: nat): string {
    if level == 1 then "</h1>\n" else if level == 2 then "</h2>\n" else if level == 3 then "</h3>\n"
    else if level == 4 then "</h4>\n" else if level == 5 then "</h5>\n" else "</h6>\n"
  }

  /** The flags carried between lines: the open list (Python's `in_list`
      with `list_type`; `list_type` keeps its last value after the list is
      closed, but it is only consulted while `in_list` holds), whether a
      paragraph is open, whether a code block is open. */
  datatype State = State(list: Option<ListTag>, para: bool, code: bool)

  const Start := State(None, false, false)

  function Li(text: string): Piece {
    Chunk("<li>" + text + "</li>\n")
  }

  function CloseParagraph(st: State): seq<Piece> {
    if st.para then [CloseP] else []
  }

  function CloseListing(st: State): seq<Piece> {
    if st.list.Some? then [CloseList(st.list.value)] else []
  }

  /** A list item with tag `e`. Outside a list: close a paragraph, open `e`.
      Inside the other list: close a paragraph and the other list, but open
      nothing, so the item follows a closing tag. */
  function ItemStep(st: State, e: ListTag, text: string): (State, seq<Piece>) {
    if st.list == Some(e) then (st, [Li(text)])
    else
      (State(Some(e), false, st.code),
       CloseParagraph(st) + (if st.list.Some? then [CloseList(st.list.value)] else [OpenList(e)]) + [Li(text)])
  }

  /** A line of text closes an open list, then opens a paragraph or continues
      the open one after a space. */
  function ParagraphStep(st: State, t: string): (State, seq<Piece>) {
    (State(None, true, st.code),
     CloseListing(st) + [if st.para then Chunk(" ") else OpenP, Chunk(HtmlInline(t))])
  }

  /** A line outside code blocks. */
  function TextStep(st: State, kind: LineKind): (State, seq<Piece>) {
    match kind
    case BlankLine => (State(None, false, st.code), Finish(st))
    case Heading(level, text) => (st, [Chunk(HeadingOpen(level) + text + HeadingClose(level))])
    case BulletItem(text) => ItemStep(st, Ul, text)
    case NumberedItem(text) => ItemStep(st, Ol, text)
    case TextLine(t) => ParagraphStep(st, t)
    case FenceLine(_) => (st, [])
  }

  /** The effect of a line of the given kind. */
  function StepKind(st: State, line: string, kind: LineKind): (State, seq<Piece>) {
    match kind
    case FenceLine(lang) =>
      if !st.code then (st.(code := true), [OpenPre(lang)]) else (st.(code := false), [ClosePre])
    case _ =>
      if st.code then (st, [Chunk(Escape(line) + "\n")]) else TextStep(st, kind)
  }

  function Step(st: State, line: string): (State, seq<Piece>) {
    StepKind(st, line, Classify(line))
  }

  function Run(lines: seq<string>): (State, seq<Piece>)
    decreases |lines|
  {
    if lines == [] then (Start, [])
    else
      var before := Run(lines[..|lines| - 1]);
      var step := Step(before.0, lines[|lines| - 1]);
      (step.0, before.1 + step.1)
  }

  lemma RunPrefix(lines: seq<string>, i: nat)
    requires i < |lines|
    ensures Run(lines[..i + 1]).0 == Step(Run(lines[..i]).0, lines[i]).0
    ensures Run(lines[..i + 1]).1 == Run(lines[..i]).1 + Step(Run(lines[..i]).0, lines[i]).1
  {
    assert lines[..i + 1][..i] == lines[..i];
  }

  /** After the last line: close an open paragraph, then an open list. An open
      code block stays open. */
  function Finish(st: State): seq<Piece> {
    CloseParagraph(st) + CloseListing(st)
  }

  function Pieces(content: string): seq<Piece> {
    var run := Run(Split(content, '\n'));
    run.1 + Finish(run.0)
  }

  /** The page opens with the head carrying the title and ends by closing
      the body and the document. */
  function Page(title: string, content: string): (r: string)
    ensures StartsWith(r, Head(title)) && EndsWith(r, Tail)
  {
    var body := RenderAll(Pieces(content));
    Framed(Head(title), body, Tail);
    Head(title) + body + Tail
  }

  // ---------------------------------------------------------------------
  // The converter

  /** The converter's flags as the specification's state. */
  function Flags(inList: bool, listType: Option<ListTag>, inPara: bool, inCode: bool): State {
    State(if inList then listType else None, inPara, inCode)
  }

  /** The list branches of the loop body. */
  method ConvertItem(inList: bool, listType: Option<ListTag>, inPara: bool, inCode: bool, e: ListTag, text: string)
    returns (out: string, inList': bool, listType': Option<ListTag>, inPara': bool)
    requires inList ==> listType.Some?
    ensures inList' ==> listType'.Some?
    ensures ItemStep(Flags(inList, listType, inPara, inCode), e, text).0 == Flags(inList', listType', inPara', inCode)
    ensures out == RenderAll(ItemStep(Flags(inList, listType, inPara, inCode), e, text).1)
  {
    ghost var st := Flags(inList, listType, inPara, inCode);
    out, inList', listType', inPara' := "", inList, listType, inPara;
    var li := "<li>" + text + "</li>\n";
    if !inList || listType != Some(e) {
      if inPara {
        out := out + "</p>\n";
        inPara' := false;
        RenderOne(CloseP);
      }
      assert out == RenderAll(CloseParagraph(st));
      ghost var closing := out;
      ghost var mid := if st.list.Some? then CloseList(st.list.value) else OpenList(e);
      if inList {
        assert listType == Some(Other(e)) by {
          match listType.value {
            case Ul =>
            case Ol =>
          }
        }
        if listType == Some(Other(e)) {
          out := out + CloseTag(Other(e));
        }
      } else {
        out := out + OpenTag(e);
        inList' := true;
      }
      listType' := Some(e);
      out := out + li;
      RenderTwo(mid, Li(text));
      RenderAllAppend(CloseParagraph(st), [mid, Li(text)]);
      AppendAssoc(closing, Render(mid), li);
    } else {
      out := li;
      RenderOne(Li(text));
    }
  }

  /** The text branch of the loop body: leave a list, then open or continue a paragraph. */
  method ConvertParagraph(inList: bool, listType: Option<ListTag>, inPara: bool, inCode: bool, t: string)
    returns (out: string, inList': bool, inPara': bool)
    requires inList ==> listType.Some?
    ensures !inList' && inPara'
    ensures ParagraphStep(Flags(inList, listType, inPara, inCode), t).0 == Flags(inList', listType, inPara', inCode)
    ensures out == RenderAll(ParagraphStep(Flags(inList, listType, inPara, inCode), t).1)
  {
    ghost var st := Flags(inList, listType, inPara, inCode);
    out, inList', inPara' := "", inList, inPara;
    if inList {
      if listType == Some(Ul) {
        out := out + "</ul>\n";
      } else {
        out := out + "</ol>\n";
      }
      inList' := false;
      RenderOne(CloseList(listType.value));
    }
    assert out == RenderAll(CloseListing(st));
    ghost var closing := out;
    var formatted := HtmlInline(t);
    ghost var sep := if inPara then Chunk(" ") else OpenP;
    if !inPara {
      out := out + "<p>";
      inPara' := true;
    } else {
      out := out + " ";
    }
    out := out + formatted;
    RenderTwo(sep, Chunk(formatted));
    RenderAllAppend(CloseListing(st), [sep, Chunk(formatted)]);
    AppendAssoc(closing, Render(sep), formatted);
  }

  /** Items and text lines step as `ItemStep` and `ParagraphStep` say. */
  lemma BodySteps(st: State, x: string)
    ensures TextStep(st, BulletItem(x)).0 == ItemStep(st, Ul, x).0
    ensures TextStep(st, BulletItem(x)).1 == ItemStep(st, Ul, x).1
    ensures TextStep(st, NumberedItem(x)).0 == ItemStep(st, Ol, x).0
    ensures TextStep(st, NumberedItem(x)).1 == ItemStep(st, Ol, x).1
    ensures TextStep(st, TextLine(x)).0 == ParagraphStep(st, x).0
    ensures TextStep(st, TextLine(x)).1 == ParagraphStep(st, x).1
  {
    var a, b := TextStep(st, BulletItem(x)), ItemStep(st, Ul, x);
    assert a.0 == b.0;
    assert a.1 == b.1;
    var c, d := TextStep(st, NumberedItem(x)), ItemStep(st, Ol, x);
    assert c.0 == d.0;
    assert c.1 == d.1;
    var e, f := TextStep(st, TextLine(x)), ParagraphStep(st, x);
    assert e.0 == f.0;
    assert e.1 == f.1;
  }

  /** A text line right after another text line stays in the paragraph the
      first one opened: it adds one space and its own text, nothing else. */
  lemma ParagraphJoins(st: State, t1: string, t2: string)
    ensures ParagraphStep(st, t1).0.para
    ensures ParagraphStep(ParagraphStep(st, t1).0, t2).0 == ParagraphStep(st, t1).0
    ensures RenderAll(ParagraphStep(ParagraphStep(st, t1).0, t2).1) == " " + HtmlInline(t2)
  {
    var s1 := ParagraphStep(st, t1).0;
    assert ParagraphStep(s1, t2).1 == [Chunk(" "), Chunk(HtmlInline(t2))];
    RenderTwo(Chunk(" "), Chunk(HtmlInline(t2)));
  }

  /** Items and text: what remains once blank lines and headers are handled. */
  method ConvertBodyLine(line: string, inList: bool, listType: Option<ListTag>, inPara: bool, inCode: bool)
    returns (out: string, inList': bool, listType': Option<ListTag>, inPara': bool)
    requires inList ==> listType.Some?
    ensures inList' ==> listType'.Some?
    ensures TextStep(Flags(inList, listType, inPara, inCode), BodyKind(Strip(line))).0 == Flags(inList', listType', inPara', inCode)
    ensures out == RenderAll(TextStep(Flags(inList, listType, inPara, inCode), BodyKind(Strip(line))).1)
  {
    var t := Strip(line);
    ghost var kind := BodyKind(t);
    listType' := listType;
    if StartsWith(t, "- ") || StartsWith(t, "* ") {
      assert kind == BulletItem(t[2..]);
      BodySteps(Flags(inList, listType, inPara, inCode), t[2..]);
      out, inList', listType', inPara' := ConvertItem(inList, listType, inPara, inCode, Ul, t[2..]);
    } else if IsNumberedItem(t) {
      assert kind == NumberedItem(ItemText(t));
      var itemText := ItemText(t);
      BodySteps(Flags(inList, listType, inPara, inCode), itemText);
      out, inList', listType', inPara' := ConvertItem(inList, listType, inPara, inCode, Ol, itemText);
    } else {
      assert kind == TextLine(t);
      BodySteps(Flags(inList, listType, inPara, inCode), t);
      out, inList', inPara' := ConvertParagraph(inList, listType, inPara, inCode, t);
    }
  }

  lemma HeadingRendered(st: State, level: nat, text: string)
    ensures TextStep(st, Heading(level, text)).0 == st
    ensures RenderAll(TextStep(st, Heading(level, text)).1) == HeadingOpen(level) + text + HeadingClose(level)
  {
    RenderOne(Chunk(HeadingOpen(level) + text + HeadingClose(level)));
  }

  /** Headers `# ` to `###### `; anything else goes on to the list and text branches. */
  method ConvertHeadingLine(line: string, inList: bool, listType: Option<ListTag>, inPara: bool, inCode: bool)
    returns (out: string, inList': bool, listType': Option<ListTag>, inPara': bool)
    requires inList ==> listType.Some?
    ensures inList' ==> listType'.Some?
    ensures TextStep(Flags(inList, listType, inPara, inCode), HeadingKind(Strip(line))).0 == Flags(inList', listType', inPara', inCode)
    ensures out == RenderAll(TextStep(Flags(inList, listType, inPara, inCode), HeadingKind(Strip(line))).1)
  {
    var t := Strip(line);
    ghost var st := Flags(inList, listType, inPara, inCode);
    ghost var kind := HeadingKind(t);
    out, inList', listType', inPara' := "", inList, listType, inPara;
    if StartsWith(t, "# ") {
      out := "<h1>" + t[2..] + "</h1>\n";
      assert kind == Heading(1, t[2..]);
      HeadingRendered(st, 1, t[2..]);
    } else if StartsWith(t, "## ") {
      out := "<h2>" + t[3..] + "</h2>\n";
      assert kind == Heading(2, t[3..]);
      HeadingRendered(st, 2, t[3..]);
    } else if StartsWith(t, "### ") {
      out := "<h3>" + t[4..] + "</h3>\n";
      assert kind == Heading(3, t[4..]);
      HeadingRendered(st, 3, t[4..]);
    } else if StartsWith(t, "#### ") {
      out := "<h4>" + t[5..] + "</h4>\n";
      assert kind == Heading(4, t[5..]);
      HeadingRendered(st, 4, t[5..]);
    } else if StartsWith(t, "##### ") {
      out := "<h5>" + t[6..] + "</h5>\n";
      assert kind == Heading(5, t[6..]);
      HeadingRendered(st, 5, t[6..]);
    } else if StartsWith(t, "###### ") {
      out := "<h6>" + t[7..] + "</h6>\n";
      assert kind == Heading(6, t[7..]);
      HeadingRendered(st, 6, t[7..]);
    } else {
      assert kind == BodyKind(t);
      out, inList', listType', inPara' := ConvertBodyLine(line, inList, listType, inPara, inCode);
    }
  }

  /** The loop body for a line outside code blocks. */
  method ConvertTextLine(line: string, inList: bool, listType: Option<ListTag>, inPara: bool, inCode: bool)
    returns (out: string, inList': bool, listType': Option<ListTag>, inPara': bool)
    requires inList ==> listType.Some?
    ensures inList' ==> listType'.Some?
    ensures TextStep(Flags(inList, listType, inPara, inCode), TextKind(Strip(line))).0 == Flags(inList', listType', inPara', inCode)
    ensures out == RenderAll(TextStep(Flags(inList, listType, inPara, inCode), TextKind(Strip(line))).1)
  {
    var t := Strip(line);
    ghost var st := Flags(inList, listType, inPara, inCode);
    if t == "" {
      assert TextKind(t) == BlankLine;
      out := CloseOpenTags(inList, listType, inPara, inCode);
      inList', listType', inPara' := false, listType, false;
    } else {
      assert TextKind(t) == HeadingKind(t);
      out, inList', listType', inPara' := ConvertHeadingLine(line, inList, listType, inPara, inCode);
    }
  }

  /** The effect of a line, by the converter's tests in order: a fence
      toggles the code block, inside a block the line is escaped, and
      outside one it goes by its kind. */
  lemma LineCases(st: State, line: string)
    ensures var t := Strip(line);
      && (StartsWith(t, "```") ==>
        Step(st, line).0 == st.(code := !st.code)
        && Step(st, line).1 == if !st.code then [OpenPre(Strip(t[3..]))] else [ClosePre])
      && (!StartsWith(t, "```") && st.code ==>
        Step(st, line).0 == st && Step(st, line).1 == [Chunk(Escape(line) + "\n")])
      && (!StartsWith(t, "```") && !st.code ==>
        Step(st, line).0 == TextStep(st, TextKind(t)).0 && Step(st, line).1 == TextStep(st, TextKind(t)).1)
  {
  }

  /** A fence line opens a code block, with the language named after the
      backticks, or closes the open one. */
  method ConvertFence(t: string, inCode: bool) returns (out: string, inCode': bool)
    requires StartsWith(t, "```")
    ensures inCode' == !inCode
    ensures out == RenderAll(if !inCode then [OpenPre(Strip(t[3..]))] else [ClosePre])
  {
    if !inCode {
      var codeLanguage := Strip(t[3..]);
      out := "<pre><code class=\"language-" + codeLanguage + "\">\n";
      inCode' := true;
      RenderOne(OpenPre(codeLanguage));
    } else {
      out := "</code></pre>\n";
      inCode' := false;
      RenderOne(ClosePre);
    }
  }

  /** A line inside a code block is copied escaped. */
  method ConvertCode(line: string) returns (out: string)
    ensures out == RenderAll([Chunk(Escape(line) + "\n")])
  {
    var escaped := ReplaceChar(ReplaceChar(ReplaceChar(line, '&', "&amp;"), '<', "&lt;"), '>', "&gt;");
    assert escaped == Escape(line);
    out := escaped + "\n";
    RenderOne(Chunk(out));
  }

  /** The body of the converter's loop for one line: the text it appends and
      the flags it leaves. */
  method ConvertLine(line: string, inList: bool, listType: Option<ListTag>, inPara: bool, inCode: bool)
    returns (out: string, inList': bool, listType': Option<ListTag>, inPara': bool, inCode': bool)
    requires inList ==> listType.Some?
    ensures inList' ==> listType'.Some?
    ensures Step(Flags(inList, listType, inPara, inCode), line).0 == Flags(inList', listType', inPara', inCode')
    ensures out == RenderAll(Step(Flags(inList, listType, inPara, inCode), line).1)
  {
    var t := Strip(line);
    LineCases(Flags(inList, listType, inPara, inCode), line);
    out, inList', listType', inPara', inCode' := "", inList, listType, inPara, inCode;
    if StartsWith(t, "```") {
      out, inCode' := ConvertFence(t, inCode);
    } else if inCode {
      out := ConvertCode(line);
    } else {
      out, inList', listType', inPara' := ConvertTextLine(line, inList, listType, inPara, inCode);
    }
  }

  method AppendLine(lines: seq<string>, i: nat, body: string,
                    inList: bool, listType: Option<ListTag>, inPara: bool, inCode: bool)
    returns (body': string, inList': bool, listType': Option<ListTag>, inPara': bool, inCode': bool)
    requires i < |lines| && (inList ==> listType.Some?)
    requires Run(lines[..i]).0 == Flags(inList, listType, inPara, inCode)
    requires body == RenderAll(Run(lines[..i]).1)
    ensures inList' ==> listType'.Some?
    ensures Run(lines[..i + 1]).0 == Flags(inList', listType', inPara', inCode')
    ensures body' == RenderAll(Run(lines[..i + 1]).1)
  {
    RunPrefix(lines, i);
    var out;
    out, inList', listType', inPara', inCode' := ConvertLine(lines[i], inList, listType, inPara, inCode);
    RenderAllAppend(Run(lines[..i]).1, Step(Flags(inList, listType, inPara, inCode), lines[i]).1);
    body' := body + out;
  }

  /** The converter's loop over the lines: the text it appends after the
      page head and the flags it leaves. */
  method ConvertLines(lines: seq<string>)
    returns (body: string, inList: bool, listType: Option<ListTag>, inPara: bool, inCode: bool)
    ensures inList ==> listType.Some?
    ensures Run(lines).0 == Flags(inList, listType, inPara, inCode)
    ensures body == RenderAll(Run(lines).1)
  {
    body := "";
    inList, inCode, inPara, listType := false, false, false, None;
    var i := 0;
    while i < |lines|
      invariant 0 <= i <= |lines|
      invariant inList ==> listType.Some?
      invariant Run(lines[..i]).0 == Flags(inList, listType, inPara, inCode)
      invariant body == RenderAll(Run(lines[..i]).1)
    {
      body, inList, listType, inPara, inCode := AppendLine(lines, i, body, inList, listType, inPara, inCode);
      i := i + 1;
    }
    assert lines[..i] == lines;
  }

  /** The closing tags after the last line. */
  method CloseOpenTags(inList: bool, listType: Option<ListTag>, inPara: bool, inCode: bool)
    returns (out: string)
    requires inList ==> listType.Some?
    ensures out == RenderAll(Finish(Flags(inList, listType, inPara, inCode)))
  {
    ghost var st := Flags(inList, listType, inPara, inCode);
    out := "";
    if inPara {
      out := out + "</p>\n";
    }
    if inList {
      if listType == Some(Ul) {
        out := out + "</ul>\n";
      } else {
        out := out + "</ol>\n";
      }
    }
    if inPara && inList {
      assert Finish(st) == [CloseP, CloseList(listType.value)];
      RenderTwo(CloseP, CloseList(listType.value));
    } else if inPara {
      assert Finish(st) == [CloseP];
      RenderOne(CloseP);
    } else if inList {
      assert Finish(st) == [CloseList(listType.value)];
      RenderOne(CloseList(listType.value));
    } else {
      assert Finish(st) == [];
    }
  }

  /** `_markdown_to_html`: the page head, one pass over the lines with the
      three flags, the closing tags, the page tail. */
  method MarkdownToHtml(title: string, content: string) returns (html: string)
    ensures html == Page(title, content)
  {
    html := HeadStart + title + HeadEnd;
    var lines := Split(content, '\n');
    var body, inList, listType, inPara, inCode := ConvertLines(lines);
    html := html + body;
    var close := CloseOpenTags(inList, listType, inPara, inCode);
    html := html + close;
    html := html + Tail;
    RenderAllAppend(Run(lines).1, Finish(Run(lines).0));
    AppendAssoc(Head(title), body, close);
  }

  // ---------------------------------------------------------------------
  // Properties of the converter

  /** The tags the converter opens and closes, and the family each belongs to. */
  datatype Slot = ParaSlot | PreSlot | ListSlot(tag: ListTag)
  datatype Family = Paragraphs | Blocks | Lists

  function FamilyOf(s: Slot): Family {
    match s
    case ParaSlot => Paragraphs
    case PreSlot => Blocks
    case ListSlot(_) => Lists
  }

  function Opens(p: Piece): Option<Slot> {
    match p
    case OpenP => Some(ParaSlot)
    case OpenPre(_) => Some(PreSlot)
    case OpenList(e) => Some(ListSlot(e))
    case _ => None
  }

  function Closes(p: Piece): Option<Slot> {
    match p
    case CloseP => Some(ParaSlot)
    case ClosePre => Some(PreSlot)
    case CloseList(e) => Some(ListSlot(e))
    case _ => None
  }

  /** Reading the tags of one family left to right: the tag currently open,
      or `Broken` once a tag was opened while another was open or closed
      while it was not the open one. */
  datatype Nesting = Broken | Nest(open: Option<Slot>)

  function Scan(f: Family, n: Nesting, p: Piece): Nesting {
    match n
    case Broken => Broken
    case Nest(o) =>
      if Opens(p).Some? && FamilyOf(Opens(p).value) == f then
        (if o.None? then Nest(Opens(p)) else Broken)
      else if Closes(p).Some? && FamilyOf(Closes(p).value) == f then
        (if o == Closes(p) then Nest(None) else Broken)
      else n
  }

  function ScanAll(f: Family, n: Nesting, ps: seq<Piece>): Nesting
    decreases |ps|
  {
    if ps == [] then n else ScanAll(f, Scan(f, n, ps[0]), ps[1..])
  }

  lemma {:induction false} ScanAllAppend(f: Family, n: Nesting, a: seq<Piece>, b: seq<Piece>)
    ensures ScanAll(f, n, a + b) == ScanAll(f, ScanAll(f, n, a), b)
    decreases |a|
  {
    if a == [] {
      assert a + b == b;
    } else {
      assert (a + b)[1..] == a[1..] + b;
      ScanAllAppend(f, Scan(f, n, a[0]), a[1..], b);
    }
  }

  lemma ScanOne(f: Family, n: Nesting, p: Piece)
    ensures ScanAll(f, n, [p]) == Scan(f, n, p)
  {
    assert [p][1..] == [];
  }

  lemma ScanTwo(f: Family, n: Nesting, p: Piece, q: Piece)
    ensures ScanAll(f, n, [p, q]) == Scan(f, Scan(f, n, p), q)
  {
    assert [p, q][1..] == [q];
    ScanOne(f, Scan(f, n, p), q);
  }

  lemma ScanThree(f: Family, n: Nesting, p: Piece, q: Piece, r: Piece)
    ensures ScanAll(f, n, [p, q, r]) == Scan(f, Scan(f, Scan(f, n, p), q), r)
  {
    assert [p, q, r][1..] == [q, r];
    ScanTwo(f, Scan(f, n, p), q, r);
  }

  /** The tag of family `f` that the flags say is open. */
  function Opened(f: Family, st: State): Option<Slot> {
    match f
    case Paragraphs => if st.para then Some(ParaSlot) else None
    case Blocks => if st.code then Some(PreSlot) else None
    case Lists => if st.list.Some? then Some(ListSlot(st.list.value)) else None
  }

  /** A paragraph is never open inside a list. */
  predicate Consistent(st: State) {
    st.para ==> st.list.None?
  }

  /** An item of one list kind while the other list is open (outside code). */
  predicate Switches(st: State, kind: LineKind) {
    !st.code && st.list.Some?
    && ((kind.BulletItem? && st.list.value == Ol) || (kind.NumberedItem? && st.list.value == Ul))
  }

  lemma ItemScan(f: Family, st: State, e: ListTag, text: string)
    requires Consistent(st) && !(st.list.Some? && st.list.value != e)
    ensures ScanAll(f, Nest(Opened(f, st)), ItemStep(st, e, text).1) == Nest(Opened(f, ItemStep(st, e, text).0))
  {
    var n := Nest(Opened(f, st));
    if st.list == Some(e) {
      ScanOne(f, n, Li(text));
    } else if st.para {
      assert ItemStep(st, e, text).1 == [CloseP, OpenList(e), Li(text)];
      ScanThree(f, n, CloseP, OpenList(e), Li(text));
    } else {
      assert ItemStep(st, e, text).1 == [OpenList(e), Li(text)];
      ScanTwo(f, n, OpenList(e), Li(text));
    }
  }

  lemma CloseScan(f: Family, st: State)
    requires Consistent(st)
    ensures ScanAll(f, Nest(Opened(f, st)), Finish(st)) == Nest(Opened(f, State(None, false, st.code)))
  {
    var n := Nest(Opened(f, st));
    if st.para {
      assert Finish(st) == [CloseP];
      ScanOne(f, n, CloseP);
    } else if st.list.Some? {
      assert Finish(st) == [CloseList(st.list.value)];
      ScanOne(f, n, CloseList(st.list.value));
    } else {
      assert Finish(st) == [];
    }
  }

  lemma ParagraphScan(f: Family, st: State, t: string)
    requires Consistent(st)
    ensures ScanAll(f, Nest(Opened(f, st)), ParagraphStep(st, t).1) == Nest(Opened(f, ParagraphStep(st, t).0))
  {
    var n := Nest(Opened(f, st));
    var sep := if st.para then Chunk(" ") else OpenP;
    var r := ParagraphStep(st, t);
    assert r.0 == State(None, true, st.code);
    if st.list.Some? {
      assert ParagraphStep(st, t).1 == [CloseList(st.list.value), sep, Chunk(HtmlInline(t))];
      ScanThree(f, n, CloseList(st.list.value), sep, Chunk(HtmlInline(t)));
    } else {
      assert ParagraphStep(st, t).1 == [sep, Chunk(HtmlInline(t))];
      ScanTwo(f, n, sep, Chunk(HtmlInline(t)));
    }
  }

  /** One line outside a list switch keeps every family's scan in step with
      the flags, and keeps paragraphs out of lists. */
  lemma StepScan(f: Family, st: State, line: string, kind: LineKind)
    requires Consistent(st) && !Switches(st, kind)
    ensures Consistent(StepKind(st, line, kind).0)
    ensures ScanAll(f, Nest(Opened(f, st)), StepKind(st, line, kind).1) == Nest(Opened(f, StepKind(st, line, kind).0))
  {
    var n := Nest(Opened(f, st));
    if kind.FenceLine? || st.code {
      ScanOne(f, n, StepKind(st, line, kind).1[0]);
    } else {
      match kind {
        case BlankLine => CloseScan(f, st);
        case Heading(_, _) => ScanOne(f, n, StepKind(st, line, kind).1[0]);
        case BulletItem(text) => ItemScan(f, st, Ul, text);
        case NumberedItem(text) => ItemScan(f, st, Ol, text);
        case TextLine(t) => ParagraphScan(f, st, t);
      }
    }
  }

  /** A paragraph can only be closed, and a code block only be toggled, so the
      paragraph and code-block scans never need the list condition. */
  lemma SwitchScan(f: Family, st: State, line: string, kind: LineKind)
    requires Consistent(st) && Switches(st, kind) && f != Lists
    ensures Consistent(StepKind(st, line, kind).0)
    ensures ScanAll(f, Nest(Opened(f, st)), StepKind(st, line, kind).1) == Nest(Opened(f, StepKind(st, line, kind).0))
  {
    var n := Nest(Opened(f, st));
    var e := if kind.BulletItem? then Ul else Ol;
    var text := if kind.BulletItem? then kind.text else kind.text;
    assert StepKind(st, line, kind) == ItemStep(st, e, text);
    assert ItemStep(st, e, text).1 == [CloseList(st.list.value), Li(text)];
    ScanTwo(f, n, CloseList(st.list.value), Li(text));
  }

  /** Switching from one list kind to the other closes the open list but
      opens no new one: the flags say a list is open, the tags say none is. */
  lemma SwitchLeavesListUnopened(st: State, line: string, kind: LineKind)
    requires Consistent(st) && Switches(st, kind)
    ensures StepKind(st, line, kind).0.list.Some?
    ensures ScanAll(Lists, Nest(Opened(Lists, st)), StepKind(st, line, kind).1) == Nest(None)
  {
    var n := Nest(Opened(Lists, st));
    var e := if kind.BulletItem? then Ul else Ol;
    assert StepKind(st, line, kind) == ItemStep(st, e, kind.text);
    assert ItemStep(st, e, kind.text).1 == [CloseList(st.list.value), Li(kind.text)];
    ScanTwo(Lists, n, CloseList(st.list.value), Li(kind.text));
  }

  /** No line switches list kinds while a list of the other kind is open. */
  ghost predicate Switchless(lines: seq<string>)
    decreases |lines|
  {
    lines == []
    || (Switchless(lines[..|lines| - 1])
        && !Switches(Run(lines[..|lines| - 1]).0, Classify(lines[|lines| - 1])))
  }

  lemma {:induction false} RunScan(f: Family, lines: seq<string>)
    requires f == Lists ==> Switchless(lines)
    ensures Consistent(Run(lines).0)
    ensures ScanAll(f, Nest(None), Run(lines).1) == Nest(Opened(f, Run(lines).0))
    decreases |lines|
  {
    if lines != [] {
      var init := lines[..|lines| - 1];
      var last := lines[|lines| - 1];
      RunScan(f, init);
      var before := Run(init);
      ScanAllAppend(f, Nest(None), before.1, Step(before.0, last).1);
      if Switches(before.0, Classify(last)) {
        SwitchScan(f, before.0, last, Classify(last));
      } else {
        StepScan(f, before.0, last, Classify(last));
      }
    }
  }

  lemma PageScan(f: Family, content: string)
    requires f == Lists ==> Switchless(Split(content, '\n'))
    ensures ScanAll(f, Nest(None), Pieces(content)) == Nest(Opened(f, State(None, false, Run(Split(content, '\n')).0.code)))
  {
    var run := Run(Split(content, '\n'));
    RunScan(f, Split(content, '\n'));
    ScanAllAppend(f, Nest(None), run.1, Finish(run.0));
    CloseScan(f, run.0);
  }

  /** Every `<p>` is opened while no paragraph is open and closed before the
      next one opens, and none is left open on the page. */
  lemma ParagraphsBalanced(content: string)
    ensures ScanAll(Paragraphs, Nest(None), Pieces(content)) == Nest(None)
  {
    PageScan(Paragraphs, content);
  }

  predicate IsFence(line: string) {
    StartsWith(Strip(line), "```")
  }

  function FenceCount(lines: seq<string>): nat
    decreases |lines|
  {
    if lines == [] then 0
    else FenceCount(lines[..|lines| - 1]) + (if IsFence(lines[|lines| - 1]) then 1 else 0)
  }

  lemma OddSuccessor(n: nat)
    ensures ((n + 1) % 2 == 1) == (n % 2 != 1)
  {
  }

  /** Only a fence toggles the code-block flag. */
  lemma CodeToggle(st: State, line: string, kind: LineKind)
    ensures StepKind(st, line, kind).0.code == (st.code != kind.FenceLine?)
  {
    if !kind.FenceLine? && !st.code {
      match kind {
        case BulletItem(text) =>
        case NumberedItem(text) =>
        case _ =>
      }
    }
  }

  lemma FenceClassified(line: string)
    ensures Classify(line).FenceLine? == IsFence(line)
  {
  }

  lemma {:induction false} CodeFlag(lines: seq<string>)
    ensures Run(lines).0.code == (FenceCount(lines) % 2 == 1)
    decreases |lines|
  {
    if lines != [] {
      var init := lines[..|lines| - 1];
      var last := lines[|lines| - 1];
      CodeFlag(init);
      var before := Run(init).0;
      var n := FenceCount(init);
      var fence := IsFence(last);
      assert before.code == (n % 2 == 1);
      CodeToggle(before, last, Classify(last));
      FenceClassified(last);
      var after := Step(before, last).0;
      assert after.code == (before.code != fence);
      assert Run(lines).0 == after;
      OddSuccessor(n);
      assert FenceCount(lines) == if fence then n + 1 else n;
    }
  }

  /** `<pre><code>` and `</code></pre>` alternate; a block is left open at
      the end of the page exactly when the content has an odd number of
      fence lines. */
  lemma CodeBlocksAlternate(content: string)
    ensures ScanAll(Blocks, Nest(None), Pieces(content))
         == Nest(if FenceCount(Split(content, '\n')) % 2 == 1 then Some(PreSlot) else None)
  {
    PageScan(Blocks, content);
    CodeFlag(Split(content, '\n'));
  }

  /** When no line switches list kinds, list tags nest and all are closed. */
  lemma ListsBalanced(content: string)
    requires Switchless(Split(content, '\n'))
    ensures ScanAll(Lists, Nest(None), Pieces(content)) == Nest(None)
  {
    PageScan(Lists, content);
    assert Opened(Lists, State(None, false, Run(Split(content, '\n')).0.code)) == None;
  }

  /** Inside a code block a line other than a fence is copied escaped: it
      carries no `<` or `>`, and reading the entities back gives the line. */
  lemma CodeLineEscaped(st: State, line: string)
    requires st.code && !IsFence(line)
    ensures Step(st, line).0 == st && Step(st, line).1 == [Chunk(Escape(line) + "\n")]
    ensures '<' !in Escape(line) && '>' !in Escape(line)
    ensures Unescape(Escape(line)) == line
  {
    assert !Classify(line).FenceLine?;
    EscapeRoundTrip(line);
  }
}
