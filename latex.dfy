/**
 * The Markdown-to-LaTeX converter (`FormatConverter._markdown_to_latex`).
 *
 * The converter walks the lines of the content once, carrying two flags
 * (the open list environment and whether a fenced code block is open), and
 * appends LaTeX text. The specification describes each line's effect as a
 * short sequence of pieces; the rendered pieces, framed by the preamble and
 * `\end{document}`, are the document.
 */
module Latex {
  import opened Wrappers
  import opened Text
  import opened Inline

  datatype ListEnv = Itemize | Enumerate

  function EnvName(e: ListEnv): string {
    match e
    case Itemize => "itemize"
    case Enumerate => "enumerate"
  }

  /** What one line contributes: list and verbatim environment markers, or literal output. */
  datatype Piece = BeginList(env: ListEnv) | EndList(env: ListEnv) | BeginVerbatim | EndVerbatim | Out(text: string)

  function Render(p: Piece): string {
    match p
    case BeginList(e) => "\\begin{" + EnvName(e) + "}\n"
    case EndList(e) => "\\end{" + EnvName(e) + "}\n\n"
    case BeginVerbatim => "\\begin{verbatim}\n"
    case EndVerbatim => "\\end{verbatim}\n\n"
    case Out(t) => t
  }

  function RenderAll(ps: seq<Piece>): string
    decreases |ps|
  {
    if ps == [] then "" else Render(ps[0]) + RenderAll(ps[1..])
  }

  lemma {:induction false} RenderAllAppend(a: seq<Piece>, b: seq<Piece>)
    ensures RenderAll(a + b) == RenderAll(a) + RenderAll(b)
    decreases |a|
  {
    if a == [] {
      assert a + b == b;
    } else {
      assert (a + b)[1..] == a[1..] + b;
      RenderAllAppend(a[1..], b);
    }
  }

  lemma RenderOne(p: Piece)
    ensures RenderAll([p]) == Render(p)
  {
    assert [p][1..] == [];
    assert RenderAll([p]) == Render(p) + RenderAll([]);
  }

  lemma RenderTwo(p: Piece, q: Piece)
    ensures RenderAll([p, q]) == Render(p) + Render(q)
  {
    assert [p, q][1..] == [q];
    assert RenderAll([p, q]) == Render(p) + RenderAll([q]);
    RenderOne(q);
  }

  lemma RenderThree(p: Piece, q: Piece, r: Piece)
    ensures RenderAll([p, q, r]) == Render(p) + Render(q) + Render(r)
  {
    assert [p, q, r][1..] == [q, r];
    assert RenderAll([p, q, r]) == Render(p) + RenderAll([q, r]);
    RenderTwo(q, r);
    AppendAssoc(Render(p), Render(q), Render(r));
  }

  /** The flags carried between lines: the open list environment (Python's
      `in_list` together with `list_type`, which are always set and cleared
      together) and `in_code_block`. */
  datatype State = State(list: Option<ListEnv>, inCode: bool)

  const Start := State(None, false)

  function Preamble(title: string): string {
    "\\documentclass{article}\n\\usepackage[utf8]{inputenc}\n\\usepackage{hyperref}\n"
    + "\\usepackage{graphicx}\n\\usepackage{amssymb,amsmath}\n\n\\title{" + title + "}\n\\date{}\n\n"
    + "\\begin{document}\n\n\\maketitle\n\n"
  }

  const Closing := "\\end{document}"

  /** The characters removed by `lstrip('# ')` (also `lstrip('## ')` and `lstrip('### ')`). */
  const HeaderChars: set<char> := {'#', ' '}

  predicate IsBullet(t: string) {
    StartsWith(t, "- ") || StartsWith(t, "* ")
  }

  /** `line.strip().lstrip('- ').lstrip('* ')`. */
  function BulletText(t: string): string {
    LStripChars(LStripChars(t, {'-', ' '}), {'*', ' '})
  }

  /** What a line is, judged on its stripped form in the order the converter
      tests it. Whether a code block is open is decided afterwards: inside a
      block every line other than the title line and a fence is code. */
  datatype LineKind =
    | TitleLine                   // `# <title>`, already in the preamble
    | FenceLine                   // starts with three backticks
    | Header(level: nat)          // `# `, `## `, `### `: levels 1 to 3
    | BulletItem                  // `- ` or `* `
    | NumberedItem                // `^\d+\.\s`
    | BlankLine
    | TextLine

  /** The kind of a line whose stripped form `t` is neither the title line
      nor a fence: the header tests come first. */
  function TextKind(t: string): (k: LineKind)
    ensures !k.TitleLine? && !k.FenceLine?
  {
    if StartsWith(t, "# ") then Header(1)
    else if StartsWith(t, "## ") then Header(2)
    else if StartsWith(t, "### ") then Header(3)
    else BodyKind(t)
  }

  /** The kind of a stripped line that is not a header either: list items next. */
  function BodyKind(t: string): (k: LineKind)
    ensures k.BulletItem? || k.NumberedItem? || k.BlankLine? || k.TextLine?
  {
    if IsBullet(t) then BulletItem
    else if IsNumberedItem(t) then NumberedItem
    else PlainKind(t)
  }

  /** Whatever else a stripped line is: blank when it is empty. */
  function PlainKind(t: string): (k: LineKind)
    ensures k.BlankLine? <==> t == ""
    ensures k.BlankLine? || k.TextLine?
  {
    if t == "" then BlankLine else TextLine
  }

  function Classify(title: string, line: string): LineKind {
    var t := Strip(line);
    if t == "# " + title then TitleLine
    else if StartsWith(t, "```") then FenceLine
    else TextKind(t)
  }

  /** Switching to list environment `e`: close another open list first, then begin `e`. */
  function OpenList(st: State, e: ListEnv): seq<Piece> {
    if st.list == Some(e) then []
    else (if st.list.Some? then [EndList(st.list.value)] else []) + [BeginList(e)]
  }

  /** A list item of environment `e` with the given text: switch to `e` if
      needed, then `\item`. */
  function ItemStep(st: State, e: ListEnv, text: string): (State, seq<Piece>) {
    (st.(list := Some(e)), OpenList(st, e) + [Out("\\item " + text + "\n")])
  }

  /** The sectioning command opening a header of the given level. */
  function Sectioning(level: nat): string {
    if level == 1 then "\\section{" else if level == 2 then "\\subsection{" else "\\subsubsection{"
  }

  /** A regular text line, after bold, italic and inline code are rewritten. */
  function Paragraph(line: string): Piece {
    Out(LatexInline(line) + "\n\n")
  }

  /** A line outside code blocks. A blank line closes an open list; outside a
      list it is emitted like any text line. Text inside a list is dropped. */
  function TextStep(st: State, line: string, kind: LineKind): (State, seq<Piece>) {
    var t := Strip(line);
    match kind
    case Header(level) => (st, [Out(Sectioning(level) + LStripChars(t, HeaderChars) + "}\n\n")])
    case BulletItem => ItemStep(st, Itemize, BulletText(t))
    case NumberedItem => ItemStep(st, Enumerate, ItemText(t))
    case BlankLine =>
      if st.list.Some? then (st.(list := None), [EndList(st.list.value)]) else (st, [Paragraph(line)])
    case TextLine => if st.list.None? then (st, [Paragraph(line)]) else (st, [])
    case TitleLine => (st, [])
    case FenceLine => (st, [])
  }

  /** The effect of a line of the given kind. */
  function StepKind(st: State, line: string, kind: LineKind): (State, seq<Piece>) {
    match kind
    case TitleLine => (st, [])
    case FenceLine =>
      if !st.inCode then (st.(inCode := true), [BeginVerbatim]) else (st.(inCode := false), [EndVerbatim])
    case kind =>
      if st.inCode then (st, [Out(line + "\n")]) else TextStep(st, line, kind)
  }

  /** The effect of one line of content. */
  function Step(title: string, st: State, line: string): (State, seq<Piece>) {
    StepKind(st, line, Classify(title, line))
  }

  /** The flags and pieces after the given lines. */
  function Run(title: string, lines: seq<string>): (State, seq<Piece>)
    decreases |lines|
  {
    if lines == [] then (Start, [])
    else
      var before := Run(title, lines[..|lines| - 1]);
      var step := Step(title, before.0, lines[|lines| - 1]);
      (step.0, before.1 + step.1)
  }

  lemma RunPrefix(title: string, lines: seq<string>, i: nat)
    requires i < |lines|
    ensures Run(title, lines[..i + 1]).0 == Step(title, Run(title, lines[..i]).0, lines[i]).0
    ensures Run(title, lines[..i + 1]).1 == Run(title, lines[..i]).1 + Step(title, Run(title, lines[..i]).0, lines[i]).1
  {
    assert lines[..i + 1][..i] == lines[..i];
  }

  /** Closing a list still open after the last line. */
  function Finish(st: State): seq<Piece> {
    if st.list.Some? then [EndList(st.list.value)] else []
  }

  function Pieces(title: string, content: string): seq<Piece> {
    var run := Run(title, Split(content, '\n'));
    run.1 + Finish(run.0)
  }

  /** The document opens with the fixed preamble carrying the title and
      ends with `\end{document}`. */
  function Document(title: string, content: string): (r: string)
    ensures StartsWith(r, Preamble(title)) && EndsWith(r, Closing)
  {
    var body := RenderAll(Pieces(title, content));
    Framed(Preamble(title), body, Closing);
    Preamble(title) + body + Closing
  }

  /** The list branch of the loop body: switch to environment `e` if needed,
      then append the item. */
  method ConvertItem(inList: bool, listType: Option<ListEnv>, inCode: bool, e: ListEnv, text: string)
    returns (out: string, inList': bool, listType': Option<ListEnv>)
    requires inList == listType.Some?
    ensures inList' == listType'.Some?
    ensures ItemStep(State(listType, inCode), e, text).0 == State(listType', inCode)
    ensures out == RenderAll(ItemStep(State(listType, inCode), e, text).1)
  {
    var item := "\\item " + text + "\n";
    out, inList', listType' := "", inList, listType;
    if !inList || listType != Some(e) {
      var begin := "\\begin{" + EnvName(e) + "}\n";
      if inList {
        out := "\\end{" + EnvName(listType.value) + "}\n\n" + begin + item;
        RenderThree(EndList(listType.value), BeginList(e), Out(item));
      } else {
        out := begin + item;
        RenderTwo(BeginList(e), Out(item));
      }
      inList' := true;
      listType' := Some(e);
    } else {
      out := item;
      RenderOne(Out(item));
    }
  }

  /** A header line leaves the state alone and emits its sectioning command. */
  lemma HeaderOut(st: State, line: string, level: nat)
    ensures TextStep(st, line, Header(level)).0 == st
    ensures TextStep(st, line, Header(level)).1 == [Out(Sectioning(level) + LStripChars(Strip(line), HeaderChars) + "}\n\n")]
    ensures RenderAll(TextStep(st, line, Header(level)).1) == Sectioning(level) + LStripChars(Strip(line), HeaderChars) + "}\n\n"
  {
    var x := Sectioning(level) + LStripChars(Strip(line), HeaderChars) + "}\n\n";
    var ps := TextStep(st, line, Header(level)).1;
    assert ps == [Out(x)];
    RenderOne(Out(x));
  }

  /** The loop body for a line outside code blocks: headers first. */
  method ConvertTextLine(line: string, inList: bool, listType: Option<ListEnv>, inCode: bool)
    returns (out: string, inList': bool, listType': Option<ListEnv>)
    requires inList == listType.Some?
    ensures inList' == listType'.Some?
    ensures TextStep(State(listType, inCode), line, TextKind(Strip(line))).0 == State(listType', inCode)
    ensures out == RenderAll(TextStep(State(listType, inCode), line, TextKind(Strip(line))).1)
  {
    var t := Strip(line);
    ghost var st := State(listType, inCode);
    out, inList', listType' := "", inList, listType;
    if StartsWith(t, "# ") {
      assert TextKind(t) == Header(1);
      HeaderOut(st, line, 1);
      out := "\\section{" + LStripChars(t, HeaderChars) + "}\n\n";
    } else if StartsWith(t, "## ") {
      assert TextKind(t) == Header(2);
      HeaderOut(st, line, 2);
      out := "\\subsection{" + LStripChars(t, HeaderChars) + "}\n\n";
    } else if StartsWith(t, "### ") {
      assert TextKind(t) == Header(3);
      HeaderOut(st, line, 3);
      out := "\\subsubsection{" + LStripChars(t, HeaderChars) + "}\n\n";
    } else {
      assert TextKind(t) == BodyKind(t);
      out, inList', listType' := ConvertBodyLine(line, inList, listType, inCode);
    }
  }

  /** A bullet item switches to `itemize` and emits `\item` with its text. */
  lemma BulletSteps(st: State, line: string)
    ensures TextStep(st, line, BulletItem).0 == ItemStep(st, Itemize, BulletText(Strip(line))).0
    ensures TextStep(st, line, BulletItem).1 == ItemStep(st, Itemize, BulletText(Strip(line))).1
  {
    var a, b := TextStep(st, line, BulletItem), ItemStep(st, Itemize, BulletText(Strip(line)));
    assert a.0 == b.0;
    assert a.1 == b.1;
  }

  /** A numbered item switches to `enumerate` and emits `\item` with its text. */
  lemma NumberedSteps(st: State, line: string)
    ensures TextStep(st, line, NumberedItem).0 == ItemStep(st, Enumerate, ItemText(Strip(line))).0
    ensures TextStep(st, line, NumberedItem).1 == ItemStep(st, Enumerate, ItemText(Strip(line))).1
  {
  }

  /** The rest of the loop body for a line outside code blocks: list items,
      blank lines and text. */
  method ConvertBodyLine(line: string, inList: bool, listType: Option<ListEnv>, inCode: bool)
    returns (out: string, inList': bool, listType': Option<ListEnv>)
    requires inList == listType.Some?
    ensures inList' == listType'.Some?
    ensures TextStep(State(listType, inCode), line, BodyKind(Strip(line))).0 == State(listType', inCode)
    ensures out == RenderAll(TextStep(State(listType, inCode), line, BodyKind(Strip(line))).1)
  {
    var t := Strip(line);
    if StartsWith(t, "- ") || StartsWith(t, "* ") {
      assert BodyKind(t) == BulletItem;
      BulletSteps(State(listType, inCode), line);
      out, inList', listType' := ConvertItem(inList, listType, inCode, Itemize, BulletText(t));
    } else if IsNumberedItem(t) {
      assert BodyKind(t) == NumberedItem;
      NumberedSteps(State(listType, inCode), line);
      out, inList', listType' := ConvertItem(inList, listType, inCode, Enumerate, ItemText(t));
    } else {
      assert BodyKind(t) == PlainKind(t);
      out, inList', listType' := ConvertPlainLine(line, inList, listType, inCode);
    }
  }

  /** The pieces of a blank or text line. */
  lemma PlainSteps(st: State, line: string)
    ensures st.list.Some? ==>
      TextStep(st, line, BlankLine).0 == st.(list := None) && TextStep(st, line, BlankLine).1 == [EndList(st.list.value)]
      && TextStep(st, line, TextLine).0 == st && TextStep(st, line, TextLine).1 == []
    ensures st.list.None? ==>
      TextStep(st, line, BlankLine).0 == st && TextStep(st, line, BlankLine).1 == [Paragraph(line)]
      && TextStep(st, line, TextLine).0 == st && TextStep(st, line, TextLine).1 == [Paragraph(line)]
  {
  }

  /** A blank or text line: a blank line closes an open list, and text outside
      a list becomes a paragraph. */
  method ConvertPlainLine(line: string, inList: bool, listType: Option<ListEnv>, inCode: bool)
    returns (out: string, inList': bool, listType': Option<ListEnv>)
    requires inList == listType.Some?
    ensures inList' == listType'.Some?
    ensures TextStep(State(listType, inCode), line, PlainKind(Strip(line))).0 == State(listType', inCode)
    ensures out == RenderAll(TextStep(State(listType, inCode), line, PlainKind(Strip(line))).1)
  {
    var t := Strip(line);
    PlainSteps(State(listType, inCode), line);
    out, inList', listType' := "", inList, listType;
    if inList && t == "" {
      out := "\\end{" + EnvName(listType.value) + "}\n\n";
      RenderOne(EndList(listType.value));
      inList' := false;
      listType' := None;
    } else if !inList {
      out := LatexInline(line) + "\n\n";
      RenderOne(Paragraph(line));
    } else {
      assert RenderAll([]) == "";
    }
  }

  /** The effect of a line, by the converter's tests in order. */
  lemma LineCases(title: string, st: State, line: string)
    ensures var t := Strip(line);
      && (t == "# " + title ==> Step(title, st, line).0 == st && Step(title, st, line).1 == [])
      && (t != "# " + title && StartsWith(t, "```") ==>
        Step(title, st, line).0 == st.(inCode := !st.inCode)
        && Step(title, st, line).1 == if !st.inCode then [BeginVerbatim] else [EndVerbatim])
      && (t != "# " + title && !StartsWith(t, "```") && st.inCode ==>
        Step(title, st, line).0 == st && Step(title, st, line).1 == [Out(line + "\n")])
      && (t != "# " + title && !StartsWith(t, "```") && !st.inCode ==>
        Step(title, st, line).0 == TextStep(st, line, TextKind(t)).0
        && Step(title, st, line).1 == TextStep(st, line, TextKind(t)).1)
  {
  }

  /** The body of the converter's loop for one line: the text it appends and
      the flags it leaves. */
  method ConvertLine(title: string, line: string, inList: bool, listType: Option<ListEnv>, inCode: bool)
    returns (out: string, inList': bool, listType': Option<ListEnv>, inCode': bool)
    requires inList == listType.Some?
    ensures inList' == listType'.Some?
    ensures Step(title, State(listType, inCode), line).0 == State(listType', inCode')
    ensures out == RenderAll(Step(title, State(listType, inCode), line).1)
  {
    var t := Strip(line);
    LineCases(title, State(listType, inCode), line);
    out, inList', listType', inCode' := "", inList, listType, inCode;
    if t == "# " + title {
      assert RenderAll([]) == "";
    } else if StartsWith(t, "```") {
      if !inCode {
        out := "\\begin{verbatim}\n";
        RenderOne(BeginVerbatim);
        inCode' := true;
      } else {
        out := "\\end{verbatim}\n\n";
        RenderOne(EndVerbatim);
        inCode' := false;
      }
    } else if inCode {
      out := line + "\n";
      RenderOne(Out(out));
    } else {
      out, inList', listType' := ConvertTextLine(line, inList, listType, inCode);
    }
  }

  /** One iteration of the converter's loop, on the text built so far. */
  method AppendLine(title: string, lines: seq<string>, i: nat, latex: string,
                    inList: bool, listType: Option<ListEnv>, inCode: bool, ghost preamble: string)
    returns (latex': string, inList': bool, listType': Option<ListEnv>, inCode': bool)
    requires i < |lines| && inList == listType.Some?
    requires Run(title, lines[..i]).0 == State(listType, inCode)
    requires latex == preamble + RenderAll(Run(title, lines[..i]).1)
    ensures inList' == listType'.Some?
    ensures Run(title, lines[..i + 1]).0 == State(listType', inCode')
    ensures latex' == preamble + RenderAll(Run(title, lines[..i + 1]).1)
  {
    ghost var ps := Run(title, lines[..i]).1;
    ghost var qs := Step(title, State(listType, inCode), lines[i]).1;
    RunPrefix(title, lines, i);
    var out;
    out, inList', listType', inCode' := ConvertLine(title, lines[i], inList, listType, inCode);
    RenderAllAppend(ps, qs);
    latex' := latex + out;
    AppendAssoc(preamble, RenderAll(ps), RenderAll(qs));
  }

  /** `_markdown_to_latex`: one pass over the lines with the two flags. */
  method MarkdownToLatex(title: string, content: string) returns (latex: string)
    ensures latex == Document(title, content)
  {
    latex := Preamble(title);
    ghost var preamble := latex;
    var lines := Split(content, '\n');
    var inList := false;
    var listType: Option<ListEnv> := None;
    var inCode := false;
    var i := 0;
    while i < |lines|
      invariant 0 <= i <= |lines|
      invariant inList == listType.Some?
      invariant Run(title, lines[..i]).0 == State(listType, inCode)
      invariant latex == preamble + RenderAll(Run(title, lines[..i]).1)
    {
      latex, inList, listType, inCode := AppendLine(title, lines, i, latex, inList, listType, inCode, preamble);
      i := i + 1;
    }
    assert lines[..i] == lines;
    var ps := Run(title, lines).1;
    var fin := Finish(State(listType, inCode));
    RenderAllAppend(ps, fin);
    assert Pieces(title, content) == ps + fin;
    if inList {
      var close := "\\end{" + EnvName(listType.value) + "}\n\n";
      RenderOne(EndList(listType.value));
      assert RenderAll(fin) == close;
      latex := latex + close;
    } else {
      assert RenderAll(fin) == "";
      assert latex == latex + RenderAll(fin);
    }
    AppendAssoc(preamble, RenderAll(ps), RenderAll(fin));
    latex := latex + "\\end{document}";
  }

  // ---------------------------------------------------------------------
  // Properties of the converter

  /** Reading list markers left to right: the environment currently open, or
      `Broken` once a list was begun inside another or ended while not open. */
  datatype Nesting = Broken | Nest(open: Option<ListEnv>)

  function ScanList(n: Nesting, p: Piece): Nesting {
    match n
    case Broken => Broken
    case Nest(o) =>
      match p
      case BeginList(e) => if o.None? then Nest(Some(e)) else Broken
      case EndList(e) => if o == Some(e) then Nest(None) else Broken
      case _ => n
  }

  function ScanLists(n: Nesting, ps: seq<Piece>): Nesting
    decreases |ps|
  {
    if ps == [] then n else ScanLists(ScanList(n, ps[0]), ps[1..])
  }

  lemma {:induction false} ScanListsAppend(n: Nesting, a: seq<Piece>, b: seq<Piece>)
    ensures ScanLists(n, a + b) == ScanLists(ScanLists(n, a), b)
    decreases |a|
  {
    if a == [] {
      assert a + b == b;
    } else {
      assert (a + b)[1..] == a[1..] + b;
      ScanListsAppend(ScanList(n, a[0]), a[1..], b);
    }
  }

  lemma ScanNone(n: Nesting)
    ensures ScanLists(n, []) == n
  {
  }

  lemma ScanOne(n: Nesting, p: Piece)
    ensures ScanLists(n, [p]) == ScanList(n, p)
  {
    assert [p][1..] == [];
  }

  lemma ScanTwo(n: Nesting, p: Piece, q: Piece)
    ensures ScanLists(n, [p, q]) == ScanList(ScanList(n, p), q)
  {
    assert [p, q][1..] == [q];
    ScanOne(ScanList(n, p), q);
  }

  lemma ScanThree(n: Nesting, p: Piece, q: Piece, r: Piece)
    ensures ScanLists(n, [p, q, r]) == ScanList(ScanList(ScanList(n, p), q), r)
  {
    assert [p, q, r][1..] == [q, r];
    ScanTwo(ScanList(n, p), q, r);
  }

  /** A list item leaves its own environment open, wherever the scan was. */
  lemma ItemNesting(st: State, e: ListEnv, text: string)
    ensures ScanLists(Nest(st.list), ItemStep(st, e, text).1) == Nest(Some(e))
  {
    var n := Nest(st.list);
    var item := Out("\\item " + text + "\n");
    if st.list == Some(e) {
      assert ItemStep(st, e, text).1 == [item];
      ScanOne(n, item);
    } else if st.list.Some? {
      assert ItemStep(st, e, text).1 == [EndList(st.list.value), BeginList(e), item];
      ScanThree(n, EndList(st.list.value), BeginList(e), item);
    } else {
      assert ItemStep(st, e, text).1 == [BeginList(e), item];
      ScanTwo(n, BeginList(e), item);
    }
  }

  lemma TextNesting(st: State, line: string, kind: LineKind)
    ensures ScanLists(Nest(st.list), TextStep(st, line, kind).1) == Nest(TextStep(st, line, kind).0.list)
  {
    var n := Nest(st.list);
    var r := TextStep(st, line, kind);
    match kind {
      case BulletItem =>
        BulletSteps(st, line);
        ItemNesting(st, Itemize, BulletText(Strip(line)));
      case NumberedItem =>
        NumberedSteps(st, line);
        ItemNesting(st, Enumerate, ItemText(Strip(line)));
      case BlankLine =>
        PlainSteps(st, line);
        if st.list.Some? { ScanOne(n, EndList(st.list.value)); } else { ScanOne(n, Paragraph(line)); }
      case TextLine =>
        PlainSteps(st, line);
        if st.list.None? { ScanOne(n, Paragraph(line)); } else { ScanNone(n); }
      case Header(level) =>
        HeaderOut(st, line, level);
        ScanOne(n, r.1[0]);
      case TitleLine =>
        assert r.0 == st && r.1 == [];
        ScanNone(n);
      case FenceLine =>
        assert r.0 == st && r.1 == [];
        ScanNone(n);
    }
  }

  /** One line, of whatever kind, moves the list scan from the flags before
      it to the flags after it. */
  lemma StepNesting(st: State, line: string, kind: LineKind)
    ensures ScanLists(Nest(st.list), StepKind(st, line, kind).1) == Nest(StepKind(st, line, kind).0.list)
  {
    var n := Nest(st.list);
    if kind.TitleLine? {
      ScanNone(n);
    } else if kind.FenceLine? {
      ScanOne(n, StepKind(st, line, kind).1[0]);
    } else if st.inCode {
      ScanOne(n, Out(line + "\n"));
    } else {
      TextNesting(st, line, kind);
    }
  }

  lemma {:induction false} RunNesting(title: string, lines: seq<string>)
    ensures ScanLists(Nest(None), Run(title, lines).1) == Nest(Run(title, lines).0.list)
    decreases |lines|
  {
    if lines != [] {
      var init := lines[..|lines| - 1];
      RunNesting(title, init);
      var before := Run(title, init);
      var last := lines[|lines| - 1];
      ScanListsAppend(Nest(None), before.1, Step(title, before.0, last).1);
      StepNesting(before.0, last, Classify(title, last));
    }
  }

  /** The list environments of the document are well nested: every
      `\begin{itemize}` or `\begin{enumerate}` is issued while no list is
      open, every `\end` closes the environment that is open, and none is left
      open at `\end{document}`. */
  lemma ListsBalanced(title: string, content: string)
    ensures ScanLists(Nest(None), Pieces(title, content)) == Nest(None)
  {
    var run := Run(title, Split(content, '\n'));
    RunNesting(title, Split(content, '\n'));
    ScanListsAppend(Nest(None), run.1, Finish(run.0));
    if run.0.list.Some? {
      ScanOne(Nest(run.0.list), EndList(run.0.list.value));
    } else {
      ScanNone(Nest(run.0.list));
    }
  }

  /** Reading verbatim markers left to right: whether a verbatim block is open,
      or `Unpaired` once a begin or end came out of turn. */
  datatype Fencing = Unpaired | Fenced(open: bool)

  function ScanFence(f: Fencing, p: Piece): Fencing {
    match f
    case Unpaired => Unpaired
    case Fenced(o) =>
      match p
      case BeginVerbatim => if !o then Fenced(true) else Unpaired
      case EndVerbatim => if o then Fenced(false) else Unpaired
      case _ => f
  }

  function ScanFences(f: Fencing, ps: seq<Piece>): Fencing
    decreases |ps|
  {
    if ps == [] then f else ScanFences(ScanFence(f, ps[0]), ps[1..])
  }

  lemma {:induction false} ScanFencesAppend(f: Fencing, a: seq<Piece>, b: seq<Piece>)
    ensures ScanFences(f, a + b) == ScanFences(ScanFences(f, a), b)
    decreases |a|
  {
    if a == [] {
      assert a + b == b;
    } else {
      assert (a + b)[1..] == a[1..] + b;
      ScanFencesAppend(ScanFence(f, a[0]), a[1..], b);
    }
  }

  predicate NoVerbatim(ps: seq<Piece>) {
    forall i :: 0 <= i < |ps| ==> !ps[i].BeginVerbatim? && !ps[i].EndVerbatim?
  }

  lemma {:induction false} ScanFencesSkips(f: Fencing, ps: seq<Piece>)
    requires NoVerbatim(ps)
    ensures ScanFences(f, ps) == f
    decreases |ps|
  {
    if ps != [] {
      assert !ps[0].BeginVerbatim? && !ps[0].EndVerbatim?;
      assert ScanFence(f, ps[0]) == f;
      ScanFencesSkips(f, ps[1..]);
    }
  }

  predicate IsFence(line: string) {
    StartsWith(Strip(line), "```")
  }

  /** The number of fence lines (lines whose stripped form starts with three backticks). */
  function FenceCount(lines: seq<string>): nat
    decreases |lines|
  {
    if lines == [] then 0
    else FenceCount(lines[..|lines| - 1]) + (if IsFence(lines[|lines| - 1]) then 1 else 0)
  }

  /** The title line starts with `#`, so every fence is classified as one. */
  lemma FenceClassified(title: string, line: string)
    ensures Classify(title, line).FenceLine? <==> IsFence(line)
  {
    var t := Strip(line);
    if t == "# " + title {
      assert t[0] == '#';
    }
  }

  lemma ItemNoVerbatim(st: State, e: ListEnv, text: string)
    ensures NoVerbatim(ItemStep(st, e, text).1)
  {
    var item := Out("\\item " + text + "\n");
    if st.list == Some(e) {
      assert ItemStep(st, e, text).1 == [item];
    } else if st.list.Some? {
      assert ItemStep(st, e, text).1 == [EndList(st.list.value), BeginList(e), item];
    } else {
      assert ItemStep(st, e, text).1 == [BeginList(e), item];
    }
  }

  /** Outside the fence handling no line issues a verbatim marker. */
  lemma TextNoVerbatim(st: State, line: string, kind: LineKind)
    ensures NoVerbatim(TextStep(st, line, kind).1)
  {
    var ps := TextStep(st, line, kind).1;
    match kind {
      case BulletItem =>
        BulletSteps(st, line);
        ItemNoVerbatim(st, Itemize, BulletText(Strip(line)));
      case NumberedItem =>
        NumberedSteps(st, line);
        ItemNoVerbatim(st, Enumerate, ItemText(Strip(line)));
      case BlankLine => PlainSteps(st, line);
      case TextLine => PlainSteps(st, line);
      case Header(level) => HeaderOut(st, line, level);
      case TitleLine => assert ps == [];
      case FenceLine => assert ps == [];
    }
  }

  lemma StepFencing(st: State, line: string, kind: LineKind)
    ensures ScanFences(Fenced(st.inCode), StepKind(st, line, kind).1)
         == Fenced(StepKind(st, line, kind).0.inCode)
    ensures StepKind(st, line, kind).0.inCode == (st.inCode != kind.FenceLine?)
  {
    var f := Fenced(st.inCode);
    if kind.TitleLine? {
      ScanFencesSkips(f, []);
    } else if kind.FenceLine? {
      assert [BeginVerbatim][1..] == [] && [EndVerbatim][1..] == [];
    } else if st.inCode {
      ScanFencesSkips(f, [Out(line + "\n")]);
    } else {
      TextNoVerbatim(st, line, kind);
      ScanFencesSkips(f, TextStep(st, line, kind).1);
    }
  }

  lemma OddSuccessor(n: nat)
    ensures ((n + 1) % 2 == 1) == (n % 2 != 1)
  {
  }

  lemma {:induction false} RunFencing(title: string, lines: seq<string>)
    ensures ScanFences(Fenced(false), Run(title, lines).1) == Fenced(Run(title, lines).0.inCode)
    ensures Run(title, lines).0.inCode == (FenceCount(lines) % 2 == 1)
    decreases |lines|
  {
    if lines != [] {
      var init := lines[..|lines| - 1];
      RunFencing(title, init);
      var before := Run(title, init);
      var last := lines[|lines| - 1];
      var step := Step(title, before.0, last);
      assert Run(title, lines).0 == step.0 && Run(title, lines).1 == before.1 + step.1;
      assert FenceCount(lines) == FenceCount(init) + if IsFence(last) then 1 else 0;
      ScanFencesAppend(Fenced(false), before.1, step.1);
      StepFencing(before.0, last, Classify(title, last));
      FenceClassified(title, last);
      OddSuccessor(FenceCount(init));
    }
  }

  /** Verbatim blocks alternate: each `\begin{verbatim}` is issued outside a
      block and each `\end{verbatim}` inside one. A block is left open at
      `\end{document}` exactly when the content has an odd number of fence
      lines. */
  lemma VerbatimPaired(title: string, content: string)
    ensures ScanFences(Fenced(false), Pieces(title, content))
         == Fenced(FenceCount(Split(content, '\n')) % 2 == 1)
  {
    var run := Run(title, Split(content, '\n'));
    RunFencing(title, Split(content, '\n'));
    ScanFencesAppend(Fenced(false), run.1, Finish(run.0));
    ScanFencesSkips(Fenced(run.0.inCode), Finish(run.0));
  }

  /** The lines that are not the title line `# <title>`. */
  function WithoutTitle(title: string, lines: seq<string>): seq<string>
    decreases |lines|
  {
    if lines == [] then []
    else
      var init := WithoutTitle(title, lines[..|lines| - 1]);
      if Classify(title, lines[|lines| - 1]).TitleLine? then init else init + [lines[|lines| - 1]]
  }

  /** Running one more line appends that line's pieces. */
  lemma RunSnoc(title: string, lines: seq<string>, line: string)
    ensures Run(title, lines + [line]).0 == Step(title, Run(title, lines).0, line).0
    ensures Run(title, lines + [line]).1 == Run(title, lines).1 + Step(title, Run(title, lines).0, line).1
  {
    assert (lines + [line])[..|lines|] == lines;
  }

  /** The title line contributes nothing wherever it appears (the preamble
      already carries the title): converting without it gives the same result. */
  lemma {:induction false} TitleLinesDropped(title: string, lines: seq<string>)
    ensures Run(title, lines) == Run(title, WithoutTitle(title, lines))
    decreases |lines|
  {
    if lines != [] {
      var init := lines[..|lines| - 1];
      var last := lines[|lines| - 1];
      assert lines == init + [last];
      TitleLinesDropped(title, init);
      RunSnoc(title, init, last);
      if !Classify(title, last).TitleLine? {
        RunSnoc(title, WithoutTitle(title, init), last);
      } else {
        assert Run(title, init).1 + [] == Run(title, init).1;
      }
    }
  }

  /** Inside a fenced block every line but the title line and a fence is
      copied as it is, followed by a newline. */
  lemma CodeLineCopied(title: string, st: State, line: string)
    requires st.inCode && !Classify(title, line).FenceLine? && !Classify(title, line).TitleLine?
    ensures Step(title, st, line).0 == st
    ensures Step(title, st, line).1 == [Out(line + "\n")]
  {
  }

  /** Outside code, a header leaves an open list open, and regular text inside
      a list is dropped rather than emitted. */
  lemma ListLineRules(title: string, st: State, line: string)
    requires !st.inCode
    ensures Classify(title, line).Header? ==> Step(title, st, line).0 == st
    ensures Classify(title, line).TextLine? && st.list.Some? ==> Step(title, st, line).0 == st && Step(title, st, line).1 == []
  {
  }
}
