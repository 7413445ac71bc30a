/**
 * Cross-linking of generated notes: every other topic's name that occurs in a
 * note is rewritten into a link in the note's output format, with Python's
 * `re.sub` on an escaped literal pattern.
 *
 * `re.sub(pattern, repl, s)` is modelled in two parts: the replacement string
 * is first parsed as a template (backslash escapes; an unknown escape of an
 * ASCII letter raises `re.error`), and then the literal is replaced at every
 * match position from left to right without overlaps. Lookaround guards are
 * predicates on the match position in the original string.
 */
module Hyperlinks {
  import opened Wrappers
  import opened Text
  import opened Dicts
  import opened Models

  /** The output formats `add_hyperlinks` distinguishes. */
  datatype Format = MarkdownFormat | LatexFormat | HtmlFormat | OtherFormat

  /** `output_format.lower()` compared with the three supported names. */
  function FormatOf(outputFormat: string): Format {
    var lower := Lower(outputFormat);
    if lower == "markdown" then MarkdownFormat
    else if lower == "latex" then LatexFormat
    else if lower == "html" then HtmlFormat
    else OtherFormat
  }

  /** The format name is compared case-insensitively. */
  lemma FormatCaseInsensitive(outputFormat: string)
    ensures FormatOf(Lower(outputFormat)) == FormatOf(outputFormat)
  {
    LowerIdempotent(outputFormat);
  }

  // ---------------------------------------------------------------------
  // Replacement templates
  // ---------------------------------------------------------------------

  /** The one-letter escapes a replacement template understands, and `\\`. */
  function Escaped(c: char): Option<char> {
    match c
    case 'a' => Some('\U{07}')
    case 'b' => Some('\U{08}')
    case 'f' => Some('\U{0C}')
    case 'n' => Some('\n')
    case 'r' => Some('\r')
    case 't' => Some('\t')
    case 'v' => Some('\U{0B}')
    case '\\' => Some('\\')
    case _ => None
  }

  function Prepend(p: string, r: Result<string>): Result<string> {
    match r
    case Ok(v) => Ok(p + v)
    case Err(e) => Err(e)
  }

  /** The message of a template error raised at position `pos`. */
  function AtPosition(message: string, pos: nat): string {
    message + " at position " + NatToString(pos)
  }

  /** Expansion of template `t` whose first character sits at position `pos`
      of the whole template. */
  function Expand(t: string, pos: nat): Result<string>
    decreases |t|
  {
    if t == [] then Ok([])
    else if t[0] != '\\' then Prepend([t[0]], Expand(t[1..], pos + 1))
    else if |t| == 1 then Err(AtPosition("bad escape (end of pattern)", pos))
    else
      var c := t[1];
      if c == 'g' || IsDigit(c) then Err(AtPosition("invalid group reference", pos))
      else if Escaped(c).Some? then Prepend([Escaped(c).value], Expand(t[2..], pos + 2))
      else if IsAsciiLetter(c) then Err(AtPosition("bad escape \\" + [c], pos))
      else Prepend(['\\', c], Expand(t[2..], pos + 2))
  }

  /** The string `re.sub` inserts for each match of a group-free pattern. */
  function ExpandTemplate(repl: string): Result<string> {
    Expand(repl, 0)
  }

  /** A template without a backslash stands for itself. */
  lemma {:induction false} ExpandLiteral(t: string, pos: nat)
    requires '\\' !in t
    ensures Expand(t, pos) == Ok(t)
    decreases |t|
  {
    if t != [] {
      assert '\\' !in t[1..];
      ExpandLiteral(t[1..], pos + 1);
      assert [t[0]] + t[1..] == t;
    }
  }

  /** A template that opens with `\h` is rejected at its first character. */
  lemma BadEscapeH(t: string)
    requires StartsWith(t, "\\h")
    ensures ExpandTemplate(t) == Err("bad escape \\h at position 0")
  {
    assert t[0] == '\\' && t[1] == 'h';
    assert NatToString(0) == "0";
  }

  // ---------------------------------------------------------------------
  // Literal substitution with lookaround guards
  // ---------------------------------------------------------------------

  /** The lookaround guards around the escaped name, checked at a match at
      position `i`: markdown `(?<!\[)(?<!\]\()…(?!\])`, HTML `(?<!</a>)…(?!<)`,
      none for LaTeX. */
  predicate Guarded(fmt: Format, s: string, n: string, i: nat) {
    var after := i + |n|;
    match fmt
    case MarkdownFormat =>
      && !(1 <= i <= |s| && s[i - 1] == '[')
      && !(2 <= i <= |s| && s[i - 2..i] == "](")
      && !(after < |s| && s[after] == ']')
    case HtmlFormat =>
      && !(4 <= i <= |s| && s[i - 4..i] == "</a>")
      && !(after < |s| && s[after] == '<')
    case _ => true
  }

  /** A match of `n` at position `i` that `re.sub` replaces. */
  predicate MatchAt(fmt: Format, s: string, n: string, i: nat) {
    n != [] && OccursAt(s, n, i) && Guarded(fmt, s, n, i)
  }

  /** `re.sub` from position `i` on: replace each guarded occurrence by
      `rep`, resuming after it; copy every other character. */
  function SubFrom(fmt: Format, s: string, n: string, rep: string, i: nat): string
    decreases |s| - i
  {
    if i >= |s| then []
    else if MatchAt(fmt, s, n, i) then rep + SubFrom(fmt, s, n, rep, i + |n|)
    else [s[i]] + SubFrom(fmt, s, n, rep, i + 1)
  }

  function Sub(fmt: Format, s: string, n: string, rep: string): string {
    SubFrom(fmt, s, n, rep, 0)
  }

  /** Text that holds no match is copied unchanged up to the next match. */
  lemma {:induction false} SubCopies(fmt: Format, s: string, n: string, rep: string, i: nat, k: nat)
    requires i <= k <= |s|
    requires forall j :: i <= j < k ==> !MatchAt(fmt, s, n, j)
    ensures SubFrom(fmt, s, n, rep, i) == s[i..k] + SubFrom(fmt, s, n, rep, k)
    decreases k - i
  {
    if i < k {
      SubCopies(fmt, s, n, rep, i + 1, k);
      assert s[i..k] == [s[i]] + s[i + 1..k];
      AppendAssoc([s[i]], s[i + 1..k], SubFrom(fmt, s, n, rep, k));
    }
  }

  /** Content that does not contain the name is left as it is. */
  lemma SubAbsent(fmt: Format, s: string, n: string, rep: string)
    requires !Contains(s, n)
    ensures Sub(fmt, s, n, rep) == s
  {
    SubCopies(fmt, s, n, rep, 0, |s|);
    assert s[0..|s|] == s;
  }

  /** The first guarded occurrence is replaced, and everything before it is kept. */
  lemma SubFirstMatch(fmt: Format, s: string, n: string, rep: string, k: nat)
    requires k < |s| && MatchAt(fmt, s, n, k)
    requires forall j :: 0 <= j < k ==> !MatchAt(fmt, s, n, j)
    ensures Sub(fmt, s, n, rep) == s[..k] + rep + SubFrom(fmt, s, n, rep, k + |n|)
  {
    var tail := SubFrom(fmt, s, n, rep, k + |n|);
    SubCopies(fmt, s, n, rep, 0, k);
    assert SubFrom(fmt, s, n, rep, k) == rep + tail;
    assert s[0..k] == s[..k];
    AppendAssoc(s[..k], rep, tail);
  }

  // ---------------------------------------------------------------------
  // One name in one note
  // ---------------------------------------------------------------------

  /** `name.replace(" ", "_")`, the link target's stem. */
  function Underscored(name: string): (r: string)
    ensures ' ' !in r
  {
    ReplaceChar(name, ' ', "_")
  }

  /** The LaTeX link after its leading backslash: `hyperref[…]{…}`. */
  function LatexLinkBody(name: string): string {
    "hyperref[" + Underscored(name) + "]{" + name + "}"
  }

  /** The replacement template each supported format builds for a name. */
  function Replacement(fmt: Format, name: string): string {
    match fmt
    case MarkdownFormat => "[" + name + "](" + Underscored(name) + ".md)"
    case LatexFormat => "\\" + LatexLinkBody(name)
    case HtmlFormat => "<a href=\"" + Underscored(name) + ".html\">" + name + "</a>"
    case OtherFormat => name
  }

  /** The evidently intended template: for LaTeX the backslash of
      `\hyperref` doubled, so that the template stands for the command
      itself; the other formats' templates are taken literally already. */
  function IntendedReplacement(fmt: Format, name: string): string {
    if fmt == LatexFormat then "\\\\" + LatexLinkBody(name) else Replacement(fmt, name)
  }

  /** One `re.sub` call for one other topic's name, with the template as the
      source builds it; an unsupported format leaves the content alone. */
  function WrittenRewrite(fmt: Format, content: string, name: string): Result<string> {
    if fmt == OtherFormat then Ok(content)
    else
      match ExpandTemplate(Replacement(fmt, name))
      case Err(e) => Err(e)
      case Ok(rep) => Ok(Sub(fmt, content, name, rep))
  }

  /** One `re.sub` call for one other topic's name, with the LaTeX template's
      backslash doubled as evidently intended; an unsupported format leaves
      the content alone. */
  function Rewrite(fmt: Format, content: string, name: string): Result<string> {
    if fmt == OtherFormat then Ok(content)
    else
      match ExpandTemplate(IntendedReplacement(fmt, name))
      case Err(e) => Err(e)
      case Ok(rep) => Ok(Sub(fmt, content, name, rep))
  }

  /** Without a backslash in the name, the markdown and HTML templates are
      taken literally. */
  lemma LiteralTemplate(fmt: Format, name: string)
    requires fmt == MarkdownFormat || fmt == HtmlFormat
    requires '\\' !in name
    ensures ExpandTemplate(Replacement(fmt, name)) == Ok(Replacement(fmt, name))
  {
    ReplaceCharAbsent(name, ' ', "_", '\\');
    ExpandLiteral(Replacement(fmt, name), 0);
  }

  // ---------------------------------------------------------------------
  // All other topics for one note
  // ---------------------------------------------------------------------

  /** The names, in topic order among `ks`, that the inner loop rewrites for
      note `id`: other topics whose names have at least four characters. */
  function Candidates(id: string, topics: map<string, TopicData>, ks: seq<string>): (r: seq<string>)
    ensures |r| <= |ks|
    ensures forall j :: 0 <= j < |r| ==> |r[j]| >= 4
    decreases |ks|
  {
    if ks == [] then []
    else
      var k := ks[|ks| - 1];
      Candidates(id, topics, ks[..|ks| - 1])
        + (if k != id && k in topics && |topics[k].name| >= 4 then [topics[k].name] else [])
  }

  /** The rewrites for `names`, applied in order; the first error stops them. */
  function RewriteAll(fmt: Format, content: string, names: seq<string>): Result<string>
    decreases |names|
  {
    if names == [] then Ok(content)
    else
      match RewriteAll(fmt, content, names[..|names| - 1])
      case Err(e) => Err(e)
      case Ok(c) => Rewrite(fmt, c, names[|names| - 1])
  }

  /** What the inner loop makes of note `id`'s content. */
  function LinkContent(fmt: Format, content: string, id: string, topics: Dict<TopicData>): Result<string> {
    RewriteAll(fmt, content, Candidates(id, topics.vals, topics.keys))
  }

  /** The note's own topic never contributes a link, whatever it holds. */
  lemma {:induction false} OwnTopicIgnored(id: string, topics: map<string, TopicData>, ks: seq<string>, t: TopicData)
    ensures Candidates(id, topics[id := t], ks) == Candidates(id, topics, ks)
    decreases |ks|
  {
    if ks != [] {
      OwnTopicIgnored(id, topics, ks[..|ks| - 1], t);
    }
  }

  /** A topic whose name is shorter than four characters never contributes a link. */
  lemma {:induction false} ShortNameIgnored(id: string, topics: map<string, TopicData>, ks: seq<string>, k: string, t: TopicData)
    requires |t.name| < 4
    requires k in topics ==> |topics[k].name| < 4
    ensures Candidates(id, topics[k := t], ks) == Candidates(id, topics, ks)
    decreases |ks|
  {
    if ks != [] {
      ShortNameIgnored(id, topics, ks[..|ks| - 1], k, t);
    }
  }

  /** An unsupported format leaves every note as it is. */
  lemma {:induction false} OtherFormatUnchanged(content: string, names: seq<string>)
    ensures RewriteAll(OtherFormat, content, names) == Ok(content)
    decreases |names|
  {
    if names != [] {
      OtherFormatUnchanged(content, names[..|names| - 1]);
    }
  }

  /** Content in which no candidate name occurs is left unchanged, provided
      no name holds a backslash (which would make the template itself
      invalid). */
  lemma {:induction false} NoOccurrenceUnchanged(fmt: Format, content: string, names: seq<string>)
    requires forall j :: 0 <= j < |names| ==> !Contains(content, names[j]) && '\\' !in names[j]
    ensures RewriteAll(fmt, content, names) == Ok(content)
    decreases |names|
  {
    if names != [] {
      var last := names[|names| - 1];
      NoOccurrenceUnchanged(fmt, content, names[..|names| - 1]);
      if fmt != OtherFormat {
        TemplateExpands(fmt, last);
        SubAbsent(fmt, content, last, Replacement(fmt, last));
      }
    }
  }

  /** Without a backslash in the name, every supported format's intended
      template expands to the link text. */
  lemma TemplateExpands(fmt: Format, name: string)
    requires fmt != OtherFormat && '\\' !in name
    ensures ExpandTemplate(IntendedReplacement(fmt, name)) == Ok(Replacement(fmt, name))
  {
    if fmt == LatexFormat {
      ReplaceCharAbsent(name, ' ', "_", '\\');
      DoubledBackslash(LatexLinkBody(name));
    } else {
      LiteralTemplate(fmt, name);
    }
  }

  /** As written, the LaTeX template `\hyperref[…]{…}` starts with the
      unknown escape `\h`, so `re.sub` raises for every candidate name,
      whatever the content. */
  lemma LatexRewriteFails(content: string, name: string)
    ensures WrittenRewrite(LatexFormat, content, name) == Err("bad escape \\h at position 0")
  {
    BadEscapeH(Replacement(LatexFormat, name));
  }

  /** With the intended template, the LaTeX rewrite of a name without a
      backslash succeeds and puts the link `\hyperref[…]{…}` itself at every
      occurrence. */
  lemma IntendedLatexRewrite(content: string, name: string)
    requires '\\' !in name
    ensures Rewrite(LatexFormat, content, name)
      == Ok(Sub(LatexFormat, content, name, Replacement(LatexFormat, name)))
  {
    ReplaceCharAbsent(name, ' ', "_", '\\');
    DoubledBackslash(LatexLinkBody(name));
  }

  /** A doubled backslash in front of a literal stands for one backslash. */
  lemma DoubledBackslash(rest: string)
    requires '\\' !in rest
    ensures ExpandTemplate("\\\\" + rest) == Ok("\\" + rest)
  {
    var t := "\\\\" + rest;
    assert t[0] == '\\' && t[1] == '\\' && t[2..] == rest;
    ExpandLiteral(rest, 2);
  }

  // ---------------------------------------------------------------------
  // All notes
  // ---------------------------------------------------------------------

  /** The outer loop from the note under `ks[0]` on, over the notes map
      `vals` as it stands: each note is replaced in place by its linked
      version, and the first error ends the pass with the notes linked so
      far kept. */
  function LinkKeys(fmt: Format, vals: map<string, NoteData>, ks: seq<string>, topics: Dict<TopicData>)
    : (r: (map<string, NoteData>, Option<string>))
    ensures r.0.Keys == vals.Keys
    ensures forall k :: k in vals ==>
      r.0[k].name == vals[k].name && r.0[k].format == vals[k].format
    decreases |ks|
  {
    if ks == [] then (vals, None)
    else if ks[0] !in vals then LinkKeys(fmt, vals, ks[1..], topics)
    else
      var note := vals[ks[0]];
      match LinkContent(fmt, note.content, ks[0], topics)
      case Err(e) => (vals, Some(e))
      case Ok(c) => LinkKeys(fmt, vals[ks[0] := note.(content := c)], ks[1..], topics)
  }

  /** `add_hyperlinks` over the whole notes dictionary: the notes, in their
      order, and the message of the `re.error` that stopped the pass, if any. */
  function LinkAll(fmt: Format, notes: Dict<NoteData>, topics: Dict<TopicData>): (r: (Dict<NoteData>, Option<string>))
    requires notes.Valid()
    ensures r.0.Valid() && r.0.keys == notes.keys
  {
    var r := LinkKeys(fmt, notes.vals, notes.keys, topics);
    (Dict(notes.keys, r.0), r.1)
  }

  /** A note the pass has not reached keeps its content. */
  lemma {:induction false} LinkKeysUnvisited(fmt: Format, vals: map<string, NoteData>, ks: seq<string>, topics: Dict<TopicData>, k: string)
    requires k in vals && k !in ks
    ensures LinkKeys(fmt, vals, ks, topics).0[k] == vals[k]
    decreases |ks|
  {
    if ks != [] && ks[0] in vals {
      match LinkContent(fmt, vals[ks[0]].content, ks[0], topics)
      case Err(e) =>
      case Ok(c) =>
        LinkKeysUnvisited(fmt, vals[ks[0] := vals[ks[0]].(content := c)], ks[1..], topics, k);
    } else if ks != [] {
      LinkKeysUnvisited(fmt, vals, ks[1..], topics, k);
    }
  }

  /** Without an error, every visited note holds exactly the linked version
      of its content. */
  lemma {:induction false} LinkKeysContents(fmt: Format, vals: map<string, NoteData>, ks: seq<string>, topics: Dict<TopicData>)
    requires forall i, j :: 0 <= i < j < |ks| ==> ks[i] != ks[j]
    requires forall j :: 0 <= j < |ks| ==> ks[j] in vals
    ensures var r := LinkKeys(fmt, vals, ks, topics);
      r.1.None? ==> forall j :: 0 <= j < |ks| ==>
        LinkContent(fmt, vals[ks[j]].content, ks[j], topics) == Ok(r.0[ks[j]].content)
    decreases |ks|
  {
    if ks != [] {
      var k := ks[0];
      match LinkContent(fmt, vals[k].content, k, topics)
      case Err(e) =>
      case Ok(c) =>
        var vals' := vals[k := vals[k].(content := c)];
        var r := LinkKeys(fmt, vals', ks[1..], topics);
        assert r == LinkKeys(fmt, vals, ks, topics);
        LinkKeysContents(fmt, vals', ks[1..], topics);
        assert k !in ks[1..];
        LinkKeysUnvisited(fmt, vals', ks[1..], topics, k);
        if r.1.None? {
          forall j | 0 <= j < |ks|
            ensures LinkContent(fmt, vals[ks[j]].content, ks[j], topics) == Ok(r.0[ks[j]].content)
          {
            if j > 0 {
              assert ks[j] == ks[1..][j - 1] && ks[j] != k;
            }
          }
        }
    }
  }

  /** After a full pass without error, each note holds exactly its linked content. */
  lemma LinkedContents(fmt: Format, notes: Dict<NoteData>, topics: Dict<TopicData>)
    requires notes.Valid()
    ensures var r := LinkAll(fmt, notes, topics);
      r.1.None? ==> forall k :: k in notes.vals ==>
        LinkContent(fmt, notes.vals[k].content, k, topics) == Ok(r.0.vals[k].content)
  {
    LinkKeysContents(fmt, notes.vals, notes.keys, topics);
    var r := LinkAll(fmt, notes, topics);
    forall k | k in notes.vals && r.1.None?
      ensures LinkContent(fmt, notes.vals[k].content, k, topics) == Ok(r.0.vals[k].content)
    {
      var j :| 0 <= j < |notes.keys| && notes.keys[j] == k;
    }
  }

  /** With an unsupported format the pass returns the notes unchanged and no error. */
  lemma {:induction false} OtherFormatKeepsNotes(vals: map<string, NoteData>, ks: seq<string>, topics: Dict<TopicData>)
    ensures LinkKeys(OtherFormat, vals, ks, topics) == (vals, None)
    decreases |ks|
  {
    if ks != [] {
      OtherFormatKeepsNotes(vals, ks[1..], topics);
      if ks[0] in vals {
        var k := ks[0];
        OtherFormatUnchanged(vals[k].content, Candidates(k, topics.vals, topics.keys));
        assert vals[k].(content := vals[k].content) == vals[k];
        assert vals[k := vals[k]] == vals;
      }
    }
  }

  // ---------------------------------------------------------------------
  // The loops
  // ---------------------------------------------------------------------

  /** The inner loop: rewrite each other topic's name into `content`. */
  method LinkNote(outputFormat: string, content: string, id: string, topics: Dict<TopicData>)
    returns (r: Result<string>)
    requires topics.Valid()
    ensures r == LinkContent(FormatOf(outputFormat), content, id, topics)
  {
    var fmt := FormatOf(outputFormat);
    var current := content;
    var j := 0;
    while j < |topics.keys|
      invariant 0 <= j <= |topics.keys|
      invariant RewriteAll(fmt, content, Candidates(id, topics.vals, topics.keys[..j])) == Ok(current)
    {
      var otherId := topics.keys[j];
      var otherName := topics.vals[otherId].name;
      CandidatesStep(id, topics, j);
      if otherId != id && |otherName| >= 4 {
        var before := Candidates(id, topics.vals, topics.keys[..j]);
        RewriteSnoc(fmt, content, before, otherName);
        var next := Rewrite(fmt, current, otherName);
        if next.Err? {
          LinkErrorStays(fmt, content, id, topics, j + 1, next.error);
          return next;
        }
        current := next.value;
      } else {
        var before := Candidates(id, topics.vals, topics.keys[..j]);
        assert before + [] == before;
      }
      j := j + 1;
    }
    assert topics.keys[..j] == topics.keys;
    r := Ok(current);
  }

  /** The topic at position `j` adds its name to the candidates exactly when
      it is another topic with a name of four characters or more. */
  lemma CandidatesStep(id: string, topics: Dict<TopicData>, j: nat)
    requires j < |topics.keys|
    ensures var k := topics.keys[j];
      Candidates(id, topics.vals, topics.keys[..j + 1])
        == Candidates(id, topics.vals, topics.keys[..j])
          + if k != id && k in topics.vals && |topics.vals[k].name| >= 4 then [topics.vals[k].name] else []
  {
    assert topics.keys[..j + 1][..j] == topics.keys[..j];
  }

  /** Rewriting with one more name continues from the text so far, or keeps its error. */
  lemma RewriteSnoc(fmt: Format, content: string, names: seq<string>, name: string)
    ensures RewriteAll(fmt, content, names + [name])
         == match RewriteAll(fmt, content, names)
            case Err(e) => Err(e)
            case Ok(c) => Rewrite(fmt, c, name)
  {
    assert (names + [name])[..|names|] == names;
  }

  /** Once a rewrite fails, the later names keep the same error. */
  lemma {:induction false} LinkErrorStays(fmt: Format, content: string, id: string, topics: Dict<TopicData>, j: nat, e: string)
    requires j <= |topics.keys|
    requires RewriteAll(fmt, content, Candidates(id, topics.vals, topics.keys[..j])) == Err(e)
    ensures LinkContent(fmt, content, id, topics) == Err(e)
    decreases |topics.keys| - j
  {
    if j == |topics.keys| {
      assert topics.keys[..j] == topics.keys;
    } else {
      var k := topics.keys[j];
      CandidatesStep(id, topics, j);
      var cs := Candidates(id, topics.vals, topics.keys[..j]);
      if k != id && k in topics.vals && |topics.vals[k].name| >= 4 {
        RewriteSnoc(fmt, content, cs, topics.vals[k].name);
      } else {
        assert cs + [] == cs;
      }
      LinkErrorStays(fmt, content, id, topics, j + 1, e);
    }
  }

  /** The pass over `ks` from its first key: an error there stops it with
      the notes as they were; otherwise it goes on from the next key with
      that note's content linked. */
  lemma LinkKeysFirst(fmt: Format, vals: map<string, NoteData>, ks: seq<string>, topics: Dict<TopicData>)
    requires ks != [] && ks[0] in vals
    ensures var r := LinkKeys(fmt, vals, ks, topics);
      var c := LinkContent(fmt, vals[ks[0]].content, ks[0], topics);
      && (c.Err? ==> r.0 == vals && r.1 == Some(c.error))
      && (c.Ok? ==>
        var next := LinkKeys(fmt, vals[ks[0] := vals[ks[0]].(content := c.value)], ks[1..], topics);
        r.0 == next.0 && r.1 == next.1)
  {
  }

  /** `add_hyperlinks`: the notes after linking, in place, and the message of
      the `re.error` that stopped the pass, if any. */
  method AddHyperlinks(notes: Dict<NoteData>, topics: Dict<TopicData>, outputFormat: string)
    returns (linked: Dict<NoteData>, err: Option<string>)
    requires notes.Valid() && topics.Valid()
    ensures linked == LinkAll(FormatOf(outputFormat), notes, topics).0
    ensures err == LinkAll(FormatOf(outputFormat), notes, topics).1
  {
    var vals;
    vals, err := LinkLoop(outputFormat, notes.vals, notes.keys, topics);
    linked := Dict(notes.keys, vals);
  }

  /** The loop of `add_hyperlinks` over the ids `ks`, all of them notes,
      rewriting each note's content in turn until an error stops it. */
  method LinkLoop(outputFormat: string, notes: map<string, NoteData>, ks: seq<string>, topics: Dict<TopicData>)
    returns (vals: map<string, NoteData>, err: Option<string>)
    requires topics.Valid()
    requires forall k :: k in ks ==> k in notes
    ensures vals == LinkKeys(FormatOf(outputFormat), notes, ks, topics).0
    ensures err == LinkKeys(FormatOf(outputFormat), notes, ks, topics).1
  {
    var fmt := FormatOf(outputFormat);
    vals := notes;
    var i := 0;
    while i < |ks|
      invariant 0 <= i <= |ks|
      invariant vals.Keys == notes.Keys
      invariant LinkKeys(fmt, vals, ks[i..], topics).0 == LinkKeys(fmt, notes, ks, topics).0
      invariant LinkKeys(fmt, vals, ks[i..], topics).1 == LinkKeys(fmt, notes, ks, topics).1
    {
      var topicId := ks[i];
      var r := LinkNote(outputFormat, vals[topicId].content, topicId, topics);
      LinkKeysFirst(fmt, vals, ks[i..], topics);
      assert ks[i..][1..] == ks[i + 1..];
      if r.Err? {
        return vals, Some(r.error);
      }
      vals := vals[topicId := vals[topicId].(content := r.value)];
      i := i + 1;
    }
    err := None;
  }
}
