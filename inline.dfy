/**
 * Line-level Markdown recognition shared by the LaTeX and HTML converters:
 * the non-greedy `re.sub` substitutions for emphasis, code spans and links,
 * and the `^\d+\.\s` numbered-item prefix.
 */
module Inline {
  import opened Wrappers
  import opened Text

  /** A non-greedy `(.*?)` after an opening delimiter matches when the
      delimiter occurs again before any newline. */
  predicate Closes(rest: string, d: string) {
    var j := Find(rest, d);
    j >= 0 && '\n' !in rest[..j]
  }

  /** `re.sub(r'D(.*?)D', lambda m: open + m.group(1) + close, s)` for a literal
      delimiter `D`: scanning left to right, a delimiter that is closed on the
      same line is replaced together with its partner, and scanning resumes
      after the closing delimiter. */
  function SubDelimited(s: string, d: string, open: string, close: string): string
    requires |d| > 0
    decreases |s|
  {
    if s == [] then []
    else if StartsWith(s, d) && Closes(s[|d|..], d) then
      var j := Find(s[|d|..], d);
      open + s[|d|..|d| + j] + close + SubDelimited(s[|d| + j + |d|..], d, open, close)
    else [s[0]] + SubDelimited(s[1..], d, open, close)
  }

  /** A line in which the delimiter never occurs is left as it is. */
  lemma {:induction false} SubDelimitedAbsent(s: string, d: string, open: string, close: string)
    requires |d| > 0 && !Contains(s, d)
    ensures SubDelimited(s, d, open, close) == s
    decreases |s|
  {
    if s != [] {
      assert !OccursAt(s, d, 0);
      OccursInTail(s, d);
      assert !Contains(s[1..], d) by {
        forall k | 0 <= k <= |s[1..]| ensures !OccursAt(s[1..], d, k) {
          assert !OccursAt(s, d, k + 1);
        }
      }
      SubDelimitedAbsent(s[1..], d, open, close);
      assert s == [s[0]] + s[1..];
    }
  }

  /** A span wrapped in the delimiter, holding no character of the delimiter
      and no newline, is rewritten to `open + span + close`. */
  lemma SubDelimitedSpan(inner: string, d: string, open: string, close: string)
    requires |d| > 0 && '\n' !in inner
    requires forall k :: 0 <= k < |inner| ==> inner[k] !in d
    ensures SubDelimited(d + inner + d, d, open, close) == open + inner + close
  {
    var s := d + inner + d;
    assert s[..|d|] == d;
    var rest := s[|d|..];
    assert rest == inner + d;
    assert OccursAt(rest, d, |inner|);
    forall k | 0 <= k < |inner| ensures !OccursAt(rest, d, k) {
      assert rest[k] == inner[k];
    }
    var j := Find(rest, d);
    assert j == |inner|;
    assert rest[..j] == inner;
    assert s[|d| + j + |d|..] == [];
  }

  /** The LaTeX converter's inline rewriting of a regular text line:
      bold, then italic, then inline code. */
  function LatexInline(line: string): string {
    var bold := SubDelimited(line, "**", "\\textbf{", "}");
    var italic := SubDelimited(bold, "*", "\\textit{", "}");
    SubDelimited(italic, "`", "\\texttt{", "}")
  }

  /** `\[(.*?)\]\((.*?)\)` tried at the start of `s`: the link text, the target
      and the length of the match. The text ends at the first `](`, the target
      at the first `)` after it; neither may cross a newline. */
  function LinkAt(s: string): (r: Option<(string, string, nat)>)
    ensures r.Some? ==> 0 < r.value.2 <= |s|
  {
    if s == [] || s[0] != '[' then None
    else
      var rest := s[1..];
      var j := Find(rest, "](");
      if j < 0 || '\n' in rest[..j] then None
      else
        var after := rest[j + 2..];
        var k := FindChar(after, ')');
        if k < 0 || '\n' in after[..k] then None
        else Some((rest[..j], after[..k], j + k + 4))
  }

  /** `re.sub(r'\[(.*?)\]\((.*?)\)', ...)`: Markdown links become anchors. */
  function SubLinks(s: string): string
    decreases |s|
  {
    if s == [] then []
    else match LinkAt(s)
      case Some((text, url, n)) => "<a href=\"" + url + "\">" + text + "</a>" + SubLinks(s[n..])
      case None => [s[0]] + SubLinks(s[1..])
  }

  /** A line without `[` has no link to rewrite. */
  lemma {:induction false} SubLinksAbsent(s: string)
    requires '[' !in s
    ensures SubLinks(s) == s
    decreases |s|
  {
    if s != [] {
      assert s == [s[0]] + s[1..];
      SubLinksAbsent(s[1..]);
    }
  }

  /** The HTML converter's `_format_inline_elements`. */
  function HtmlInline(text: string): string {
    var t1 := SubDelimited(text, "**", "<strong>", "</strong>");
    var t2 := SubDelimited(t1, "__", "<strong>", "</strong>");
    var t3 := SubDelimited(t2, "*", "<em>", "</em>");
    var t4 := SubDelimited(t3, "_", "<em>", "</em>");
    var t5 := SubDelimited(t4, "`", "<code>", "</code>");
    SubLinks(t5)
  }

  /** A delimiter whose first character never occurs does not occur. */
  lemma AbsentByFirstChar(s: string, d: string)
    requires |d| > 0 && d[0] !in s
    ensures !Contains(s, d)
  {
    forall i | 0 <= i <= |s| ensures !OccursAt(s, d, i) {
      if i + |d| <= |s| {
        assert s[i..i + |d|][0] == s[i];
      }
    }
  }

  /** Text without Markdown markup characters passes through unchanged. */
  lemma HtmlInlinePlain(text: string)
    requires '*' !in text && '_' !in text && '`' !in text && '[' !in text
    ensures HtmlInline(text) == text
  {
    AbsentByFirstChar(text, "**");
    SubDelimitedAbsent(text, "**", "<strong>", "</strong>");
    AbsentByFirstChar(text, "__");
    SubDelimitedAbsent(text, "__", "<strong>", "</strong>");
    AbsentByFirstChar(text, "*");
    SubDelimitedAbsent(text, "*", "<em>", "</em>");
    AbsentByFirstChar(text, "_");
    SubDelimitedAbsent(text, "_", "<em>", "</em>");
    AbsentByFirstChar(text, "`");
    SubDelimitedAbsent(text, "`", "<code>", "</code>");
    SubLinksAbsent(text);
  }

  /** Same for the LaTeX converter's rewriting. */
  lemma LatexInlinePlain(line: string)
    requires '*' !in line && '`' !in line
    ensures LatexInline(line) == line
  {
    AbsentByFirstChar(line, "**");
    SubDelimitedAbsent(line, "**", "\\textbf{", "}");
    AbsentByFirstChar(line, "*");
    SubDelimitedAbsent(line, "*", "\\textit{", "}");
    AbsentByFirstChar(line, "`");
    SubDelimitedAbsent(line, "`", "\\texttt{", "}");
  }

  /** The length of the run of digits at the start of `s` (the greedy `\d+`). */
  function DigitRun(s: string): (n: nat)
    ensures n <= |s|
    ensures forall i :: 0 <= i < n ==> IsDigit(s[i])
    ensures n == |s| || !IsDigit(s[n])
    decreases |s|
  {
    if s == [] || !IsDigit(s[0]) then 0 else 1 + DigitRun(s[1..])
  }

  /** `re.match(r"^\d+\.\s", s)`: digits, a dot, then a whitespace character. */
  predicate IsNumberedItem(s: string) {
    var n := DigitRun(s);
    n >= 1 && n + 1 < |s| && s[n] == '.' && IsSpace(s[n + 1])
  }

  /** `re.sub(r"^\d+\.\s", "", s)`: the item text, or `s` when there is no prefix. */
  function ItemText(s: string): string {
    if IsNumberedItem(s) then s[DigitRun(s) + 2..] else s
  }

  /** The digit run of digits followed by a non-digit is exactly those digits. */
  lemma {:induction false} DigitRunOfDigits(ds: string, rest: string)
    requires forall i :: 0 <= i < |ds| ==> IsDigit(ds[i])
    requires rest == [] || !IsDigit(rest[0])
    ensures DigitRun(ds + rest) == |ds|
    decreases |ds|
  {
    if ds != [] {
      assert (ds + rest)[1..] == ds[1..] + rest;
      DigitRunOfDigits(ds[1..], rest);
    } else {
      assert ds + rest == rest;
    }
  }

  /** An item written as `n. text` is recognised as numbered and its text is
      recovered exactly. */
  lemma NumberedItemRoundTrip(n: nat, text: string)
    ensures IsNumberedItem(NatToString(n) + ". " + text)
    ensures ItemText(NatToString(n) + ". " + text) == text
  {
    var ds := NatToString(n);
    var s := ds + ". " + text;
    assert s == ds + (". " + text);
    DigitRunOfDigits(ds, ". " + text);
    assert s[|ds|] == '.' && s[|ds| + 1] == ' ';
    assert s[|ds| + 2..] == text;
  }
}
