/**
 * `FormatConverter.convert`: the entry point that strips a note and turns it
 * into the requested output format.
 */
module FormatConverter {
  import opened Text
  import opened Hyperlinks
  import Latex
  import Html

  /** The markdown result for stripped content `c`: `c` itself when it
      already opens with a level-one header, else `c` under a title header. */
  function Titled(title: string, c: string): string {
    if StartsWith(c, "# ") then c else "# " + title + "\n\n" + c
  }

  /** What `convert(title, content, output_format)` returns. */
  function Converted(title: string, content: string, outputFormat: string): string {
    var c := Strip(content);
    match FormatOf(outputFormat)
    case MarkdownFormat => Titled(title, c)
    case LatexFormat => Latex.Document(title, c)
    case HtmlFormat => Html.Page(title, c)
    case OtherFormat => c
  }

  method Convert(title: string, content: string, outputFormat: string) returns (out: string)
    ensures out == Converted(title, content, outputFormat)
  {
    var c := Strip(content);
    var fmt := FormatOf(outputFormat);
    if fmt == MarkdownFormat {
      if !StartsWith(c, "# ") {
        c := "# " + title + "\n\n" + c;
      }
      out := c;
    } else if fmt == LatexFormat {
      out := Latex.MarkdownToLatex(title, c);
    } else if fmt == HtmlFormat {
      out := Html.MarkdownToHtml(title, c);
    } else {
      out := c;
    }
  }

  /** The markdown branch of `convert`. */
  lemma MarkdownConverted(title: string, content: string, outputFormat: string)
    requires FormatOf(outputFormat) == MarkdownFormat
    ensures Converted(title, content, outputFormat) == Titled(title, Strip(content))
  {
  }

  /** A titled note opens with a title header and ends with the content;
      the header is added exactly when the content lacks one. */
  lemma TitledSpec(title: string, c: string)
    ensures var out := Titled(title, c);
      && StartsWith(out, "# ")
      && EndsWith(out, c)
      && (out == c <==> StartsWith(c, "# "))
  {
    if !StartsWith(c, "# ") {
      var h := "# " + title + "\n\n";
      var out := h + c;
      assert out[|out| - |c|..] == c;
      assert out[..2] == "# ";
      assert |out| > |c|;
    }
  }

  /** Markdown output always opens with a title header and ends with the
      stripped content; the header is added exactly when the content lacks one. */
  lemma MarkdownHasTitle(title: string, content: string, outputFormat: string)
    requires FormatOf(outputFormat) == MarkdownFormat
    ensures var out := Converted(title, content, outputFormat);
      && StartsWith(out, "# ")
      && EndsWith(out, Strip(content))
      && (out == Strip(content) <==> StartsWith(Strip(content), "# "))
  {
    MarkdownConverted(title, content, outputFormat);
    TitledSpec(title, Strip(content));
  }

  /** Titling non-empty stripped content gives a note that is its own
      `strip()` and is left alone when titled again. */
  lemma TitledStable(title: string, c: string)
    requires c != [] && !IsSpace(c[0]) && !IsSpace(c[|c| - 1])
    ensures Strip(Titled(title, c)) == Titled(title, c)
    ensures Titled(title, Titled(title, c)) == Titled(title, c)
  {
    var out := Titled(title, c);
    TitledSpec(title, c);
    assert out[0] == '#';
    assert out[|out| - 1] == c[|c| - 1];
    StripIdentity(out);
  }

  /** Converting to markdown twice gives the same note as converting once,
      provided the stripped content is not empty. */
  lemma MarkdownIdempotent(title: string, content: string, outputFormat: string)
    requires FormatOf(outputFormat) == MarkdownFormat
    requires Strip(content) != ""
    ensures Converted(title, Converted(title, content, outputFormat), outputFormat)
      == Converted(title, content, outputFormat)
  {
    var out := Converted(title, content, outputFormat);
    StripSpec(content);
    MarkdownConverted(title, content, outputFormat);
    TitledStable(title, Strip(content));
    MarkdownConverted(title, out, outputFormat);
  }

  /** For empty content the result is the bare header `"# title\n\n"`, which
      loses its trailing newlines when titled again, so it changes. */
  lemma TitledEmptyChanges(title: string)
    ensures Titled(title, "") == "# " + title + "\n\n"
    ensures Titled(title, Strip(Titled(title, ""))) != Titled(title, "")
  {
    var once := Titled(title, "");
    assert once == "# " + title + "\n\n" + "";
    var c := Strip(once);
    StripSpec(once);
    var twice := Titled(title, c);
    assert once[|once| - 1] == '\n';
    if StartsWith(c, "# ") {
      assert twice == c;
      assert c[|c| - 1] != '\n';
    } else {
      assert twice == ("# " + title + "\n\n") + c;
      assert c != [] by {
        assert once[0] == '#' && !IsSpace(once[0]);
      }
      assert twice[|twice| - 1] == c[|c| - 1];
    }
  }

  /** Empty content is the exception to idempotence: converting the bare
      header again gives a different note. */
  lemma MarkdownEmptyNotIdempotent(title: string, content: string, outputFormat: string)
    requires FormatOf(outputFormat) == MarkdownFormat
    requires Strip(content) == ""
    ensures Converted(title, content, outputFormat) == "# " + title + "\n\n"
    ensures Converted(title, Converted(title, content, outputFormat), outputFormat)
      != Converted(title, content, outputFormat)
  {
    var once := Converted(title, content, outputFormat);
    MarkdownConverted(title, content, outputFormat);
    TitledEmptyChanges(title);
    MarkdownConverted(title, once, outputFormat);
  }

  /** The format name is compared case-insensitively. */
  lemma FormatNameCaseInsensitive(title: string, content: string, outputFormat: string)
    ensures Converted(title, content, Lower(outputFormat)) == Converted(title, content, outputFormat)
  {
    FormatCaseInsensitive(outputFormat);
  }

  /** An unsupported format returns the stripped content. */
  lemma UnsupportedFormatStripped(title: string, content: string, outputFormat: string)
    requires Lower(outputFormat) !in {"markdown", "latex", "html"}
    ensures Converted(title, content, outputFormat) == Strip(content)
  {
  }
}
