/**
 * The introduction page `process_and_generate` adds to a markdown run: a
 * table of contents linking every markdown note, sorted by note name.
 */
module IndexPage {
  import opened Text
  import opened Dicts
  import opened Models

  /** The id the page is stored under among the notes. */
  const IndexId := "000_index_introduction_page"

  const IndexHeader := "# Table of Contents\n\nThis document provides an overview and links to all generated notes:\n\n"

  /** A `(topic id, note)` item of the notes dictionary. */
  type Entry = (string, NoteData)

  /** The items of the notes dictionary in its order, without the page itself. */
  function Entries(ks: seq<string>, vals: map<string, NoteData>): (r: seq<Entry>)
    ensures forall e :: e in r ==> e.0 != IndexId && e.0 in vals && vals[e.0] == e.1
    ensures forall k :: k in ks && k in vals && k != IndexId ==> (k, vals[k]) in r
    decreases |ks|
  {
    if ks == [] then []
    else
      var init := Entries(ks[..|ks| - 1], vals);
      var k := ks[|ks| - 1];
      assert forall x :: x in ks ==> x in ks[..|ks| - 1] || x == k;
      if k != IndexId && k in vals then init + [(k, vals[k])] else init
  }

  /** Python's `<=` on strings: code point by code point, a prefix first. */
  predicate NameLe(a: string, b: string)
    decreases |a|
  {
    a == [] || (b != [] && (a[0] < b[0] || (a[0] == b[0] && NameLe(a[1..], b[1..]))))
  }

  /** Any two names compare one way or the other. */
  lemma {:induction false} NameLeTotal(a: string, b: string)
    ensures NameLe(a, b) || NameLe(b, a)
    decreases |a|
  {
    if a != [] && b != [] && a[0] == b[0] {
      NameLeTotal(a[1..], b[1..]);
    }
  }

  /** Neighbouring entries are in name order. */
  predicate Sorted(es: seq<Entry>) {
    forall i :: 0 < i < |es| ==> NameLe(es[i - 1].1.name, es[i].1.name)
  }

  /** Place `e` before the first entry whose name is not smaller, so that
      entries with equal names keep their order. */
  function Insert(e: Entry, es: seq<Entry>): (r: seq<Entry>)
    ensures multiset(r) == multiset(es) + multiset{e}
    ensures |r| == |es| + 1
    ensures r[0] == e || (es != [] && r[0] == es[0])
    ensures Sorted(es) ==> Sorted(r)
    decreases |es|
  {
    if es == [] then [e]
    else if NameLe(e.1.name, es[0].1.name) then [e] + es
    else
      var rest := Insert(e, es[1..]);
      assert es == [es[0]] + es[1..];
      NameLeTotal(e.1.name, es[0].1.name);
      SortedTail(es);
      [es[0]] + rest
  }

  lemma SortedTail(es: seq<Entry>)
    requires es != []
    ensures Sorted(es) ==> Sorted(es[1..])
  {
    if Sorted(es) {
      forall i | 0 < i < |es| - 1
        ensures NameLe(es[1..][i - 1].1.name, es[1..][i].1.name)
      {
        assert es[1..][i - 1] == es[i] && es[1..][i] == es[i + 1];
      }
    }
  }

  /** `sorted(items, key=name)`: the same entries, in name order. */
  function SortByName(es: seq<Entry>): (r: seq<Entry>)
    ensures multiset(r) == multiset(es)
    ensures |r| == |es|
    ensures Sorted(r)
    decreases |es|
  {
    if es == [] then []
    else
      assert es == [es[0]] + es[1..];
      Insert(es[0], SortByName(es[1..]))
  }

  /** The link target: the name with spaces and slashes as underscores, plus `.md`. */
  function FileName(name: string): string {
    ReplaceChar(ReplaceChar(name, ' ', "_"), '/', "_") + ".md"
  }

  /** The file name keeps every other character in place, so it has no
      space or slash and is three characters longer than the name. */
  lemma FileNameSpec(name: string)
    ensures var f := FileName(name);
      && |f| == |name| + 3
      && f[|name|..] == ".md"
      && (forall i :: 0 <= i < |name| ==> f[i] == if name[i] == ' ' || name[i] == '/' then '_' else name[i])
      && ' ' !in f[..|name|] && '/' !in f[..|name|]
  {
    ReplaceCharPointwise(name, ' ', '_');
    var s := ReplaceChar(name, ' ', "_");
    ReplaceCharPointwise(s, '/', '_');
    var f := FileName(name);
    assert f[..|name|] == ReplaceChar(s, '/', "_");
  }

  /** The entry's line: a link for a markdown note, nothing otherwise. */
  function Line(e: Entry): string {
    if e.1.format == "markdown" then "- [" + e.1.name + "](./" + FileName(e.1.name) + ")\n" else ""
  }

  /** The lines of the entries, in order. */
  function Lines(es: seq<Entry>): string
    decreases |es|
  {
    if es == [] then "" else Lines(es[..|es| - 1]) + Line(es[|es| - 1])
  }

  /** The lines of two runs of entries, one after the other. */
  lemma {:induction false} LinesAppend(a: seq<Entry>, b: seq<Entry>)
    ensures Lines(a + b) == Lines(a) + Lines(b)
    decreases |b|
  {
    if b == [] {
      assert a + b == a;
    } else {
      var init := b[..|b| - 1];
      var c := a + b;
      assert c[..|c| - 1] == a + init;
      assert c[|c| - 1] == b[|b| - 1];
      LinesAppend(a, init);
      AppendAssoc(Lines(a), Lines(init), Line(b[|b| - 1]));
    }
  }

  /** The page text is the lines before an entry, its line, then the lines after it. */
  lemma LinesSplit(es: seq<Entry>, i: nat)
    requires i < |es|
    ensures Lines(es) == Lines(es[..i]) + Line(es[i]) + Lines(es[i + 1..])
  {
    TakeOneMore(es, i);
    LinesAppend(es[..i + 1], es[i + 1..]);
    LinesSnoc(es[..i], es[i]);
  }

  /** One more entry adds its line at the end. */
  lemma LinesSnoc(es: seq<Entry>, e: Entry)
    ensures Lines(es + [e]) == Lines(es) + Line(e)
  {
    var s := es + [e];
    assert s[..|s| - 1] == es;
  }

  /** `intro_content` for the notes dictionary. */
  function Content(notes: Dict<NoteData>): string {
    IndexHeader + Lines(SortByName(Entries(notes.keys, notes.vals)))
  }

  /** The page starts with its header. */
  lemma HeaderFirst(notes: Dict<NoteData>)
    ensures StartsWith(Content(notes), IndexHeader)
  {
    var h := IndexHeader;
    var body := Lines(SortByName(Entries(notes.keys, notes.vals)));
    assert (h + body)[..|h|] == h;
  }

  /** Every note other than the page is among the sorted entries. */
  lemma NoteListed(notes: Dict<NoteData>, k: string)
    requires notes.Valid() && k in notes.vals && k != IndexId
    ensures (k, notes.vals[k]) in SortByName(Entries(notes.keys, notes.vals))
  {
    var raw := Entries(notes.keys, notes.vals);
    assert (k, notes.vals[k]) in multiset(raw);
  }

  /** Each sorted entry has its own line on the page, after the lines of the
      entries sorted before it; for a markdown note that line is a link to
      its file. */
  lemma LineOnPage(notes: Dict<NoteData>, i: nat)
    requires i < |SortByName(Entries(notes.keys, notes.vals))|
    ensures var es := SortByName(Entries(notes.keys, notes.vals));
      && Content(notes) == IndexHeader + (Lines(es[..i]) + Line(es[i]) + Lines(es[i + 1..]))
      && (es[i].1.format == "markdown" ==> Line(es[i]) == "- [" + es[i].1.name + "](./" + FileName(es[i].1.name) + ")\n")
  {
    LinesSplit(SortByName(Entries(notes.keys, notes.vals)), i);
  }

  /** Every sorted entry is an item of the notes dictionary other than the page. */
  lemma SortedEntries(notes: Dict<NoteData>)
    ensures var es := SortByName(Entries(notes.keys, notes.vals));
      forall e :: e in es ==> e.0 != IndexId && e.0 in notes.vals && notes.vals[e.0] == e.1
  {
    var raw := Entries(notes.keys, notes.vals);
    forall e | e in SortByName(raw)
      ensures e in raw
    {
      assert e in multiset(SortByName(raw));
    }
  }

  /** The page generation as the orchestrator runs it: collect the items,
      sort them, and append one line per markdown note. */
  method BuildContent(notes: Dict<NoteData>) returns (content: string)
    ensures content == Content(notes)
  {
    var items := CollectEntries(notes);
    var sorted := SortByName(items);
    content := AppendLines(sorted);
  }

  /** The loop over the notes dictionary that keeps every item but the page. */
  method CollectEntries(notes: Dict<NoteData>) returns (items: seq<Entry>)
    ensures items == Entries(notes.keys, notes.vals)
  {
    items := [];
    var i := 0;
    while i < |notes.keys|
      invariant 0 <= i <= |notes.keys|
      invariant items == Entries(notes.keys[..i], notes.vals)
    {
      var k := notes.keys[i];
      assert notes.keys[..i + 1][..i] == notes.keys[..i];
      if k != IndexId && k in notes.vals {
        items := items + [(k, notes.vals[k])];
      }
      i := i + 1;
    }
    assert notes.keys[..i] == notes.keys;
  }

  /** The loop over the sorted entries that appends a link per markdown note. */
  method AppendLines(sorted: seq<Entry>) returns (content: string)
    ensures content == IndexHeader + Lines(sorted)
  {
    content := IndexHeader;
    var j := 0;
    while j < |sorted|
      invariant 0 <= j <= |sorted|
      invariant content == IndexHeader + Lines(sorted[..j])
    {
      assert sorted[..j + 1][..j] == sorted[..j];
      var e := sorted[j];
      if e.1.format == "markdown" {
        AppendAssoc(IndexHeader, Lines(sorted[..j]), Line(e));
        content := content + Line(e);
      }
      j := j + 1;
    }
    assert sorted[..j] == sorted;
  }
}
