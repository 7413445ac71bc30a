/**
 * `SmartNotesOrchestrator.process_and_generate`: one pass over a document's
 * topics that reuses or creates one note per topic, then cross-links the
 * notes and, for markdown, adds an index page.
 *
 * The `note` table is a sequence of rows (see `Store`); the document's
 * topic rows are given, and the two calls into the language model are
 * functions from their arguments to a `Reply`, where `Raised` stands for an
 * exception anywhere in the topic's `try` block.
 */
module Orchestrator {
  import opened Wrappers
  import opened Text
  import opened Dicts
  import opened Models
  import opened Store
  import Hyperlinks
  import FormatConverter
  import IndexPage

  /** What a run works with: the topics dictionary, the topic rows' primary
      keys by topic id, the output format, and the injected collaborators:
      `extract(name)` for `extract_topic_information(combined_content, name, client)`,
      `enhance(name, info)` for `enhance_topic_info(name, info)`, and
      `convert(title, content, format)` for the format converter's `convert`
      (`FormatConverter.Converted`, see `ConvertedNotes`). */
  datatype Context = Context(
    topics: Dict<TopicData>,
    topicMap: map<string, int>,
    format: string,
    extract: string -> Reply,
    enhance: (string, string) -> Reply,
    convert: (string, string, string) -> string)

  /** The run's results so far: `generated_notes`, `errors_encountered`,
      `successfully_processed_count`, and the `note` table. */
  datatype Progress = Progress(notes: Dict<NoteData>, errors: seq<string>, count: nat, store: seq<NoteRow>)

  // ---------------------------------------------------------------------
  // Messages
  // ---------------------------------------------------------------------

  function MissingDocument(documentId: nat): string {
    "Document with ID " + NatToString(documentId) + " not found."
  }

  function MissingTopic(name: string): string {
    "Could not find topic '" + name + "' in the database to associate the note."
  }

  function ExtractError(name: string, info: string): string {
    "Error extracting info for '" + name + "': " + info
  }

  function EnhanceError(name: string, info: string): string {
    "Error enhancing info for '" + name + "': " + info
  }

  function ProcessingError(name: string, message: string): string {
    "Error processing topic '" + name + "': " + message
  }

  function LinkError(message: string): string {
    "Error adding internal links: " + message
  }

  const ErrorMarker := "Error:"

  // ---------------------------------------------------------------------
  // The topic loop
  // ---------------------------------------------------------------------

  /** What happens to one topic: an error entry, the content of the note
      already stored for it, or the content of a new note for topic row `pk`. */
  datatype Outcome = Skipped(error: string) | Reused(content: string) | Created(pk: int, content: string)

  /** One iteration of the loop at lines 40-121. */
  function TopicOutcome(ctx: Context, store: seq<NoteRow>, id: string, name: string): Outcome {
    if id !in ctx.topicMap then Skipped(MissingTopic(name))
    else
      var pk := ctx.topicMap[id];
      var i := FindNote(store, pk, ctx.format);
      if i >= 0 then Reused(store[i].content)
      else
        match ctx.extract(name)
        case Raised(m) => Skipped(ProcessingError(name, m))
        case Text(info) =>
          if Contains(info, ErrorMarker) then Skipped(ExtractError(name, info))
          else
            match ctx.enhance(name, info)
            case Raised(m) => Skipped(ProcessingError(name, m))
            case Text(enhanced) =>
              if Contains(enhanced, ErrorMarker) then Skipped(EnhanceError(name, enhanced))
              else Created(pk, ctx.convert(name, enhanced + "", ctx.format))
  }

  /** The results after the iteration for topic `id`. Each topic adds
      either one success or one error entry, earlier errors and rows are
      kept, and a row is only ever added for a pair that has none. */
  function Step(ctx: Context, p: Progress, id: string): (q: Progress)
    requires id in ctx.topics.vals
    ensures (q.count == p.count + 1 && |q.errors| == |p.errors|) || (q.count == p.count && |q.errors| == |p.errors| + 1)
    ensures |p.errors| <= |q.errors| && q.errors[..|p.errors|] == p.errors
    ensures |p.store| <= |q.store| && q.store[..|p.store|] == p.store
    ensures q.store == p.store
      || (id in ctx.topicMap && FindNote(p.store, ctx.topicMap[id], ctx.format) == -1
        && |q.store| == |p.store| + 1 && IsFor(q.store[|p.store|], ctx.topicMap[id], ctx.format))
    ensures p.notes.Valid() ==> q.notes.Valid()
    ensures q.notes.vals.Keys <= p.notes.vals.Keys + {id}
  {
    var name := ctx.topics.vals[id].name;
    match TopicOutcome(ctx, p.store, id, name)
    case Skipped(e) =>
      assert (p.errors + [e])[..|p.errors|] == p.errors && p.store[..|p.store|] == p.store;
      p.(errors := p.errors + [e])
    case Reused(content) =>
      assert p.errors[..|p.errors|] == p.errors && p.store[..|p.store|] == p.store;
      p.(notes := p.notes.Put(id, NoteData(name, content, ctx.format)), count := p.count + 1)
    case Created(pk, content) =>
      assert (p.store + [NoteRow(pk, ctx.format, content)])[..|p.store|] == p.store;
      assert p.errors[..|p.errors|] == p.errors;
      Progress(p.notes.Put(id, NoteData(name, content, ctx.format)), p.errors, p.count + 1,
        p.store + [NoteRow(pk, ctx.format, content)])
  }

  /** The loop over the topic ids `ks`, in order, from the results `p`. */
  function Loop(ctx: Context, p: Progress, ks: seq<string>): (q: Progress)
    requires forall k :: k in ks ==> k in ctx.topics.vals
    ensures q.count + |q.errors| == p.count + |p.errors| + |ks|
    ensures p.count <= q.count <= p.count + |ks|
    ensures |p.errors| <= |q.errors| && q.errors[..|p.errors|] == p.errors
    ensures |p.store| <= |q.store| && q.store[..|p.store|] == p.store
    ensures Unique(p.store) ==> Unique(q.store)
    ensures p.notes.Valid() ==> q.notes.Valid()
    decreases |ks|
  {
    if ks == [] then
      assert p.errors[..|p.errors|] == p.errors && p.store[..|p.store|] == p.store;
      p
    else
      var init := ks[..|ks| - 1];
      assert forall k :: k in init ==> k in ks;
      var mid := Loop(ctx, p, init);
      var q := Step(ctx, mid, ks[|ks| - 1]);
      PrefixOfPrefix(p.errors, mid.errors, q.errors);
      PrefixOfPrefix(p.store, mid.store, q.store);
      assert Unique(mid.store) && q.store != mid.store ==> Unique(q.store) by {
        if Unique(mid.store) && q.store != mid.store {
          NewPairKeepsUnique(mid.store, q.store);
        }
      }
      q
  }

  /** Appending a row for a pair that had none keeps the table free of duplicates. */
  lemma NewPairKeepsUnique(store: seq<NoteRow>, next: seq<NoteRow>)
    requires Unique(store) && |next| == |store| + 1 && next[..|store|] == store
    requires FindNote(store, next[|store|].topicPk, next[|store|].format) == -1
    ensures Unique(next)
  {
    var last := next[|store|];
    assert next == store + [last];
    forall i, j | 0 <= i < j < |next|
      ensures !(next[i].topicPk == next[j].topicPk && next[i].format == next[j].format)
    {
      var a := store[i];
      if j < |store| {
        var b := store[j];
        assert !(a.topicPk == b.topicPk && a.format == b.format);
      } else {
        assert !IsFor(a, last.topicPk, last.format);
      }
    }
  }

  /** The three kinds of topic: one without a stored row is skipped with an
      error; one whose `(pk, format)` note exists reuses that note's content
      with no write; one whose information or enhancement carries the
      `"Error:"` marker is skipped with an error and no write. Otherwise
      exactly one note, holding `convert(name, enhanced + "", format)`, is
      added, and the next query for the pair finds it. */
  lemma TopicOutcomes(ctx: Context, p: Progress, id: string)
    requires id in ctx.topics.vals
    ensures var name := ctx.topics.vals[id].name;
      var q := Step(ctx, p, id);
      && (id !in ctx.topicMap ==> q == p.(errors := p.errors + [MissingTopic(name)]))
      && (id in ctx.topicMap && FindNote(p.store, ctx.topicMap[id], ctx.format) >= 0 ==>
        && q.store == p.store && q.errors == p.errors && q.count == p.count + 1
        && q.notes.vals[id] == NoteData(name, p.store[FindNote(p.store, ctx.topicMap[id], ctx.format)].content, ctx.format))
      && (id in ctx.topicMap && FindNote(p.store, ctx.topicMap[id], ctx.format) == -1 ==>
        && (ctx.extract(name).Text? && Contains(ctx.extract(name).text, ErrorMarker) ==>
          q == p.(errors := p.errors + [ExtractError(name, ctx.extract(name).text)]))
        && (ctx.extract(name).Text? && !Contains(ctx.extract(name).text, ErrorMarker) ==>
          var info := ctx.extract(name).text;
          && (ctx.enhance(name, info).Text? && Contains(ctx.enhance(name, info).text, ErrorMarker) ==>
            q == p.(errors := p.errors + [EnhanceError(name, ctx.enhance(name, info).text)]))
          && (ctx.enhance(name, info).Text? && !Contains(ctx.enhance(name, info).text, ErrorMarker) ==>
            var content := ctx.convert(name, ctx.enhance(name, info).text + "", ctx.format);
            && q.store == p.store + [NoteRow(ctx.topicMap[id], ctx.format, content)]
            && q.notes.vals[id] == NoteData(name, content, ctx.format)
            && FindNote(q.store, ctx.topicMap[id], ctx.format) == |p.store|)))
  {
    var name := ctx.topics.vals[id].name;
    var q := Step(ctx, p, id);
    if id in ctx.topicMap && FindNote(p.store, ctx.topicMap[id], ctx.format) == -1 && q.store != p.store {
      var pk := ctx.topicMap[id];
      assert forall j :: 0 <= j < |p.store| ==> q.store[j] == p.store[j];
      assert IsFor(q.store[|p.store|], pk, ctx.format);
      var r := FindNote(q.store, pk, ctx.format);
      assert !(r < |p.store|);
    }
  }

  /** The loop as `process_and_generate` runs it. */
  method TopicLoop(ctx: Context, store: seq<NoteRow>) returns (p: Progress)
    requires ctx.topics.Valid()
    ensures p == Loop(ctx, Progress(Empty(), [], 0, store), ctx.topics.keys)
  {
    var start := Progress(Empty(), [], 0, store);
    p := start;
    var keys := ctx.topics.keys;
    for i := 0 to |keys|
      invariant p == Loop(ctx, start, keys[..i])
    {
      assert keys[..i + 1][..i] == keys[..i];
      p := ProcessTopic(ctx, p, keys[i]);
    }
    assert keys[..|keys|] == keys;
  }

  /** The body of the loop for topic `id`. */
  method ProcessTopic(ctx: Context, p: Progress, id: string) returns (q: Progress)
    requires id in ctx.topics.vals
    ensures q == Step(ctx, p, id)
  {
    var name := ctx.topics.vals[id].name;
    q := p;
    if id !in ctx.topicMap {
      q := q.(errors := q.errors + [MissingTopic(name)]);
      return;
    }
    var pk := ctx.topicMap[id];
    var existing := FindNote(p.store, pk, ctx.format);
    if existing >= 0 {
      q := q.(notes := q.notes.Put(id, NoteData(name, p.store[existing].content, ctx.format)), count := q.count + 1);
      return;
    }
    var info := ctx.extract(name);
    if info.Raised? {
      q := q.(errors := q.errors + [ProcessingError(name, info.message)]);
      return;
    }
    if Contains(info.text, ErrorMarker) {
      q := q.(errors := q.errors + [ExtractError(name, info.text)]);
      return;
    }
    var enhanced := ctx.enhance(name, info.text);
    if enhanced.Raised? {
      q := q.(errors := q.errors + [ProcessingError(name, enhanced.message)]);
      return;
    }
    if Contains(enhanced.text, ErrorMarker) {
      q := q.(errors := q.errors + [EnhanceError(name, enhanced.text)]);
      return;
    }
    var imageContent := "";
    var content := ctx.convert(name, enhanced.text + imageContent, ctx.format);
    q := Progress(q.notes.Put(id, NoteData(name, content, ctx.format)), q.errors, q.count + 1,
      q.store + [NoteRow(pk, ctx.format, content)]);
  }

  /** With the format converter itself as the injected `convert`, every note
      the loop adds in markdown opens with a title header. */
  lemma ConvertedNotes(ctx: Context, p: Progress, id: string)
    requires id in ctx.topics.vals
    requires ctx.convert == FormatConverter.Converted
    requires Hyperlinks.FormatOf(ctx.format) == Hyperlinks.MarkdownFormat
    ensures var q := Step(ctx, p, id);
      q.store != p.store ==> StartsWith(q.store[|p.store|].content, "# ")
  {
    var name := ctx.topics.vals[id].name;
    match TopicOutcome(ctx, p.store, id, name)
    case Skipped(e) =>
    case Reused(c) =>
    case Created(pk, content) =>
      var info := ctx.extract(name).text;
      FormatConverter.MarkdownHasTitle(name, ctx.enhance(name, info).text + "", ctx.format);
  }

  // ---------------------------------------------------------------------
  // The hyperlink pass
  // ---------------------------------------------------------------------

  /** `all_notes_for_hyperlinking`, built over the topic ids `ks` in order:
      the note of this run, or else the stored note for the topic's
      `(pk, format)` pair, if any. */
  function LinkSources(ctx: Context, notes: Dict<NoteData>, store: seq<NoteRow>, ks: seq<string>): (r: Dict<NoteData>)
    requires forall k :: k in ks ==> k in ctx.topics.vals
    ensures r.Valid()
    ensures forall k :: k in r.vals ==> k in ks
    decreases |ks|
  {
    if ks == [] then Empty()
    else
      var init := ks[..|ks| - 1];
      var k := ks[|ks| - 1];
      assert forall x :: x in ks ==> x in init || x == k;
      var acc := LinkSources(ctx, notes, store, init);
      if k in notes.vals then acc.Put(k, notes.vals[k])
      else if k in ctx.topicMap && FindNote(store, ctx.topicMap[k], ctx.format) >= 0 then
        var i := FindNote(store, ctx.topicMap[k], ctx.format);
        acc.Put(k, NoteData(ctx.topics.vals[k].name, store[i].content, ctx.format))
      else acc
  }

  /** The last topic id is either among the earlier ones or is the last. */
  lemma InitOrLast(ks: seq<string>, k: string)
    requires ks != [] && k in ks && k != ks[|ks| - 1]
    ensures k in ks[..|ks| - 1]
  {
    var j :| 0 <= j < |ks| && ks[j] == k;
    assert ks[..|ks| - 1][j] == k;
  }

  /** Each topic with a note in this run contributes that note. */
  lemma {:induction false} LinkSourcesOwn(ctx: Context, notes: Dict<NoteData>, store: seq<NoteRow>, ks: seq<string>)
    requires forall k :: k in ks ==> k in ctx.topics.vals
    ensures var r := LinkSources(ctx, notes, store, ks);
      forall k :: k in ks && k in notes.vals ==> k in r.vals && r.vals[k] == notes.vals[k]
    decreases |ks|
  {
    if ks != [] {
      var init := ks[..|ks| - 1];
      var last := ks[|ks| - 1];
      assert forall x :: x in init ==> x in ks;
      LinkSourcesOwn(ctx, notes, store, init);
      var acc := LinkSources(ctx, notes, store, init);
      var r := LinkSources(ctx, notes, store, ks);
      forall k | k in ks && k in notes.vals
        ensures k in r.vals && r.vals[k] == notes.vals[k]
      {
        if k != last {
          InitOrLast(ks, k);
        }
      }
    }
  }

  /** Any other topic contributes the stored note for its `(pk, format)`
      pair, when there is one, and nothing otherwise. */
  lemma {:induction false} LinkSourcesStored(ctx: Context, notes: Dict<NoteData>, store: seq<NoteRow>, ks: seq<string>)
    requires forall k :: k in ks ==> k in ctx.topics.vals
    ensures var r := LinkSources(ctx, notes, store, ks);
      forall k :: k in ks && k !in notes.vals && k in ctx.topicMap ==>
        var i := FindNote(store, ctx.topicMap[k], ctx.format);
        (k in r.vals <==> i >= 0) && (i >= 0 ==> r.vals[k] == NoteData(ctx.topics.vals[k].name, store[i].content, ctx.format))
    decreases |ks|
  {
    if ks != [] {
      var init := ks[..|ks| - 1];
      var last := ks[|ks| - 1];
      assert forall x :: x in init ==> x in ks;
      LinkSourcesStored(ctx, notes, store, init);
      var acc := LinkSources(ctx, notes, store, init);
      var r := LinkSources(ctx, notes, store, ks);
      forall k | k in ks && k !in notes.vals && k in ctx.topicMap
        ensures var i := FindNote(store, ctx.topicMap[k], ctx.format);
          (k in r.vals <==> i >= 0) && (i >= 0 ==> r.vals[k] == NoteData(ctx.topics.vals[k].name, store[i].content, ctx.format))
      {
        if k != last {
          InitOrLast(ks, k);
        }
      }
    }
  }

  /** The update loop over the linked notes' ids `ks`: the first stored note
      for each id's `(pk, format)` pair takes the linked content when it
      differs. The second component collects the rows whose content (and
      `updated_at`) was assigned. */
  function WriteLinks(store: seq<NoteRow>, ks: seq<string>, linked: map<string, NoteData>, topicMap: map<string, int>, format: string)
    : (r: (seq<NoteRow>, set<int>))
    ensures |r.0| == |store|
    ensures forall j :: 0 <= j < |store| ==> r.0[j].topicPk == store[j].topicPk && r.0[j].format == store[j].format
    ensures forall j :: j in r.1 ==> 0 <= j < |store|
    decreases |ks|
  {
    if ks == [] then (store, {})
    else
      var prev := WriteLinks(store, ks[..|ks| - 1], linked, topicMap, format);
      var k := ks[|ks| - 1];
      var s := prev.0;
      if k in linked && k in topicMap then
        var i := FindNote(s, topicMap[k], format);
        if i >= 0 && s[i].content != linked[k].content then (s[i := s[i].(content := linked[k].content)], prev.1 + {i})
        else prev
      else prev
  }

  /** Rewriting contents keeps every row's pair, so the same queries find the same rows. */
  lemma SamePairs(a: seq<NoteRow>, b: seq<NoteRow>, pk: int, format: string)
    requires |a| == |b|
    requires forall j :: 0 <= j < |a| ==> a[j].topicPk == b[j].topicPk && a[j].format == b[j].format
    ensures FindNote(a, pk, format) == FindNote(b, pk, format)
    ensures Unique(a) ==> Unique(b)
  {
    assert forall j :: 0 <= j < |a| ==> (IsFor(a[j], pk, format) <==> IsFor(b[j], pk, format));
  }

  /** Distinct topic ids have distinct topic rows. */
  ghost predicate Injective(ks: seq<string>, topicMap: map<string, int>) {
    forall a, b :: a in ks && b in ks && a in topicMap && b in topicMap && a != b ==> topicMap[a] != topicMap[b]
  }

  /** Every row the update assigns is the first stored note for one of the linked ids. */
  lemma {:induction false} WriteLinksTargets(store: seq<NoteRow>, ks: seq<string>, linked: map<string, NoteData>,
                                             topicMap: map<string, int>, format: string)
    ensures forall j :: j in WriteLinks(store, ks, linked, topicMap, format).1 ==>
      exists k :: k in ks && k in topicMap && FindNote(store, topicMap[k], format) == j
    decreases |ks|
  {
    if ks != [] {
      var init := ks[..|ks| - 1];
      var k := ks[|ks| - 1];
      WriteLinksTargets(store, init, linked, topicMap, format);
      var prev := WriteLinks(store, init, linked, topicMap, format);
      assert forall x :: x in init ==> x in ks;
      if k in linked && k in topicMap {
        SamePairs(store, prev.0, topicMap[k], format);
      }
    }
  }

  /** Distinct ids on distinct topic rows have distinct first notes. */
  lemma DistinctTargets(store: seq<NoteRow>, ks: seq<string>, topicMap: map<string, int>, format: string, k: string)
    requires Injective(ks + [k], topicMap) && k !in ks && k in topicMap
    requires FindNote(store, topicMap[k], format) >= 0
    ensures forall k' :: k' in ks && k' in topicMap ==> FindNote(store, topicMap[k'], format) != FindNote(store, topicMap[k], format)
  {
    forall k' | k' in ks && k' in topicMap
      ensures FindNote(store, topicMap[k'], format) != FindNote(store, topicMap[k], format)
    {
      assert k' in ks + [k] && k in ks + [k];
    }
  }

  /** With distinct ids on distinct topic rows, the update assigns exactly
      the rows whose content changes, so each row at most once. */
  lemma {:induction false} WriteLinksTouched(store: seq<NoteRow>, ks: seq<string>, linked: map<string, NoteData>,
                                             topicMap: map<string, int>, format: string)
    requires forall i, j :: 0 <= i < j < |ks| ==> ks[i] != ks[j]
    requires Injective(ks, topicMap)
    ensures var r := WriteLinks(store, ks, linked, topicMap, format);
      forall j :: 0 <= j < |store| ==> (j in r.1 <==> r.0[j] != store[j])
    decreases |ks|
  {
    if ks != [] {
      var init := ks[..|ks| - 1];
      var k := ks[|ks| - 1];
      assert ks == init + [k];
      assert Injective(init, topicMap);
      WriteLinksTouched(store, init, linked, topicMap, format);
      var prev := WriteLinks(store, init, linked, topicMap, format);
      if k in linked && k in topicMap {
        SamePairs(store, prev.0, topicMap[k], format);
        var i := FindNote(store, topicMap[k], format);
        if i >= 0 && prev.0[i].content != linked[k].content {
          WriteLinksTargets(store, init, linked, topicMap, format);
          DistinctTargets(store, init, topicMap, format, k);
          assert i !in prev.1;
          TouchOne(store, prev.0, prev.1, i, linked[k].content);
        }
      }
    }
  }

  /** Rewriting one untouched row to new content marks exactly that row as assigned. */
  lemma TouchOne(store: seq<NoteRow>, rows: seq<NoteRow>, touched: set<int>, i: int, content: string)
    requires |rows| == |store| && 0 <= i < |store| && i !in touched
    requires forall j :: 0 <= j < |store| ==> (j in touched <==> rows[j] != store[j])
    requires rows[i].content != content
    ensures var next := rows[i := rows[i].(content := content)];
      forall j :: 0 <= j < |store| ==> (j in touched + {i} <==> next[j] != store[j])
  {
    assert rows[i] == store[i];
  }

  /** The first stored note for each linked id's pair ends with the linked content. */
  lemma {:induction false} WriteLinksContents(store: seq<NoteRow>, ks: seq<string>, linked: map<string, NoteData>,
                                              topicMap: map<string, int>, format: string)
    requires forall i, j :: 0 <= i < j < |ks| ==> ks[i] != ks[j]
    requires Injective(ks, topicMap)
    ensures var r := WriteLinks(store, ks, linked, topicMap, format);
      forall k :: k in ks && k in linked && k in topicMap && FindNote(store, topicMap[k], format) >= 0 ==>
        r.0[FindNote(store, topicMap[k], format)].content == linked[k].content
    decreases |ks|
  {
    if ks != [] {
      var init := ks[..|ks| - 1];
      var k := ks[|ks| - 1];
      assert ks == init + [k];
      assert Injective(init, topicMap);
      WriteLinksContents(store, init, linked, topicMap, format);
      var prev := WriteLinks(store, init, linked, topicMap, format);
      var r := WriteLinks(store, ks, linked, topicMap, format);
      if k in linked && k in topicMap {
        SamePairs(store, prev.0, topicMap[k], format);
        var i := FindNote(store, topicMap[k], format);
        if i >= 0 {
          DistinctTargets(store, init, topicMap, format, k);
        }
        forall x | x in ks && x in linked && x in topicMap && FindNote(store, topicMap[x], format) >= 0
          ensures r.0[FindNote(store, topicMap[x], format)].content == linked[x].content
        {
          if x != k {
            InitOrLast(ks, x);
          }
        }
      } else {
        assert r == prev;
        forall x | x in ks && x in linked && x in topicMap && FindNote(store, topicMap[x], format) >= 0
          ensures r.0[FindNote(store, topicMap[x], format)].content == linked[x].content
        {
          InitOrLast(ks, x);
        }
      }
    }
  }

  /** The update rewrites contents only, so the store keeps its pairs and gains no duplicate. */
  lemma WriteLinksUnique(store: seq<NoteRow>, ks: seq<string>, linked: map<string, NoteData>,
                         topicMap: map<string, int>, format: string)
    requires Unique(store)
    ensures Unique(WriteLinks(store, ks, linked, topicMap, format).0)
  {
    SamePairs(store, WriteLinks(store, ks, linked, topicMap, format).0, 0, "");
  }

  /** The notes dictionary after a failed pass: the pass rewrote, in place,
      the note objects it reached, which `generated_notes` shares. */
  function Aliased(notes: Dict<NoteData>, linked: Dict<NoteData>): (r: Dict<NoteData>)
    ensures r.keys == notes.keys && r.vals.Keys == notes.vals.Keys
  {
    Dict(notes.keys, map k | k in notes.vals :: if k in linked.vals then linked.vals[k] else notes.vals[k])
  }

  /** The hyperlink step of `process_and_generate`, run when the loop left
      any note: link the notes of this run together with the stored notes
      of the other topics; then either write the changed contents back and
      return the linked notes, or roll the table back and record the error. */
  function LinkPass(ctx: Context, p: Progress): (q: Progress)
    requires ctx.topics.Valid() && p.notes.Valid()
    ensures q.notes.Valid() && q.count == p.count
  {
    if p.notes.keys == [] then p
    else
      var sources := LinkSources(ctx, p.notes, p.store, ctx.topics.keys);
      var r := Hyperlinks.LinkAll(Hyperlinks.FormatOf(ctx.format), sources, ctx.topics);
      match r.1
      case None => p.(notes := r.0, store := WriteLinks(p.store, r.0.keys, r.0.vals, ctx.topicMap, ctx.format).0)
      case Some(m) => p.(notes := Aliased(p.notes, r.0), errors := p.errors + [LinkError(m)])
  }

  /** Every note the loop leaves belongs to a topic it visited. */
  lemma {:induction false} LoopNoteIds(ctx: Context, p: Progress, ks: seq<string>)
    requires forall k :: k in ks ==> k in ctx.topics.vals
    ensures forall k :: k in Loop(ctx, p, ks).notes.vals ==> k in p.notes.vals || k in ks
    decreases |ks|
  {
    if ks != [] {
      var init := ks[..|ks| - 1];
      assert forall k :: k in init ==> k in ks;
      LoopNoteIds(ctx, p, init);
    }
  }

  /** The pass either succeeds, keeping the errors and the table's pairs,
      or fails, keeping the table and adding the one link error; either way
      no note of the run is lost and the table gains no duplicate. */
  lemma LinkPassOutcome(ctx: Context, p: Progress)
    requires ctx.topics.Valid() && p.notes.Valid()
    ensures var q := LinkPass(ctx, p);
      && (p.notes.keys == [] ==> q == p)
      && (q.errors == p.errors || ((exists m :: q.errors == p.errors + [LinkError(m)]) && q.store == p.store))
      && |q.store| == |p.store|
      && (forall j :: 0 <= j < |p.store| ==> q.store[j].topicPk == p.store[j].topicPk && q.store[j].format == p.store[j].format)
      && (Unique(p.store) ==> Unique(q.store))
      && (forall k :: k in p.notes.vals && k in ctx.topics.vals ==> k in q.notes.vals)
  {
    var q := LinkPass(ctx, p);
    if p.notes.keys != [] {
      var sources := LinkSources(ctx, p.notes, p.store, ctx.topics.keys);
      var r := Hyperlinks.LinkAll(Hyperlinks.FormatOf(ctx.format), sources, ctx.topics);
      LinkSourcesOwn(ctx, p.notes, p.store, ctx.topics.keys);
      if r.1.None? && Unique(p.store) {
        WriteLinksUnique(p.store, r.0.keys, r.0.vals, ctx.topicMap, ctx.format);
      } else if r.1.Some? {
        assert q.errors == p.errors + [LinkError(r.1.value)];
      }
    }
  }

  /** After a successful pass every note of the run holds exactly the linked
      version of its content, and the first stored note of every linked
      topic holds its linked content, when topic ids are on distinct rows. */
  lemma LinkPassLinks(ctx: Context, p: Progress)
    requires ctx.topics.Valid() && p.notes.Valid()
    requires forall k :: k in p.notes.vals ==> k in ctx.topics.vals
    requires Injective(ctx.topics.keys, ctx.topicMap)
    ensures var q := LinkPass(ctx, p);
      var fmt := Hyperlinks.FormatOf(ctx.format);
      q.errors == p.errors && p.notes.keys != [] ==>
        && (forall k :: k in p.notes.vals ==>
          (k in q.notes.vals && Hyperlinks.LinkContent(fmt, p.notes.vals[k].content, k, ctx.topics) == Ok(q.notes.vals[k].content)))
        && (forall k :: k in q.notes.vals && k in ctx.topicMap && FindNote(p.store, ctx.topicMap[k], ctx.format) >= 0 ==>
          q.store[FindNote(p.store, ctx.topicMap[k], ctx.format)].content == q.notes.vals[k].content)
  {
    var q := LinkPass(ctx, p);
    if p.notes.keys != [] {
      var sources := LinkSources(ctx, p.notes, p.store, ctx.topics.keys);
      var fmt := Hyperlinks.FormatOf(ctx.format);
      var r := Hyperlinks.LinkAll(fmt, sources, ctx.topics);
      if r.1.None? {
        LinkSourcesOwn(ctx, p.notes, p.store, ctx.topics.keys);
        Hyperlinks.LinkedContents(fmt, sources, ctx.topics);
        assert Injective(r.0.keys, ctx.topicMap) by {
          assert forall k :: k in r.0.keys ==> k in ctx.topics.keys;
        }
        WriteLinksContents(p.store, r.0.keys, r.0.vals, ctx.topicMap, ctx.format);
      }
    }
  }

  /** The hyperlink step as the orchestrator runs it: gather the notes to
      link, link them, then update the stored notes. */
  method AddLinks(ctx: Context, p: Progress) returns (q: Progress)
    requires ctx.topics.Valid() && p.notes.Valid()
    ensures q == LinkPass(ctx, p)
  {
    if p.notes.keys == [] {
      return p;
    }
    var sources := GatherSources(ctx, p.notes, p.store);
    var linked, err := Hyperlinks.AddHyperlinks(sources, ctx.topics, ctx.format);
    if err.Some? {
      return p.(notes := Aliased(p.notes, linked), errors := p.errors + [LinkError(err.value)]);
    }
    var store, touched := WriteBack(p.store, linked.keys, linked.vals, ctx.topicMap, ctx.format);
    q := p.(notes := linked, store := store);
  }

  /** The loop building `all_notes_for_hyperlinking` over the topics in order. */
  method GatherSources(ctx: Context, notes: Dict<NoteData>, store: seq<NoteRow>) returns (sources: Dict<NoteData>)
    requires ctx.topics.Valid()
    ensures sources == LinkSources(ctx, notes, store, ctx.topics.keys)
  {
    var keys := ctx.topics.keys;
    sources := Empty();
    var i := 0;
    while i < |keys|
      invariant 0 <= i <= |keys|
      invariant sources == LinkSources(ctx, notes, store, keys[..i])
    {
      var id := keys[i];
      GatherStep(ctx, notes, store, keys, i);
      if id in notes.vals {
        sources := sources.Put(id, notes.vals[id]);
      } else if id in ctx.topicMap {
        var n := FindNote(store, ctx.topicMap[id], ctx.format);
        if n >= 0 {
          sources := sources.Put(id, NoteData(ctx.topics.vals[id].name, store[n].content, ctx.format));
        }
      }
      i := i + 1;
    }
    assert keys[..i] == keys;
  }

  /** One more topic id adds its note of this run, or else its stored note,
      or nothing. */
  lemma GatherStep(ctx: Context, notes: Dict<NoteData>, store: seq<NoteRow>, ks: seq<string>, i: nat)
    requires forall k :: k in ks ==> k in ctx.topics.vals
    requires i < |ks|
    ensures var acc := LinkSources(ctx, notes, store, ks[..i]);
      var next := LinkSources(ctx, notes, store, ks[..i + 1]);
      var id := ks[i];
      && (id in notes.vals ==> next == acc.Put(id, notes.vals[id]))
      && (id !in notes.vals && id in ctx.topicMap && FindNote(store, ctx.topicMap[id], ctx.format) >= 0 ==>
        next == acc.Put(id, NoteData(ctx.topics.vals[id].name, store[FindNote(store, ctx.topicMap[id], ctx.format)].content, ctx.format)))
      && (id !in notes.vals && !(id in ctx.topicMap && FindNote(store, ctx.topicMap[id], ctx.format) >= 0) ==> next == acc)
  {
    assert ks[..i + 1][..i] == ks[..i] && ks[..i + 1][i] == ks[i];
  }

  /** The loop writing linked contents back: the table after the updates and
      the rows assigned. */
  method WriteBack(store: seq<NoteRow>, ks: seq<string>, linked: map<string, NoteData>, topicMap: map<string, int>, format: string)
    returns (next: seq<NoteRow>, touched: set<int>)
    ensures next == WriteLinks(store, ks, linked, topicMap, format).0
    ensures touched == WriteLinks(store, ks, linked, topicMap, format).1
  {
    next, touched := store, {};
    var j := 0;
    while j < |ks|
      invariant 0 <= j <= |ks|
      invariant next == WriteLinks(store, ks[..j], linked, topicMap, format).0
      invariant touched == WriteLinks(store, ks[..j], linked, topicMap, format).1
    {
      var id := ks[j];
      assert ks[..j + 1][..j] == ks[..j] && ks[..j + 1][j] == id;
      if id in linked && id in topicMap {
        var n := FindNote(next, topicMap[id], format);
        if n >= 0 && next[n].content != linked[id].content {
          next := next[n := next[n].(content := linked[id].content)];
          touched := touched + {n};
        }
      }
      j := j + 1;
    }
    assert ks[..j] == ks;
  }

  // ---------------------------------------------------------------------
  // The whole run
  // ---------------------------------------------------------------------

  /** The index step: a markdown run that has notes gets the introduction
      page, stored under its own id. */
  function WithIndex(p: Progress, format: string): (q: Progress)
    requires p.notes.Valid()
    ensures q.notes.Valid()
    ensures q.count == p.count && q.errors == p.errors && q.store == p.store
    ensures forall k :: k in p.notes.vals ==> k in q.notes.vals
  {
    if format == "markdown" && p.notes.keys != [] then
      p.(notes := p.notes.Put(IndexPage.IndexId, NoteData("Introduction", IndexPage.Content(p.notes), "markdown")))
    else p
  }

  /** `process_and_generate` for a document that exists (`found`) or not:
      the topic loop from no notes and no errors, the hyperlink step, and
      the index step. */
  function Generate(found: bool, documentId: nat, ctx: Context, store: seq<NoteRow>): Progress
    requires ctx.topics.Valid()
  {
    if !found then Progress(Empty(), [MissingDocument(documentId)], 0, store)
    else WithIndex(LinkPass(ctx, Loop(ctx, Progress(Empty(), [], 0, store), ctx.topics.keys)), ctx.format)
  }

  /** A topic either leaves the notes as they were, or adds one success and
      stores its note under its id. */
  lemma StepNotes(ctx: Context, p: Progress, id: string)
    requires id in ctx.topics.vals
    ensures var q := Step(ctx, p, id);
      && (q.count == p.count ==> q.notes == p.notes)
      && (q.count == p.count + 1 ==> id in q.notes.vals && q.notes == p.notes.Put(id, q.notes.vals[id]))
  {
  }

  /** Over distinct topic ids, each success adds exactly one note. */
  lemma {:induction false} LoopCountsNotes(ctx: Context, p: Progress, ks: seq<string>)
    requires forall k :: k in ks ==> k in ctx.topics.vals
    requires forall i, j :: 0 <= i < j < |ks| ==> ks[i] != ks[j]
    requires p.notes.Valid() && forall k :: k in ks ==> k !in p.notes.vals
    ensures var q := Loop(ctx, p, ks);
      |q.notes.keys| == |p.notes.keys| + (q.count - p.count)
    decreases |ks|
  {
    if ks != [] {
      var init := ks[..|ks| - 1];
      var k := ks[|ks| - 1];
      assert forall x :: x in init ==> x in ks;
      LoopCountsNotes(ctx, p, init);
      LoopNoteIds(ctx, p, init);
      var mid := Loop(ctx, p, init);
      assert k !in init;
      StepNotes(ctx, mid, k);
    }
  }

  /** The run's accounting: a missing document yields only its error; else
      every topic yields one success or one error, plus at most the one
      link error. */
  lemma RunCounts(found: bool, documentId: nat, ctx: Context, store: seq<NoteRow>)
    requires ctx.topics.Valid()
    ensures var r := Generate(found, documentId, ctx, store);
      && (!found ==> r.notes.keys == [] && r.errors == [MissingDocument(documentId)] && r.count == 0 && r.store == store)
      && r.notes.Valid()
      && r.count <= |ctx.topics.keys|
      && (found ==>
        (|r.errors| == |ctx.topics.keys| - r.count
        || (|r.errors| == |ctx.topics.keys| - r.count + 1 && exists m :: r.errors[|r.errors| - 1] == LinkError(m))))
  {
    if found {
      var l := Loop(ctx, Progress(Empty(), [], 0, store), ctx.topics.keys);
      LinkPassOutcome(ctx, l);
      var q := LinkPass(ctx, l);
      assert Generate(found, documentId, ctx, store) == WithIndex(q, ctx.format);
      if q.errors != l.errors {
        var m :| q.errors == l.errors + [LinkError(m)];
        assert q.errors[|q.errors| - 1] == LinkError(m);
      }
    }
  }

  /** The run keeps every stored row's pair, only adds rows at the end, and
      adds no duplicate pair. */
  lemma RunStore(found: bool, documentId: nat, ctx: Context, store: seq<NoteRow>)
    requires ctx.topics.Valid()
    ensures var r := Generate(found, documentId, ctx, store);
      && (Unique(store) ==> Unique(r.store))
      && |store| <= |r.store|
      && (forall j :: 0 <= j < |store| ==> r.store[j].topicPk == store[j].topicPk && r.store[j].format == store[j].format)
  {
    if found {
      var l := Loop(ctx, Progress(Empty(), [], 0, store), ctx.topics.keys);
      var q := LinkPass(ctx, l);
      LinkPassOutcome(ctx, l);
      assert Generate(found, documentId, ctx, store).store == q.store;
      PairsKept(store, l.store, q.store);
    }
  }

  /** Rows kept at the front of a table whose pairs a later rewrite keeps
      still carry their pairs. */
  lemma PairsKept(s: seq<NoteRow>, l: seq<NoteRow>, q: seq<NoteRow>)
    requires |s| <= |l| && l[..|s|] == s
    requires |q| == |l| && forall j :: 0 <= j < |l| ==> q[j].topicPk == l[j].topicPk && q[j].format == l[j].format
    ensures forall j :: 0 <= j < |s| ==> q[j].topicPk == s[j].topicPk && q[j].format == s[j].format
  {
    assert forall j :: 0 <= j < |s| ==> l[j] == s[j];
  }

  /** A markdown run with at least one success ends with the introduction
      page over the linked notes. */
  lemma RunIndex(documentId: nat, ctx: Context, store: seq<NoteRow>)
    requires ctx.topics.Valid() && ctx.format == "markdown"
    ensures var r := Generate(true, documentId, ctx, store);
      var l := LinkPass(ctx, Loop(ctx, Progress(Empty(), [], 0, store), ctx.topics.keys));
      r.count > 0 ==>
        (&& IndexPage.IndexId in r.notes.vals
         && r.notes.vals[IndexPage.IndexId] == NoteData("Introduction", IndexPage.Content(l.notes), "markdown")
         && StartsWith(r.notes.vals[IndexPage.IndexId].content, IndexPage.IndexHeader))
  {
    var start := Progress(Empty(), [], 0, store);
    var loop := Loop(ctx, start, ctx.topics.keys);
    var l := LinkPass(ctx, loop);
    if loop.count > 0 {
      LoopCountsNotes(ctx, start, ctx.topics.keys);
      LoopNoteIds(ctx, start, ctx.topics.keys);
      LinkPassOutcome(ctx, loop);
      var k := loop.notes.keys[0];
      assert k in loop.notes.vals;
      assert k in l.notes.vals;
      assert l.notes.keys != [];
      IndexPage.HeaderFirst(l.notes);
      assert Generate(true, documentId, ctx, store) == WithIndex(l, ctx.format);
    }
  }

  /** `process_and_generate` as the orchestrator runs it, on the document's
      topic rows `rows`. */
  method ProcessAndGenerate(found: bool, documentId: nat, rows: seq<TopicRow>, topics: Dict<TopicData>, format: string,
                            extract: string -> Reply, enhance: (string, string) -> Reply,
                            convert: (string, string, string) -> string, store: seq<NoteRow>)
    returns (r: Progress)
    requires topics.Valid()
    ensures r == Generate(found, documentId, Context(topics, TopicMap(rows), format, extract, enhance, convert), store)
  {
    if !found {
      return Progress(Empty(), [MissingDocument(documentId)], 0, store);
    }
    var ctx := Context(topics, TopicMap(rows), format, extract, enhance, convert);
    var p := TopicLoop(ctx, store);
    p := AddLinks(ctx, p);
    if format == "markdown" && p.notes.keys != [] {
      var content := IndexPage.BuildContent(p.notes);
      p := p.(notes := p.notes.Put(IndexPage.IndexId, NoteData("Introduction", content, "markdown")));
    }
    r := p;
  }
}
