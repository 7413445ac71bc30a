/**
 * The decision rules inside the web routes of `app.py`, lifted out of the
 * request handlers: the upload filter and the upload's title and type, the
 * reconciliation of stored topics after a granularity change, the choice of
 * the next topic to generate, the note write, the download file name, and
 * the notes shown when a stored document is loaded.
 */
module AppHelpers {
  import opened Wrappers
  import opened Text
  import opened Dicts
  import opened Models
  import opened Store

  // ---------------------------------------------------------------------
  // Uploads
  // ---------------------------------------------------------------------

  const AllowedExtensions: set<string> := {"txt", "pdf", "docx", "md"}

  /** `allowed_file(filename)`: a dot, and a known extension after the last one. */
  predicate AllowedFile(filename: string) {
    match RSplitOnce(filename, '.')
    case None => false
    case Some(parts) => Lower(parts.1) in AllowedExtensions
  }

  /** The title and file type stored for an upload: the name before the last
      dot, and the lower-cased text after it; `None` where `rsplit('.', 1)[1]`
      raises `IndexError` because there is no dot. */
  function UploadFields(filename: string): (r: Option<(string, string)>)
    ensures r.None? <==> '.' !in filename
  {
    match RSplitOnce(filename, '.')
    case None => None
    case Some(parts) => Some((parts.0, Lower(parts.1)))
  }

  /** Splitting at the last dot recovers the stem and the extension. */
  lemma RSplitAtLastDot(stem: string, ext: string)
    requires '.' !in ext
    ensures RSplitOnce(stem + "." + ext, '.') == Some((stem, ext))
  {
    var s := stem + "." + ext;
    assert s[|stem|] == '.';
    assert s[|stem| + 1..] == ext;
    RFindCharAt(s, '.', |stem|);
    assert s[..|stem|] == stem;
  }

  /** A name is accepted exactly when its extension, lower-cased, is one of
      txt, pdf, docx and md; a name without a dot never is. An accepted
      upload is stored under its stem with the lower-cased extension as
      its type, which is then one of the accepted four. */
  lemma AllowedFileSpec(stem: string, ext: string, other: string)
    requires '.' !in ext && '.' !in other
    ensures AllowedFile(stem + "." + ext) <==> Lower(ext) in AllowedExtensions
    ensures !AllowedFile(other)
    ensures UploadFields(stem + "." + ext) == Some((stem, Lower(ext)))
    ensures AllowedFile(stem + "." + ext) ==> UploadFields(stem + "." + ext).value.1 in AllowedExtensions
  {
    RSplitAtLastDot(stem, ext);
  }

  // ---------------------------------------------------------------------
  // Topic reconciliation after a granularity change
  // ---------------------------------------------------------------------

  /** A stored row after `existing_topic.name = ...; existing_topic.description = ...`. */
  function Refreshed(row: TopicRow, t: TopicData): TopicRow {
    TopicRow(row.pk, row.topicId, t.name, t.description)
  }

  /** The first loop's updates after visiting the topic ids `ks`: every
      stored row whose id was visited takes the new name and description,
      in place. */
  function Updated(rows: seq<TopicRow>, vals: map<string, TopicData>, ks: seq<string>): seq<TopicRow> {
    seq(|rows|, j requires 0 <= j < |rows| =>
      if rows[j].topicId in ks && rows[j].topicId in vals then Refreshed(rows[j], vals[rows[j].topicId]) else rows[j])
  }

  /** Visiting a stored id refreshes its one row. */
  lemma UpdatedStored(rows: seq<TopicRow>, vals: map<string, TopicData>, ks: seq<string>, j: int)
    requires DistinctIds(rows) && 0 <= j < |rows|
    requires rows[j].topicId in vals && rows[j].topicId !in ks
    ensures Updated(rows, vals, ks + [rows[j].topicId])
      == Updated(rows, vals, ks)[j := Refreshed(rows[j], vals[rows[j].topicId])]
  {
  }

  /** Visiting an id that is not stored changes no row. */
  lemma UpdatedUnstored(rows: seq<TopicRow>, vals: map<string, TopicData>, ks: seq<string>, id: string)
    requires id !in Ids(rows)
    ensures Updated(rows, vals, ks + [id]) == Updated(rows, vals, ks)
  {
    forall j | 0 <= j < |rows| ensures rows[j].topicId != id {
      assert rows[j] in rows;
    }
  }

  /** The second loop's deletions: the stored rows whose id is still a topic. */
  function Surviving(rows: seq<TopicRow>, vals: map<string, TopicData>): seq<TopicRow>
    decreases |rows|
  {
    if rows == [] then []
    else
      var last := rows[|rows| - 1];
      Surviving(rows[..|rows| - 1], vals) + (if last.topicId in vals then [last] else [])
  }

  /** The first loop's insertions: one new row, with the next primary key,
      for each topic id not stored before, in dictionary order. */
  function NewRows(keys: seq<string>, stored: set<string>, vals: map<string, TopicData>, pk: int): seq<TopicRow>
    requires forall k :: k in keys ==> k in vals
    decreases |keys|
  {
    if keys == [] then []
    else if keys[0] in stored then NewRows(keys[1..], stored, vals, pk)
    else
      var row := TopicRow(pk, keys[0], vals[keys[0]].name, vals[keys[0]].description);
      [row] + NewRows(keys[1..], stored, vals, pk + 1)
  }

  /** The document's topic rows after `update_granularity` has reconciled
      them with the new dictionary `topics`; new rows are numbered from `nextPk`. */
  function Reconciled(rows: seq<TopicRow>, topics: Dict<TopicData>, nextPk: int): seq<TopicRow>
    requires topics.Valid()
  {
    Surviving(Updated(rows, topics.vals, topics.keys), topics.vals) + NewRows(topics.keys, Ids(rows), topics.vals, nextPk)
  }

  /** The reconciliation loops of `update_granularity`. */
  method ReconcileTopics(rows: seq<TopicRow>, topics: Dict<TopicData>, nextPk: int) returns (table: seq<TopicRow>)
    requires topics.Valid() && DistinctIds(rows)
    ensures table == Reconciled(rows, topics, nextPk)
  {
    var current, added := VisitTopics(rows, topics.keys, topics.vals, nextPk);
    table := RemoveStale(current, topics.vals);
    table := table + added;
  }

  /** The first loop of `update_granularity`: refresh the stored row of each
      topic id in `keys`, or add a new row for it. */
  method VisitTopics(rows: seq<TopicRow>, keys: seq<string>, vals: map<string, TopicData>, nextPk: int)
    returns (current: seq<TopicRow>, added: seq<TopicRow>)
    requires DistinctIds(rows)
    requires forall i, j :: 0 <= i < j < |keys| ==> keys[i] != keys[j]
    requires forall k :: k in keys ==> k in vals
    ensures current == Updated(rows, vals, keys)
    ensures added == NewRows(keys, Ids(rows), vals, nextPk)
  {
    var existing := map j | 0 <= j < |rows| :: rows[j].topicId := j;
    assert forall k :: k in existing <==> k in Ids(rows);
    current := rows;
    added := [];
    var pk := nextPk;
    for i := 0 to |keys|
      invariant current == Updated(rows, vals, keys[..i])
      invariant added + NewRows(keys[i..], Ids(rows), vals, pk) == NewRows(keys, Ids(rows), vals, nextPk)
    {
      var id := keys[i];
      var data := vals[id];
      assert keys[..i + 1] == keys[..i] + [id];
      assert id !in keys[..i];
      assert keys[i..][1..] == keys[i + 1..];
      if id in existing {
        var j := existing[id];
        assert rows[j].topicId == id;
        assert current[j] == rows[j];
        UpdatedStored(rows, vals, keys[..i], j);
        current := current[j := Refreshed(current[j], data)];
      } else {
        UpdatedUnstored(rows, vals, keys[..i], id);
        AppendAssoc(added, [TopicRow(pk, id, data.name, data.description)],
          NewRows(keys[i + 1..], Ids(rows), vals, pk + 1));
        added := added + [TopicRow(pk, id, data.name, data.description)];
        pk := pk + 1;
      }
    }
    assert keys[..|keys|] == keys;
    assert keys[|keys|..] == [];
  }

  /** The second loop of `update_granularity`: delete the rows whose id is no longer a topic. */
  method RemoveStale(rows: seq<TopicRow>, vals: map<string, TopicData>) returns (table: seq<TopicRow>)
    ensures table == Surviving(rows, vals)
  {
    table := [];
    for j := 0 to |rows|
      invariant table == Surviving(rows[..j], vals)
    {
      assert rows[..j + 1][..j] == rows[..j];
      if rows[j].topicId in vals {
        table := table + [rows[j]];
      }
    }
    assert rows[..|rows|] == rows;
  }

  /** Distinct ids survive concatenation when the two parts share none. */
  lemma DistinctAppend(a: seq<TopicRow>, b: seq<TopicRow>)
    requires DistinctIds(a) && DistinctIds(b) && Ids(a) !! Ids(b)
    ensures DistinctIds(a + b)
  {
    forall i, j | 0 <= i < j < |a + b|
      ensures (a + b)[i].topicId != (a + b)[j].topicId
    {
      if j < |a| {
        assert (a + b)[i] == a[i] && (a + b)[j] == a[j];
      } else if i < |a| {
        assert (a + b)[i] == a[i] && a[i].topicId in Ids(a);
        assert (a + b)[j] == b[j - |a|] && b[j - |a|].topicId in Ids(b);
      } else {
        assert (a + b)[i] == b[i - |a|] && (a + b)[j] == b[j - |a|];
      }
    }
  }

  /** Deletion keeps exactly the stored ids that are still topics, in
      storage order and without introducing duplicates. */
  lemma {:induction false} SurvivingIds(rows: seq<TopicRow>, vals: map<string, TopicData>)
    ensures Ids(Surviving(rows, vals)) == Ids(rows) * vals.Keys
    ensures forall r :: r in Surviving(rows, vals) <==> r in rows && r.topicId in vals
    ensures DistinctIds(rows) ==> DistinctIds(Surviving(rows, vals))
    decreases |rows|
  {
    if rows != [] {
      var init := rows[..|rows| - 1];
      var last := rows[|rows| - 1];
      assert rows == init + [last];
      SurvivingIds(init, vals);
      if DistinctIds(rows) {
        assert DistinctIds(init);
        assert last.topicId !in Ids(init);
        DistinctAppend(Surviving(init, vals), if last.topicId in vals then [last] else []);
      }
    }
  }

  /** The inserted rows carry exactly the topic ids not stored before,
      each once, with fresh primary keys from `pk` on and the topic's
      name and description. */
  lemma {:induction false} NewRowsSpec(keys: seq<string>, stored: set<string>, vals: map<string, TopicData>, pk: int)
    requires forall k :: k in keys ==> k in vals
    requires forall i, j :: 0 <= i < j < |keys| ==> keys[i] != keys[j]
    ensures var r := NewRows(keys, stored, vals, pk);
      && Ids(r) == (set k | k in keys) - stored
      && DistinctIds(r)
      && forall x :: x in r ==>
        x.pk >= pk && x.topicId in vals && x.name == vals[x.topicId].name && x.description == vals[x.topicId].description
    decreases |keys|
  {
    if keys != [] {
      var rest := keys[1..];
      assert forall k :: k in rest ==> k in keys;
      NewRowsSpec(rest, stored, vals, pk);
      NewRowsSpec(rest, stored, vals, pk + 1);
      assert (set k | k in keys) == {keys[0]} + (set k | k in rest);
      assert keys[0] !in rest;
      if keys[0] !in stored {
        var head := [TopicRow(pk, keys[0], vals[keys[0]].name, vals[keys[0]].description)];
        var tail := NewRows(rest, stored, vals, pk + 1);
        assert Ids(head + tail) == {keys[0]} + Ids(tail);
        DistinctAppend(head, tail);
      }
    }
  }

  /** Refreshing rows in place keeps their ids, so it keeps them distinct. */
  lemma UpdatedIds(rows: seq<TopicRow>, vals: map<string, TopicData>, ks: seq<string>)
    ensures Ids(Updated(rows, vals, ks)) == Ids(rows)
    ensures DistinctIds(rows) ==> DistinctIds(Updated(rows, vals, ks))
  {
    var upd := Updated(rows, vals, ks);
    forall k | k in Ids(rows) ensures k in Ids(upd) {
      var j :| 0 <= j < |rows| && rows[j].topicId == k;
      assert upd[j].topicId == k;
    }
  }

  /** After reconciliation the stored topic ids are exactly the new
      dictionary's keys, and each is stored once. */
  lemma ReconciledIds(rows: seq<TopicRow>, topics: Dict<TopicData>, nextPk: int)
    requires topics.Valid() && DistinctIds(rows)
    ensures Ids(Reconciled(rows, topics, nextPk)) == topics.vals.Keys
    ensures DistinctIds(Reconciled(rows, topics, nextPk))
  {
    var vals := topics.vals;
    var upd := Updated(rows, vals, topics.keys);
    UpdatedIds(rows, vals, topics.keys);
    SurvivingIds(upd, vals);
    assert forall k :: k in topics.keys ==> k in vals;
    NewRowsSpec(topics.keys, Ids(rows), vals, nextPk);
    assert (set k | k in topics.keys) == vals.Keys;
    var kept := Surviving(upd, vals);
    var added := NewRows(topics.keys, Ids(rows), vals, nextPk);
    DistinctAppend(kept, added);
    assert Ids(kept + added) == Ids(kept) + Ids(added);
  }

  /** After reconciliation every row holds its topic's current name and
      description. A stored row whose id is still a topic stays, with its
      primary key; every other row is new, with a key from `nextPk` on. */
  lemma ReconciledRows(rows: seq<TopicRow>, topics: Dict<TopicData>, nextPk: int)
    requires topics.Valid()
    ensures var r := Reconciled(rows, topics, nextPk);
      && (forall x :: x in r ==>
        x.topicId in topics.vals && x.name == topics.vals[x.topicId].name && x.description == topics.vals[x.topicId].description)
      && (forall x :: x in rows && x.topicId in topics.vals ==> Refreshed(x, topics.vals[x.topicId]) in r)
      && (forall x :: x in r && x !in Updated(rows, topics.vals, topics.keys) ==> x.pk >= nextPk)
  {
    var vals := topics.vals;
    var upd := Updated(rows, vals, topics.keys);
    SurvivingIds(upd, vals);
    assert forall k :: k in topics.keys ==> k in vals;
    NewRowsSpec(topics.keys, Ids(rows), vals, nextPk);
    var kept := Surviving(upd, vals);
    var added := NewRows(topics.keys, Ids(rows), vals, nextPk);
    forall x | x in rows && x.topicId in vals
      ensures Refreshed(x, vals[x.topicId]) in kept
    {
      var j :| 0 <= j < |rows| && rows[j] == x;
      assert upd[j] == Refreshed(x, vals[x.topicId]);
    }
    forall x | x in kept
      ensures x.name == vals[x.topicId].name && x.description == vals[x.topicId].description
    {
      var j :| 0 <= j < |upd| && upd[j] == x;
    }
    assert forall x :: x in kept + added && x !in upd ==> x in added;
  }

  // ---------------------------------------------------------------------
  // Note generation, one topic per request
  // ---------------------------------------------------------------------

  /** The first topic id, in dictionary order, without a generated note. */
  function FirstUngenerated(keys: seq<string>, generated: set<string>): (r: Option<string>)
    ensures r.None? <==> forall k :: k in keys ==> k in generated
    ensures r.Some? ==> r.value !in generated
    ensures r.Some? ==> exists i :: 0 <= i < |keys| && keys[i] == r.value && forall j :: 0 <= j < i ==> keys[j] in generated
    decreases |keys|
  {
    if keys == [] then None
    else if keys[0] !in generated then Some(keys[0])
    else
      var r := FirstUngenerated(keys[1..], generated);
      assert forall j :: 0 < j < |keys| ==> keys[j] == keys[1..][j - 1];
      assert forall k :: k in keys ==> k == keys[0] || k in keys[1..];
      if r.Some? then
        var i :| 0 <= i < |keys[1..]| && keys[1..][i] == r.value &&
          forall j :: 0 <= j < i ==> keys[1..][j] in generated;
        assert keys[i + 1] == r.value;
        r
      else r
  }

  /** The loop of `generate_notes` that picks `topic_to_process`. */
  method ChooseTopic(topics: Dict<TopicData>, generated: map<string, NoteData>) returns (choice: Option<string>)
    ensures choice == FirstUngenerated(topics.keys, generated.Keys)
  {
    for i := 0 to |topics.keys|
      invariant FirstUngenerated(topics.keys[i..], generated.Keys) == FirstUngenerated(topics.keys, generated.Keys)
    {
      assert topics.keys[i..][1..] == topics.keys[i + 1..];
      if topics.keys[i] !in generated {
        return Some(topics.keys[i]);
      }
    }
    choice := None;
  }

  /** `len(topics_dict) - len(previously_generated)`. */
  function Remaining(topics: Dict<TopicData>, generated: map<string, NoteData>): int {
    topics.Size() - |generated|
  }

  /** The reported count is the number of topics still without a note minus
      the number of notes kept for topics that are gone (`update_granularity`
      replaces the topics but keeps the generated notes). */
  lemma RemainingSpec(topics: Dict<TopicData>, generated: map<string, NoteData>)
    requires topics.Valid()
    ensures Remaining(topics, generated)
      == |topics.vals.Keys - generated.Keys| - |generated.Keys - topics.vals.Keys|
  {
    SizeIsCardinality(topics);
    SplitCount(topics.vals.Keys, generated.Keys);
    SplitCount(generated.Keys, topics.vals.Keys);
    assert generated.Keys * topics.vals.Keys == topics.vals.Keys * generated.Keys;
  }

  /** A set splits into the part outside `b` and the part inside it. */
  lemma SplitCount<T>(a: set<T>, b: set<T>)
    ensures |a| == |a - b| + |a * b|
  {
    assert a == (a - b) + (a * b);
    assert (a - b) * (a * b) == {};
  }

  /** With notes kept from an earlier topic split, the count after generating
      the next topic is not positive, so the success message is shown,
      although a topic is still without a note. */
  lemma StaleRemaining(note: NoteData)
    ensures var topics := Dict(["a", "b"], map["a" := TopicData("A", ""), "b" := TopicData("B", "")]);
      var generated := map["x" := note, "y" := note, "z" := note];
      && topics.Valid()
      && FirstUngenerated(topics.keys, generated.Keys) == Some("a")
      && Remaining(topics, generated["a" := note]) <= 0
      && FirstUngenerated(topics.keys, generated["a" := note].Keys) == Some("b")
  {
    var topics := Dict(["a", "b"], map["a" := TopicData("A", ""), "b" := TopicData("B", "")]);
    var generated := map["x" := note, "y" := note, "z" := note];
    assert topics.keys[1..] == ["b"];
    assert |generated["a" := note]| == 4;
  }

  /** The evidently intended count: the topics that still have no note. */
  function Pending(topics: Dict<TopicData>, generated: map<string, NoteData>): nat {
    |topics.vals.Keys - generated.Keys|
  }

  /** The intended count is positive exactly when there is a next topic to
      generate, generating that topic lowers it by one, and it agrees with
      the reported count while every note belongs to a current topic. */
  lemma PendingSpec(topics: Dict<TopicData>, generated: map<string, NoteData>, note: NoteData)
    requires topics.Valid()
    ensures Pending(topics, generated) > 0 <==> FirstUngenerated(topics.keys, generated.Keys).Some?
    ensures var next := FirstUngenerated(topics.keys, generated.Keys);
      next.Some? ==> Pending(topics, generated[next.value := note]) == Pending(topics, generated) - 1
    ensures generated.Keys <= topics.vals.Keys ==> Pending(topics, generated) == Remaining(topics, generated)
  {
    PendingNext(topics, generated);
    PendingStep(topics, generated, note);
    PendingAgrees(topics, generated);
  }

  /** There is a topic left exactly when the intended count is positive. */
  lemma PendingNext(topics: Dict<TopicData>, generated: map<string, NoteData>)
    requires topics.Valid()
    ensures Pending(topics, generated) > 0 <==> FirstUngenerated(topics.keys, generated.Keys).Some?
  {
    var rest := topics.vals.Keys - generated.Keys;
    if FirstUngenerated(topics.keys, generated.Keys).Some? {
      assert FirstUngenerated(topics.keys, generated.Keys).value in rest;
    } else {
      forall k | k in topics.vals ensures k in generated {
        assert k in topics.keys;
      }
      assert rest == {};
    }
  }

  /** Generating the chosen topic lowers the intended count by one. */
  lemma PendingStep(topics: Dict<TopicData>, generated: map<string, NoteData>, note: NoteData)
    requires topics.Valid()
    ensures var next := FirstUngenerated(topics.keys, generated.Keys);
      next.Some? ==> Pending(topics, generated[next.value := note]) == Pending(topics, generated) - 1
  {
    var next := FirstUngenerated(topics.keys, generated.Keys);
    if next.Some? {
      var rest := topics.vals.Keys - generated.Keys;
      assert next.value in rest;
      assert topics.vals.Keys - generated[next.value := note].Keys == rest - {next.value};
    }
  }

  /** Without stale notes the reported count is the intended one. */
  lemma PendingAgrees(topics: Dict<TopicData>, generated: map<string, NoteData>)
    requires topics.Valid()
    ensures generated.Keys <= topics.vals.Keys ==> Pending(topics, generated) == Remaining(topics, generated)
  {
    RemainingSpec(topics, generated);
    if generated.Keys <= topics.vals.Keys {
      assert generated.Keys - topics.vals.Keys == {};
    }
  }

  /** The note write of `generate_notes`: an upsert for the topic's
      `(pk, format)` pair when the topic is stored, nothing otherwise. */
  function SaveNote(store: seq<NoteRow>, topicMap: map<string, int>, topicId: string, format: string, content: string)
    : seq<NoteRow>
  {
    if topicId in topicMap then Upsert(store, topicMap[topicId], format, content) else store
  }

  /** The write never creates a second note for a `(pk, format)` pair, and
      afterwards the note found for the stored topic holds the new content. */
  lemma SaveNoteSpec(store: seq<NoteRow>, topicMap: map<string, int>, topicId: string, format: string, content: string)
    requires Unique(store)
    ensures var r := SaveNote(store, topicMap, topicId, format, content);
      && Unique(r)
      && (topicId !in topicMap ==> r == store)
      && (topicId in topicMap ==> var i := FindNote(r, topicMap[topicId], format);
        i >= 0 && r[i].content == content)
  {
    if topicId in topicMap {
      var pk := topicMap[topicId];
      UpsertSpec(store, pk, format, content);
      var r := Upsert(store, pk, format, content);
      var j :| 0 <= j < |r| && r[j] == NoteRow(pk, format, content);
      FindUnique(r, pk, format, j);
    }
  }

  // ---------------------------------------------------------------------
  // Downloads
  // ---------------------------------------------------------------------

  /** The extension for a note's format name, compared exactly; `.txt` otherwise. */
  function FormatExtension(format: string): string {
    if format == "markdown" then ".md"
    else if format == "html" then ".html"
    else if format == "latex" then ".tex"
    else ".txt"
  }

  /** `f"{name.replace(' ', '_')}{format_extension}"`. */
  function DownloadName(name: string, format: string): string {
    ReplaceChar(name, ' ', "_") + FormatExtension(format)
  }

  /** The download name is the note's name, character for character, with
      each space turned into an underscore, followed by one of the four
      extensions; it contains no space. */
  lemma DownloadNameSpec(name: string, format: string)
    ensures var f := DownloadName(name, format);
      var ext := FormatExtension(format);
      && ext in {".md", ".html", ".tex", ".txt"}
      && |f| == |name| + |ext|
      && (forall i :: 0 <= i < |name| ==> f[i] == if name[i] == ' ' then '_' else name[i])
      && f[|name|..] == ext
      && ' ' !in f
  {
    ReplaceCharPointwise(name, ' ', '_');
    var ext := FormatExtension(format);
    assert ' ' !in ext;
  }

  // ---------------------------------------------------------------------
  // Loading a stored document
  // ---------------------------------------------------------------------

  /** The note shown for a topic row: its name with the content and format of a stored note. */
  function Shown(t: TopicRow, n: NoteRow): NoteData {
    NoteData(t.name, n.content, n.format)
  }

  /** The `notes_data` of `load_document`: for each topic row in order,
      the first of its notes, unless its id already has one. */
  function LoadedNotes(rows: seq<TopicRow>, store: seq<NoteRow>): map<string, NoteData>
    decreases |rows|
  {
    if rows == [] then map[]
    else
      var prev := LoadedNotes(rows[..|rows| - 1], store);
      var t := rows[|rows| - 1];
      var notes := NotesOf(store, t.pk);
      if notes == [] || t.topicId in prev then prev else prev[t.topicId := Shown(t, notes[0])]
  }

  /** The nested loops of `load_document` that fill `notes_data`. */
  method LoadNotes(rows: seq<TopicRow>, store: seq<NoteRow>) returns (notesData: map<string, NoteData>)
    ensures notesData == LoadedNotes(rows, store)
  {
    notesData := map[];
    for i := 0 to |rows|
      invariant notesData == LoadedNotes(rows[..i], store)
    {
      var t := rows[i];
      assert rows[..i + 1][..i] == rows[..i];
      var notes := NotesOf(store, t.pk);
      if notes != [] {
        var before := notesData;
        for j := 0 to |notes|
          invariant notesData == if j == 0 || t.topicId in before then before
            else before[t.topicId := Shown(t, notes[0])]
        {
          if t.topicId !in notesData {
            notesData := notesData[t.topicId := Shown(t, notes[j])];
          }
        }
      }
    }
    assert rows[..|rows|] == rows;
  }

  /** With one row per topic id, a topic appears among the loaded notes
      exactly when it has a stored note, and then with the first of them. */
  lemma {:induction false} LoadedNotesSpec(rows: seq<TopicRow>, store: seq<NoteRow>)
    requires DistinctIds(rows)
    ensures var m := LoadedNotes(rows, store);
      && m.Keys <= Ids(rows)
      && forall t :: t in rows ==>
        (t.topicId in m <==> NotesOf(store, t.pk) != [])
        && (t.topicId in m ==> m[t.topicId] == Shown(t, NotesOf(store, t.pk)[0]))
    decreases |rows|
  {
    if rows != [] {
      var init := rows[..|rows| - 1];
      var last := rows[|rows| - 1];
      assert rows == init + [last];
      assert DistinctIds(init);
      LoadedNotesSpec(init, store);
      assert last.topicId !in Ids(init);
      forall t | t in rows
        ensures t.topicId in LoadedNotes(rows, store) <==> NotesOf(store, t.pk) != []
        ensures t.topicId in LoadedNotes(rows, store) ==>
          LoadedNotes(rows, store)[t.topicId] == Shown(t, NotesOf(store, t.pk)[0])
      {
        if t != last {
          assert t in init;
          assert t.topicId != last.topicId;
        }
      }
    }
  }
}
