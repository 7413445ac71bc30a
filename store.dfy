/**
 * The `topic` and `note` tables as the code queries them: sequences of rows
 * in storage order, where `.first()` is the first matching row and `.all()`
 * keeps storage order. Neither table has a uniqueness constraint on the
 * columns the code looks rows up by; that at most one row exists per topic
 * id, or per `(topic pk, format)` pair, is a property the writers keep.
 */
module Store {
  import opened Models

  /** The external topic ids stored in `rows`. */
  function Ids(rows: seq<TopicRow>): set<string> {
    set r | r in rows :: r.topicId
  }

  /** No topic id is stored twice. */
  ghost predicate DistinctIds(rows: seq<TopicRow>) {
    forall i, j :: 0 <= i < j < |rows| ==> rows[i].topicId != rows[j].topicId
  }

  /** `{t.topic_id: t for t in rows}` reduced to primary keys: every stored
      id, mapped to the key of the last row carrying it. */
  function TopicMap(rows: seq<TopicRow>): (m: map<string, int>)
    ensures m.Keys == Ids(rows)
    ensures forall j :: 0 <= j < |rows| ==>
      (forall l :: j < l < |rows| ==> rows[l].topicId != rows[j].topicId) ==> m[rows[j].topicId] == rows[j].pk
    decreases |rows|
  {
    if rows == [] then map[]
    else
      var init := rows[..|rows| - 1];
      var last := rows[|rows| - 1];
      assert rows == init + [last];
      assert forall j :: 0 <= j < |init| ==> init[j] == rows[j];
      TopicMap(init)[last.topicId := last.pk]
  }

  /** With distinct ids, each stored id maps to its own row's key. */
  lemma TopicMapDistinct(rows: seq<TopicRow>, j: int)
    requires DistinctIds(rows) && 0 <= j < |rows|
    ensures TopicMap(rows)[rows[j].topicId] == rows[j].pk
  {
  }

  /** The row belongs to topic `pk` and is written in `format`. */
  predicate IsFor(row: NoteRow, pk: int, format: string) {
    row.topicPk == pk && row.format == format
  }

  /** At most one row per `(topic pk, format)` pair. */
  ghost predicate Unique(store: seq<NoteRow>) {
    forall i, j :: 0 <= i < j < |store| ==>
      !(store[i].topicPk == store[j].topicPk && store[i].format == store[j].format)
  }

  /** The index of `.first()` for the pair, or -1 when the query finds nothing. */
  function FindNote(store: seq<NoteRow>, pk: int, format: string): (r: int)
    ensures -1 <= r < |store|
    ensures r >= 0 ==> IsFor(store[r], pk, format)
    ensures r >= 0 ==> forall j :: 0 <= j < r ==> !IsFor(store[j], pk, format)
    ensures r == -1 <==> forall j :: 0 <= j < |store| ==> !IsFor(store[j], pk, format)
    decreases |store|
  {
    if store == [] then -1
    else if IsFor(store[0], pk, format) then 0
    else
      var r := FindNote(store[1..], pk, format);
      assert forall j :: 1 <= j < |store| ==> store[j] == store[1..][j - 1];
      if r == -1 then -1 else r + 1
  }

  /** In a table without duplicates, the row for the pair is the one found. */
  lemma FindUnique(store: seq<NoteRow>, pk: int, format: string, j: int)
    requires Unique(store)
    requires 0 <= j < |store| && IsFor(store[j], pk, format)
    ensures FindNote(store, pk, format) == j
  {
    var r := FindNote(store, pk, format);
    assert r >= 0;
    assert !(r < j) && !(j < r);
  }

  /** The note write of `generate_notes`: overwrite the content of the
      first row for the pair, or add a new row at the end. */
  function Upsert(store: seq<NoteRow>, pk: int, format: string, content: string): (r: seq<NoteRow>)
  {
    var i := FindNote(store, pk, format);
    if i >= 0 then store[i := store[i].(content := content)]
    else store + [NoteRow(pk, format, content)]
  }

  /** After the write exactly one row for the pair holds the new content
      (given no duplicates before), every other row is kept, and the table
      still has no duplicates. */
  lemma UpsertSpec(store: seq<NoteRow>, pk: int, format: string, content: string)
    requires Unique(store)
    ensures var r := Upsert(store, pk, format, content);
      && Unique(r)
      && (exists j :: 0 <= j < |r| && r[j] == NoteRow(pk, format, content))
      && (forall j :: 0 <= j < |r| && IsFor(r[j], pk, format) ==> r[j].content == content)
      && (forall j :: 0 <= j < |store| && !IsFor(store[j], pk, format) ==> r[j] == store[j])
      && |r| == (if FindNote(store, pk, format) >= 0 then |store| else |store| + 1)
  {
    var i := FindNote(store, pk, format);
    var r := Upsert(store, pk, format, content);
    if i >= 0 {
      assert r[i] == NoteRow(pk, format, content);
      forall j | 0 <= j < |r| && IsFor(r[j], pk, format)
        ensures r[j].content == content
      {
        assert IsFor(store[j], pk, format);
        FindUnique(store, pk, format, j);
      }
    } else {
      assert r[|store|] == NoteRow(pk, format, content);
    }
  }

  /** `Note.query.filter_by(topic_id=pk).all()`: the topic's rows in storage order. */
  function NotesOf(store: seq<NoteRow>, pk: int): (r: seq<NoteRow>)
    ensures forall n :: n in r <==> n in store && n.topicPk == pk
    decreases |store|
  {
    if store == [] then []
    else
      var last := store[|store| - 1];
      var init := NotesOf(store[..|store| - 1], pk);
      assert store == store[..|store| - 1] + [last];
      if last.topicPk == pk then init + [last] else init
  }

  /** The rows of a topic in `a + b` are its rows in `a`, then its rows in
      `b`: the query keeps storage order. */
  lemma {:induction false} NotesOfAppend(a: seq<NoteRow>, b: seq<NoteRow>, pk: int)
    ensures NotesOf(a + b, pk) == NotesOf(a, pk) + NotesOf(b, pk)
    decreases |b|
  {
    if b == [] {
      assert a + b == a;
    } else {
      var b' := b[..|b| - 1];
      assert (a + b)[..|a + b| - 1] == a + b';
      assert (a + b)[|a + b| - 1] == b[|b| - 1];
      NotesOfAppend(a, b', pk);
    }
  }

  /** One row is listed exactly when it belongs to the topic. */
  lemma NotesOfSingle(n: NoteRow, pk: int)
    ensures NotesOf([n], pk) == if n.topicPk == pk then [n] else []
  {
    assert [n][..0] == [];
  }

  /** Row `i` is the topic's first row in storage. */
  predicate FirstOfTopic(store: seq<NoteRow>, pk: int, i: int) {
    0 <= i < |store| && store[i].topicPk == pk && forall j :: 0 <= j < i ==> store[j].topicPk != pk
  }

  /** The first row listed is the first row of the topic in storage. */
  lemma {:induction false} NotesOfFirst(store: seq<NoteRow>, pk: int)
    requires NotesOf(store, pk) != []
    ensures exists i :: FirstOfTopic(store, pk, i) && store[i] == NotesOf(store, pk)[0]
    decreases |store|
  {
    var init := store[..|store| - 1];
    NotesOfSnoc(store, pk);
    if NotesOf(init, pk) != [] {
      NotesOfFirst(init, pk);
      var i :| FirstOfTopic(init, pk, i) && init[i] == NotesOf(init, pk)[0];
      FirstKept(store, pk, i);
    } else {
      FirstIsLast(store, pk);
    }
  }

  /** The rows of the table without its last row, then that row if it belongs. */
  lemma NotesOfSnoc(store: seq<NoteRow>, pk: int)
    requires store != []
    ensures var last := store[|store| - 1];
      NotesOf(store, pk) == NotesOf(store[..|store| - 1], pk) + (if last.topicPk == pk then [last] else [])
  {
  }

  /** A first row stays first when a row is appended. */
  lemma FirstKept(store: seq<NoteRow>, pk: int, i: int)
    requires store != [] && FirstOfTopic(store[..|store| - 1], pk, i)
    ensures FirstOfTopic(store, pk, i) && store[i] == store[..|store| - 1][i]
  {
  }

  /** With no earlier row of the topic, an appended row of it is its first. */
  lemma FirstIsLast(store: seq<NoteRow>, pk: int)
    requires store != [] && NotesOf(store[..|store| - 1], pk) == []
    requires store[|store| - 1].topicPk == pk
    ensures FirstOfTopic(store, pk, |store| - 1)
  {
    var init := store[..|store| - 1];
    forall j | 0 <= j < |store| - 1 ensures store[j].topicPk != pk {
      assert store[j] == init[j];
      assert init[j] in init;
    }
  }
}
