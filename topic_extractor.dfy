/**
 * `TopicExtractor`: clamps the requested granularity before asking the
 * client for topics, and relates topics to one another by the overlap of
 * the words in their names and descriptions.
 */
module TopicExtractor {
  import opened Wrappers
  import opened Text
  import opened Dicts
  import opened Models

  // ---------------------------------------------------------------------
  // Extraction
  // ---------------------------------------------------------------------

  /** `max(0, min(100, g))`. */
  function Clamp(granularity: int): (g: int)
    ensures 0 <= g <= 100
    ensures 0 <= granularity <= 100 ==> g == granularity
    ensures granularity < 0 ==> g == 0
    ensures granularity > 100 ==> g == 100
  {
    if granularity < 0 then 0 else if granularity > 100 then 100 else granularity
  }

  /** The single topic returned when the client raises. */
  function ExtractionError(message: string): (d: Dict<TopicData>)
    ensures d.Valid() && d.keys == ["error"]
  {
    Dict(["error"], map["error" := TopicData("Error in Topic Extraction",
      "Failed to extract topics: " + message)])
  }

  /** `extract_topics(document_content, granularity)`, where `client(g)` is
      the client's answer for granularity `g` (`Err` when it raises). */
  function ExtractTopics(granularity: int, client: int -> Result<Dict<TopicData>>): Dict<TopicData> {
    match client(Clamp(granularity))
    case Ok(topics) => topics
    case Err(m) => ExtractionError(m)
  }

  /** The client is only ever asked for a level within 0..100, so any level
      below or above the range behaves as the nearest bound. */
  lemma ClampedRequest(granularity: int, client: int -> Result<Dict<TopicData>>)
    ensures ExtractTopics(granularity, client) == ExtractTopics(Clamp(granularity), client)
    ensures granularity < 0 ==> ExtractTopics(granularity, client) == ExtractTopics(0, client)
    ensures granularity > 100 ==> ExtractTopics(granularity, client) == ExtractTopics(100, client)
  {
  }

  /** Two clients that agree on the levels 0..100 give the same result for
      every requested level. */
  lemma ClientOutsideRangeIrrelevant(granularity: int, c1: int -> Result<Dict<TopicData>>,
                                     c2: int -> Result<Dict<TopicData>>)
    requires forall g :: 0 <= g <= 100 ==> c1(g) == c2(g)
    ensures ExtractTopics(granularity, c1) == ExtractTopics(granularity, c2)
  {
    assert c1(Clamp(granularity)) == c2(Clamp(granularity));
  }

  /** A failing client yields exactly one topic, under the key `error`. */
  lemma FailureIsOneTopic(granularity: int, client: int -> Result<Dict<TopicData>>)
    requires client(Clamp(granularity)).Err?
    ensures var d := ExtractTopics(granularity, client);
      d.Valid() && d.Size() == 1 && d.keys[0] == "error"
      && StartsWith(d.vals["error"].description, "Failed to extract topics: ")
  {
  }

  // ---------------------------------------------------------------------
  // Relationships
  // ---------------------------------------------------------------------

  /** The lower-cased words of a topic's name and description. */
  function WordSet(t: TopicData): set<string> {
    var ws := Words(Lower(t.name + " " + t.description));
    set x | x in ws
  }

  /** Jaccard overlap above one tenth, on two non-empty word sets, written
      without division: `|A & B| / |A | B| > 0.1`. */
  predicate Related(a: set<string>, b: set<string>) {
    |a| > 0 && |b| > 0 && 10 * |a * b| > |a + b|
  }

  lemma RelatedSymmetric(a: set<string>, b: set<string>)
    ensures Related(a, b) <==> Related(b, a)
  {
    assert a * b == b * a && a + b == b + a;
  }

  /** The word sets of the topics, in key order. */
  function TopicWords(topics: Dict<TopicData>): (w: seq<set<string>>)
    requires topics.Valid()
    ensures |w| == |topics.keys|
    ensures forall i :: 0 <= i < |w| ==> w[i] == WordSet(topics.vals[topics.keys[i]])
  {
    seq(|topics.keys|, i requires 0 <= i < |topics.keys| => WordSet(topics.vals[topics.keys[i]]))
  }

  /** The ids among the first `n` that topic `i` is related to, in order. */
  function RelatedTo(ids: seq<string>, words: seq<set<string>>, i: nat, n: nat): (r: seq<string>)
    requires |words| == |ids| && i < |ids| && n <= |ids|
    ensures |r| <= n
    decreases n
  {
    if n == 0 then []
    else
      var r := RelatedTo(ids, words, i, n - 1);
      if n - 1 != i && Related(words[i], words[n - 1]) then r + [ids[n - 1]] else r
  }

  /** The related lists of the first `n` topics, by id. */
  function RelatedMap(ids: seq<string>, words: seq<set<string>>, n: nat): (m: map<string, seq<string>>)
    requires |words| == |ids| && n <= |ids|
    decreases n
  {
    if n == 0 then map[]
    else RelatedMap(ids, words, n - 1)[ids[n - 1] := RelatedTo(ids, words, n - 1, |ids|)]
  }

  /** `get_topic_relationships(topics)`: one entry per topic, in key order. */
  function Relationships(topics: Dict<TopicData>): (r: Dict<seq<string>>)
    requires topics.Valid()
    ensures r.Valid() && r.keys == topics.keys
  {
    var ids := topics.keys;
    PrefixValid(ids, TopicWords(topics), |ids|);
    assert ids[..|ids|] == ids;
    Dict(ids, RelatedMap(ids, TopicWords(topics), |ids|))
  }

  /** `get_topic_relationships(topics)`. Python recomputes a topic's word
      set at every comparison; as the set depends only on the topic, the
      model computes each set once, in key order. */
  method GetTopicRelationships(topics: Dict<TopicData>) returns (relationships: Dict<seq<string>>)
    requires topics.Valid()
    ensures relationships == Relationships(topics)
  {
    var words := TopicWords(topics);
    var topicList := topics.keys;
    relationships := Empty();
    var i := 0;
    while i < |topicList|
      invariant 0 <= i <= |topicList|
      invariant relationships == Dict(topicList[..i], RelatedMap(topicList, words, i))
    {
      var related := RelatedTopics(topicList, words, i);
      PrefixStep(topicList, words, i);
      relationships := relationships.Put(topicList[i], related);
      i := i + 1;
    }
    assert topicList[..i] == topicList;
  }

  /** The inner loop: the topics related to topic `i`, in key order. */
  method RelatedTopics(topicList: seq<string>, words: seq<set<string>>, i: nat) returns (related: seq<string>)
    requires |words| == |topicList| && i < |topicList|
    ensures related == RelatedTo(topicList, words, i, |topicList|)
  {
    var currentWords := words[i];
    related := [];
    var j := 0;
    while j < |topicList|
      invariant 0 <= j <= |topicList|
      invariant related == RelatedTo(topicList, words, i, j)
    {
      if i != j {
        var otherWords := words[j];
        if |currentWords| > 0 && |otherWords| > 0 {
          if 10 * |currentWords * otherWords| > |currentWords + otherWords| {
            related := related + [topicList[j]];
          }
        }
      }
      j := j + 1;
    }
  }

  /** Topic `j` is listed for topic `i` exactly when it is another topic
      whose words overlap enough; the list holds no repeats. */
  lemma {:induction false} RelatedToMembers(ids: seq<string>, words: seq<set<string>>, i: nat, n: nat)
    requires |words| == |ids| && i < |ids| && n <= |ids|
    requires forall a, b :: 0 <= a < b < |ids| ==> ids[a] != ids[b]
    ensures var r := RelatedTo(ids, words, i, n);
      && (forall j :: 0 <= j < |ids| ==> (ids[j] in r <==> j < n && j != i && Related(words[i], words[j])))
      && (forall a, b :: 0 <= a < b < |r| ==> r[a] != r[b])
    decreases n
  {
    if n > 0 {
      RelatedToMembers(ids, words, i, n - 1);
    }
  }

  /** `l` lists ids in the order of `ids`: of two listed ids, the one
      listed first comes first in `ids`. */
  predicate InOrder(l: seq<string>, ids: seq<string>) {
    forall a, b, p, q ::
      (0 <= a < b < |l| && 0 <= p < |ids| && 0 <= q < |ids| && l[a] == ids[p] && l[b] == ids[q]) ==> p < q
  }

  /** The list follows the scan order of the topics. */
  lemma {:induction false} RelatedToOrdered(ids: seq<string>, words: seq<set<string>>, i: nat, n: nat)
    requires |words| == |ids| && i < |ids| && n <= |ids|
    requires forall a, b :: 0 <= a < b < |ids| ==> ids[a] != ids[b]
    ensures InOrder(RelatedTo(ids, words, i, n), ids)
    decreases n
  {
    if n > 0 {
      var r := RelatedTo(ids, words, i, n - 1);
      RelatedToOrdered(ids, words, i, n - 1);
      RelatedToMembers(ids, words, i, n - 1);
      var r' := RelatedTo(ids, words, i, n);
      forall a, b, p, q | 0 <= a < b < |r'| && 0 <= p < |ids| && 0 <= q < |ids| && r'[a] == ids[p] && r'[b] == ids[q]
        ensures p < q
      {
        if b == |r| {
          assert r' == r + [ids[n - 1]] && r'[a] == r[a];
          assert ids[p] in r;
          assert q == n - 1;
        } else {
          assert r'[a] == r[a] && r'[b] == r[b];
        }
      }
    }
  }

  /** The first `n` topics have entries, each holding its related list. */
  lemma {:induction false} PrefixEntries(ids: seq<string>, words: seq<set<string>>, n: nat)
    requires |words| == |ids| && n <= |ids|
    requires forall a, b :: 0 <= a < b < |ids| ==> ids[a] != ids[b]
    ensures KeysAmong(RelatedMap(ids, words, n), ids[..n])
    ensures var m := RelatedMap(ids, words, n);
      (forall k :: 0 <= k < n ==> ids[k] in m && m[ids[k]] == RelatedTo(ids, words, k, |ids|))
    decreases n
  {
    if n > 0 {
      PrefixEntries(ids, words, n - 1);
      PrefixKeysStep(ids, words, n);
      PrefixValuesStep(ids, words, n);
    }
  }

  /** Every key of `m` is one of `ks`. */
  ghost predicate KeysAmong(m: map<string, seq<string>>, ks: seq<string>) {
    forall key :: key in m ==> key in ks
  }

  lemma PrefixKeysStep(ids: seq<string>, words: seq<set<string>>, n: nat)
    requires |words| == |ids| && 0 < n <= |ids|
    requires KeysAmong(RelatedMap(ids, words, n - 1), ids[..n - 1])
    ensures KeysAmong(RelatedMap(ids, words, n), ids[..n])
  {
    var prev := RelatedMap(ids, words, n - 1);
    var m := RelatedMap(ids, words, n);
    assert m == prev[ids[n - 1] := RelatedTo(ids, words, n - 1, |ids|)];
    forall key | key in m
      ensures key in ids[..n]
    {
      if key != ids[n - 1] {
        assert key in prev;
        assert key in ids[..n - 1];
        var i :| 0 <= i < n - 1 && ids[..n - 1][i] == key;
        assert ids[..n][i] == key;
      } else {
        assert ids[..n][n - 1] == key;
      }
    }
  }

  lemma PrefixValuesStep(ids: seq<string>, words: seq<set<string>>, n: nat)
    requires |words| == |ids| && 0 < n <= |ids|
    requires forall a, b :: 0 <= a < b < |ids| ==> ids[a] != ids[b]
    requires var prev := RelatedMap(ids, words, n - 1);
      forall k :: 0 <= k < n - 1 ==> ids[k] in prev && prev[ids[k]] == RelatedTo(ids, words, k, |ids|)
    ensures var m := RelatedMap(ids, words, n);
      forall k :: 0 <= k < n ==> ids[k] in m && m[ids[k]] == RelatedTo(ids, words, k, |ids|)
  {
    var prev := RelatedMap(ids, words, n - 1);
    var m := RelatedMap(ids, words, n);
    assert m == prev[ids[n - 1] := RelatedTo(ids, words, n - 1, |ids|)];
    forall k | 0 <= k < n - 1
      ensures ids[k] in m && m[ids[k]] == RelatedTo(ids, words, k, |ids|)
    {
      assert ids[k] != ids[n - 1];
    }
  }

  /** So the first `n` topics, in key order, form a well-formed dictionary. */
  lemma PrefixValid(ids: seq<string>, words: seq<set<string>>, n: nat)
    requires |words| == |ids| && n <= |ids|
    requires forall a, b :: 0 <= a < b < |ids| ==> ids[a] != ids[b]
    ensures Dict(ids[..n], RelatedMap(ids, words, n)).Valid()
  {
    PrefixEntries(ids, words, n);
    forall a, b | 0 <= a < b < n ensures ids[..n][a] != ids[..n][b] { }
  }

  /** Storing topic `n`'s list extends the prefix by one fresh key. */
  lemma PrefixStep(ids: seq<string>, words: seq<set<string>>, n: nat)
    requires |words| == |ids| && n < |ids|
    requires forall a, b :: 0 <= a < b < |ids| ==> ids[a] != ids[b]
    ensures Dict(ids[..n], RelatedMap(ids, words, n)).Valid()
    ensures Dict(ids[..n], RelatedMap(ids, words, n)).Put(ids[n], RelatedTo(ids, words, n, |ids|))
      == Dict(ids[..n + 1], RelatedMap(ids, words, n + 1))
  {
    PrefixValid(ids, words, n);
    PrefixEntries(ids, words, n);
    assert ids[n] !in RelatedMap(ids, words, n) by {
      forall k | 0 <= k < n ensures ids[..n][k] != ids[n] { }
    }
    assert ids[..n + 1] == ids[..n] + [ids[n]];
  }

  /** The relationships have one entry per topic, in the same order; topic
      `j` is related to topic `i` exactly when they are different topics with
      enough overlap; and no topic is related to itself. */
  lemma RelationshipsSpec(topics: Dict<TopicData>, i: nat, j: nat)
    requires topics.Valid() && i < |topics.keys| && j < |topics.keys|
    ensures var r := Relationships(topics);
      && r.keys == topics.keys
      && (topics.keys[j] in r.vals[topics.keys[i]] <==>
            i != j && Related(WordSet(topics.vals[topics.keys[i]]), WordSet(topics.vals[topics.keys[j]])))
      && topics.keys[i] !in r.vals[topics.keys[i]]
  {
    var ids := topics.keys;
    var words := TopicWords(topics);
    PrefixEntries(ids, words, |ids|);
    var l := Relationships(topics).vals[ids[i]];
    assert l == RelatedTo(ids, words, i, |ids|);
    assert words[i] == WordSet(topics.vals[ids[i]]) && words[j] == WordSet(topics.vals[ids[j]]);
    RelatedToMembers(ids, words, i, |ids|);
  }

  /** Relatedness is symmetric. */
  lemma RelationshipsSymmetric(topics: Dict<TopicData>, i: nat, j: nat)
    requires topics.Valid() && i < |topics.keys| && j < |topics.keys|
    ensures var r := Relationships(topics);
      topics.keys[j] in r.vals[topics.keys[i]] <==> topics.keys[i] in r.vals[topics.keys[j]]
  {
    RelationshipsSpec(topics, i, j);
    RelationshipsSpec(topics, j, i);
    RelatedSymmetric(WordSet(topics.vals[topics.keys[i]]), WordSet(topics.vals[topics.keys[j]]));
  }

  /** Every related list names only topics, each once, in topic order. */
  lemma RelatedListsAreTopics(topics: Dict<TopicData>, i: nat)
    requires topics.Valid() && i < |topics.keys|
    ensures var l := Relationships(topics).vals[topics.keys[i]];
      && (forall x :: x in l ==> x in topics.vals)
      && (forall a, b :: 0 <= a < b < |l| ==> l[a] != l[b])
      && InOrder(l, topics.keys)
  {
    var ids := topics.keys;
    var words := TopicWords(topics);
    PrefixEntries(ids, words, |ids|);
    RelatedToMembers(ids, words, i, |ids|);
    RelatedToOrdered(ids, words, i, |ids|);
    RelatedToSubset(ids, words, i, |ids|);
  }

  lemma {:induction false} RelatedToSubset(ids: seq<string>, words: seq<set<string>>, i: nat, n: nat)
    requires |words| == |ids| && i < |ids| && n <= |ids|
    ensures forall x :: x in RelatedTo(ids, words, i, n) ==> x in ids
    decreases n
  {
    if n > 0 {
      RelatedToSubset(ids, words, i, n - 1);
    }
  }
}
