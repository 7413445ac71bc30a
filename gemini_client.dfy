/**
 * The decision logic of the language-model client: the granularity bands
 * written into the topic prompt, the retry loop with its quota check, and
 * the parsing of a topic-extraction answer into a topics dictionary.
 *
 * The model itself is an input: `api(k)` is what the `k`-th attempt of one
 * call produced (its text, or the text of the exception it raised), and
 * `json.loads` is an input function that either fails with the decoder's
 * message or yields the parts of the object the parser reads.
 */
module GeminiClient {
  import opened Wrappers
  import opened Text
  import opened Dicts
  import opened Models

  // ---------------------------------------------------------------------
  // Granularity
  // ---------------------------------------------------------------------

  /** The five sentences the topic prompt uses, from broadest to finest. */
  const Descriptions: seq<string> := [
    "Extract only the broadest, most general macro-topics (very few top-level topics).",
    "Extract general macro-topics (a small number of broad topics).",
    "Extract a balanced mix of general topics and some specific sub-topics.",
    "Extract more specific sub-topics with moderate detail.",
    "Extract highly specific, detailed micro-topics (many fine-grained topics)."
  ]

  /** The sentence the topic prompt uses to describe a granularity level. */
  function GranularityDescription(granularity: int): string {
    if granularity < 20 then Descriptions[0]
    else if granularity < 40 then Descriptions[1]
    else if granularity < 60 then Descriptions[2]
    else if granularity < 80 then Descriptions[3]
    else Descriptions[4]
  }

  /** The band of a granularity level: how many of the cut points 20, 40, 60
      and 80 it reaches. */
  function Band(granularity: int): (b: nat)
    ensures b <= 4
  {
    (if granularity >= 20 then 1 else 0) + (if granularity >= 40 then 1 else 0)
    + (if granularity >= 60 then 1 else 0) + (if granularity >= 80 then 1 else 0)
  }

  lemma DescriptionsDistinct(i: nat, j: nat)
    requires i < 5 && j < 5 && i != j
    ensures Descriptions[i] != Descriptions[j]
  {
    assert |Descriptions[0]| == 81 && |Descriptions[1]| == 62 && |Descriptions[2]| == 70
      && |Descriptions[3]| == 54 && |Descriptions[4]| == 74;
  }

  /** Two levels get the same description exactly when they lie in the same
      band, so the descriptions split all integers into five bands. */
  lemma GranularityBands(a: int, b: int)
    ensures GranularityDescription(a) == GranularityDescription(b) <==> Band(a) == Band(b)
  {
    assert GranularityDescription(a) == Descriptions[Band(a)];
    assert GranularityDescription(b) == Descriptions[Band(b)];
    if Band(a) != Band(b) {
      DescriptionsDistinct(Band(a), Band(b));
    }
  }

  /** The part of the document written into the topic prompt. */
  function TopicPromptExcerpt(text: string): (r: string)
    ensures |r| <= 10000 && StartsWith(text, r)
    ensures |text| <= 10000 ==> r == text
  {
    Take(text, 10000)
  }

  // ---------------------------------------------------------------------
  // The retry loop
  // ---------------------------------------------------------------------

  const QuotaMarkers: seq<string> :=
    ["quota exceeded", "exceeded your current quota", "rate limit exceeded", "429"]

  /** An exception whose lower-cased text mentions a quota marker. */
  predicate IsQuotaError(message: string) {
    exists j :: 0 <= j < |QuotaMarkers| && Contains(Lower(message), QuotaMarkers[j])
  }

  const QuotaMessage :=
    "Error: " + "Quota limit reached for Gemini API. Please try again later or check your API key quota."

  /** The text model (`generate_content`) and the vision model
      (`generate_content_with_image`) share the loop and differ in the
      message returned after the last failed attempt. */
  datatype Endpoint = TextModel | VisionModel

  function FinalFailure(endpoint: Endpoint, message: string): string {
    match endpoint
    case TextModel => "Error: " + ("Failed to generate content: " + message)
    case VisionModel => "Error analyzing image: " + ("Failed to analyze image: " + message)
  }

  /** What a call returned (`None` when the loop body never ran, where
      Python returns `None`), and how many attempts it made. */
  datatype Generation = Generation(text: Option<string>, calls: nat)

  /** The loop from attempt number `attempt` on. */
  function Generate(endpoint: Endpoint, retryCount: int, api: nat -> Reply, attempt: nat): Generation
    decreases retryCount + 1 - attempt
  {
    if attempt > retryCount then Generation(None, attempt)
    else
      match api(attempt)
      case Text(t) => Generation(Some(t), attempt + 1)
      case Raised(m) =>
        if IsQuotaError(m) then Generation(Some(QuotaMessage), attempt + 1)
        else if attempt < retryCount then Generate(endpoint, retryCount, api, attempt + 1)
        else Generation(Some(FinalFailure(endpoint, m)), attempt + 1)
  }

  /** `generate_content` / `generate_content_with_image`, with `api(k)` the
      outcome of the `k`-th request. */
  method GenerateContent(endpoint: Endpoint, retryCount: int, api: nat -> Reply)
    returns (text: Option<string>, calls: nat)
    ensures Generation(text, calls) == Generate(endpoint, retryCount, api, 0)
  {
    var attempt: nat := 0;
    while attempt <= retryCount
      invariant Generate(endpoint, retryCount, api, attempt) == Generate(endpoint, retryCount, api, 0)
      decreases retryCount + 1 - attempt
    {
      var reply := api(attempt);
      if reply.Text? {
        return Some(reply.text), attempt + 1;
      }
      if IsQuotaError(reply.message) {
        return Some(QuotaMessage), attempt + 1;
      }
      if attempt >= retryCount {
        return Some(FinalFailure(endpoint, reply.message)), attempt + 1;
      }
      attempt := attempt + 1;
    }
    text, calls := None, attempt;
  }

  /** Every attempt before the last failed without a quota marker, and the
      call returns the last attempt's text, the quota message, or the final
      failure message after exactly `retryCount + 1` attempts. */
  lemma {:induction false} GenerateFrom(endpoint: Endpoint, retryCount: int, api: nat -> Reply, attempt: nat)
    requires attempt <= retryCount
    ensures var g := Generate(endpoint, retryCount, api, attempt);
      && g.text.Some? && attempt + 1 <= g.calls <= retryCount + 1
      && (forall k :: attempt <= k < g.calls - 1 ==> api(k).Raised? && !IsQuotaError(api(k).message))
      && (api(g.calls - 1).Text? ==> g.text.value == api(g.calls - 1).text)
      && (api(g.calls - 1).Raised? && IsQuotaError(api(g.calls - 1).message) ==> g.text.value == QuotaMessage)
      && (api(g.calls - 1).Raised? && !IsQuotaError(api(g.calls - 1).message) ==>
            g.calls == retryCount + 1 && g.text.value == FinalFailure(endpoint, api(g.calls - 1).message))
    decreases retryCount + 1 - attempt
  {
    var reply := api(attempt);
    if reply.Raised? && !IsQuotaError(reply.message) && attempt < retryCount {
      GenerateFrom(endpoint, retryCount, api, attempt + 1);
    }
  }

  /** With a non-negative retry count a call makes between one and
      `retryCount + 1` attempts and returns the model's text or an error
      message; with a negative one it makes none and returns `None`. */
  lemma RetryOutcome(endpoint: Endpoint, retryCount: int, api: nat -> Reply)
    ensures var g := Generate(endpoint, retryCount, api, 0);
      && (retryCount < 0 ==> g == Generation(None, 0))
      && (retryCount >= 0 ==>
            && g.text.Some? && 1 <= g.calls <= retryCount + 1
            && ((api(g.calls - 1).Text? && g.text.value == api(g.calls - 1).text)
                || g.text.value == QuotaMessage
                || (api(g.calls - 1).Raised? && g.text.value == FinalFailure(endpoint, api(g.calls - 1).message))))
  {
    if retryCount >= 0 {
      GenerateFrom(endpoint, retryCount, api, 0);
    }
  }

  /** A quota error ends the loop at once with the fixed quota message. */
  lemma QuotaStopsRetrying(endpoint: Endpoint, retryCount: int, api: nat -> Reply, k: nat)
    requires k <= retryCount
    requires forall j :: 0 <= j < k ==> api(j).Raised? && !IsQuotaError(api(j).message)
    requires api(k).Raised? && IsQuotaError(api(k).message)
    ensures Generate(endpoint, retryCount, api, 0) == Generation(Some(QuotaMessage), k + 1)
  {
    GenerateFrom(endpoint, retryCount, api, 0);
  }

  /** A failed text call says `Error: `; a failed vision call does not, as its
      message opens with `Error analyzing image:`; the quota message does. */
  lemma FailureMessages(message: string)
    ensures StartsWith(FinalFailure(TextModel, message), "Error: ")
    ensures StartsWith(FinalFailure(VisionModel, message), "Error analyzing image:")
    ensures !StartsWith(FinalFailure(VisionModel, message), "Error:")
    ensures StartsWith(QuotaMessage, "Error: ")
  {
    var prefix := "Error analyzing image: ";
    var v := FinalFailure(VisionModel, message);
    assert v[..|prefix|] == prefix;
    assert v[5] == prefix[5] == ' ';
  }

  // ---------------------------------------------------------------------
  // Parsing the topic list
  // ---------------------------------------------------------------------

  /** One element of the `topics` list, with the keys it may lack. */
  datatype TopicEntry = TopicEntry(id: Option<string>, name: Option<string>, description: Option<string>)

  /** The decoded answer as the parser reads it: the `topics` member, if any. */
  datatype TopicsJson = TopicsJson(topics: Option<seq<TopicEntry>>)

  /** `response[first '{' : last '}' + 1]`, or `None` when either brace is
      missing (Python's slice is empty when the last `}` precedes the first `{`). */
  function JsonSlice(response: string): (r: Option<string>)
    ensures r.None? <==> '{' !in response || '}' !in response
    ensures r.Some? ==> (r.value == [] <==> ClosesFirst(response, '{', '}'))
    ensures r.Some? && r.value != [] ==>
      (r.value[0] == '{' && r.value[|r.value| - 1] == '}' && OuterSpan(response, r.value, '{', '}'))
  {
    var start := FindChar(response, '{');
    var end := RFindChar(response, '}') + 1;
    if start == -1 || end == 0 then None
    else
      BraceSpan(response, '{', '}');
      if end <= start then Some([]) else Some(response[start..end])
  }

  const ErrorTopicId := "error_topic"

  /** The single topic returned when the answer cannot be parsed. */
  function ErrorTopics(message: string): (d: Dict<TopicData>)
    ensures d.Valid() && d.keys == [ErrorTopicId]
  {
    Dict([ErrorTopicId], map[ErrorTopicId := TopicData("Error Extracting Topics",
      "Failed to extract topics from document: " + message)])
  }

  /** The key an entry is stored under when the dictionary already holds
      `size` topics. */
  function EntryId(e: TopicEntry, size: nat): string {
    if e.id.Some? then e.id.value else "topic_" + NatToString(size)
  }

  function EntryData(e: TopicEntry): TopicData {
    TopicData(if e.name.Some? then e.name.value else "Unnamed Topic",
              if e.description.Some? then e.description.value else "")
  }

  /** The dictionary built from the list, entry by entry; a repeated id
      overwrites the earlier entry in place. */
  function TopicsFromList(entries: seq<TopicEntry>): (d: Dict<TopicData>)
    ensures d.Valid() && d.Size() <= |entries|
    decreases |entries|
  {
    if entries == [] then Empty()
    else
      var d := TopicsFromList(entries[..|entries| - 1]);
      var e := entries[|entries| - 1];
      d.Put(EntryId(e, d.Size()), EntryData(e))
  }

  /** `extract_topics` after the model has answered `response`. */
  function ParseTopics(response: string, loads: string -> Result<TopicsJson>): Dict<TopicData> {
    match JsonSlice(response)
    case None => ErrorTopics("No JSON found in response")
    case Some(json) =>
      match loads(json)
      case Err(m) => ErrorTopics(m)
      case Ok(j) => TopicsFromList(if j.topics.Some? then j.topics.value else [])
  }

  /** The parsing part of `extract_topics`, with its conversion loop. */
  method ParseTopicsResponse(response: string, loads: string -> Result<TopicsJson>)
    returns (topics: Dict<TopicData>)
    ensures topics == ParseTopics(response, loads)
  {
    var jsonStart := FindChar(response, '{');
    var jsonEnd := RFindChar(response, '}') + 1;
    if jsonStart == -1 || jsonEnd == 0 {
      return ErrorTopics("No JSON found in response");
    }
    var json := if jsonEnd <= jsonStart then [] else response[jsonStart..jsonEnd];
    assert JsonSlice(response) == Some(json);
    var parsed := loads(json);
    if parsed.Err? {
      return ErrorTopics(parsed.error);
    }
    var entries := if parsed.value.topics.Some? then parsed.value.topics.value else [];
    topics := BuildTopics(entries);
  }

  /** The loop over the parsed topic entries. */
  method BuildTopics(entries: seq<TopicEntry>) returns (topics: Dict<TopicData>)
    ensures topics == TopicsFromList(entries)
  {
    topics := Empty();
    var i := 0;
    while i < |entries|
      invariant 0 <= i <= |entries|
      invariant topics == TopicsFromList(entries[..i])
    {
      var topic := entries[i];
      TopicsFromListStep(entries, i);
      var topicId := EntryId(topic, topics.Size());
      topics := topics.Put(topicId, EntryData(topic));
      i := i + 1;
    }
    assert entries[..i] == entries;
  }

  lemma TopicsFromListStep(entries: seq<TopicEntry>, i: nat)
    requires i < |entries|
    ensures var d := TopicsFromList(entries[..i]);
      TopicsFromList(entries[..i + 1]) == d.Put(EntryId(entries[i], d.Size()), EntryData(entries[i]))
  {
    assert entries[..i + 1][..i] == entries[..i];
  }

  /** An answer without a brace, such as the fixed quota message or a final
      failure whose exception text holds no brace, yields the error topic. */
  lemma NoBraceIsErrorTopic(response: string, loads: string -> Result<TopicsJson>)
    requires '{' !in response || '}' !in response
    ensures ParseTopics(response, loads) == ErrorTopics("No JSON found in response")
  {
  }

  /** The last entry of the list is stored, with its defaults applied, under
      its id (or `topic_<size>` when it has none). */
  lemma LastEntryWins(entries: seq<TopicEntry>)
    requires entries != []
    ensures var init := TopicsFromList(entries[..|entries| - 1]);
      var e := entries[|entries| - 1];
      TopicsFromList(entries).vals[EntryId(e, init.Size())] == EntryData(e)
  {
  }

  /** Every entry that carries an id ends up in the dictionary, and nothing
      else does besides the generated `topic_<n>` keys. */
  lemma {:induction false} ExplicitIdsKept(entries: seq<TopicEntry>)
    ensures forall i :: 0 <= i < |entries| && entries[i].id.Some? ==>
      entries[i].id.value in TopicsFromList(entries).vals
    ensures forall k :: k in TopicsFromList(entries).vals ==>
      (exists i :: 0 <= i < |entries| && entries[i].id == Some(k)) || StartsWith(k, "topic_")
    decreases |entries|
  {
    if entries != [] {
      var init := entries[..|entries| - 1];
      ExplicitIdsKept(init);
      var d := TopicsFromList(init);
      var e := entries[|entries| - 1];
      var r := TopicsFromList(entries);
      assert r == d.Put(EntryId(e, d.Size()), EntryData(e));
      forall i | 0 <= i < |entries| && entries[i].id.Some?
        ensures entries[i].id.value in r.vals
      {
        if i < |entries| - 1 {
          assert entries[i] == init[i];
        }
      }
      forall k | k in r.vals
        ensures (exists i :: 0 <= i < |entries| && entries[i].id == Some(k)) || StartsWith(k, "topic_")
      {
        if k in d.vals {
          if exists i :: 0 <= i < |init| && init[i].id == Some(k) {
            var i :| 0 <= i < |init| && init[i].id == Some(k);
            assert entries[i] == init[i];
          }
        } else if e.id.None? {
          assert k == "topic_" + NatToString(d.Size());
        }
      }
    }
  }
}
