/**
 * `ImageAnalyzer`: reads the vision model's answer for one image into
 * per-topic information, and gathers that information over the images of
 * a folder.
 *
 * The folder listing, the image encoding, the vision model and
 * `json.loads` are inputs.
 */
module ImageAnalyzer {
  import opened Wrappers
  import opened Text
  import opened Dicts
  import opened Models

  // ---------------------------------------------------------------------
  // Reading one answer
  // ---------------------------------------------------------------------

  /** A value of the decoded object, as far as the parser looks at it. */
  datatype JsonValue = JString(s: string) | JOther

  /** What cleaning may cut before the answer: whitespace, backticks and the
      letters of a `json` tag. */
  predicate LeadCut(ch: char) {
    IsSpace(ch) || ch == '`' || ch in "json"
  }

  /** What cleaning may cut after the answer: whitespace and backticks. */
  predicate TailCut(ch: char) {
    IsSpace(ch) || ch == '`'
  }

  /** Surrounding whitespace and backticks removed, then a leading `json`. */
  function CleanResponse(response: string): (r: string)
    ensures |r| <= |response|
    ensures Trims(response, r, LeadCut, TailCut)
  {
    var c := StripChars(Strip(response), {'`'});
    CleanSteps(response);
    if StartsWith(c, "json") then Strip(c[4..]) else c
  }

  /** Each step of the cleaning keeps a window of the answer with only
      whitespace, backticks and the `json` tag cut off. */
  lemma CleanSteps(response: string)
    ensures var c := StripChars(Strip(response), {'`'});
      Trims(response, c, LeadCut, TailCut)
      && (StartsWith(c, "json") ==> Trims(response, Strip(c[4..]), LeadCut, TailCut))
  {
    var t := Strip(response);
    var c := StripChars(t, {'`'});
    StripTrims(response);
    StripCharsTrims(t, {'`'}, TailCut);
    TrimsCompose(response, t, c, IsSpace, IsSpace, TailCut, TailCut, LeadCut, TailCut);
    if StartsWith(c, "json") {
      JsonTagTrims(c);
      TrimsCompose(response, c, c[4..], LeadCut, TailCut, LeadCut, TailCut, LeadCut, TailCut);
      StripTrims(c[4..]);
      TrimsCompose(response, c[4..], Strip(c[4..]), LeadCut, TailCut, IsSpace, IsSpace, LeadCut, TailCut);
    }
  }

  /** Dropping a leading `json` tag cuts only its letters. */
  lemma JsonTagTrims(c: string)
    requires StartsWith(c, "json")
    ensures Trims(c, c[4..], LeadCut, TailCut)
  {
    forall k | 0 <= k < 4 ensures LeadCut(c[k]) {
      assert c[k] == "json"[k];
    }
    assert c[4..|c|] == c[4..];
    TrimsAt(c, c[4..], 4, |c|, LeadCut, TailCut);
  }

  /** An answer fenced as a `json` code block cleans to exactly its body,
      when the body has no whitespace at either end. */
  lemma CleanFenced(v: string)
    requires v != [] && !IsSpace(v[0]) && !IsSpace(v[|v| - 1])
    ensures CleanResponse("```json\n" + v + "\n```") == v
  {
    var s := "```json\n" + v + "\n```";
    StripIdentity(s);
    FenceStripped(v, s);
    var inner := "json\n" + v + "\n";
    TagDropped(v, inner);
    StripNewlines(v, inner[4..]);
  }

  /** The cleaned block starts with the tag, and the newlines and the body
      follow it. */
  lemma TagDropped(v: string, inner: string)
    requires inner == "json\n" + v + "\n"
    ensures StartsWith(inner, "json") && inner[4..] == "\n" + v + "\n"
  {
    assert inner == "json" + ("\n" + v + "\n");
  }

  /** Stripping backticks leaves the tag, the body and the newlines. */
  lemma FenceStripped(v: string, s: string)
    requires s == "```json\n" + v + "\n```"
    ensures StripChars(s, {'`'}) == "json\n" + v + "\n"
  {
    FenceOpened(v, s);
    FenceClosed(v, s[3..]);
  }

  /** The opening backticks are the only leading backticks. */
  lemma FenceOpened(v: string, s: string)
    requires s == "```json\n" + v + "\n```"
    ensures LStripChars(s, {'`'}) == s[3..]
  {
    assert s[3] == 'j';
    LStripCharsAt(s, {'`'}, 3);
  }

  /** The closing backticks are the only trailing backticks. */
  lemma FenceClosed(v: string, s: string)
    requires s == "json\n" + v + "\n```"
    ensures RStripChars(s, {'`'}) == "json\n" + v + "\n"
  {
    assert s[|s| - 4] == '\n';
    RStripCharsAt(s, {'`'}, |s| - 3);
    assert s[..|s| - 3] == "json\n" + v + "\n";
  }

  /** A body between two newlines strips to itself. */
  lemma StripNewlines(v: string, s: string)
    requires v != [] && !IsSpace(v[0]) && !IsSpace(v[|v| - 1])
    requires s == "\n" + v + "\n"
    ensures Strip(s) == v
  {
    assert s[1] == v[0];
    LStripAt(s, 1);
    var l := s[1..];
    assert l == v + "\n";
    assert l[|l| - 2] == v[|v| - 1];
    RStripAt(l, |l| - 1);
    assert l[..|l| - 1] == v;
  }

  /** The span `\{.*\}` matches under DOTALL: from the first `{` to the last
      `}`, when that `}` comes after the `{`. */
  function JsonObjectSlice(c: string): (r: Option<string>)
    ensures r.None? <==> '{' !in c || '}' !in c || ClosesFirst(c, '{', '}')
    ensures r.Some? ==> (|r.value| >= 2 && r.value[0] == '{' && r.value[|r.value| - 1] == '}'
      && OuterSpan(c, r.value, '{', '}'))
  {
    var start := FindChar(c, '{');
    var end := RFindChar(c, '}');
    if start < 0 || end < 0 then None
    else
      BraceSpan(c, '{', '}');
      if end > start then Some(c[start..end + 1]) else None
  }

  /** The id of each topic name; when names repeat, the later topic wins. */
  function NameIds(keys: seq<string>, vals: map<string, TopicData>, n: nat): (m: map<string, string>)
    requires n <= |keys| && forall i :: 0 <= i < |keys| ==> keys[i] in vals
    decreases n
  {
    if n == 0 then map[]
    else NameIds(keys, vals, n - 1)[vals[keys[n - 1]].name := keys[n - 1]]
  }

  function NameToId(topics: Dict<TopicData>): map<string, string>
    requires topics.Valid()
  {
    NameIds(topics.keys, topics.vals, |topics.keys|)
  }

  /** A name is mapped exactly when some topic carries it, and it is mapped
      to the last such topic. */
  lemma {:induction false} NameIdsLastWins(keys: seq<string>, vals: map<string, TopicData>, n: nat, name: string)
    requires n <= |keys| && forall i :: 0 <= i < |keys| ==> keys[i] in vals
    ensures name in NameIds(keys, vals, n) <==> exists j :: 0 <= j < n && vals[keys[j]].name == name
    ensures name in NameIds(keys, vals, n) ==>
      exists j :: 0 <= j < n && keys[j] == NameIds(keys, vals, n)[name] && vals[keys[j]].name == name
        && forall j' :: j < j' < n ==> vals[keys[j']].name != name
    decreases n
  {
    if n > 0 {
      NameIdsLastWins(keys, vals, n - 1, name);
    }
  }

  /** The collected information: a non-blank string answer for a known
      topic name is stored, stripped, under that topic's id. */
  function VisionInfo(items: seq<(string, JsonValue)>, ids: map<string, string>): (d: Dict<string>)
    ensures d.Valid()
    decreases |items|
  {
    if items == [] then Empty()
    else
      var d := VisionInfo(items[..|items| - 1], ids);
      var item := items[|items| - 1];
      if Stored(item, ids) then d.Put(ids[item.0], Strip(item.1.s)) else d
  }

  /** `_parse_vision_response(response, topics)`; `loads` yields the items of
      the decoded object, or `None` when decoding fails. */
  function ParseVision(response: string, topics: Dict<TopicData>,
                       loads: string -> Option<seq<(string, JsonValue)>>): (d: Dict<string>)
    requires topics.Valid()
    ensures d.Valid()
  {
    match JsonObjectSlice(CleanResponse(response))
    case None => Empty()
    case Some(json) =>
      if |json| <= 2 then Empty()
      else
        match loads(json)
        case None => Empty()
        case Some(items) => VisionInfo(items, NameToId(topics))
  }

  lemma VisionInfoStep(items: seq<(string, JsonValue)>, ids: map<string, string>, i: nat)
    requires i < |items|
    ensures var d := VisionInfo(items[..i], ids);
      var item := items[i];
      VisionInfo(items[..i + 1], ids)
        == if Stored(item, ids) then d.Put(ids[item.0], Strip(item.1.s)) else d
  {
    assert items[..i + 1][..i] == items[..i];
  }

  /** The loop of `_parse_vision_response` over the decoded items. */
  method CollectVisionInfo(items: seq<(string, JsonValue)>, nameToId: map<string, string>)
    returns (infoByTopic: Dict<string>)
    ensures infoByTopic == VisionInfo(items, nameToId)
  {
    infoByTopic := Empty();
    var i := 0;
    while i < |items|
      invariant 0 <= i <= |items|
      invariant infoByTopic == VisionInfo(items[..i], nameToId)
    {
      var (topicName, info) := items[i];
      VisionInfoStep(items, nameToId, i);
      if topicName in nameToId && info.JString? && Strip(info.s) != "" {
        infoByTopic := infoByTopic.Put(nameToId[topicName], Strip(info.s));
      }
      i := i + 1;
    }
    assert items[..i] == items;
  }

  method ParseVisionResponse(response: string, topics: Dict<TopicData>,
                             loads: string -> Option<seq<(string, JsonValue)>>)
    returns (infoByTopic: Dict<string>)
    requires topics.Valid()
    ensures infoByTopic == ParseVision(response, topics, loads)
  {
    var cleaned := CleanResponse(response);
    var jsonMatch := JsonObjectSlice(cleaned);
    if jsonMatch.None? {
      return Empty();
    }
    if |jsonMatch.value| <= 2 {
      return Empty();
    }
    var parsed := loads(jsonMatch.value);
    if parsed.None? {
      return Empty();
    }
    infoByTopic := CollectVisionInfo(parsed.value, NameToId(topics));
  }

  /** Which items qualify for storage: a known name with a non-blank
      string value. */
  predicate Stored(item: (string, JsonValue), ids: map<string, string>) {
    item.0 in ids && item.1.JString? && Strip(item.1.s) != ""
  }

  /** Every stored entry comes from a qualifying answer item naming that
      id, whose stripped value is the stored text. */
  lemma {:induction false} VisionInfoSources(items: seq<(string, JsonValue)>, ids: map<string, string>, k: string)
    requires k in VisionInfo(items, ids).vals
    ensures exists j :: 0 <= j < |items| && Stored(items[j], ids) && ids[items[j].0] == k
                        && VisionInfo(items, ids).vals[k] == Strip(items[j].1.s)
    decreases |items|
  {
    var init := items[..|items| - 1];
    var d := VisionInfo(init, ids);
    var r := VisionInfo(items, ids);
    var last := items[|items| - 1];
    assert r == if Stored(last, ids) then d.Put(ids[last.0], Strip(last.1.s)) else d;
    if Stored(last, ids) && ids[last.0] == k {
      assert r.vals[k] == Strip(last.1.s);
      var j := |items| - 1;
      assert Stored(items[j], ids) && ids[items[j].0] == k && r.vals[k] == Strip(items[j].1.s);
    } else {
      assert k in d.vals && r.vals[k] == d.vals[k];
      VisionInfoSources(init, ids, k);
      var j :| 0 <= j < |init| && Stored(init[j], ids) && ids[init[j].0] == k
        && d.vals[k] == Strip(init[j].1.s);
      assert init[j] == items[j];
      assert Stored(items[j], ids) && ids[items[j].0] == k && r.vals[k] == Strip(items[j].1.s);
    }
  }

  /** Every qualifying item leaves an entry under its id. */
  lemma {:induction false} VisionInfoComplete(items: seq<(string, JsonValue)>, ids: map<string, string>, j: nat)
    requires j < |items| && Stored(items[j], ids)
    ensures ids[items[j].0] in VisionInfo(items, ids).vals
    decreases |items|
  {
    var init := items[..|items| - 1];
    if j < |init| {
      assert items[j] == init[j];
      VisionInfoComplete(init, ids, j);
    }
  }

  /** Stored entries are non-empty and are filed under ids the name map
      produces. */
  lemma {:induction false} VisionInfoKeys(items: seq<(string, JsonValue)>, ids: map<string, string>,
                                          allowed: set<string>)
    requires forall name :: name in ids ==> ids[name] in allowed
    ensures var d := VisionInfo(items, ids);
      forall k :: k in d.vals ==> k in allowed && d.vals[k] != ""
    decreases |items|
  {
    if items != [] {
      VisionInfoKeys(items[..|items| - 1], ids, allowed);
    }
  }

  /** The values of the name map are topic ids. */
  lemma {:induction false} NameIdsAreKeys(keys: seq<string>, vals: map<string, TopicData>, n: nat)
    requires n <= |keys| && forall i :: 0 <= i < |keys| ==> keys[i] in vals
    ensures forall name :: name in NameIds(keys, vals, n) ==> NameIds(keys, vals, n)[name] in vals
    decreases n
  {
    if n > 0 {
      NameIdsAreKeys(keys, vals, n - 1);
    }
  }

  /** The parsed answer only ever names existing topics, and each stored
      text is non-empty. */
  lemma ParseVisionKeys(response: string, topics: Dict<TopicData>,
                        loads: string -> Option<seq<(string, JsonValue)>>)
    requires topics.Valid()
    ensures var d := ParseVision(response, topics, loads);
      forall k :: k in d.vals ==> k in topics.vals && d.vals[k] != ""
  {
    var json := JsonObjectSlice(CleanResponse(response));
    if json.Some? && |json.value| > 2 && loads(json.value).Some? {
      var items := loads(json.value).value;
      var ids := NameToId(topics);
      NameIdsAreKeys(topics.keys, topics.vals, |topics.keys|);
      VisionInfoKeys(items, ids, topics.vals.Keys);
      NameIdsAreKeys(topics.keys, topics.vals, |topics.keys|);
    }
  }

  /** An answer without a brace (such as the fixed quota message, or a
      failure message whose exception text holds no brace),
      an empty object, or an undecodable one yields nothing. */
  lemma NoObjectNoInfo(response: string, topics: Dict<TopicData>,
                       loads: string -> Option<seq<(string, JsonValue)>>)
    requires topics.Valid()
    requires var json := JsonObjectSlice(CleanResponse(response));
      json.None? || |json.value| <= 2 || loads(json.value).None?
    ensures ParseVision(response, topics, loads) == Empty()
  {
  }

  // ---------------------------------------------------------------------
  // One image
  // ---------------------------------------------------------------------

  /** `extract_info_from_image`: `encoded` is the encoded image (`None` when
      encoding failed); `respond` is the vision model's answer for it. */
  function ExtractInfo(encoded: Option<string>, respond: string -> string, topics: Dict<TopicData>,
                       loads: string -> Option<seq<(string, JsonValue)>>): (d: Dict<string>)
    requires topics.Valid()
    ensures encoded.None? || encoded.value == "" ==> d == Empty()
    ensures d.Valid()
  {
    if encoded.None? || encoded.value == "" then Empty()
    else ParseVision(respond(encoded.value), topics, loads)
  }

  // ---------------------------------------------------------------------
  // A folder of images
  // ---------------------------------------------------------------------

  /** One directory entry and whether it is a regular file. */
  datatype Entry = Entry(name: string, isFile: bool)

  predicate IsImageName(name: string) {
    Lower(SplitExt(name).1) in {".jpg", ".jpeg", ".png", ".gif", ".bmp"}
  }

  /** The image files of the listing, in listing order. */
  function ImageFiles(listing: seq<Entry>): (r: seq<string>)
    ensures forall f :: f in r ==> IsImageName(f) && Entry(f, true) in listing
    ensures forall e :: e in listing && e.isFile && IsImageName(e.name) ==> e.name in r
    decreases |listing|
  {
    if listing == [] then []
    else
      var init := ImageFiles(listing[..|listing| - 1]);
      var e := listing[|listing| - 1];
      assert listing == listing[..|listing| - 1] + [e];
      if e.isFile && IsImageName(e.name) then init + [e.name] else init
  }

  /** The starting map: every topic id with no image information. */
  function Initial(topics: Dict<TopicData>): (d: Dict<Dict<string>>)
    requires topics.Valid()
    ensures d.Valid() && d.keys == topics.keys
  {
    Dict(topics.keys, map k | k in topics.vals :: Empty())
  }

  /** Adding one image's information, topic by topic (`ks` are the ids still
      to visit); `true` in the second component means `image_info_by_topic`
      had no entry for an id, so the KeyError ended the whole analysis. */
  function AddImage(acc: Dict<Dict<string>>, file: string, info: Dict<string>, ks: seq<string>)
    : (r: (Dict<Dict<string>>, bool))
    ensures r.0.keys == acc.keys && (acc.Valid() ==> r.0.Valid())
    decreases |ks|
  {
    if ks == [] then (acc, false)
    else if ks[0] in info.vals && info.vals[ks[0]] != "" then
      if ks[0] !in acc.vals then (acc, true)
      else AddImage(acc.Put(ks[0], acc.vals[ks[0]].Put(file, info.vals[ks[0]])), file, info, ks[1..])
    else AddImage(acc, file, info, ks[1..])
  }

  /** The images from `files` on, added in order. */
  function AddImages(acc: Dict<Dict<string>>, files: seq<string>, infoOf: string -> Dict<string>)
    : (r: Dict<Dict<string>>)
    ensures r.keys == acc.keys && (acc.Valid() ==> r.Valid())
    decreases |files|
  {
    if files == [] then acc
    else
      var step := AddImage(acc, files[0], infoOf(files[0]), infoOf(files[0]).keys);
      if step.1 then step.0 else AddImages(step.0, files[1..], infoOf)
  }

  /** `analyze_images_for_topics`: `listing` is `None` when the folder cannot
      be listed; `encode(f)` is the encoding of image `f`. */
  function AnalyzeImages(listing: Option<seq<Entry>>, topics: Dict<TopicData>,
                         encode: string -> Option<string>, respond: string -> string,
                         loads: string -> Option<seq<(string, JsonValue)>>): (r: Dict<Dict<string>>)
    requires topics.Valid()
    ensures r.Valid() && r.keys == topics.keys
  {
    match listing
    case None => Initial(topics)
    case Some(entries) =>
      AddImages(Initial(topics), ImageFiles(entries), f => ExtractInfo(encode(f), respond, topics, loads))
  }

  /** The aggregation loop of `analyze_images_for_topics`. */
  method AnalyzeImagesForTopics(listing: Option<seq<Entry>>, topics: Dict<TopicData>,
                                encode: string -> Option<string>, respond: string -> string,
                                loads: string -> Option<seq<(string, JsonValue)>>)
    returns (imageInfoByTopic: Dict<Dict<string>>)
    requires topics.Valid()
    ensures imageInfoByTopic == AnalyzeImages(listing, topics, encode, respond, loads)
  {
    imageInfoByTopic := Initial(topics);
    if listing.None? {
      return;
    }
    ghost var infoOf := f => ExtractInfo(encode(f), respond, topics, loads);
    var imageFiles := ImageFiles(listing.value);
    var i := 0;
    while i < |imageFiles|
      invariant 0 <= i <= |imageFiles|
      invariant AddImages(imageInfoByTopic, imageFiles[i..], infoOf)
        == AddImages(Initial(topics), imageFiles, infoOf)
    {
      var imageFile := imageFiles[i];
      var infoByTopic := ExtractInfo(encode(imageFile), respond, topics, loads);
      assert infoByTopic == infoOf(imageFile);
      assert imageFiles[i..][1..] == imageFiles[i + 1..];
      var raised;
      imageInfoByTopic, raised := AddImageInfo(imageInfoByTopic, imageFile, infoByTopic);
      if raised {
        return;
      }
      i := i + 1;
    }
  }

  /** The inner loop: one image's entries written into the nested map. */
  method AddImageInfo(acc: Dict<Dict<string>>, imageFile: string, infoByTopic: Dict<string>)
    returns (result: Dict<Dict<string>>, raised: bool)
    ensures (result, raised) == AddImage(acc, imageFile, infoByTopic, infoByTopic.keys)
  {
    result := acc;
    var ks := infoByTopic.keys;
    var j := 0;
    while j < |ks|
      invariant 0 <= j <= |ks|
      invariant AddImage(result, imageFile, infoByTopic, ks[j..]) == AddImage(acc, imageFile, infoByTopic, ks)
    {
      var topicId := ks[j];
      assert ks[j..][1..] == ks[j + 1..];
      if topicId in infoByTopic.vals && infoByTopic.vals[topicId] != "" {
        if topicId !in result.vals {
          return result, true;
        }
        result := result.Put(topicId, result.vals[topicId].Put(imageFile, infoByTopic.vals[topicId]));
      }
      j := j + 1;
    }
    raised := false;
  }

  /** Every piece of stored information is non-empty and is what one of the
      given files yielded for that topic. */
  ghost predicate Entries(acc: Dict<Dict<string>>, files: seq<string>, infoOf: string -> Dict<string>) {
    forall k, f :: k in acc.vals && f in acc.vals[k].vals ==>
      f in files && k in infoOf(f).vals && acc.vals[k].vals[f] == infoOf(f).vals[k] && acc.vals[k].vals[f] != ""
  }

  lemma {:induction false} AddImageEntries(acc: Dict<Dict<string>>, file: string, info: Dict<string>,
                                           ks: seq<string>, files: seq<string>, infoOf: string -> Dict<string>)
    requires Entries(acc, files, infoOf) && file in files && info == infoOf(file)
    ensures Entries(AddImage(acc, file, info, ks).0, files, infoOf)
    decreases |ks|
  {
    if ks != [] && ks[0] in info.vals && info.vals[ks[0]] != "" && ks[0] in acc.vals {
      var next := acc.Put(ks[0], acc.vals[ks[0]].Put(file, info.vals[ks[0]]));
      assert Entries(next, files, infoOf);
      AddImageEntries(next, file, info, ks[1..], files, infoOf);
    } else if ks != [] {
      AddImageEntries(acc, file, info, ks[1..], files, infoOf);
    }
  }

  lemma {:induction false} AddImagesEntries(acc: Dict<Dict<string>>, rest: seq<string>,
                                            infoOf: string -> Dict<string>, files: seq<string>)
    requires Entries(acc, files, infoOf) && forall f :: f in rest ==> f in files
    ensures Entries(AddImages(acc, rest, infoOf), files, infoOf)
    decreases |rest|
  {
    if rest != [] {
      AddImageEntries(acc, rest[0], infoOf(rest[0]), infoOf(rest[0]).keys, files, infoOf);
      var step := AddImage(acc, rest[0], infoOf(rest[0]), infoOf(rest[0]).keys);
      if !step.1 {
        AddImagesEntries(step.0, rest[1..], infoOf, files);
      }
    }
  }

  /** `acc2` holds every piece `acc` holds, under the same topic. */
  ghost predicate Keeps(acc: Dict<Dict<string>>, acc2: Dict<Dict<string>>) {
    forall k, f :: k in acc.vals && f in acc.vals[k].vals ==> k in acc2.vals && f in acc2.vals[k].vals
  }

  /** Every non-empty piece an image of `files` yields is stored under its
      topic. */
  ghost predicate Filed(acc: Dict<Dict<string>>, files: seq<string>, infoOf: string -> Dict<string>) {
    forall k, f :: f in files && k in infoOf(f).vals && infoOf(f).vals[k] != "" ==>
      k in acc.vals && f in acc.vals[k].vals
  }

  /** Adding an image never removes a stored piece. */
  lemma {:induction false} AddImageKeeps(acc: Dict<Dict<string>>, file: string, info: Dict<string>, ks: seq<string>)
    ensures Keeps(acc, AddImage(acc, file, info, ks).0)
    decreases |ks|
  {
    if ks != [] && ks[0] in info.vals && info.vals[ks[0]] != "" && ks[0] in acc.vals {
      var next := acc.Put(ks[0], acc.vals[ks[0]].Put(file, info.vals[ks[0]]));
      assert Keeps(acc, next);
      AddImageKeeps(next, file, info, ks[1..]);
    } else if ks != [] {
      AddImageKeeps(acc, file, info, ks[1..]);
    }
  }

  lemma {:induction false} AddImagesKeeps(acc: Dict<Dict<string>>, rest: seq<string>, infoOf: string -> Dict<string>)
    ensures Keeps(acc, AddImages(acc, rest, infoOf))
    decreases |rest|
  {
    if rest != [] {
      var step := AddImage(acc, rest[0], infoOf(rest[0]), infoOf(rest[0]).keys);
      AddImageKeeps(acc, rest[0], infoOf(rest[0]), infoOf(rest[0]).keys);
      if !step.1 {
        AddImagesKeeps(step.0, rest[1..], infoOf);
      }
    }
  }

  /** When every id the image yields has an entry, no KeyError arises and
      each non-empty piece among `ks` is stored under its topic. */
  lemma {:induction false} AddImageStores(acc: Dict<Dict<string>>, file: string, info: Dict<string>, ks: seq<string>)
    requires forall k :: k in ks && k in info.vals ==> k in acc.vals
    ensures var r := AddImage(acc, file, info, ks);
      && !r.1
      && r.0.vals.Keys == acc.vals.Keys
      && (forall k :: k in ks && k in info.vals && info.vals[k] != "" ==> file in r.0.vals[k].vals)
    decreases |ks|
  {
    if ks != [] && ks[0] in info.vals && info.vals[ks[0]] != "" {
      var next := acc.Put(ks[0], acc.vals[ks[0]].Put(file, info.vals[ks[0]]));
      assert next.vals.Keys == acc.vals.Keys;
      AddImageStores(next, file, info, ks[1..]);
      AddImageKeeps(next, file, info, ks[1..]);
    } else if ks != [] {
      AddImageStores(acc, file, info, ks[1..]);
    }
  }

  /** When every id the images yield has an entry, every non-empty piece
      they yield is stored. */
  lemma {:induction false} AddImagesStores(acc: Dict<Dict<string>>, rest: seq<string>, infoOf: string -> Dict<string>)
    requires forall f, k :: f in rest && k in infoOf(f).vals ==> k in acc.vals
    requires forall f :: f in rest ==> infoOf(f).Valid()
    ensures Filed(AddImages(acc, rest, infoOf), rest, infoOf)
    decreases |rest|
  {
    if rest != [] {
      var info := infoOf(rest[0]);
      var step := AddImage(acc, rest[0], info, info.keys);
      AddImageStores(acc, rest[0], info, info.keys);
      assert !step.1 && step.0.vals.Keys == acc.vals.Keys;
      AddImagesStores(step.0, rest[1..], infoOf);
      AddImagesKeeps(step.0, rest[1..], infoOf);
      var r := AddImages(acc, rest, infoOf);
      assert r == AddImages(step.0, rest[1..], infoOf);
      forall k, f | f in rest && k in infoOf(f).vals && infoOf(f).vals[k] != ""
        ensures k in r.vals && f in r.vals[k].vals
      {
        if f != rest[0] {
          assert f in rest[1..];
        } else {
          assert k in info.keys;
        }
      }
    }
  }

  /** The result has one entry per topic; every piece of information in it
      is what a listed regular file with an image extension yielded for that
      topic, and every non-empty piece such an image yields is stored; an
      unreadable folder gives no information at all. */
  lemma AnalyzeImagesSpec(listing: Option<seq<Entry>>, topics: Dict<TopicData>,
                          encode: string -> Option<string>, respond: string -> string,
                          loads: string -> Option<seq<(string, JsonValue)>>)
    requires topics.Valid()
    ensures var r := AnalyzeImages(listing, topics, encode, respond, loads);
      && r.keys == topics.keys
      && (forall k, f :: k in r.vals && f in r.vals[k].vals ==>
            && listing.Some? && IsImageName(f) && Entry(f, true) in listing.value
            && k in ExtractInfo(encode(f), respond, topics, loads).vals
            && r.vals[k].vals[f] == ExtractInfo(encode(f), respond, topics, loads).vals[k]
            && r.vals[k].vals[f] != "")
      && (forall k, f :: (listing.Some? && IsImageName(f) && Entry(f, true) in listing.value
            && k in ExtractInfo(encode(f), respond, topics, loads).vals
            && ExtractInfo(encode(f), respond, topics, loads).vals[k] != "") ==>
            k in r.vals && f in r.vals[k].vals)
      && (listing.None? ==> forall k :: k in r.vals ==> r.vals[k] == Empty())
  {
    if listing.Some? {
      AnalyzedEntries(listing.value, topics, encode, respond, loads);
      AnalyzedComplete(listing.value, topics, encode, respond, loads);
    } else {
      NoListing(topics, encode, respond, loads);
    }
  }

  /** An unreadable folder leaves every topic without information. */
  lemma NoListing(topics: Dict<TopicData>, encode: string -> Option<string>, respond: string -> string,
                  loads: string -> Option<seq<(string, JsonValue)>>)
    requires topics.Valid()
    ensures var r := AnalyzeImages(None, topics, encode, respond, loads);
      forall k :: k in r.vals ==> r.vals[k] == Empty() && r.vals[k].vals == map[]
  {
    assert AnalyzeImages(None, topics, encode, respond, loads) == Initial(topics);
  }

  /** Every description collected under a topic is the one its image
      yielded for that topic. */
  lemma AnalyzedEntries(entries: seq<Entry>, topics: Dict<TopicData>,
                        encode: string -> Option<string>, respond: string -> string,
                        loads: string -> Option<seq<(string, JsonValue)>>)
    requires topics.Valid()
    ensures var r := AnalyzeImages(Some(entries), topics, encode, respond, loads);
      forall k, f :: k in r.vals && f in r.vals[k].vals ==>
        && f in ImageFiles(entries)
        && k in ExtractInfo(encode(f), respond, topics, loads).vals
        && r.vals[k].vals[f] == ExtractInfo(encode(f), respond, topics, loads).vals[k]
        && r.vals[k].vals[f] != ""
  {
    var files := ImageFiles(entries);
    var infoOf := f => ExtractInfo(encode(f), respond, topics, loads);
    InitialEntries(topics, files, infoOf);
    AddImagesEntries(Initial(topics), files, infoOf, files);
    var r := AddImages(Initial(topics), files, infoOf);
    assert AnalyzeImages(Some(entries), topics, encode, respond, loads) == r;
    forall k, f | k in r.vals && f in r.vals[k].vals
      ensures f in files && k in ExtractInfo(encode(f), respond, topics, loads).vals
      ensures r.vals[k].vals[f] == ExtractInfo(encode(f), respond, topics, loads).vals[k] && r.vals[k].vals[f] != ""
    {
      assert infoOf(f) == ExtractInfo(encode(f), respond, topics, loads);
    }
  }

  /** Nothing is stored before the first image. */
  lemma InitialEntries(topics: Dict<TopicData>, files: seq<string>, infoOf: string -> Dict<string>)
    requires topics.Valid()
    ensures Entries(Initial(topics), files, infoOf)
  {
    assert forall k :: k in Initial(topics).vals ==> Initial(topics).vals[k].vals == map[];
  }

  /** Every non-empty description a listed image yields is collected: the
      ids it yields are topic ids, so no KeyError arises. */
  lemma AnalyzedComplete(entries: seq<Entry>, topics: Dict<TopicData>,
                         encode: string -> Option<string>, respond: string -> string,
                         loads: string -> Option<seq<(string, JsonValue)>>)
    requires topics.Valid()
    ensures var r := AnalyzeImages(Some(entries), topics, encode, respond, loads);
      forall k, f :: (f in ImageFiles(entries)
        && k in ExtractInfo(encode(f), respond, topics, loads).vals
        && ExtractInfo(encode(f), respond, topics, loads).vals[k] != "") ==>
        k in r.vals && f in r.vals[k].vals
  {
    var files := ImageFiles(entries);
    var infoOf := f => ExtractInfo(encode(f), respond, topics, loads);
    forall f, k | f in files && k in infoOf(f).vals
      ensures k in Initial(topics).vals
    {
      var e := encode(f);
      if e.Some? && e.value != "" {
        ParseVisionKeys(respond(e.value), topics, loads);
      }
    }
    AddImagesStores(Initial(topics), files, infoOf);
    assert AnalyzeImages(Some(entries), topics, encode, respond, loads) == AddImages(Initial(topics), files, infoOf);
  }
}
