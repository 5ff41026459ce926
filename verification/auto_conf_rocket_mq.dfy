/**
  The configuration side of a RocketMQ consumer: the constructor's guard on
  its four configuration keys, the parser of the topic string
  ("topic1:tag1,topic2") into a topic-to-tag map, and `getTopic`.
 */
module AutoConfRocketMQ {
  import opened JavaLang

  /** The tag that subscribes to every message of a topic. */
  const ALL_TAGS: string := "*"

  predicate IsComma(c: char) {
    c == ','
  }

  predicate IsColon(c: char) {
    c == ':'
  }

  /**
    A configured consumer. The three values read from the configuration
    centre start out null; nothing in this code ever sets them.
   */
  datatype AutoConf = AutoConf(
    configName: string,
    nameServerKey: string,
    groupKey: string,
    topicKey: string,
    nameServer: JString,
    groupName: JString,
    topics: Option<map<string, string>>
  )

  /** `IllegalArgumentException`, carrying the four arguments it reports. */
  datatype ConfigError = IllegalArgument(configName: JString, nameServerKey: JString, groupKey: JString, topicKey: JString)

  /** The constructor: it throws when any of the four keys is null, empty or whitespace only. */
  function New(configName: JString, nameServerKey: JString, groupKey: JString, topicKey: JString)
    : (r: Result<AutoConf, ConfigError>)
    ensures r.Failure? <==> IsBlank(configName) || IsBlank(nameServerKey) || IsBlank(groupKey) || IsBlank(topicKey)
    ensures r.Failure? ==> r.error == IllegalArgument(configName, nameServerKey, groupKey, topicKey)
    ensures r.Success? ==>
              && Some(r.value.configName) == configName && Some(r.value.nameServerKey) == nameServerKey
              && Some(r.value.groupKey) == groupKey && Some(r.value.topicKey) == topicKey
              && r.value.nameServer.None? && r.value.groupName.None? && r.value.topics.None?
  {
    if IsBlank(configName) || IsBlank(nameServerKey) || IsBlank(groupKey) || IsBlank(topicKey) then
      Failure(IllegalArgument(configName, nameServerKey, groupKey, topicKey))
    else
      Success(AutoConf(configName.value, nameServerKey.value, groupKey.value, topicKey.value, None, None, None))
  }

  // ---------------------------------------------------------------------
  // parseTopics
  // ---------------------------------------------------------------------

  /**
    The entry one comma-separated segment contributes: its first non-empty
    colon-separated piece is the topic and its second the tag ("*" when
    there is none); later pieces are ignored, and a segment with no
    non-empty piece contributes nothing.
   */
  function SegmentEntry(segment: string): (e: Option<(string, string)>)
    ensures e.Some? ==> e.value.0 != "" && SepFree(e.value.0, IsColon)
    ensures e.Some? ==> e.value.1 == ALL_TAGS || (e.value.1 != "" && SepFree(e.value.1, IsColon))
  {
    var parts := SplitDroppingEmpty(segment, IsColon);
    if |parts| == 0 then None
    else if |parts| == 1 then Some((parts[0], ALL_TAGS))
    else Some((parts[0], parts[1]))
  }

  /** Segment `segment` contributes an entry for topic `topic`. */
  predicate NamesTopic(segment: string, topic: string) {
    SegmentEntry(segment).Some? && SegmentEntry(segment).value.0 == topic
  }

  /** The segments' entries put into `acc` in order, a later one replacing an earlier one. */
  function PutSegments(acc: map<string, string>, segments: seq<string>): (r: map<string, string>)
    ensures acc.Keys <= r.Keys
    decreases |segments|
  {
    if |segments| == 0 then acc
    else
      var before := PutSegments(acc, segments[..|segments| - 1]);
      match SegmentEntry(segments[|segments| - 1])
      case None => before
      case Some(entry) => before[entry.0 := entry.1]
  }

  /** `parseTopics`: a blank string gives the empty map. */
  function ParseTopics(topicsStr: JString): (r: map<string, string>)
    ensures IsBlank(topicsStr) ==> r == map[]
  {
    if IsBlank(topicsStr) then map[]
    else PutSegments(map[], SplitDroppingEmpty(topicsStr.value, IsComma))
  }

  /** Some segment of `segments` names `topic`. */
  predicate SomeSegmentNames(segments: seq<string>, topic: string) {
    exists i :: 0 <= i < |segments| && NamesTopic(segments[i], topic)
  }

  /** A segment list names a topic exactly when its prefix or its last segment does. */
  lemma SomeSegmentNamesSplit(segments: seq<string>, topic: string)
    requires |segments| > 0
    ensures SomeSegmentNames(segments, topic) <==>
              SomeSegmentNames(segments[..|segments| - 1], topic) || NamesTopic(segments[|segments| - 1], topic)
  {
    var init := segments[..|segments| - 1];
    ExistsInPrefixOrLast(segments, w => NamesTopic(w, topic));
    assert SomeSegmentNames(segments, topic) <==> AnySatisfies(segments, w => NamesTopic(w, topic));
    assert SomeSegmentNames(init, topic) <==> AnySatisfies(init, w => NamesTopic(w, topic));
  }

  /** The topics of the result are the topics some segment names, and nothing else. */
  lemma {:induction false} PutSegmentsKeys(acc: map<string, string>, segments: seq<string>, topic: string)
    ensures topic in PutSegments(acc, segments) <==> topic in acc || SomeSegmentNames(segments, topic)
    decreases |segments|
  {
    if |segments| > 0 {
      PutSegmentsKeys(acc, segments[..|segments| - 1], topic);
      SomeSegmentNamesSplit(segments, topic);
    }
  }

  /**
    A later segment wins: the topic named last by segment `i` maps to that
    segment's tag, whatever earlier segments said.
   */
  lemma {:induction false} LastSegmentWins(acc: map<string, string>, segments: seq<string>, i: nat)
    requires i < |segments| && SegmentEntry(segments[i]).Some?
    requires forall j :: i < j < |segments| ==> !NamesTopic(segments[j], SegmentEntry(segments[i]).value.0)
    ensures var entry := SegmentEntry(segments[i]).value;
            entry.0 in PutSegments(acc, segments) && PutSegments(acc, segments)[entry.0] == entry.1
    decreases |segments|
  {
    var init := segments[..|segments| - 1];
    if i < |segments| - 1 {
      assert init[i] == segments[i];
      LastSegmentWins(acc, init, i);
    }
  }

  /**
    Every topic of a parsed string is a non-empty, colon-free topic named by
    a non-empty comma-separated piece of the input.
   */
  lemma ParsedTopicsComeFromPieces(s: string, topic: string)
    requires !IsBlank(Some(s))
    ensures topic in ParseTopics(Some(s)) <==>
              exists w :: w in SplitDroppingEmpty(s, IsComma) && NamesTopic(w, topic)
    ensures topic in ParseTopics(Some(s)) ==> topic != "" && SepFree(topic, IsColon)
  {
    var segments := SplitDroppingEmpty(s, IsComma);
    PutSegmentsKeys(map[], segments, topic);
    if exists w :: w in segments && NamesTopic(w, topic) {
      var w :| w in segments && NamesTopic(w, topic);
      var i :| 0 <= i < |segments| && segments[i] == w;
      assert SomeSegmentNames(segments, topic);
    }
  }

  /** A segment contributes nothing exactly when it is made only of colons (or is empty). */
  lemma SegmentSkippedIffColonsOnly(segment: string)
    ensures SegmentEntry(segment).None? <==> forall k :: 0 <= k < |segment| ==> segment[k] == ':'
  {
    if forall k :: 0 <= k < |segment| ==> segment[k] == ':' {
      TokensOfSeparatorsOnly(segment, IsColon);
      FilterRejectingAll(Tokens(segment, IsColon), NonEmptyString);
    } else {
      var k :| 0 <= k < |segment| && segment[k] != ':';
      var t := NonEmptyTokenAt(segment, k, IsColon);
      assert t in SplitDroppingEmpty(segment, IsColon);
    }
  }

  lemma {:induction false} TokensOfSeparatorsOnly(s: string, isSep: char -> bool)
    requires forall k :: 0 <= k < |s| ==> isSep(s[k])
    ensures forall i :: 0 <= i < |Tokens(s, isSep)| ==> Tokens(s, isSep)[i] == ""
    decreases |s|
  {
    if |s| > 0 {
      TokensOfSeparatorsOnly(s[1..], isSep);
    }
  }

  /** `StringUtils.split` of a separator-free, non-empty string is that string alone. */
  lemma SplitOfSepFree(t: string, isSep: char -> bool)
    requires t != "" && SepFree(t, isSep)
    ensures SplitDroppingEmpty(t, isSep) == [t]
  {
    TokensOfSepFree(t, isSep);
    assert Filter([t], NonEmptyString) == Filter([], NonEmptyString) + [t];
  }

  /** A segment without a colon names itself and subscribes to all of its tags. */
  lemma BareSegmentTakesAllTags(segment: string)
    requires segment != "" && SepFree(segment, IsColon)
    ensures SegmentEntry(segment) == Some((segment, ALL_TAGS))
  {
    SplitOfSepFree(segment, IsColon);
  }

  /** A bare topic (no colon, no comma, not blank) subscribes to all of its tags. */
  lemma BareTopicTakesAllTags(topic: string)
    requires !IsBlank(Some(topic)) && SepFree(topic, IsColon) && SepFree(topic, IsComma)
    ensures ParseTopics(Some(topic)) == map[topic := ALL_TAGS]
  {
    SplitOfSepFree(topic, IsComma);
    BareSegmentTakesAllTags(topic);
    assert [topic][..0] == [];
    assert PutSegments(map[], [topic]) == PutSegments(map[], [])[topic := ALL_TAGS];
  }

  /**
    In a parsed string, the topic of comma piece `i` maps to that piece's tag
    when no later piece names the same topic.
   */
  lemma ParsedTagIsLastNamingSegments(s: string, i: nat)
    requires !IsBlank(Some(s))
    requires i < |SplitDroppingEmpty(s, IsComma)| && SegmentEntry(SplitDroppingEmpty(s, IsComma)[i]).Some?
    requires forall j :: i < j < |SplitDroppingEmpty(s, IsComma)| ==>
               !NamesTopic(SplitDroppingEmpty(s, IsComma)[j], SegmentEntry(SplitDroppingEmpty(s, IsComma)[i]).value.0)
    ensures var entry := SegmentEntry(SplitDroppingEmpty(s, IsComma)[i]).value;
            entry.0 in ParseTopics(Some(s)) && ParseTopics(Some(s))[entry.0] == entry.1
  {
    LastSegmentWins(map[], SplitDroppingEmpty(s, IsComma), i);
  }

  /** A colon-free comma piece, not named again later, maps its topic to "*" among any others. */
  lemma BareSegmentAmongOthersTakesAllTags(s: string, i: nat)
    requires !IsBlank(Some(s))
    requires i < |SplitDroppingEmpty(s, IsComma)| && SepFree(SplitDroppingEmpty(s, IsComma)[i], IsColon)
    requires forall j :: i < j < |SplitDroppingEmpty(s, IsComma)| ==>
               !NamesTopic(SplitDroppingEmpty(s, IsComma)[j], SplitDroppingEmpty(s, IsComma)[i])
    ensures var topic := SplitDroppingEmpty(s, IsComma)[i];
            topic in ParseTopics(Some(s)) && ParseTopics(Some(s))[topic] == ALL_TAGS
  {
    BareSegmentTakesAllTags(SplitDroppingEmpty(s, IsComma)[i]);
    ParsedTagIsLastNamingSegments(s, i);
  }

  /**
    A segment "topic:tag" maps the topic to the tag; anything after a
    further colon is ignored.
   */
  lemma TopicWithTag(topic: string, tag: string, ignored: string)
    requires topic != "" && SepFree(topic, IsColon)
    requires tag != "" && SepFree(tag, IsColon)
    ensures SegmentEntry(topic + [':'] + tag + [':'] + ignored) == Some((topic, tag))
    ensures SegmentEntry(topic + [':'] + tag) == Some((topic, tag))
  {
    TopicTagAndMore(topic, tag, ignored);
    TopicTagOnly(topic, tag);
  }

  lemma TopicTagAndMore(topic: string, tag: string, ignored: string)
    requires topic != "" && SepFree(topic, IsColon)
    requires tag != "" && SepFree(tag, IsColon)
    ensures SegmentEntry(topic + [':'] + tag + [':'] + ignored) == Some((topic, tag))
  {
    var segment := topic + [':'] + tag + [':'] + ignored;
    var longer := tag + [':'] + ignored;
    assert segment == topic + [':'] + longer;
    SplitDroppingEmptyAfterPiece(topic, ':', longer, IsColon);
    SplitDroppingEmptyAfterPiece(tag, ':', ignored, IsColon);
    var parts := SplitDroppingEmpty(segment, IsColon);
    assert parts == [topic] + ([tag] + SplitDroppingEmpty(ignored, IsColon));
    assert |parts| >= 2 && parts[0] == topic && parts[1] == tag;
  }

  lemma TopicTagOnly(topic: string, tag: string)
    requires topic != "" && SepFree(topic, IsColon)
    requires tag != "" && SepFree(tag, IsColon)
    ensures SegmentEntry(topic + [':'] + tag) == Some((topic, tag))
  {
    SplitOfSepFree(tag, IsColon);
    SplitDroppingEmptyAfterPiece(topic, ':', tag, IsColon);
    var parts := SplitDroppingEmpty(topic + [':'] + tag, IsColon);
    assert parts == [topic, tag];
  }

  // ---------------------------------------------------------------------
  // getTopic
  // ---------------------------------------------------------------------

  /**
    `getTopic`: null when no topics were loaded; otherwise the first key in
    the map's iteration order, which a `HashMap` leaves unspecified and is
    therefore an input here. An empty map makes the iterator throw.
   */
  function GetTopic(c: AutoConf, iterationOrder: seq<string>): (r: Try<JString>)
    requires c.topics.Some? ==> forall k :: k in iterationOrder <==> k in c.topics.value
    ensures c.topics.None? ==> r == Returned(None)
    ensures c.topics.Some? ==> (r.Threw? <==> c.topics.value == map[])
    ensures r.Returned? && r.value.Some? ==> c.topics.Some? && r.value.value in c.topics.value
    ensures c.topics.Some? && c.topics.value != map[] ==> r == Returned(Some(iterationOrder[0]))
  {
    if c.topics.None? then Returned(None)
    else if |iterationOrder| == 0 then
      assert c.topics.value.Keys == {};
      Threw
    else
      assert iterationOrder[0] in c.topics.value;
      Returned(Some(iterationOrder[0]))
  }

  /** `getTopics`: an unmodifiable view of the topics; wrapping a null map throws. */
  function GetTopics(c: AutoConf): (r: Try<map<string, string>>)
    ensures r.Threw? <==> c.topics.None?
    ensures r.Returned? ==> r.value == c.topics.value
  {
    match c.topics
    case None => Threw
    case Some(topics) => Returned(topics)
  }

  /**
    Nothing in this code loads topics, so on a freshly constructed consumer
    `getTopic` answers null and `getTopics` throws.
   */
  lemma FreshConsumerHasNoTopics(configName: JString, nameServerKey: JString, groupKey: JString, topicKey: JString,
                                 iterationOrder: seq<string>)
    requires New(configName, nameServerKey, groupKey, topicKey).Success?
    ensures var c := New(configName, nameServerKey, groupKey, topicKey).value;
            GetTopic(c, iterationOrder) == Returned(None) && GetTopics(c).Threw?
  {
  }
}
