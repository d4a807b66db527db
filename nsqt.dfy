/** The option handling and the small decision rules of the NSQ transport
    plugin: filling options from a defaults table, naming the plugin,
    building the base pattern, and what the forwarder and the reader do
    with each message. */
module Nsqt {
  import opened Js

  /** The keys of the defaults table, in the order `Object.keys` lists them. */
  const DefaultKeys: seq<string> :=
    ["lookupdHTTPAddresses", "writerNsqdHost", "writerNsqdPort",
     "topicProperty", "chan", "forwardDelay", "handleDelay"]

  /** The defaults table. */
  const Defaults: Dict := map[
    "lookupdHTTPAddresses" := Arr([Str("127.0.0.1:4161")]),
    "writerNsqdHost" := Str("127.0.0.1"),
    "writerNsqdPort" := Num(4150),
    "topicProperty" := Str("role"),
    "chan" := Null,
    "forwardDelay" := Num(0),
    "handleDelay" := Num(0)]

  /** The supplied options carry a string topic. */
  predicate HasTopic(o: Dict) {
    Get(o, "topic").Str?
  }

  /** The record filling produces: a string topic when one was supplied, and
      for every key of the defaults table the supplied value unless it is
      undefined, in which case the default. */
  function Filled(o: Dict): Dict {
    map k | k in Defaults.Keys + (if HasTopic(o) then {"topic"} else {}) ::
      if k !in Defaults then o[k]
      else if Get(o, k).Undefined? then Defaults[k]
      else o[k]
  }

  /** fillNsqOptions: builds the record key by key, starting from the topic. */
  method FillNsqOptions(options: Dict) returns (result: Dict)
    ensures result == Filled(options)
  {
    result := map[];
    if Get(options, "topic").Str? {
      result := result["topic" := options["topic"]];
    }
    for i := 0 to |DefaultKeys|
      invariant forall k :: k in result <==> k in DefaultKeys[..i] || (k == "topic" && HasTopic(options))
      invariant forall k :: k in result ==> k in Filled(options) && result[k] == Filled(options)[k]
    {
      var k := DefaultKeys[i];
      if !Get(options, k).Undefined? {
        result := result[k := options[k]];
      } else {
        result := result[k := Defaults[k]];
      }
    }
    assert DefaultKeys[..|DefaultKeys|] == DefaultKeys;
  }

  /** A supplied value that is defined survives filling unchanged. */
  lemma FilledKeepsDefined(o: Dict, k: string)
    requires k in Defaults && !Get(o, k).Undefined?
    ensures k in Filled(o) && Filled(o)[k] == o[k]
  {
  }

  /** An undefined or missing value is replaced by the default. */
  lemma FilledUsesDefault(o: Dict, k: string)
    requires k in Defaults && Get(o, k).Undefined?
    ensures k in Filled(o) && Filled(o)[k] == Defaults[k]
  {
  }

  /** Filling keeps exactly the default keys, plus `topic` when it is a
      string; every other supplied key is dropped, and no default key is
      left undefined. */
  lemma FilledKeys(o: Dict)
    ensures Filled(o).Keys == Defaults.Keys + (if HasTopic(o) then {"topic"} else {})
    ensures "topic" in Filled(o) ==> Filled(o)["topic"].Str? && Filled(o)["topic"] == o["topic"]
    ensures forall k :: k in Defaults ==> !Filled(o)[k].Undefined?
    ensures "maxInFlight" !in Filled(o)
  {
  }

  /** Filling an already filled record changes nothing. */
  lemma FilledIdempotent(o: Dict)
    ensures Filled(Filled(o)) == Filled(o)
  {
    var f := Filled(o);
    FilledKeys(o);
    assert HasTopic(f) <==> HasTopic(o);
    assert Filled(f).Keys == f.Keys;
  }

  /** The value stored for an optional channel: the name, or `null`. */
  function ChanValue(chan: Option<string>): JsValue {
    match chan
    case None => Null
    case Some(c) => Str(c)
  }

  /** options(o, topic, chan): the filled options with `topic` and `chan`
      overridden. */
  function Options(o: Dict, topic: string, chan: Option<string>): (r: Dict)
    ensures r.Keys == Defaults.Keys + {"topic"}
    ensures r["topic"] == Str(topic) && r["chan"] == ChanValue(chan)
    ensures forall k :: k in Defaults && k != "chan" ==> r[k] == Filled(o)[k]
    ensures Filled(r) == r
  {
    FilledKeys(o);
    var r := Filled(o)["topic" := Str(topic)]["chan" := ChanValue(chan)];
    assert Filled(r).Keys == r.Keys;
    r
  }

  /** The two kinds of plugin. */
  datatype Kind = Forward | Handle

  function KindName(kind: Kind): string {
    match kind
    case Forward => "forward"
    case Handle => "handle"
  }

  /** makePluginName: `nsqt::<kind>::<topic>`, followed by `::<chan>` when
      the channel is a string. */
  function PluginName(kind: Kind, o: Dict): (r: string)
    ensures var prefix := "nsqt::" + KindName(kind) + "::" + ToStr(Get(o, "topic"));
      && |prefix| <= |r| && r[..|prefix|] == prefix
      && r[|prefix|..] == (if Get(o, "chan").Str? then "::" + Get(o, "chan").s else "")
  {
    var name := "nsqt::" + KindName(kind) + "::" + ToStr(Get(o, "topic"));
    if Get(o, "chan").Str? then name + "::" + Get(o, "chan").s else name
  }

  /** Splits a string at every "::", scanning from the left. */
  function Fields(s: string): (r: seq<string>)
    ensures |r| >= 1
    decreases |s|
  {
    if |s| < 2 then [s]
    else if s[0] == ':' && s[1] == ':' then [""] + Fields(s[2..])
    else
      var rest := Fields(s[1..]);
      [[s[0]] + rest[0]] + rest[1..]
  }

  lemma {:induction false} FieldsOfPlain(a: string)
    requires ':' !in a
    ensures Fields(a) == [a]
    decreases |a|
  {
    if |a| >= 2 {
      FieldsOfPlain(a[1..]);
      assert [a[0]] + a[1..] == a;
    }
  }

  lemma {:induction false} FieldsOfJoined(a: string, b: string)
    requires ':' !in a
    ensures Fields(a + "::" + b) == [a] + Fields(b)
    decreases |a|
  {
    var s := a + "::" + b;
    if a == [] {
      assert s[2..] == b;
    } else {
      assert s[1..] == a[1..] + "::" + b;
      FieldsOfJoined(a[1..], b);
      assert [a[0]] + a[1..] == a;
    }
  }

  /** A plugin name splits back into "nsqt", the kind, the topic and, when
      the channel is a string, the channel, provided none of them contains
      a colon. */
  lemma PluginNameFields(kind: Kind, o: Dict)
    requires ':' !in ToStr(Get(o, "topic"))
    requires Get(o, "chan").Str? ==> ':' !in Get(o, "chan").s
    ensures Fields(PluginName(kind, o)) ==
      ["nsqt", KindName(kind), ToStr(Get(o, "topic"))] +
      (if Get(o, "chan").Str? then [Get(o, "chan").s] else [])
  {
    var k, t := KindName(kind), ToStr(Get(o, "topic"));
    assert ':' !in k;
    var name := "nsqt::" + k + "::" + t;
    if Get(o, "chan").Str? {
      var c := Get(o, "chan").s;
      assert PluginName(kind, o) == "nsqt::" + k + "::" + t + "::" + c;
      NameWithChannelFields(k, t, c);
    } else {
      assert PluginName(kind, o) == name;
      NameFields(k, t);
    }
  }

  /** The name without a channel splits into its three parts. */
  lemma NameFields(k: string, t: string)
    requires ':' !in k && ':' !in t
    ensures Fields("nsqt::" + k + "::" + t) == ["nsqt", k, t]
  {
    assert ':' !in "nsqt";
    FieldsOfPlain(t);
    FieldsOfJoined(k, t);
    FieldsOfJoined("nsqt", k + "::" + t);
    calc {
      "nsqt::" + k + "::" + t;
      { Assoc("nsqt::", k, "::" + t); Assoc("nsqt::" + k, "::", t); }
      "nsqt::" + (k + ("::" + t));
      { assert "nsqt::" == "nsqt" + "::"; Assoc("nsqt", "::", k + ("::" + t)); }
      "nsqt" + "::" + (k + ("::" + t));
      { Assoc(k, "::", t); }
      "nsqt" + "::" + (k + "::" + t);
    }
  }

  /** The name with a channel splits into its four parts. */
  lemma NameWithChannelFields(k: string, t: string, c: string)
    requires ':' !in k && ':' !in t && ':' !in c
    ensures Fields("nsqt::" + k + "::" + t + "::" + c) == ["nsqt", k, t, c]
  {
    assert ':' !in "nsqt";
    FieldsOfPlain(c);
    FieldsOfJoined(t, c);
    var tail := t + "::" + c;
    FieldsOfJoined(k, tail);
    FieldsOfJoined("nsqt", k + "::" + tail);
    var p := "nsqt::" + k;
    calc {
      "nsqt::" + k + "::" + t + "::" + c;
      { Assoc(p + "::" + t, "::", c); }
      p + "::" + t + ("::" + c);
      { Assoc(p + "::", t, "::" + c); Assoc(t, "::", c); }
      p + "::" + tail;
      { Assoc(p, "::", tail); }
      p + ("::" + tail);
      { assert "nsqt::" == "nsqt" + "::"; Assoc("nsqt", "::", k); }
      "nsqt" + ("::" + k) + ("::" + tail);
      { Assoc("nsqt", "::" + k, "::" + tail); }
      "nsqt" + ("::" + k + ("::" + tail));
      { Assoc("::", k, "::" + tail); Assoc(k, "::", tail); }
      "nsqt" + ("::" + (k + "::" + tail));
      { Assoc("nsqt", "::", k + "::" + tail); }
      "nsqt" + "::" + (k + "::" + tail);
    }
  }

  lemma Assoc(a: string, b: string, c: string)
    ensures a + b + c == a + (b + c)
  {
  }

  /** A forwarder and a handler never register under the same name. */
  lemma PluginNamesOfKindsDiffer(o1: Dict, o2: Dict)
    ensures PluginName(Forward, o1) != PluginName(Handle, o2)
  {
    assert PluginName(Forward, o1)[6] == 'f';
    assert PluginName(Handle, o2)[6] == 'h';
  }

  /** The plugin name of `options(o, topic, chan)`. */
  lemma PluginNameOfOptions(kind: Kind, o: Dict, topic: string, chan: Option<string>)
    ensures PluginName(kind, Options(o, topic, chan)) ==
      "nsqt::" + KindName(kind) + "::" + topic +
      (if chan.Some? then "::" + chan.value else "")
  {
  }

  /** makeBasePattern: a pattern with the single property named by
      `topicProperty`, holding the topic. */
  function BasePattern(o: Dict): (r: Dict)
    ensures |r| == 1
    ensures ToStr(Get(o, "topicProperty")) in r
    ensures r[ToStr(Get(o, "topicProperty"))] == Get(o, "topic")
  {
    map[ToStr(Get(o, "topicProperty")) := Get(o, "topic")]
  }

  /** With options built by `options`, the base pattern maps the supplied
      topic property, or "role" when none is defined, to the topic. */
  lemma BasePatternOfOptions(o: Dict, topic: string, chan: Option<string>)
    ensures BasePattern(Options(o, topic, chan)) ==
      map[(if Get(o, "topicProperty").Undefined? then "role" else ToStr(o["topicProperty"])) := Str(topic)]
  {
    var r := Options(o, topic, chan);
    assert r["topicProperty"] == Filled(o)["topicProperty"];
    assert Get(r, "topicProperty") == (if Get(o, "topicProperty").Undefined? then Str("role") else o["topicProperty"]);
    assert Get(r, "topic") == Str(topic);
  }

  /** What the forwarder does with a message matching its base pattern. */
  datatype Delivery = Publish(topic: JsValue, message: Dict) | Refuse(error: string)

  /** The forwarder publishes a message without a channel to the topic
      unchanged, and answers any message with a channel with an error. */
  function ForwardMessage(o: Dict, arg: Dict): (d: Delivery)
    ensures d.Publish? <==> Get(arg, "chan").Undefined?
    ensures d.Publish? ==> d.topic == Get(o, "topic") && d.message == arg
  {
    if Get(arg, "chan").Undefined? then Publish(Get(o, "topic"), arg)
    else Refuse("Cannot handle channel " + ToStr(Get(arg, "chan")) + " in plugin " + PluginName(Forward, o))
  }

  /** The channel a reader subscribes to: `chan` when it is a string,
      otherwise the topic. */
  function ReaderChannel(o: Dict): (c: JsValue)
    ensures Get(o, "chan").Str? ==> c == Get(o, "chan")
    ensures !Get(o, "chan").Str? ==> c == Get(o, "topic")
  {
    if Get(o, "chan").Str? then Get(o, "chan") else Get(o, "topic")
  }

  /** A reader built from `options(o, topic, chan)` reads the given channel,
      or the topic's name when there is none. */
  lemma ReaderChannelOfOptions(o: Dict, topic: string, chan: Option<string>)
    ensures ReaderChannel(Options(o, topic, chan)) ==
      Str(if chan.Some? then chan.value else topic)
  {
  }

  /** An inbound message as the reader hands it on: the decoded message with
      `chan` set to the reader's channel and `nsq$` to the broker's
      timestamp and message id. */
  function Inbound(m: Dict, channel: JsValue, timestamp: int, id: string): (r: Dict)
    ensures r.Keys == m.Keys + {"chan", "nsq$"}
    ensures r["chan"] == channel
    ensures r["nsq$"] == Obj(map["time" := Num(timestamp), "id" := Str(id)])
    ensures forall k :: k in m && k != "chan" && k != "nsq$" ==> r[k] == m[k]
  {
    m["chan" := channel]["nsq$" := Obj(map["time" := Num(timestamp), "id" := Str(id)])]
  }

  /** A message delivered by a reader carries a channel, so a forwarder
      refuses it rather than publishing it again. */
  lemma InboundNotForwarded(reader: Dict, forwarder: Dict, m: Dict, timestamp: int, id: string)
    requires HasTopic(reader) || Get(reader, "chan").Str?
    ensures ForwardMessage(forwarder, Inbound(m, ReaderChannel(reader), timestamp, id)).Refuse?
  {
  }
}
