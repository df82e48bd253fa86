/** The whole device: connects, radar buffers, MQTT messages and ticks in any order. */
module SmartLight {
  import opened Options
  import opened MacAddress
  import opened Decimal
  import opened TopicCodes
  import opened TopicParser
  import opened TopicMaker
  import opened TopicRoundTrip
  import opened LightCommands
  import opened PixelEncoder
  import opened LedStrip
  import opened StatusTick
  import opened RadarDecoder

  datatype Event = Connected | Frame(data: seq<Byte>) | Mqtt(m: Message) | Tick(hour: int)

  /** `wire` is everything sent to the strip; `subscribed` and `published` everything said to the broker. */
  datatype Device = Device(
    sensor: Sensor, lamp: Lamp, ledStatus: Rgb, wire: seq<bv8>,
    mac: string, subHead: string, pubHead: string, subscribed: seq<string>, published: seq<Publish>)

  function PowerUp(mac: string): Device {
    Device(Sensor(0, 0, 0), Lamp(false, 0, LightConfig(0, 0, 0, 0, 0, 0, 0)), Rgb(0, 0, 0), [],
           mac, SUB_BASE, PUB_BASE, [], [])
  }

  predicate Possible(e: Event) {
    match e
    case Frame(data) => |data| <= RD_BUF_SIZE
    case Mqtt(m) => Meaningful(m)
    case _ => true
  }

  /** What handling an event publishes. */
  function News(d: Device, e: Event): seq<Publish>
    requires Possible(e)
  {
    match e
    case Frame(data) => ExistChanges(d.pubHead, Announces(d.sensor, ReportIn(Padded(data))))
    case Mqtt(m) => RepliesTo(m, d.pubHead, Deliver(d.lamp, m), d.sensor.manExist)
    case _ => []
  }

  function Step(d: Device, e: Event): Device
    requires Possible(e)
  {
    match e
    case Connected =>
      var head := d.subHead + d.mac;
      d.(subHead := head, pubHead := d.pubHead + d.mac, subscribed := d.subscribed + SubscribedUnder(head))
    case Frame(data) => d.(sensor := Apply(d.sensor, ReportIn(Padded(data))), published := d.published + News(d, e))
    case Mqtt(m) => d.(lamp := Deliver(d.lamp, m), published := d.published + News(d, e))
    case Tick(hour) =>
      var c := TickColour(d.lamp, hour);
      d.(ledStatus := c, wire := d.wire + Refresh(c))
  }

  /** The device's objects; handling an event is one step of the model. */
  class Board {
    const client: MqttClient
    const radar: Radar
    const control: LampControl
    const strip: Strip

    ghost predicate Valid()
      reads this, client, radar, control
    {
      client.Valid() && control.Valid() && radar.client == client && control.client == client
    }

    /** The topic buffers hold what the event makes the device write. */
    predicate Fits(e: Event)
      reads this, client
    {
      client.HasRoom() && (e.Connected? ==> |client.subHead| + |client.mac| + LONGEST_SUFFIX < HEAD_SIZE)
    }

    function State(): Device
      reads this, client, radar, control, strip
    {
      Device(radar.State(), control.State(), strip.ledStatus, strip.wire,
             client.mac, client.subHead, client.pubHead, client.subscribed, client.published)
    }

    constructor (mac: string)
      requires NulFree(mac)
      ensures Valid() && State() == PowerUp(mac)
      ensures fresh(client) && fresh(client.topicTemp) && fresh(radar) && fresh(strip)
      ensures fresh(control) && fresh(control.topicRec)
    {
      var c := new MqttClient(mac);
      client := c;
      radar := new Radar(c);
      control := new LampControl(c);
      strip := new Strip();
    }

    method Handle(e: Event)
      requires Valid() && Possible(e) && Fits(e)
      modifies client, client.topicTemp, radar, control, control.topicRec, strip
      ensures Valid() && State() == Step(old(State()), e)
    {
      hide HeadAfter, NulFree, SubscribedUnder, ExistChanges, Apply, Announces, ReportIn, Padded;
      hide Deliver, RepliesTo, Meaningful, TickColour, Refresh;
      match e
      case Connected => client.Connected();
      case Frame(data) => radar.UartData(data);
      case Mqtt(m) => control.DataEvent(m, radar.manExist);
      case Tick(hour) => StatusUpdateReport(control, strip, hour);
    }
  }

  // ---- runs and their subsequences

  predicate AllPossible(es: seq<Event>) {
    forall i :: 0 <= i < |es| ==> Possible(es[i])
  }

  function Run(d: Device, es: seq<Event>): Device
    requires AllPossible(es)
  {
    if es == [] then d else Step(Run(d, es[..|es| - 1]), es[|es| - 1])
  }

  function Frames(es: seq<Event>): (fs: seq<seq<Byte>>)
    ensures AllPossible(es) ==> AllFit(fs)
  {
    if es == [] then []
    else
      var front := Frames(es[..|es| - 1]);
      match es[|es| - 1]
      case Frame(data) => front + [data]
      case _ => front
  }

  function Messages(es: seq<Event>): (ms: seq<Message>)
    ensures AllPossible(es) ==> AllMeaningful(ms)
  {
    if es == [] then []
    else
      var front := Messages(es[..|es| - 1]);
      match es[|es| - 1]
      case Mqtt(m) => front + [m]
      case _ => front
  }

  function Connects(es: seq<Event>): nat {
    if es == [] then 0 else Connects(es[..|es| - 1]) + if es[|es| - 1].Connected? then 1 else 0
  }

  /** The events the strip can depend on: messages and ticks. */
  function LampEvents(es: seq<Event>): (rest: seq<Event>)
    ensures AllPossible(es) ==> AllPossible(rest)
  {
    if es == [] then []
    else
      var front := LampEvents(es[..|es| - 1]);
      if es[|es| - 1].Mqtt? || es[|es| - 1].Tick? then front + [es[|es| - 1]] else front
  }

  // ---- what depends on what

  /** However events interleave, the sensor sees only the radar's buffers and the lamp only the messages. */
  lemma {:induction false} PartsSeeTheirOwnEvents(d: Device, es: seq<Event>)
    requires AllPossible(es)
    ensures Run(d, es).sensor == Sense(d.sensor, Frames(es))
    ensures Run(d, es).lamp == DeliverAll(d.lamp, Messages(es))
  {
    if es != [] {
      hide Apply, ReportIn, Padded, Deliver, News, TickColour, Refresh, SubscribedUnder;
      var front := es[..|es| - 1];
      PartsSeeTheirOwnEvents(d, front);
      var fs, ms := Frames(es), Messages(es);
      assert es[|es| - 1].Frame? ==> fs[..|fs| - 1] == Frames(front);
      assert es[|es| - 1].Mqtt? ==> ms[..|ms| - 1] == Messages(front);
    }
  }

  /** Leaving out every radar buffer and every connect changes nothing the strip shows. */
  lemma {:induction false} StripIgnoresTheRest(d: Device, es: seq<Event>)
    requires AllPossible(es)
    ensures var a, b := Run(d, es), Run(d, LampEvents(es));
            a.lamp == b.lamp && a.ledStatus == b.ledStatus && a.wire == b.wire
  {
    if es != [] {
      hide Apply, ReportIn, Padded, Deliver, News, TickColour, Refresh, SubscribedUnder;
      var front := es[..|es| - 1];
      StripIgnoresTheRest(d, front);
      var rest := LampEvents(es);
      if es[|es| - 1].Mqtt? || es[|es| - 1].Tick? {
        assert rest[..|rest| - 1] == LampEvents(front);
      }
    }
  }

  /** Two interleavings of the same messages and ticks show the same; of the same buffers, sense the same. */
  lemma InterleavingIndependence(d: Device, es: seq<Event>, es': seq<Event>)
    requires AllPossible(es) && AllPossible(es')
    ensures LampEvents(es) == LampEvents(es') ==>
              Run(d, es).ledStatus == Run(d, es').ledStatus && Run(d, es).wire == Run(d, es').wire
    ensures Frames(es) == Frames(es') ==> Run(d, es).sensor == Run(d, es').sensor
  {
    hide Run, LampEvents, Frames, Messages, Sense, DeliverAll;
    StripIgnoresTheRest(d, es);
    StripIgnoresTheRest(d, es');
    PartsSeeTheirOwnEvents(d, es);
    PartsSeeTheirOwnEvents(d, es');
  }

  /** The pixels a run should light: at every tick the whole strip, in the colour the messages so far call for. */
  function Shown(d: Device, es: seq<Event>): seq<Rgb>
    requires AllPossible(es)
  {
    if es == [] then []
    else
      var front := es[..|es| - 1];
      var before := Shown(d, front);
      match es[|es| - 1]
      case Tick(hour) => before + Uniform(TickColour(DeliverAll(d.lamp, Messages(front)), hour), PIXEL_MAX)
      case _ => before
  }

  lemma StepWire(d: Device, e: Event)
    requires Possible(e)
    ensures Step(d, e).wire == d.wire + if e.Tick? then Refresh(TickColour(d.lamp, e.hour)) else []
  {
    hide Apply, ReportIn, Padded, Deliver, News, TickColour, Refresh, SubscribedUnder;
  }

  lemma {:induction false} WireIsStreamOfShown(d: Device, es: seq<Event>)
    requires AllPossible(es)
    ensures Run(d, es).wire == d.wire + Stream(Shown(d, es))
  {
    hide Step, Stream, Messages, TickColour, DeliverAll, Uniform;
    if es == [] {
      NoPixels();
    } else {
      var front, e := es[..|es| - 1], es[|es| - 1];
      WireIsStreamOfShown(d, front);
      PartsSeeTheirOwnEvents(d, front);
      StepWire(Run(d, front), e);
      if e.Tick? {
        StreamOfConcat(Shown(d, front), Uniform(TickColour(Run(d, front).lamp, e.hour), PIXEL_MAX));
      }
    }
  }

  /** Everything a run sends decodes to just the pixels it should light, tick after tick. */
  lemma WireDecodesToShown(d: Device, es: seq<Event>)
    requires AllPossible(es) && d.wire == []
    ensures DecodeStream(Run(d, es).wire) == Some(Shown(d, es))
  {
    hide Run, Shown, Stream, DecodeStream;
    WireIsStreamOfShown(d, es);
    assert [] + Stream(Shown(d, es)) == Stream(Shown(d, es));
    StreamRoundTrip(Run(d, es).wire, Shown(d, es));
  }

  /** After a tick the recorded colour is the one the messages so far call for, and every pixel just sent has it. */
  lemma TickShowsTheCommands(d: Device, es: seq<Event>, hour: int)
    requires AllPossible(es)
    ensures var d' := Run(d, es + [Tick(hour)]);
            && d'.ledStatus == TickColour(DeliverAll(d.lamp, Messages(es)), hour)
            && d'.wire == Run(d, es).wire + Stream(Uniform(d'.ledStatus, PIXEL_MAX))
            && DecodeStream(d'.wire[|Run(d, es).wire|..]) == Some(Uniform(d'.ledStatus, PIXEL_MAX))
  {
    hide TickColour, DecodeStream, Stream;
    var all := es + [Tick(hour)];
    assert all[..|all| - 1] == es;
    PartsSeeTheirOwnEvents(d, es);
    var c := TickColour(Run(d, es).lamp, hour);
    StreamRoundTrip(Refresh(c), Uniform(c, PIXEL_MAX));
    assert (Run(d, es).wire + Refresh(c))[|Run(d, es).wire|..] == Refresh(c);
  }

  // ---- the publish trace

  /** The presence values announced in a publish trace. */
  function ExistValues(published: seq<Publish>): seq<int> {
    if published == [] then []
    else
      var front := ExistValues(published[..|published| - 1]);
      var body := published[|published| - 1].body;
      if body.Object? && body.members != [] && body.members[0].0 == "exist" then front + [body.members[0].1] else front
  }

  lemma ExistValuesOfOneMore(published: seq<Publish>, p: Publish)
    ensures ExistValues(published + [p]) ==
            ExistValues(published) +
            if p.body.Object? && p.body.members != [] && p.body.members[0].0 == "exist" then [p.body.members[0].1] else []
  {
    assert (published + [p])[..|published|] == published;
  }

  lemma {:induction false} NoExistValues(texts: seq<Publish>)
    requires forall i :: 0 <= i < |texts| ==> texts[i].body.Text?
    ensures ExistValues(texts) == []
  {
    if texts != [] {
      NoExistValues(texts[..|texts| - 1]);
    }
  }

  lemma {:induction false} ExistValuesOfConcat(a: seq<Publish>, b: seq<Publish>)
    ensures ExistValues(a + b) == ExistValues(a) + ExistValues(b)
  {
    hide ExistValues;
    if b == [] {
      assert a + b == a;
      NoExistValues([]);
    } else {
      var front, last := b[..|b| - 1], b[|b| - 1];
      assert b == front + [last] && a + b == a + front + [last];
      ExistValuesOfConcat(a, front);
      ExistValuesOfOneMore(a + front, last);
      ExistValuesOfOneMore(front, last);
    }
  }

  lemma AtMostOne(s: Sensor, r: Report)
    ensures |Announces(s, r)| <= 1
  {
  }

  lemma RepliesAreTexts(m: Message, pubHead: string, lamp: Lamp, manExist: int)
    requires Meaningful(m)
    ensures forall i :: 0 <= i < |RepliesTo(m, pubHead, lamp, manExist)| ==>
                          RepliesTo(m, pubHead, lamp, manExist)[i].body.Text?
  {
    hide Codes, Itoa;
  }

  lemma NewsExistValues(d: Device, e: Event)
    requires Possible(e)
    ensures ExistValues(News(d, e)) == if e.Frame? then Announces(d.sensor, ReportIn(Padded(e.data))) else []
  {
    hide Apply, ReportIn, Padded, Announces, Deliver, StatusReport;
    match e
    case Frame(data) =>
      var values := Announces(d.sensor, ReportIn(Padded(data)));
      AtMostOne(d.sensor, ReportIn(Padded(data)));
      if values != [] {
        var p := ExistChanges(d.pubHead, values)[0];
        assert ExistChanges(d.pubHead, values) == [] + [p];
        ExistValuesOfOneMore([], p);
      }
    case Mqtt(m) =>
      RepliesAreTexts(m, d.pubHead, Deliver(d.lamp, m), d.sensor.manExist);
      NoExistValues(News(d, e));
    case _ =>
  }

  lemma StepPublishes(d: Device, e: Event)
    requires Possible(e)
    ensures Step(d, e).published == d.published + News(d, e)
  {
    hide Apply, ReportIn, Padded, Announces, Deliver, RepliesTo, TickColour, Refresh, SubscribedUnder;
  }

  lemma OneMoreFrame(s: Sensor, frames: seq<seq<Byte>>, data: seq<Byte>)
    requires AllFit(frames) && |data| <= RD_BUF_SIZE
    ensures AllFit(frames + [data])
    ensures Announcements(s, frames + [data]) ==
            Announcements(s, frames) + Announces(Sense(s, frames), ReportIn(Padded(data)))
  {
    hide Announces, ReportIn, Padded, Sense;
    assert (frames + [data])[..|frames|] == frames;
  }

  /** In any run the presence values published are just what the radar's buffers announce. */
  lemma {:induction false} PublishedPresence(d: Device, es: seq<Event>)
    requires AllPossible(es)
    ensures ExistValues(Run(d, es).published) == ExistValues(d.published) + Announcements(d.sensor, Frames(es))
  {
    hide Step, News, ExistValues, Announces, ReportIn, Padded, Sense;
    if es != [] {
      var front, e := es[..|es| - 1], es[|es| - 1];
      PublishedPresence(d, front);
      PartsSeeTheirOwnEvents(d, front);
      StepPublishes(Run(d, front), e);
      ExistValuesOfConcat(Run(d, front).published, News(Run(d, front), e));
      NewsExistValues(Run(d, front), e);
      if e.Frame? {
        OneMoreFrame(d.sensor, Frames(front), e.data);
      }
    }
  }

  /** From power-up no two presence messages in a row are equal, and the last one, or 0, is man_exist. */
  lemma PublishedPresenceAlternates(mac: string, es: seq<Event>)
    requires AllPossible(es)
    ensures var d := Run(PowerUp(mac), es);
            var trace := [0] + ExistValues(d.published);
            && (forall i :: 0 <= i < |trace| - 1 ==> trace[i] != trace[i + 1])
            && trace[|trace| - 1] == d.sensor.manExist
  {
    hide Run, Announcements, Frames, Messages, Sense;
    PublishedPresence(PowerUp(mac), es);
    PartsSeeTheirOwnEvents(PowerUp(mac), es);
    assert ExistValues([]) == [];
    assert [] + Announcements(Sensor(0, 0, 0), Frames(es)) == Announcements(Sensor(0, 0, 0), Frames(es));
    AnnouncementsFollowPresence(Frames(es));
  }

  lemma StepHeads(d: Device, e: Event)
    requires Possible(e)
    ensures var d' := Step(d, e);
            var grown := if e.Connected? then d.mac else "";
            d'.mac == d.mac && d'.subHead == d.subHead + grown && d'.pubHead == d.pubHead + grown
  {
    hide Apply, ReportIn, Padded, Deliver, News, TickColour, Refresh, SubscribedUnder;
  }

  /** The heads of a run: the base and one MAC for each connect. */
  lemma {:induction false} HeadsOfRun(mac: string, es: seq<Event>)
    requires AllPossible(es)
    ensures var d := Run(PowerUp(mac), es);
            && d.mac == mac
            && d.subHead == HeadAfter(SUB_BASE, mac, Connects(es))
            && d.pubHead == HeadAfter(PUB_BASE, mac, Connects(es))
  {
    hide Step, HeadAfter;
    var n := if es == [] then 0 else Connects(es[..|es| - 1]);
    HeadSteps(SUB_BASE, mac, n);
    HeadSteps(PUB_BASE, mac, n);
    if es != [] {
      var front := es[..|es| - 1];
      HeadsOfRun(mac, front);
      StepHeads(Run(PowerUp(mac), front), es[|es| - 1]);
    }
  }

  /** The topic buffers hold whatever a run makes the device write exactly for up to seven connects. */
  lemma RoomOfRun(mac: seq<Byte>, es: seq<Event>)
    requires |mac| == 6 && AllPossible(es)
    ensures var d := Run(PowerUp(HexText(mac)), es);
            && (|d.subHead| + LONGEST_SUFFIX < HEAD_SIZE <==> Connects(es) <= 7)
            && (|d.pubHead| + LONGEST_SUFFIX < HEAD_SIZE <==> Connects(es) <= 7)
  {
    hide Run, Connects, HexText;
    HeadsOfRun(HexText(mac), es);
  }

  lemma ReplyTopic(m: Message, pubHead: string, lamp: Lamp, manExist: int, i: nat) returns (k: nat)
    requires Meaningful(m) && i < |RepliesTo(m, pubHead, lamp, manExist)|
    ensures k < |PUBLICATIONS| && RepliesTo(m, pubHead, lamp, manExist)[i].topic == pubHead + PUBLICATIONS[k].0
  {
    hide Codes, Itoa;
    k := Codes(m.topic).value.1 - INFO_LIGHT + i + 1;
  }

  /** Everything published goes out under the current head, on one of the declared suffixes. */
  lemma NewsTopic(d: Device, e: Event, i: nat) returns (k: nat)
    requires Possible(e) && i < |News(d, e)|
    ensures k < |PUBLICATIONS| && News(d, e)[i].topic == d.pubHead + PUBLICATIONS[k].0
  {
    hide Apply, ReportIn, Padded, Announces, Deliver, Itoa, Codes;
    match e
    case Frame(_) => k := 0;
    case Mqtt(m) =>
      k := ReplyTopic(m, d.pubHead, Deliver(d.lamp, m), d.sensor.manExist, i);
  }

  /** The event that published a given entry of the trace. */
  lemma {:induction false} PublishedBy(d: Device, es: seq<Event>, i: nat) returns (j: nat)
    requires AllPossible(es) && |d.published| <= i < |Run(d, es).published|
    ensures j < |es|
    ensures var before := Run(d, es[..j]);
            |before.published| <= i < |before.published| + |News(before, es[j])|
            && Run(d, es).published[i] == News(before, es[j])[i - |before.published|]
  {
    hide Step, News;
    var last := |es| - 1;
    var front := es[..last];
    StepPublishes(Run(d, front), es[last]);
    if i < |Run(d, front).published| {
      j := PublishedBy(d, front, i);
      assert front[..j] == es[..j];
    } else {
      j := last;
    }
  }

  /** Each entry of a run's publish trace parses, with 22 in slot 2 and the codes declared for its suffix, exactly
      when at most one connect came before it; so after exactly one connect every publish does. */
  lemma PublishesParse(mac: seq<Byte>, es: seq<Event>, i: nat) returns (j: nat, k: nat)
    requires |mac| == 6 && AllPossible(es) && i < |Run(PowerUp(HexText(mac)), es).published|
    ensures j < |es| && k < |PUBLICATIONS|
    ensures var before := Run(PowerUp(HexText(mac)), es[..j]);
            |before.published| <= i < |before.published| + |News(before, es[j])|
    ensures var r := Slots(Run(PowerUp(HexText(mac)), es).published[i].topic);
            && (r.Some? <==> Connects(es[..j]) <= 1)
            && (r.Some? ==>
                r.value[1..] ==
                [Code(11), Code(22), Code(31), Code(41), Code(PUBLICATIONS[k].1), Code(PUBLICATIONS[k].2)])
  {
    hide Slots, Run, News, HeadAfter, HexText, Connects;
    var d := PowerUp(HexText(mac));
    j := PublishedBy(d, es, i);
    HeadsOfRun(HexText(mac), es[..j]);
    var before := Run(d, es[..j]);
    k := NewsTopic(before, es[j], i - |before.published|);
    PublishedTopicAfterConnects(mac, Connects(es[..j]), k);
  }

  // ---- from topic text to light

  function Topic(mac: seq<Byte>, k: nat): string
    requires k < |SUBSCRIPTIONS|
  {
    HeadAfter(SUB_BASE, HexText(mac), 1) + SUBSCRIPTIONS[k].0
  }

  /** Slots 5 and 6 of a subscribed topic are what the dispatch switches on. */
  lemma SubscribedTopicCodes(mac: seq<Byte>, k: nat)
    requires |mac| == 6 && k < |SUBSCRIPTIONS|
    ensures Codes(Topic(mac, k)) == Some((SUBSCRIPTIONS[k].1, SUBSCRIPTIONS[k].2))
  {
    hide Slots, HeadAfter, HexText;
    SubscribedTopicRoundTrip(mac, k);
    var slots := Slots(Topic(mac, k)).value;
    assert slots[5] == slots[1..][4] && slots[6] == slots[1..][5];
  }

  lemma StepSubscribes(d: Device, e: Event)
    requires Possible(e)
    ensures Step(d, e).subscribed == d.subscribed + if e.Connected? then SubscribedUnder(d.subHead + d.mac) else []
  {
    hide Apply, ReportIn, Padded, Deliver, News, TickColour, Refresh, SubscribedUnder;
  }

  lemma {:induction false} NothingSubscribedYet(mac: string, es: seq<Event>)
    requires AllPossible(es) && Connects(es) == 0
    ensures Run(PowerUp(mac), es).subscribed == []
  {
    hide Step;
    if es != [] {
      NothingSubscribedYet(mac, es[..|es| - 1]);
      StepSubscribes(Run(PowerUp(mac), es[..|es| - 1]), es[|es| - 1]);
    }
  }

  /** After exactly one connect the device is subscribed to just its six topics. */
  lemma {:induction false} SubscribedOnFirstConnect(mac: seq<Byte>, es: seq<Event>)
    requires AllPossible(es) && Connects(es) == 1
    ensures var topics := Run(PowerUp(HexText(mac)), es).subscribed;
            |topics| == |SUBSCRIPTIONS| && forall k :: 0 <= k < |SUBSCRIPTIONS| ==> topics[k] == Topic(mac, k)
  {
    hide Step, HexText, HeadAfter;
    var d := PowerUp(HexText(mac));
    var front, e := es[..|es| - 1], es[|es| - 1];
    StepSubscribes(Run(d, front), e);
    if e.Connected? {
      NothingSubscribedYet(HexText(mac), front);
      HeadsOfRun(HexText(mac), front);
      HeadSteps(SUB_BASE, HexText(mac), 0);
    } else {
      SubscribedOnFirstConnect(mac, front);
    }
  }

  function SwitchOn(mac: seq<Byte>): Message {
    Message(Topic(mac, 0), "1", None)
  }

  function SetStrength(mac: seq<Byte>, strength: int): Message {
    Message(Topic(mac, 1), Itoa(strength), None)
  }

  /** The two commands, as topic text and payload, leave the lamp on at that strength. */
  lemma CommandsSetTheLamp(mac: seq<Byte>, lamp: Lamp, strength: int)
    requires |mac| == 6 && strength != 0
    ensures Meaningful(SwitchOn(mac)) && Meaningful(SetStrength(mac, strength))
    ensures Deliver(Deliver(lamp, SwitchOn(mac)), SetStrength(mac, strength)) == Lamp(true, strength, lamp.lightConfig)
  {
    hide Codes, Topic, Itoa, Atoi;
    SubscribedTopicCodes(mac, 0);
    SubscribedTopicCodes(mac, 1);
    EmptyTopicHasNoCodes();
    AtoiOfItoa(strength);
    assert Codes(Topic(mac, 0)) == Some((150, 151)) && Codes(Topic(mac, 1)) == Some((150, 152));
  }

  lemma {:induction false} NoMessages(es: seq<Event>, between: seq<Event>)
    requires forall i :: 0 <= i < |between| ==> !between[i].Mqtt?
    ensures Messages(es + between) == Messages(es)
  {
    if between == [] {
      assert es + between == es;
    } else {
      var front := between[..|between| - 1];
      NoMessages(es, front);
      assert (es + between)[..|es + between| - 1] == es + front;
    }
  }

  lemma OneMoreMessage(es: seq<Event>, m: Message)
    ensures Messages(es + [Mqtt(m)]) == Messages(es) + [m]
  {
    assert (es + [Mqtt(m)])[..|es|] == es;
  }

  lemma TwoMore(lamp: Lamp, ms: seq<Message>, on: Message, strengthen: Message)
    requires AllMeaningful(ms) && Meaningful(on) && Meaningful(strengthen)
    ensures AllMeaningful(ms + [on] + [strengthen])
    ensures DeliverAll(lamp, ms + [on] + [strengthen]) == Deliver(Deliver(DeliverAll(lamp, ms), on), strengthen)
  {
    hide Deliver;
    assert (ms + [on] + [strengthen])[..|ms| + 1] == ms + [on];
    assert (ms + [on])[..|ms|] == ms;
  }

  /** A server that switches the lamp on and sets a strength, on the topics the device has subscribed to, sees it on
      the strip at the next daytime tick: whatever the MAC, the events before, and the buffers, ticks and connects
      in between. */
  lemma ServerLightsTheStrip(mac: seq<Byte>, before: seq<Event>, between: seq<Event>, strength: int, hour: int)
    requires |mac| == 6 && AllPossible(before) && AllPossible(between) && strength != 0
    requires Connects(before) == 1
    requires forall i :: 0 <= i < |between| ==> !between[i].Mqtt?
    requires !IsNight(Run(PowerUp(HexText(mac)), before).lamp, hour)
    ensures var d := PowerUp(HexText(mac));
            var topics := Run(d, before).subscribed;
            && |topics| == |SUBSCRIPTIONS|
            && var es := before + [Mqtt(Message(topics[0], "1", None))] + between
                         + [Mqtt(Message(topics[1], Itoa(strength), None))];
               var level := ToByte(Lightness(strength, true));
               AllPossible(es) && Run(d, es + [Tick(hour)]).ledStatus == Rgb(level, level, level)
  {
    hide Topic, Codes, Deliver, Meaningful, Lightness, Run, DecodeStream, Messages, Connects, Itoa, HexText;
    var d := PowerUp(HexText(mac));
    SubscribedOnFirstConnect(mac, before);
    var on, strengthen := SwitchOn(mac), SetStrength(mac, strength);
    var es := before + [Mqtt(on)] + between + [Mqtt(strengthen)];
    var ms := Messages(before);
    PartsSeeTheirOwnEvents(d, before);
    CommandsSetTheLamp(mac, DeliverAll(d.lamp, ms), strength);
    assert AllPossible(es);
    OneMoreMessage(before, on);
    NoMessages(before + [Mqtt(on)], between);
    OneMoreMessage(before + [Mqtt(on)] + between, strengthen);
    TwoMore(d.lamp, ms, on, strengthen);
    TickShowsTheCommands(d, es, hour);
  }

  // ---- from the radar to the server

  /** The topics of a status report carry the codes of the items they report, until a second connect. */
  lemma ReportTopicsNameTheirItems(mac: seq<Byte>, connects: nat, lamp: Lamp, manExist: int, i: nat)
    requires |mac| == 6 && connects <= 1 && i < 3
    ensures Codes(StatusReport(HeadAfter(PUB_BASE, HexText(mac), connects), lamp, manExist)[i].topic) ==
            Some((ROUTE_INFO, INFO_LIGHT + i))
  {
    hide Slots, HeadAfter, HexText;
    PublishedTopicAfterConnects(mac, connects, i + 1);
    var slots := Slots(HeadAfter(PUB_BASE, HexText(mac), connects) + PUBLICATIONS[i + 1].0).value;
    assert slots[5] == slots[1..][4] && slots[6] == slots[1..][5];
  }

  /** Asking for presence, on the subscribed topic, is answered once: with what the radar's buffers say, which is
      also what was last published, or 0. */
  lemma PresenceIsReported(mac: seq<Byte>, es: seq<Event>, data: string)
    requires |mac| == 6 && AllPossible(es) && Connects(es) == 1
    ensures var d := Run(PowerUp(HexText(mac)), es);
            |d.subscribed| == |SUBSCRIPTIONS|
    ensures var d := Run(PowerUp(HexText(mac)), es);
            var ask := Mqtt(Message(d.subscribed[5], data, None));
            var presence := Sense(Sensor(0, 0, 0), Frames(es)).manExist;
            var trace := [0] + ExistValues(d.published);
            && Possible(ask)
            && News(d, ask) == [Publish(d.pubHead + "/info/exist", Text(Itoa(presence)))]
            && presence == trace[|trace| - 1]
            && Atoi(Itoa(presence)) == presence
  {
    hide Codes, Topic, Itoa, Atoi, Sense, Frames, Messages, Run, Connects, ExistValues, HexText;
    var d := Run(PowerUp(HexText(mac)), es);
    SubscribedOnFirstConnect(mac, es);
    SubscribedTopicCodes(mac, 5);
    EmptyTopicHasNoCodes();
    assert Codes(Topic(mac, 5)) == Some((170, 173));
    PartsSeeTheirOwnEvents(PowerUp(HexText(mac)), es);
    PublishedPresenceAlternates(HexText(mac), es);
    AtoiOfItoa(d.sensor.manExist);
  }
}
