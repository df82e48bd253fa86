/** What the device does, spelled out in bytes, text and numbers: each law relates an event to the states before and
    after it, and writes out the values of the code's tables and constants. */
module DeviceLaws {
  import opened Options
  import opened MacAddress
  import opened Decimal
  import opened TopicCodes
  import opened TopicParser
  import opened TopicMaker
  import opened TopicRoundTrip
  import opened LightCommands
  import opened PixelEncoder
  import opened LedStrip
  import opened StatusTick
  import opened RadarDecoder
  import opened SmartLight

  // ---- radar buffers, by their bytes

  /** A byte of a received buffer; behind the received bytes there are zeros. */
  function ByteAt(data: seq<Byte>, i: nat): Byte {
    if i < |data| then data[i] else 0
  }

  /** The device with these readings, and with one more presence message when presence has changed. */
  function WithReadings(d: Device, exist: int, move: int, moveTo: int): Device {
    var news := Publish(d.pubHead + "/event/existChange", Object([("exist", exist), ("time", 6666)]));
    d.(sensor := Sensor(exist, move, moveTo),
       published := if exist == d.sensor.manExist then d.published else d.published + [news])
  }

  function WithMotion(d: Device, b: Byte): Device {
    if b == 0 then WithReadings(d, 0, d.sensor.manMove, d.sensor.manMoveTo)
    else WithReadings(d, 1, b, d.sensor.manMoveTo)
  }

  function WithBearing(d: Device, b: Byte): Device {
    if b == 0 then WithReadings(d, 0, d.sensor.manMove, d.sensor.manMoveTo)
    else WithReadings(d, 1, d.sensor.manMove, b)
  }

  lemma OneChange(pubHead: string, exist: int)
    ensures ExistChanges(pubHead, []) == []
    ensures ExistChanges(pubHead, [exist]) ==
            [Publish(pubHead + "/event/existChange", Object([("exist", exist), ("time", 6666)]))]
  {
  }

  lemma ReportsInReadings(d: Device, r: Report)
    ensures var d' := d.(sensor := Apply(d.sensor, r),
                         published := d.published + ExistChanges(d.pubHead, Announces(d.sensor, r)));
            d' == match r
                  case Nothing => d
                  case Presence(b) => WithReadings(d, b, d.sensor.manMove, d.sensor.manMoveTo)
                  case SomeoneThere => WithReadings(d, 1, d.sensor.manMove, d.sensor.manMoveTo)
                  case Motion(b) => WithMotion(d, b)
                  case Bearing(b) => WithBearing(d, b)
  {
    hide ExistChanges;
    if ExistIn(r).Some? {
      OneChange(d.pubHead, ExistIn(r).value);
    } else {
      OneChange(d.pubHead, 0);
    }
    assert d.published + [] == d.published;
  }

  /** The whole decoder, for every received buffer: the mark 0x80, the command behind it, and the bytes of its body. */
  lemma DecodeTable(d: Device, data: seq<Byte>)
    requires |data| <= 1024
    ensures Possible(Frame(data))
    ensures var d' := Step(d, Frame(data));
            var m := if ByteAt(data, 1) == 0x53 then 3 else 2;
            var command := ByteAt(data, m + 1);
            var b0, b1, b2 := ByteAt(data, m + 2), ByteAt(data, m + 3), ByteAt(data, m + 4);
            var b3, b4 := ByteAt(data, m + 5), ByteAt(data, m + 6);
            if ByteAt(data, m) != 0x80 then d' == d
            else if command == 0x03 then d' == WithReadings(d, 1, d.sensor.manMove, d.sensor.manMoveTo)
            else if command == 0x01 && b0 == 0 && b1 == 1 then
              d' == WithReadings(d, b2, d.sensor.manMove, d.sensor.manMoveTo)
            else if command == 0x01 && b0 == 0 && b2 == 0 && b3 == 1 then d' == WithMotion(d, b4)
            else if command == 0x01 && b0 != 0 && b1 == 0 && b2 == 1 then d' == WithMotion(d, b3)
            else if command == 0x02 && b0 == 0 && b1 == 1 then d' == WithMotion(d, b2)
            else if command == 0x0b && b0 == 0 && b1 == 1 then d' == WithBearing(d, b2)
            else d' == d
  {
    var f := Padded(data);
    assert forall i :: 0 <= i < 10 ==> f[i] == ByteAt(data, i);
    hide Padded, Apply, Announces, ExistChanges, WithReadings, WithMotion, WithBearing;
    ReportsInReadings(d, ReportIn(f));
  }

  /** The radar's own frames, 53 59 80, whatever follows them in the buffer. */
  lemma RadarFrames(d: Device, command: Byte, b: Byte, rest: seq<Byte>)
    requires |rest| <= 1017
    ensures Step(d, Frame([0x53, 0x59, 0x80, 0x03] + rest)) ==
            WithReadings(d, 1, d.sensor.manMove, d.sensor.manMoveTo)
    ensures Step(d, Frame([0x53, 0x59, 0x80, 0x01, 0x00, 0x01, b] + rest)) ==
            WithReadings(d, b, d.sensor.manMove, d.sensor.manMoveTo)
    ensures Step(d, Frame([0x53, 0x59, 0x80, 0x02, 0x00, 0x01, b] + rest)) == WithMotion(d, b)
    ensures Step(d, Frame([0x53, 0x59, 0x80, 0x0b, 0x00, 0x01, b] + rest)) == WithBearing(d, b)
    ensures command !in {0x01, 0x02, 0x03, 0x0b} ==> Step(d, Frame([0x53, 0x59, 0x80, command] + rest)) == d
  {
    hide Step, WithReadings, WithMotion, WithBearing;
    DecodeTable(d, [0x53, 0x59, 0x80, 0x03] + rest);
    DecodeTable(d, [0x53, 0x59, 0x80, 0x01, 0x00, 0x01, b] + rest);
    DecodeTable(d, [0x53, 0x59, 0x80, 0x02, 0x00, 0x01, b] + rest);
    DecodeTable(d, [0x53, 0x59, 0x80, 0x0b, 0x00, 0x01, b] + rest);
    DecodeTable(d, [0x53, 0x59, 0x80, command] + rest);
  }

  /** Among what an event publishes, only a radar buffer's news is an object. */
  lemma NewsOfPresence(d: Device, e: Event, i: nat) returns (exist: int)
    requires Possible(e) && i < |News(d, e)| && News(d, e)[i].body.Object?
    ensures e.Frame?
    ensures News(d, e)[i] == Publish(d.pubHead + "/event/existChange", Object([("exist", exist), ("time", 6666)]))
  {
    hide Apply, ReportIn, Padded, Announces, Deliver, RepliesTo;
    match e
    case Frame(data) => exist := Announces(d.sensor, ReportIn(Padded(data)))[i];
    case Mqtt(m) =>
      RepliesAreTexts(m, d.pubHead, Deliver(d.lamp, m), d.sensor.manExist);
      assert false;
  }

  /** Every presence message of a run: its topic, what the topic parses to, and its members. */
  lemma PresenceMessages(mac: seq<Byte>, es: seq<Event>, i: nat) returns (j: nat, exist: int)
    requires |mac| == 6 && AllPossible(es) && i < |Run(PowerUp(HexText(mac)), es).published|
    requires Run(PowerUp(HexText(mac)), es).published[i].body.Object?
    ensures j < |es| && es[j].Frame?
    ensures var head := Run(PowerUp(HexText(mac)), es[..j]).pubHead;
            Run(PowerUp(HexText(mac)), es).published[i] ==
            Publish(head + "/event/existChange", Object([("exist", exist), ("time", 6666)]))
    ensures var r := Slots(Run(PowerUp(HexText(mac)), es).published[i].topic);
            && (r.Some? <==> Connects(es[..j]) <= 1)
            && (r.Some? ==> r.value[1..] == [Code(11), Code(22), Code(31), Code(41), Code(190), Code(191)])
  {
    hide Slots, Run, News, HeadAfter, HexText, Connects;
    var d := PowerUp(HexText(mac));
    j := PublishedBy(d, es, i);
    HeadsOfRun(HexText(mac), es[..j]);
    var before := Run(d, es[..j]);
    exist := NewsOfPresence(before, es[j], i - |before.published|);
    PublishedTopicAfterConnects(mac, Connects(es[..j]), 0);
  }

  // ---- topics, as text

  /** After the first connect the device is subscribed to just these six topics, and publishes under this head. */
  lemma SubscribedAsText(mac: seq<Byte>, es: seq<Event>)
    requires AllPossible(es) && Connects(es) == 1
    ensures var d := Run(PowerUp(HexText(mac)), es);
            var head := "/dev/aiot/s/el1/" + HexText(mac);
            && d.subscribed == [head + "/do/light", head + "/do/lightStrength", head + "/config/light",
                                head + "/info/light", head + "/info/lightStrength", head + "/info/exist"]
            && d.pubHead == "/dev/aiot/d/el1/" + HexText(mac)
  {
    hide Run, Connects, HexText, HeadAfter;
    SubscribedOnFirstConnect(mac, es);
    HeadsOfRun(HexText(mac), es);
    HeadSteps("/dev/aiot/s/el1/", HexText(mac), 0);
    HeadSteps("/dev/aiot/d/el1/", HexText(mac), 0);
    assert forall k :: 0 <= k < |SUBSCRIPTIONS| ==> Topic(mac, k) == "/dev/aiot/s/el1/" + HexText(mac) + SUBSCRIPTIONS[k].0;
  }

  /** Those topics carry these codes to the dispatch. */
  lemma SubscribedCodes(mac: seq<Byte>)
    requires |mac| == 6
    ensures var head := "/dev/aiot/s/el1/" + HexText(mac);
            && Codes(head + "/do/light") == Some((150, 151)) && Codes(head + "/do/lightStrength") == Some((150, 152))
            && Codes(head + "/config/light") == Some((130, 132)) && Codes(head + "/info/light") == Some((170, 171))
            && Codes(head + "/info/lightStrength") == Some((170, 172)) && Codes(head + "/info/exist") == Some((170, 173))
  {
    hide Codes, HexText, HeadAfter;
    HeadSteps("/dev/aiot/s/el1/", HexText(mac), 0);
    forall k | 0 <= k < |SUBSCRIPTIONS|
      ensures Codes("/dev/aiot/s/el1/" + HexText(mac) + SUBSCRIPTIONS[k].0) == Some((SUBSCRIPTIONS[k].1, SUBSCRIPTIONS[k].2))
    {
      SubscribedTopicCodes(mac, k);
    }
    var head := "/dev/aiot/s/el1/" + HexText(mac);
    assert Codes(head + SUBSCRIPTIONS[0].0) == Some((150, 151)) && Codes(head + SUBSCRIPTIONS[1].0) == Some((150, 152));
    assert Codes(head + SUBSCRIPTIONS[2].0) == Some((130, 132)) && Codes(head + SUBSCRIPTIONS[3].0) == Some((170, 171));
    assert Codes(head + SUBSCRIPTIONS[4].0) == Some((170, 172)) && Codes(head + SUBSCRIPTIONS[5].0) == Some((170, 173));
  }

  // ---- messages, by their codes and by their topics

  /** A setting takes the number a parsed object holds under its name, and otherwise stays. */
  predicate Takes(json: Option<map<string, Json>>, name: string, was: int, now: int) {
    now == if json.Some? && name in json.value && json.value[name].Number? then json.value[name].valueint else was
  }

  predicate AllTake(json: Option<map<string, Json>>, was: LightConfig, now: LightConfig) {
    && Takes(json, "lightMode", was.lightMode, now.lightMode)
    && Takes(json, "nightLightMode", was.nightLightMode, now.nightLightMode)
    && Takes(json, "nlmStart", was.nlmStart, now.nlmStart)
    && Takes(json, "nlmEnd", was.nlmEnd, now.nlmEnd)
    && Takes(json, "nlmLightStrength", was.nlmLightStrength, now.nlmLightStrength)
    && Takes(json, "envLightMode", was.envLightMode, now.envLightMode)
    && Takes(json, "envLightStrengthLevel", was.envLightStrengthLevel, now.envLightStrengthLevel)
  }

  /** The three answers, in the order they go out. */
  function Answers(d: Device): seq<Publish> {
    [Publish(d.pubHead + "/info/light", Text(if d.lamp.lightOnOff then "1" else "0")),
     Publish(d.pubHead + "/info/lightStrength", Text(Itoa(d.lamp.lightStrength))),
     Publish(d.pubHead + "/info/exist", Text(Itoa(d.sensor.manExist)))]
  }

  /** Everything a message does, by the two codes of its topic; any other message does nothing. */
  lemma MessageTable(d: Device, m: Message)
    requires Meaningful(m)
    ensures var d' := Step(d, Mqtt(m));
            match Codes(m.topic)
            case Some((130, 132)) =>
              && AllTake(m.json, d.lamp.lightConfig, d'.lamp.lightConfig)
              && d' == d.(lamp := d.lamp.(lightConfig := d'.lamp.lightConfig))
            case Some((150, 151)) =>
              d' == d.(lamp := d.lamp.(lightOnOff :=
                if m.data != "" && m.data[0] == '1' then true
                else if m.data != "" && m.data[0] == '0' then false else d.lamp.lightOnOff))
            case Some((150, 152)) =>
              d' == d.(lamp := d.lamp.(lightStrength :=
                if Atoi(m.data) != 0 then Atoi(m.data) else d.lamp.lightStrength))
            case Some((170, 171)) => d' == d.(published := d.published + Answers(d))
            case Some((170, 172)) => d' == d.(published := d.published + Answers(d)[1..])
            case Some((170, 173)) => d' == d.(published := d.published + Answers(d)[2..])
            case _ => d' == d
  {
    EmptyTopicHasNoCodes();
    hide Codes, Itoa, Atoi;
    ItoaOfBit();
    if Codes(m.topic).Some? && Codes(m.topic).value.0 == 150 {
      DoNeverFallsThrough(m, d.pubHead, Deliver(d.lamp, m), d.sensor.manExist);
    }
    assert d.published + [] == d.published;
  }

  /** A settings message on the subscribed topic sets the seven settings, each from the member of its own name. */
  lemma SettingsArrive(mac: seq<Byte>, es: seq<Event>, data: string, o: map<string, Json>)
    requires |mac| == 6 && AllPossible(es) && Connects(es) == 1
    ensures var d := Run(PowerUp(HexText(mac)), es);
            |d.subscribed| == 6
    ensures var d := Run(PowerUp(HexText(mac)), es);
            var settings := Mqtt(Message(d.subscribed[2], data, Some(o)));
            && d.subscribed[2] == "/dev/aiot/s/el1/" + HexText(mac) + "/config/light"
            && AllPossible(es + [settings])
            && var d' := Run(PowerUp(HexText(mac)), es + [settings]);
               && AllTake(Some(o), d.lamp.lightConfig, d'.lamp.lightConfig)
               && d' == d.(lamp := d.lamp.(lightConfig := d'.lamp.lightConfig))
  {
    hide Connects, HexText, Codes, AllTake, Deliver, RepliesTo;
    SubscribedAsText(mac, es);
    SubscribedCodes(mac);
    var d := Run(PowerUp(HexText(mac)), es);
    var m := Message(d.subscribed[2], data, Some(o));
    MessageTable(d, m);
    assert (es + [Mqtt(m)])[..|es|] == es;
  }

  /** Asking on an info topic is answered, under the publish head, from the item asked for to the last. */
  lemma QuestionsAreAnswered(mac: seq<Byte>, es: seq<Event>, data: string, json: Option<map<string, Json>>, k: nat)
    requires |mac| == 6 && AllPossible(es) && Connects(es) == 1 && k < 3
    ensures var d := Run(PowerUp(HexText(mac)), es);
            |d.subscribed| == 6
    ensures var d := Run(PowerUp(HexText(mac)), es);
            var ask := Mqtt(Message(d.subscribed[3 + k], data, json));
            var head := "/dev/aiot/d/el1/" + HexText(mac);
            && AllPossible(es + [ask])
            && Run(PowerUp(HexText(mac)), es + [ask]) ==
               d.(published := d.published +
                  [Publish(head + "/info/light", Text(if d.lamp.lightOnOff then "1" else "0")),
                   Publish(head + "/info/lightStrength", Text(Itoa(d.lamp.lightStrength))),
                   Publish(head + "/info/exist", Text(Itoa(d.sensor.manExist)))][k..])
  {
    hide Connects, HexText, Codes, AllTake, Deliver, RepliesTo, Itoa;
    SubscribedAsText(mac, es);
    SubscribedCodes(mac);
    var d := Run(PowerUp(HexText(mac)), es);
    var m := Message(d.subscribed[3 + k], data, json);
    MessageTable(d, m);
    assert (es + [Mqtt(m)])[..|es|] == es;
  }

  // ---- ticks, in pixels and bytes

  function Pixel(r: int, g: int, b: int): Rgb {
    Rgb((r % 256) as bv8, (g % 256) as bv8, (b % 256) as bv8)
  }

  /** What a lamp shows at an hour: the night light from nlmStart to nlmEnd, both included, in night mode; else grey. */
  lemma ColourInNumbers(lamp: Lamp, hour: int)
    ensures var c, n := lamp.lightConfig, lamp.lightConfig.nlmLightStrength;
            var level := if lamp.lightOnOff then CutQuotient(255 * lamp.lightStrength, 100) else 0;
            TickColour(lamp, hour) ==
            if c.nightLightMode == 1 && c.nlmStart <= hour <= c.nlmEnd
            then Pixel(CutQuotient(255 * n, 100), CutQuotient(198305 * n, 100000), CutQuotient(1071 * n, 1000))
            else Pixel(level, level, level)
  {
    NightLevelsInNumbers(lamp.lightConfig.nlmLightStrength);
    LightnessInNumbers(lamp.lightStrength, lamp.lightOnOff);
    hide NightLevels, Lightness, CutQuotient;
  }

  /** A tick sends 32 pixels of that colour. */
  lemma TickByTheClock(d: Device, es: seq<Event>, hour: int)
    requires AllPossible(es)
    ensures var was, now := Run(d, es), Run(d, es + [Tick(hour)]);
            var c, n := was.lamp.lightConfig, was.lamp.lightConfig.nlmLightStrength;
            var level := if was.lamp.lightOnOff then CutQuotient(255 * was.lamp.lightStrength, 100) else 0;
            var pixel :=
              if c.nightLightMode == 1 && c.nlmStart <= hour <= c.nlmEnd
              then Pixel(CutQuotient(255 * n, 100), CutQuotient(198305 * n, 100000), CutQuotient(1071 * n, 1000))
              else Pixel(level, level, level);
            && |was.wire| <= |now.wire| && now.wire[..|was.wire|] == was.wire
            && DecodeStream(now.wire[|was.wire|..]) == Some(seq(32, _ => pixel))
  {
    hide TickColour, DecodeStream, Stream, CutQuotient, Pixel, Messages, DeliverAll, Run;
    TickShowsTheCommands(d, es, hour);
    PartsSeeTheirOwnEvents(d, es);
    ColourInNumbers(Run(d, es).lamp, hour);
    var c := TickColour(Run(d, es).lamp, hour);
    assert Uniform(c, PIXEL_MAX) == seq(32, _ => c);
  }

  lemma RefreshIsStream(c: Rgb)
    ensures Refresh(c) == Stream(Uniform(c, PIXEL_MAX))
  {
  }

  lemma RefreshBytes(c: Rgb, pixel: nat, k: nat)
    requires pixel < 32 && k < 8
    ensures |Refresh(c)| == 768
    ensures Refresh(c)[24 * pixel + k] == if BitAt(c.g, k) then 0xF0 else 0xC0
    ensures Refresh(c)[24 * pixel + 8 + k] == if BitAt(c.r, k) then 0xF0 else 0xC0
    ensures Refresh(c)[24 * pixel + 16 + k] == if BitAt(c.b, k) then 0xF0 else 0xC0
  {
    hide Stream, Encode, Uniform, BitAt;
    UniformStreamAt(c, 32, 24 * pixel + k);
    UniformStreamAt(c, 32, 24 * pixel + 8 + k);
    UniformStreamAt(c, 32, 24 * pixel + 16 + k);
    EncodedBits(c, k);
  }

  /** A tick's bytes: 24 for each of 32 pixels; green, red, blue; most significant bit first; 0xF0 and 0xC0. */
  lemma TickBytes(d: Device, es: seq<Event>, hour: int, pixel: nat, k: nat)
    requires AllPossible(es) && pixel < 32 && k < 8
    ensures var was, now := Run(d, es), Run(d, es + [Tick(hour)]);
            var c, sent, at := now.ledStatus, now.wire[|was.wire|..], 24 * pixel;
            && |now.wire| == |was.wire| + 768
            && sent[at + k] == (if BitAt(c.g, k) then 0xF0 else 0xC0)
            && sent[at + 8 + k] == (if BitAt(c.r, k) then 0xF0 else 0xC0)
            && sent[at + 16 + k] == (if BitAt(c.b, k) then 0xF0 else 0xC0)
  {
    hide TickColour, DecodeStream, Stream, Messages, DeliverAll, Run, Encode, Uniform, BitAt, Refresh;
    TickShowsTheCommands(d, es, hour);
    var c := Run(d, es + [Tick(hour)]).ledStatus;
    RefreshBytes(c, pixel, k);
    RefreshIsStream(c);
    assert (Run(d, es).wire + Refresh(c))[|Run(d, es).wire|..] == Refresh(c);
  }

  /** Until the first message the lamp is off with everything at zero, and ticks leave the strip dark. */
  lemma DarkUntilAsked(mac: string, es: seq<Event>, hour: int)
    requires AllPossible(es) && forall i :: 0 <= i < |es| ==> !es[i].Mqtt?
    ensures Run(PowerUp(mac), es).lamp == Lamp(false, 0, LightConfig(0, 0, 0, 0, 0, 0, 0))
    ensures var was, now := Run(PowerUp(mac), es), Run(PowerUp(mac), es + [Tick(hour)]);
            && |was.wire| <= |now.wire|
            && DecodeStream(now.wire[|was.wire|..]) == Some(seq(32, _ => Rgb(0, 0, 0)))
  {
    hide DecodeStream, Run;
    TickByTheClock(PowerUp(mac), es, hour);
    PartsSeeTheirOwnEvents(PowerUp(mac), es);
    assert [] + es == es;
    NoMessages([], es);
    assert Pixel(0, 0, 0) == Rgb(0, 0, 0);
  }
}
