/** mqtt_data_action: what a delivered message does to the lamp and what it makes the device publish. */
module LightCommands {
  import opened Options
  import opened CStrings
  import opened Decimal
  import opened ErrMark
  import opened TopicTable
  import opened TopicCodes
  import opened TopicParser
  import opened TopicMaker

  /** A parsed JSON item: cJSON_Number, or anything else. */
  datatype Json = Number(valueint: int) | Other

  /** A delivered message, with what cJSON_Parse makes of its data. */
  datatype Message = Message(topic: string, data: string, json: Option<map<string, Json>>)

  datatype LightConfig = LightConfig(
    lightMode: int, nightLightMode: int, nlmStart: int, nlmEnd: int,
    nlmLightStrength: int, envLightMode: int, envLightStrengthLevel: int)

  datatype Lamp = Lamp(lightOnOff: bool, lightStrength: int, lightConfig: LightConfig)

  const CONFIG_LIGHT := 132
  const CONFIG_HEARTBEAT_GAP := 131
  const CONFIG_FAIL := 133
  const DO_LIGHT := 151
  const DO_LIGHT_STRENGTH := 152
  const INFO_LIGHT := 171
  const INFO_LIGHT_STRENGTH := 172
  const INFO_EXIST := 173

  const FIELD_NAMES := [
    "lightMode", "nightLightMode", "nlmStart", "nlmEnd", "nlmLightStrength", "envLightMode", "envLightStrengthLevel"]

  /** The settings in the order of FIELD_NAMES. */
  function Fields(config: LightConfig): (s: seq<int>)
    ensures |s| == |FIELD_NAMES|
  {
    [config.lightMode, config.nightLightMode, config.nlmStart, config.nlmEnd,
     config.nlmLightStrength, config.envLightMode, config.envLightStrengthLevel]
  }

  /** The number a JSON object gives for a name, or the value already held. */
  function NumberOr(o: map<string, Json>, name: string, current: int): int {
    if name in o && o[name].Number? then o[name].valueint else current
  }

  function Stored(o: map<string, Json>, c: LightConfig): LightConfig {
    LightConfig(
      NumberOr(o, "lightMode", c.lightMode), NumberOr(o, "nightLightMode", c.nightLightMode),
      NumberOr(o, "nlmStart", c.nlmStart), NumberOr(o, "nlmEnd", c.nlmEnd),
      NumberOr(o, "nlmLightStrength", c.nlmLightStrength), NumberOr(o, "envLightMode", c.envLightMode),
      NumberOr(o, "envLightStrengthLevel", c.envLightStrengthLevel))
  }

  lemma StoredFields(o: map<string, Json>, c: LightConfig, k: nat)
    requires k < |FIELD_NAMES|
    ensures Fields(Stored(o, c))[k] == NumberOr(o, FIELD_NAMES[k], Fields(c)[k])
  {
  }

  // ---- what a message says, by its codes

  /** '0' or '1' sent to do/light. */
  function SwitchIn(route: int, sub: int, data: string): Option<bool> {
    if route == ROUTE_DO && sub == DO_LIGHT && data != "" && (data[0] == '0' || data[0] == '1')
    then Some(data[0] == '1') else None
  }

  /** A non-zero number sent to do/lightStrength. */
  function StrengthIn(route: int, sub: int, data: string): Option<int> {
    if route == ROUTE_DO && sub == DO_LIGHT_STRENGTH && Atoi(data) != 0 then Some(Atoi(data)) else None
  }

  /** The number config/light gives for a setting. */
  function SettingIn(route: int, sub: int, json: Option<map<string, Json>>, name: string): Option<int> {
    if route == ROUTE_CONFIG && sub == CONFIG_LIGHT && json.Some? && name in json.value && json.value[name].Number?
    then Some(json.value[name].valueint) else None
  }

  /** The whole status report; an info request is answered from the item asked for to the end. */
  function StatusReport(pubHead: string, lamp: Lamp, manExist: int): (s: seq<Publish>)
    ensures |s| == 3
  {
    [Publish(pubHead + "/info/light", Text(Itoa(if lamp.lightOnOff then 1 else 0))),
     Publish(pubHead + "/info/lightStrength", Text(Itoa(lamp.lightStrength))),
     Publish(pubHead + "/info/exist", Text(Itoa(manExist)))]
  }

  function Replies(route: int, sub: int, pubHead: string, lamp: Lamp, manExist: int): seq<Publish> {
    if (route == ROUTE_INFO || route == ROUTE_DO) && INFO_LIGHT <= sub <= INFO_EXIST
    then StatusReport(pubHead, lamp, manExist)[sub - INFO_LIGHT..] else []
  }

  function StatusOf(route: int, sub: int, data: string): YmErr {
    if route == ROUTE_CONFIG then (if sub == CONFIG_HEARTBEAT_GAP || sub == CONFIG_FAIL then YmOk else Unexpected)
    else if route == ROUTE_DO then (if sub == DO_LIGHT_STRENGTH && Atoi(data) == 0 then Unexpected else YmOk)
    else if route == ROUTE_INFO then YmOk
    else Unexpected
  }

  /** The lamp after a message with these codes. */
  function LampStep(lamp: Lamp, route: int, sub: int, data: string, json: Option<map<string, Json>>): Lamp {
    Lamp(
      SwitchIn(route, sub, data).GetOr(lamp.lightOnOff),
      StrengthIn(route, sub, data).GetOr(lamp.lightStrength),
      if route == ROUTE_CONFIG && sub == CONFIG_LIGHT && json.Some? then Stored(json.value, lamp.lightConfig)
      else lamp.lightConfig)
  }

  /** The route and sub-route codes of a topic, when C gives both a meaning. */
  function Codes(topic: string): Option<(int, int)> {
    match Slots(topic)
    case None => None
    case Some(slots) =>
      if slots[5].Code? && slots[6].Code? then Some((slots[5].value, slots[6].value)) else None
  }

  /** A message whose topic is empty, or whose route and sub-route are found in the tables. */
  predicate Meaningful(m: Message) {
    m.topic == "" || Codes(m.topic).Some?
  }

  function Deliver(lamp: Lamp, m: Message): Lamp
    requires Meaningful(m)
  {
    if m.topic == "" then lamp
    else var (route, sub) := Codes(m.topic).value; LampStep(lamp, route, sub, m.data, m.json)
  }

  function RepliesTo(m: Message, pubHead: string, lamp: Lamp, manExist: int): seq<Publish>
    requires Meaningful(m)
  {
    if m.topic == "" then []
    else var (route, sub) := Codes(m.topic).value; Replies(route, sub, pubHead, lamp, manExist)
  }

  class LampControl {
    const client: MqttClient
    const topicRec: array<Slot>
    var lightOnOff: bool
    var lightStrength: int
    var lightConfig: LightConfig

    ghost predicate Valid()
      reads this
    {
      topicRec.Length == 16
    }

    function State(): Lamp
      reads this
    {
      Lamp(lightOnOff, lightStrength, lightConfig)
    }

    /** gValueInit and the zeroed globals. */
    constructor (client: MqttClient)
      ensures Valid() && fresh(topicRec) && this.client == client
      ensures State() == Lamp(false, 0, LightConfig(0, 0, 0, 0, 0, 0, 0))
    {
      this.client := client;
      topicRec := new Slot[16](_ => Code(0));
      lightOnOff, lightStrength, lightConfig := false, 0, LightConfig(0, 0, 0, 0, 0, 0, 0);
    }

    method StoreSettings(o: map<string, Json>)
      modifies this`lightConfig
      ensures lightConfig == Stored(o, old(lightConfig))
    {
      var c := lightConfig;
      if "lightMode" in o && o["lightMode"].Number? {
        c := c.(lightMode := o["lightMode"].valueint);
      }
      if "nightLightMode" in o && o["nightLightMode"].Number? {
        c := c.(nightLightMode := o["nightLightMode"].valueint);
      }
      if "nlmStart" in o && o["nlmStart"].Number? {
        c := c.(nlmStart := o["nlmStart"].valueint);
      }
      if "nlmEnd" in o && o["nlmEnd"].Number? {
        c := c.(nlmEnd := o["nlmEnd"].valueint);
      }
      if "nlmLightStrength" in o && o["nlmLightStrength"].Number? {
        c := c.(nlmLightStrength := o["nlmLightStrength"].valueint);
      }
      if "envLightMode" in o && o["envLightMode"].Number? {
        c := c.(envLightMode := o["envLightMode"].valueint);
      }
      if "envLightStrengthLevel" in o && o["envLightStrengthLevel"].Number? {
        c := c.(envLightStrengthLevel := o["envLightStrengthLevel"].valueint);
      }
      lightConfig := c;
    }

    /** The info switch, whose cases fall through. */
    method AnswerInfo(sub: int, manExist: int)
      requires client.Valid() && client.HasRoom()
      modifies client`published, client.topicTemp
      ensures client.published == old(client.published) + Replies(ROUTE_INFO, sub, client.pubHead, State(), manExist)
    {
      hide HeadAfter, NulFree, Itoa;
      SuffixesFit();
      if sub == INFO_LIGHT {
        client.PublishOn("/info/light", Text(Itoa(if lightOnOff then 1 else 0)));
      }
      if sub == INFO_LIGHT || sub == INFO_LIGHT_STRENGTH {
        client.PublishOn("/info/lightStrength", Text(Itoa(lightStrength)));
      }
      if sub == INFO_LIGHT || sub == INFO_LIGHT_STRENGTH || sub == INFO_EXIST {
        client.PublishOn("/info/exist", Text(Itoa(manExist)));
      }
    }

    method MqttDataAction(data: string, json: Option<map<string, Json>>, manExist: int) returns (r: YmErr)
      requires Valid() && topicRec[5].Code? && topicRec[6].Code?
      requires client.Valid() && client.HasRoom()
      modifies this`lightOnOff, this`lightStrength, this`lightConfig, client`published, client.topicTemp
      ensures State() == LampStep(old(State()), topicRec[5].value, topicRec[6].value, data, json)
      ensures client.published ==
              old(client.published) +
              Replies(topicRec[5].value, topicRec[6].value, client.pubHead, State(), manExist)
      ensures r == StatusOf(topicRec[5].value, topicRec[6].value, data)
    {
      var route, sub := topicRec[5].value, topicRec[6].value;
      if route == ROUTE_CONFIG {
        if sub == CONFIG_HEARTBEAT_GAP {
          return YmOk;
        } else if sub == CONFIG_LIGHT {
          if json.Some? {
            StoreSettings(json.value);
          }
        } else if sub == CONFIG_FAIL {
          return YmOk;
        }
        return Unexpected;
      }
      if route == ROUTE_DO {
        if sub == DO_LIGHT {
          if data != "" && data[0] == '0' {
            lightOnOff := false;
          }
          if data != "" && data[0] == '1' {
            lightOnOff := true;
          }
          return YmOk;
        } else if sub == DO_LIGHT_STRENGTH {
          var num := Atoi(data);
          if num != 0 {
            lightStrength := num;
            return YmOk;
          }
          return Unexpected;
        }
      }
      if route == ROUTE_DO || route == ROUTE_INFO {
        AnswerInfo(sub, manExist);
        return YmOk;
      }
      return Unexpected;
    }

    /** The DATA arm of the MQTT event handler. */
    method DataEvent(m: Message, manExist: int)
      requires Valid() && Meaningful(m) && client.Valid() && client.HasRoom()
      modifies this`lightOnOff, this`lightStrength, this`lightConfig, topicRec, client`published, client.topicTemp
      ensures State() == Deliver(old(State()), m)
      ensures client.published == old(client.published) + RepliesTo(m, client.pubHead, State(), manExist)
    {
      var outcome := MqttTopicRes(m.topic, topicRec);
      if outcome == Parsed {
        assert topicRec[..SLOT_COUNT][5] == topicRec[5] && topicRec[..SLOT_COUNT][6] == topicRec[6];
        var _ := MqttDataAction(m.data, m.json, manExist);
      }
    }
  }

  // ---- runs of messages

  predicate AllMeaningful(ms: seq<Message>) {
    forall i :: 0 <= i < |ms| ==> Meaningful(ms[i])
  }

  function DeliverAll(lamp: Lamp, ms: seq<Message>): Lamp
    requires AllMeaningful(ms)
  {
    if ms == [] then lamp else Deliver(DeliverAll(lamp, ms[..|ms| - 1]), ms[|ms| - 1])
  }

  function SwitchOf(m: Message): Option<bool> {
    match Codes(m.topic)
    case None => None
    case Some((route, sub)) => SwitchIn(route, sub, m.data)
  }

  function StrengthOf(m: Message): Option<int> {
    match Codes(m.topic)
    case None => None
    case Some((route, sub)) => StrengthIn(route, sub, m.data)
  }

  function SettingOf(m: Message, name: string): Option<int> {
    match Codes(m.topic)
    case None => None
    case Some((route, sub)) => SettingIn(route, sub, m.json, name)
  }

  lemma EmptyTopicHasNoCodes()
    ensures Codes("").None?
  {
  }

  /** One message changes each field to the value it gives for that field, if it gives one. */
  lemma DeliverFieldwise(lamp: Lamp, m: Message, k: nat)
    requires Meaningful(m) && k < |FIELD_NAMES|
    ensures var lamp' := Deliver(lamp, m);
            && lamp'.lightOnOff == SwitchOf(m).GetOr(lamp.lightOnOff)
            && lamp'.lightStrength == StrengthOf(m).GetOr(lamp.lightStrength)
            && Fields(lamp'.lightConfig)[k] == SettingOf(m, FIELD_NAMES[k]).GetOr(Fields(lamp.lightConfig)[k])
  {
    EmptyTopicHasNoCodes();
    hide Codes, Fields, Stored;
    if m.topic != "" && m.json.Some? {
      StoredFields(m.json.value, lamp.lightConfig, k);
    }
  }

  /** Over any run of messages every field holds the last value some message gave for it. */
  lemma {:induction false} CommandFold(lamp: Lamp, ms: seq<Message>, k: nat)
    requires AllMeaningful(ms) && k < |FIELD_NAMES|
    ensures var lamp' := DeliverAll(lamp, ms);
            && lamp'.lightOnOff == LastOf(lamp.lightOnOff, ms, SwitchOf)
            && lamp'.lightStrength == LastOf(lamp.lightStrength, ms, StrengthOf)
            && Fields(lamp'.lightConfig)[k] ==
               LastOf(Fields(lamp.lightConfig)[k], ms, m => SettingOf(m, FIELD_NAMES[k]))
  {
    if ms != [] {
      hide Deliver, SwitchOf, StrengthOf, SettingOf, Fields;
      var front := ms[..|ms| - 1];
      CommandFold(lamp, front, k);
      DeliverFieldwise(DeliverAll(lamp, front), ms[|ms| - 1], k);
    }
  }

  /** Once non-zero, the strength is never zero again. */
  lemma {:induction false} StrengthStaysNonZero(lamp: Lamp, ms: seq<Message>)
    requires AllMeaningful(ms) && lamp.lightStrength != 0
    ensures DeliverAll(lamp, ms).lightStrength != 0
  {
    if ms != [] {
      StrengthStaysNonZero(lamp, ms[..|ms| - 1]);
    }
  }

  /** What one lamp reports, sent to another as commands, carries over its switch and its non-zero strength. */
  lemma ReportSetsOtherLamp(from: Lamp, to: Lamp, pubHead: string, manExist: int, light: Message, strength: Message)
    requires Codes(light.topic) == Some((ROUTE_DO, DO_LIGHT))
    requires Codes(strength.topic) == Some((ROUTE_DO, DO_LIGHT_STRENGTH))
    requires light.data == StatusReport(pubHead, from, manExist)[0].body.text
    requires strength.data == StatusReport(pubHead, from, manExist)[1].body.text
    ensures Deliver(Deliver(to, light), strength) ==
            Lamp(from.lightOnOff, if from.lightStrength == 0 then to.lightStrength else from.lightStrength, to.lightConfig)
  {
    EmptyTopicHasNoCodes();
    hide Codes, Itoa, Atoi;
    AtoiOfItoa(from.lightStrength);
    ItoaOfBit();
  }

  lemma TwoDoRows(needle: string)
    ensures TopicGetRoute(needle, Code(ROUTE_DO)) in {Code(DO_LIGHT), Code(DO_LIGHT_STRENGTH), Undefined}
  {
    assert |DO_LIST| == 30;
    match StrStr(DO_LIST, needle)
    case None =>
    case Some(offset) =>
      assert needle == "" ==> OccursAt(DO_LIST, needle, 0);
      assert offset < 30;
  }

  /** From a parsed topic the do route never falls through into the info replies: its table has two rows. */
  lemma DoNeverFallsThrough(m: Message, pubHead: string, lamp: Lamp, manExist: int)
    requires Codes(m.topic).Some? && Codes(m.topic).value.0 == ROUTE_DO
    ensures Codes(m.topic).value.1 == DO_LIGHT || Codes(m.topic).value.1 == DO_LIGHT_STRENGTH
    ensures RepliesTo(m, pubHead, lamp, manExist) == []
  {
    EmptyTopicHasNoCodes();
    SlotsOfPieces(m.topic);
    var pieces := Pieces(m.topic).value;
    var slots := Slots(m.topic).value;
    assert slots[5] == SlotOf(pieces, 5) && slots[6] == SlotOf(pieces, 6);
    hide Pieces, Slots, TopicGetHead;
    TwoDoRows(pieces[6]);
  }

  /** The dispatch reports success exactly for these codes, and Unexpected for all others. */
  lemma StatusTable(route: int, sub: int, data: string)
    ensures StatusOf(route, sub, data) ==
            match route
            case 130 => if sub == 131 || sub == 133 then YmOk else Unexpected
            case 150 => if sub == 152 && Atoi(data) == 0 then Unexpected else YmOk
            case 170 => YmOk
            case _ => Unexpected
  {
    hide Atoi;
  }
}
