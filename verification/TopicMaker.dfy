/** The MQTT side of the device: heads grown by the MAC on every connect, suffixes added in a buffer, and
    what is subscribed to and published. */
module TopicMaker {

  const SUB_BASE := "/dev/aiot/s/el1/"
  const PUB_BASE := "/dev/aiot/d/el1/"
  const HEAD_SIZE := 128

  /** The suffixes subscribed on connecting, with the route and sub-route codes declared for them. */
  const SUBSCRIPTIONS: seq<(string, int, int)> := [
    ("/do/light", 150, 151), ("/do/lightStrength", 150, 152), ("/config/light", 130, 132),
    ("/info/light", 170, 171), ("/info/lightStrength", 170, 172), ("/info/exist", 170, 173)]

  /** The suffixes the device publishes on. */
  const PUBLICATIONS: seq<(string, int, int)> := [
    ("/event/existChange", 190, 191),
    ("/info/light", 170, 171), ("/info/lightStrength", 170, 172), ("/info/exist", 170, 173)]

  // ---- C strings in a buffer

  /** The C string held by a buffer: what comes before its first NUL. */
  function CStr(buffer: seq<char>): string {
    if buffer == [] || buffer[0] == '\0' then "" else [buffer[0]] + CStr(buffer[1..])
  }

  predicate NulFree(s: string) {
    forall i :: 0 <= i < |s| ==> s[i] != '\0'
  }

  lemma {:induction false} CStrOfTerminated(buffer: seq<char>, s: string)
    requires |s| < |buffer| && NulFree(s) && buffer[..|s|] == s && buffer[|s|] == '\0'
    ensures CStr(buffer) == s
  {
    if s != "" {
      assert buffer[0] == s[0];
      assert buffer[1..][..|s| - 1] == buffer[..|s|][1..] == s[1..];
      CStrOfTerminated(buffer[1..], s[1..]);
      assert [s[0]] + s[1..] == s;
    }
  }

  method StrCpyAt(output: array<char>, at: nat, s: string)
    requires at + |s| < output.Length
    modifies output
    ensures output[..] == old(output[..at]) + s + ['\0'] + old(output[at + |s| + 1..])
  {
    forall i | 0 <= i < |s| {
      output[at + i] := s[i];
    }
    output[at + |s|] := '\0';
  }

  method StrAddCopy(output: array<char>, left: string, right: string)
    requires NulFree(left) && NulFree(right) && |left| + |right| < output.Length
    modifies output
    ensures CStr(output[..]) == left + right
  {
    StrCpyAt(output, 0, left);
    StrCpyAt(output, |left|, right);
    assert output[..|left| + |right|] == left + right;
    CStrOfTerminated(output[..], left + right);
  }

  // ---- topic_maker and the connect action

  /** A head after `connects` CONNECTED events: the base and that many copies of the MAC. */
  function HeadAfter(base: string, mac: string, connects: nat): (head: string)
    ensures |head| == |base| + connects * |mac|
  {
    if connects == 0 then base else HeadAfter(base, mac, connects - 1) + mac
  }

  lemma HeadSteps(base: string, mac: string, connects: nat)
    ensures HeadAfter(base, mac, 0) == base
    ensures HeadAfter(base, mac, connects + 1) == HeadAfter(base, mac, connects) + mac
  {
  }

  /** The topics one connect subscribes to, under the head as it then is. */
  function SubscribedUnder(head: string): (topics: seq<string>)
    ensures |topics| == |SUBSCRIPTIONS|
  {
    seq(|SUBSCRIPTIONS|, i requires 0 <= i < |SUBSCRIPTIONS| => head + SUBSCRIPTIONS[i].0)
  }

  const LONGEST_SUFFIX := 19

  lemma SuffixesFit()
    ensures forall i :: 0 <= i < |SUBSCRIPTIONS| ==> NulFree(SUBSCRIPTIONS[i].0) && |SUBSCRIPTIONS[i].0| <= LONGEST_SUFFIX
    ensures forall i :: 0 <= i < |PUBLICATIONS| ==> NulFree(PUBLICATIONS[i].0) && |PUBLICATIONS[i].0| <= LONGEST_SUFFIX
  {
  }

  /** What is published: plain text, or a JSON object given by its members in order. */
  datatype Body = Text(text: string) | Object(members: seq<(string, int)>)

  datatype Publish = Publish(topic: string, body: Body)

  class MqttClient {
    const mac: string
    const topicTemp: array<char>
    var subHead: string
    var pubHead: string
    var subscribed: seq<string>
    var published: seq<Publish>
    ghost var connects: nat

    ghost predicate Valid()
      reads this
    {
      && topicTemp.Length == HEAD_SIZE && NulFree(mac) && NulFree(subHead) && NulFree(pubHead)
      && subHead == HeadAfter(SUB_BASE, mac, connects)
      && pubHead == HeadAfter(PUB_BASE, mac, connects)
    }

    /** The buffers hold the heads with any suffix behind them. */
    predicate HasRoom()
      reads this
    {
      |subHead| + LONGEST_SUFFIX < HEAD_SIZE && |pubHead| + LONGEST_SUFFIX < HEAD_SIZE
    }

    constructor (mac: string)
      requires NulFree(mac)
      ensures Valid() && HasRoom() && this.mac == mac && fresh(topicTemp)
      ensures subHead == SUB_BASE && pubHead == PUB_BASE && subscribed == [] && published == [] && connects == 0
    {
      this.mac := mac;
      topicTemp := new char[HEAD_SIZE];
      subHead, pubHead, subscribed, published, connects := SUB_BASE, PUB_BASE, [], [], 0;
    }

    method TopicMaker()
      requires Valid() && |subHead| + |mac| < HEAD_SIZE
      modifies this`subHead, this`pubHead, this`connects
      ensures Valid() && connects == old(connects) + 1
      ensures subHead == old(subHead) + mac && pubHead == old(pubHead) + mac
    {
      subHead := subHead + mac;
      pubHead := pubHead + mac;
      connects := connects + 1;
    }

    method Subscribe(suffix: string)
      requires Valid() && NulFree(suffix) && |subHead| + |suffix| < HEAD_SIZE
      modifies this`subscribed, topicTemp
      ensures subscribed == old(subscribed) + [subHead + suffix]
    {
      StrAddCopy(topicTemp, subHead, suffix);
      subscribed := subscribed + [CStr(topicTemp[..])];
    }

    method PublishOn(suffix: string, body: Body)
      requires Valid() && NulFree(suffix) && |pubHead| + |suffix| < HEAD_SIZE
      modifies this`published, topicTemp
      ensures published == old(published) + [Publish(pubHead + suffix, body)]
    {
      StrAddCopy(topicTemp, pubHead, suffix);
      published := published + [Publish(CStr(topicTemp[..]), body)];
    }

    /** mqtt_connect_action: subscribe to every suffix in turn. */
    method ConnectAction()
      requires Valid() && HasRoom()
      modifies this`subscribed, topicTemp
      ensures subscribed == old(subscribed) +
              [subHead + "/do/light", subHead + "/do/lightStrength", subHead + "/config/light",
               subHead + "/info/light", subHead + "/info/lightStrength", subHead + "/info/exist"]
    {
      hide NulFree;
      SuffixesFit();
      Subscribe("/do/light");
      Subscribe("/do/lightStrength");
      Subscribe("/config/light");
      Subscribe("/info/light");
      Subscribe("/info/lightStrength");
      Subscribe("/info/exist");
    }

    /** The CONNECTED arm: grow the heads, then subscribe under the grown head. */
    method Connected()
      requires Valid() && |subHead| + |mac| + LONGEST_SUFFIX < HEAD_SIZE
      modifies this`subHead, this`pubHead, this`connects, this`subscribed, topicTemp
      ensures Valid() && connects == old(connects) + 1
      ensures subHead == old(subHead) + mac && pubHead == old(pubHead) + mac
      ensures subscribed == old(subscribed) + SubscribedUnder(subHead)
    {
      TopicMaker();
      ConnectAction();
    }
  }
}
