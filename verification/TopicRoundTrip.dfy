/** Printing a topic and parsing it back gives the declared codes, for every MAC. */
module TopicRoundTrip {
  import opened Options
  import opened CStrings
  import opened MacAddress
  import opened TopicTable
  import opened TopicCodes
  import opened TopicParser
  import opened TopicMaker

  function Segments(sender: string, mac: string, route: string, sub: string): (s: seq<string>)
    ensures |s| == SLOT_COUNT
  {
    ["dev", "aiot", sender, "el1", mac, route, sub]
  }

  function Suffix(route: string, sub: string): string {
    "/" + route + "/" + sub
  }

  function Base(sender: string): string {
    "/dev/aiot/" + sender + "/el1/"
  }

  /** Head and suffix glued together are the seven segments behind a leading '/'. */
  lemma TopicIsJoin(sender: string, mac: string, route: string, sub: string)
    ensures Base(sender) + mac + Suffix(route, sub) == "/" + Join(Segments(sender, mac, route, sub))
  {
    var s := Segments(sender, mac, route, sub);
    var last := mac + "/" + (route + "/" + sub);
    assert Join(s[4..]) == last by {
      assert s[4..] == [mac, route, sub] && [mac, route, sub][1..] == [route, sub] && [route, sub][1..] == [sub];
      assert Join([route, sub]) == route + "/" + Join([sub]);
    }
    assert Join(s[2..]) == sender + "/" + ("el1" + "/" + last) by {
      assert s[2..][1..] == s[3..] && s[3..][1..] == s[4..];
    }
    assert Join(s) == "dev" + "/" + ("aiot" + "/" + (sender + "/" + ("el1" + "/" + last))) by {
      assert s[1..][1..] == s[2..];
    }
    assert mac + Suffix(route, sub) == last;
    assert "/" + Join(s) == Base(sender) + last;
  }

  lemma SegmentsArePlain(sender: string, mac: string, route: string, sub: string)
    requires Plain(sender) && Plain(mac) && Plain(route)
    ensures forall i :: 0 <= i < 6 ==> Plain(Segments(sender, mac, route, sub)[i])
  {
  }

  lemma PiecesFit(sender: string, mac: string, route: string, sub: string)
    requires |sender| < TMP_SIZE && |route| < TMP_SIZE && |sub| < TMP_SIZE
    ensures var s := Segments(sender, mac, route, sub);
            FitsTmp(["/" + s[0]] + s[1..]) <==> |mac| < TMP_SIZE
  {
    var s := Segments(sender, mac, route, sub);
    var pieces := ["/" + s[0]] + s[1..];
    assert "/" + "dev" == "/dev";
    assert pieces == ["/dev", "aiot", sender, "el1", mac, route, sub];
    assert pieces[4] == mac;
  }

  lemma MacCode(mac: string)
    ensures TopicGetHead(mac, 4) == Code(41)
  {
  }

  /** What the seven segments mean: fixed codes, then the route's and the sub-route's own. */
  lemma TopicParses(sender: string, mac: string, route: string, sub: string)
    requires Plain(sender) && Plain(mac) && Plain(route)
    requires |sender| < TMP_SIZE && |route| < TMP_SIZE && |sub| < TMP_SIZE
    ensures var r := Slots(Base(sender) + mac + Suffix(route, sub));
            && (r.Some? <==> |mac| <= 19)
            && (r.Some? ==> r.value[1..] ==
                            [Code(11), TopicGetHead(sender, 2), Code(31), Code(41), TopicGetHead(route, 5),
                             TopicGetRoute(sub, TopicGetHead(route, 5))])
  {
    hide TopicGetHead, TopicGetRoute, Slots, FitsTmp, Join, Base, Suffix, Plain;
    var s := Segments(sender, mac, route, sub);
    TopicIsJoin(sender, mac, route, sub);
    DeclaredHeadCodes();
    MacCode(mac);
    SegmentsArePlain(sender, mac, route, sub);
    PiecesFit(sender, mac, route, sub);
    SlotsOfSegments(s);
  }

  ghost predicate DeclaredAt(route: string, sub: string, routeCode: int, subCode: int, i: nat, j: nat) {
    && i < |ROUTE_KEYS| && route == ROUTE_KEYS[i] && routeCode == ROUTE_CODES[i]
    && j < |SubKeys(routeCode)| && sub == SubKeys(routeCode)[j] && subCode == routeCode + 1 + j
  }

  /** `route` and `sub` are declared keywords, with codes `routeCode` and `subCode`. */
  ghost predicate Declared(route: string, sub: string, routeCode: int, subCode: int) {
    exists i: nat, j: nat :: DeclaredAt(route, sub, routeCode, subCode, i, j)
  }

  lemma DeclaredCodes(route: string, sub: string, routeCode: int, subCode: int)
    requires Declared(route, sub, routeCode, subCode)
    ensures TopicGetHead(route, 5) == Code(routeCode)
    ensures TopicGetRoute(sub, Code(routeCode)) == Code(subCode)
    ensures Plain(route) && |route| < TMP_SIZE && |sub| < TMP_SIZE
  {
    hide TopicGetHead, TopicGetRoute;
    var i: nat, j: nat :| DeclaredAt(route, sub, routeCode, subCode, i, j);
    DeclaredRouteCodes(i);
    DeclaredSubRouteCodes(routeCode, j);
  }

  /** Each subscribed suffix is a declared pair. */
  lemma SubscriptionIsDeclared(k: nat) returns (route: string, sub: string)
    requires k < |SUBSCRIPTIONS|
    ensures SUBSCRIPTIONS[k].0 == Suffix(route, sub)
    ensures Declared(route, sub, SUBSCRIPTIONS[k].1, SUBSCRIPTIONS[k].2)
  {
    assert Suffix("do", "light") == "/do/light" && Suffix("do", "lightStrength") == "/do/lightStrength";
    assert Suffix("config", "light") == "/config/light" && Suffix("info", "light") == "/info/light";
    assert Suffix("info", "lightStrength") == "/info/lightStrength" && Suffix("info", "exist") == "/info/exist";
    var i, j := [2, 2, 1, 3, 3, 3][k], [0, 1, 1, 0, 1, 2][k];
    route, sub := ROUTE_KEYS[i], SubKeys(ROUTE_CODES[i])[j];
    assert DeclaredAt(route, sub, SUBSCRIPTIONS[k].1, SUBSCRIPTIONS[k].2, i, j);
  }

  lemma PublicationIsDeclared(k: nat) returns (route: string, sub: string)
    requires k < |PUBLICATIONS|
    ensures PUBLICATIONS[k].0 == Suffix(route, sub)
    ensures Declared(route, sub, PUBLICATIONS[k].1, PUBLICATIONS[k].2)
  {
    assert Suffix("event", "existChange") == "/event/existChange" && Suffix("info", "light") == "/info/light";
    assert Suffix("info", "lightStrength") == "/info/lightStrength" && Suffix("info", "exist") == "/info/exist";
    var i, j := [4, 3, 3, 3][k], [0, 0, 1, 2][k];
    route, sub := ROUTE_KEYS[i], SubKeys(ROUTE_CODES[i])[j];
    assert DeclaredAt(route, sub, PUBLICATIONS[k].1, PUBLICATIONS[k].2, i, j);
  }

  lemma BasesOfSenders()
    ensures Base("s") == SUB_BASE && Base("d") == PUB_BASE
  {
  }

  // ---- reconnects

  function Repeat(mac: string, n: nat): (s: string)
    ensures |s| == n * |mac|
  {
    if n == 0 then "" else Repeat(mac, n - 1) + mac
  }

  lemma {:induction false} HeadIsBaseAndCopies(base: string, mac: string, connects: nat)
    ensures HeadAfter(base, mac, connects) == base + Repeat(mac, connects)
  {
    if connects > 0 {
      HeadIsBaseAndCopies(base, mac, connects - 1);
    }
  }

  lemma {:induction false} RepeatIsPlain(mac: string, n: nat)
    requires Plain(mac)
    ensures Plain(Repeat(mac, n))
  {
    if n > 0 {
      RepeatIsPlain(mac, n - 1);
    }
  }

  /** Heads grow by a MAC on every connect, so a topic has codes exactly up to the first one; until then they
      are the declared ones. */
  lemma RoundTrip(
      sender: string, mac: seq<Byte>, connects: nat, route: string, sub: string, routeCode: int, subCode: int)
    requires sender == "s" || sender == "d"
    requires |mac| == 6 && Declared(route, sub, routeCode, subCode)
    ensures var r := Slots(HeadAfter(Base(sender), HexText(mac), connects) + Suffix(route, sub));
            && (r.Some? <==> connects <= 1)
            && (r.Some? ==> r.value[1..] == [Code(11), Code(if sender == "s" then 21 else 22), Code(31), Code(41),
                                             Code(routeCode), Code(subCode)])
  {
    hide Slots, Declared, TopicGetHead, TopicGetRoute, HeadAfter, Base, Suffix, HexText;
    var text := HexText(mac);
    HexTextIsPlain(mac);
    RepeatIsPlain(text, connects);
    HeadIsBaseAndCopies(Base(sender), text, connects);
    DeclaredHeadCodes();
    DeclaredCodes(route, sub, routeCode, subCode);
    assert |Repeat(text, connects)| == 12 * connects;
    TopicParses(sender, Repeat(text, connects), route, sub);
  }

  /** A subscribed topic has codes, the ones declared for its suffix, exactly while at most one connect has happened. */
  lemma SubscribedTopicAfterConnects(mac: seq<Byte>, connects: nat, k: nat)
    requires |mac| == 6 && k < |SUBSCRIPTIONS|
    ensures var r := Slots(HeadAfter(SUB_BASE, HexText(mac), connects) + SUBSCRIPTIONS[k].0);
            && (r.Some? <==> connects <= 1)
            && (r.Some? ==>
                r.value[1..] ==
                [Code(11), Code(21), Code(31), Code(41), Code(SUBSCRIPTIONS[k].1), Code(SUBSCRIPTIONS[k].2)])
  {
    hide Slots, Declared, HeadAfter, Base, Suffix;
    var route, sub := SubscriptionIsDeclared(k);
    BasesOfSenders();
    RoundTrip("s", mac, connects, route, sub, SUBSCRIPTIONS[k].1, SUBSCRIPTIONS[k].2);
  }

  /** The same for what the device publishes on, with the device's sender code in slot 2. */
  lemma PublishedTopicAfterConnects(mac: seq<Byte>, connects: nat, k: nat)
    requires |mac| == 6 && k < |PUBLICATIONS|
    ensures var r := Slots(HeadAfter(PUB_BASE, HexText(mac), connects) + PUBLICATIONS[k].0);
            && (r.Some? <==> connects <= 1)
            && (r.Some? ==>
                r.value[1..] ==
                [Code(11), Code(22), Code(31), Code(41), Code(PUBLICATIONS[k].1), Code(PUBLICATIONS[k].2)])
  {
    hide Slots, Declared, HeadAfter, Base, Suffix;
    var route, sub := PublicationIsDeclared(k);
    BasesOfSenders();
    RoundTrip("d", mac, connects, route, sub, PUBLICATIONS[k].1, PUBLICATIONS[k].2);
  }

  /** The round trip: on the first connect every subscribed topic parses back to the codes declared for its suffix. */
  lemma SubscribedTopicRoundTrip(mac: seq<Byte>, k: nat)
    requires |mac| == 6 && k < |SUBSCRIPTIONS|
    ensures var r := Slots(HeadAfter(SUB_BASE, HexText(mac), 1) + SUBSCRIPTIONS[k].0);
            && r.Some?
            && r.value[1..] ==
               [Code(11), Code(21), Code(31), Code(41), Code(SUBSCRIPTIONS[k].1), Code(SUBSCRIPTIONS[k].2)]
  {
    hide Slots, HeadAfter, HexText;
    SubscribedTopicAfterConnects(mac, 1, k);
  }

  /** The declared pairs, written out with their codes. */
  const PAIRS: seq<(string, string, int, int)> := [
    ("config", "heartbeatGap", 130, 131), ("config", "light", 130, 132), ("config", "fail", 130, 133),
    ("do", "light", 150, 151), ("do", "lightStrength", 150, 152),
    ("info", "light", 170, 171), ("info", "lightStrength", 170, 172), ("info", "exist", 170, 173),
    ("event", "existChange", 190, 191)]

  lemma PairIsDeclared(k: nat)
    requires k < |PAIRS|
    ensures Declared(PAIRS[k].0, PAIRS[k].1, PAIRS[k].2, PAIRS[k].3)
  {
    var i, j := [1, 1, 1, 2, 2, 3, 3, 3, 4][k], [0, 1, 2, 0, 1, 0, 1, 2, 0][k];
    assert DeclaredAt(PAIRS[k].0, PAIRS[k].1, PAIRS[k].2, PAIRS[k].3, i, j);
  }

  lemma PartsOfText(sender: string, mac: string, route: string, sub: string)
    ensures HeadAfter(Base(sender), mac, 1) + Suffix(route, sub) ==
            "/dev/aiot/" + sender + "/el1/" + mac + "/" + route + "/" + sub
  {
    HeadSteps(Base(sender), mac, 0);
    hide HeadAfter;
  }

  /** The round trip on text: every topic of the protocol, as it is written, parses to the codes of the header file. */
  lemma TextRoundTrip(sender: string, mac: seq<Byte>, k: nat)
    requires sender == "s" || sender == "d"
    requires |mac| == 6 && k < |PAIRS|
    ensures var (route, sub, routeCode, subCode) := PAIRS[k];
            var r := Slots("/dev/aiot/" + sender + "/el1/" + HexText(mac) + "/" + route + "/" + sub);
            && r.Some?
            && r.value[1..] == [Code(11), Code(if sender == "s" then 21 else 22), Code(31), Code(41),
                                Code(routeCode), Code(subCode)]
  {
    hide Slots, HexText, PAIRS, Declared, HeadAfter, Base, Suffix;
    var (route, sub, routeCode, subCode) := PAIRS[k];
    PairIsDeclared(k);
    RoundTrip(sender, mac, 1, route, sub, routeCode, subCode);
    PartsOfText(sender, HexText(mac), route, sub);
  }

  // ---- the round trip through the code's own steps

  lemma HexTextIsNulFree(bytes: seq<Byte>)
    ensures NulFree(HexText(bytes))
  {
    var text := HexText(bytes);
    assert forall i :: 0 <= i < |text| ==> IsHexDigit(text[i]);
  }

  /** Print the MAC, start a client on it, connect, and parse what it subscribed to. */
  method ConnectAndParse(wifimac: array<Byte>, k: nat) returns (outcome: Outcome, codes: seq<Slot>)
    requires wifimac.Length == 6 && k < |SUBSCRIPTIONS|
    ensures outcome == Parsed && |codes| == 16
    ensures codes[1..7] ==
            [Code(11), Code(21), Code(31), Code(41), Code(SUBSCRIPTIONS[k].1), Code(SUBSCRIPTIONS[k].2)]
  {
    hide Slots, HexText, CStr, SUBSCRIPTIONS;
    var wifimacStr := new char[13];
    MakeWifiMacStr(wifimac, wifimacStr);
    HexTextIsNulFree(wifimac[..]);
    CStrOfTerminated(wifimacStr[..], HexText(wifimac[..]));
    var client := new MqttClient(CStr(wifimacStr[..]));
    client.Connected();
    HeadSteps(SUB_BASE, client.mac, 0);
    SubscribedTopicRoundTrip(wifimac[..], k);
    var topicRec := new Slot[16](_ => Code(0));
    outcome := MqttTopicRes(client.subscribed[k], topicRec);
    codes := topicRec[..];
    assert codes[..SLOT_COUNT][1..] == codes[1..7];
  }

  /** Distinct MACs never share a topic head. */
  lemma HeadsAreDistinct(a: seq<Byte>, b: seq<Byte>)
    requires |a| == |b| == 6 && a != b
    ensures HeadAfter(SUB_BASE, HexText(a), 1) != HeadAfter(SUB_BASE, HexText(b), 1)
    ensures HeadAfter(PUB_BASE, HexText(a), 1) != HeadAfter(PUB_BASE, HexText(b), 1)
  {
    var s, t := HexText(a), HexText(b);
    if s == t {
      HexTextInjective(a, b);
    }
    assert (SUB_BASE + s)[|SUB_BASE|..] == s && (SUB_BASE + t)[|SUB_BASE|..] == t;
    assert (PUB_BASE + s)[|PUB_BASE|..] == s && (PUB_BASE + t)[|PUB_BASE|..] == t;
    assert HeadAfter(SUB_BASE, s, 1) == SUB_BASE + s && HeadAfter(SUB_BASE, t, 1) == SUB_BASE + t;
    assert HeadAfter(PUB_BASE, s, 1) == PUB_BASE + s && HeadAfter(PUB_BASE, t, 1) == PUB_BASE + t;
  }
}
