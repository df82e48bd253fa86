/** The topic tables of mqtt_work.h and the numeric codes the lookups give. */
module TopicCodes {
  import opened Options
  import opened CStrings
  import opened TopicTable

  const ENV_LEN := 5
  const NAMESPACE_LEN := 5
  const SENDP_LEN := 10
  const MODEL_LEN := 10
  const ROUTE_LEN := 10
  const SUBROUTE_LEN := 15

  const ENV_LIST := Table(["dev**", "test*", "pre**", "prod*"], ENV_LEN)
  const NAMESPACE_LIST := Table(["aiot**"], NAMESPACE_LEN)
  const SENDP_LIST := Table(["server****", "device****"], SENDP_LEN)
  const MODEL_LIST := Table(["el1*******"], MODEL_LEN)
  const ROUTE_LIST := Table(["heartbeat*", "config****", "do********", "info******", "event*****"], ROUTE_LEN)
  const CONFIG_LIST := Table(["heartbeatGap***", "light**********", "fail***********"], SUBROUTE_LEN)
  const DO_LIST := Table(["light**********", "lightStrength**"], SUBROUTE_LEN)
  const INFO_LIST := Table(["light**********", "lightStrength**", "exist**********"], SUBROUTE_LEN)
  const EVENT_LIST := Table(["existChange****"], SUBROUTE_LEN)

  const A_ENV := 0
  const B_NAMESPACE := 10
  const C_SENDP := 20
  const D_MODEL := 30
  const E_MACID := 41
  const ROUTE := 90
  const ROUTE_CONFIG := 130
  const ROUTE_DO := 150
  const ROUTE_INFO := 170
  const ROUTE_EVENT := 190

  /** One entry of the code array. Undefined: the search missed, and C computes with a null pointer. */
  datatype Slot = Code(value: int) | Undefined

  // -1 stored in a uint16_t
  const NO_CODE := Code(65535)

  function CodeOf(row: Option<nat>, base: int): Slot {
    match row
    case None => Undefined
    case Some(i) => Code(i + base + 1)
  }

  function RouteCodeOf(row: Option<nat>): Slot {
    match row
    case None => Undefined
    case Some(i) => Code((i + 1) * 20 + ROUTE)
  }

  /** topic_get_head: the code of segment number n. */
  function TopicGetHead(segment: string, n: nat): Slot {
    match n
    case 0 => CodeOf(Lookup(ENV_LIST, ENV_LEN, segment), A_ENV)
    case 1 => CodeOf(Lookup(NAMESPACE_LIST, NAMESPACE_LEN, segment), B_NAMESPACE)
    case 2 => CodeOf(Lookup(SENDP_LIST, SENDP_LEN, segment), C_SENDP)
    case 3 => CodeOf(Lookup(MODEL_LIST, MODEL_LEN, segment), D_MODEL)
    case 4 => Code(E_MACID)
    case 5 => RouteCodeOf(Lookup(ROUTE_LIST, ROUTE_LEN, segment))
    case _ => NO_CODE
  }

  /** topic_get_route: the code of the last piece, under the route found in slot 5. */
  function TopicGetRoute(segment: string, root: Slot): Slot {
    match root
    case Undefined => Undefined
    case Code(route) =>
      if route == ROUTE_CONFIG then CodeOf(Lookup(CONFIG_LIST, SUBROUTE_LEN, segment), route)
      else if route == ROUTE_DO then CodeOf(Lookup(DO_LIST, SUBROUTE_LEN, segment), route)
      else if route == ROUTE_INFO then CodeOf(Lookup(INFO_LIST, SUBROUTE_LEN, segment), route)
      else if route == ROUTE_EVENT then CodeOf(Lookup(EVENT_LIST, SUBROUTE_LEN, segment), route)
      else NO_CODE
  }

  // ---- the declared keywords and codes

  const ENV_KEYS := ["dev", "test", "pre", "prod"]
  const NAMESPACE_KEYS := ["aiot"]
  const SENDP_KEYS := ["server", "device"]
  const MODEL_KEYS := ["el1"]
  const ROUTE_KEYS := ["heartbeat", "config", "do", "info", "event"]
  const CONFIG_KEYS := ["heartbeatGap", "light", "fail"]
  const DO_KEYS := ["light", "lightStrength"]
  const INFO_KEYS := ["light", "lightStrength", "exist"]
  const EVENT_KEYS := ["existChange"]

  lemma {:induction false} TableIsPacked(literals: seq<string>, width: nat, keys: seq<string>)
    requires |literals| == |keys|
    requires forall i :: 0 <= i < |keys| ==> Padded(Row(literals[i], width), keys[i])
    ensures Packed(Table(literals, width), width, keys)
  {
    if keys != [] {
      var text := Table(literals, width);
      TableIsPacked(literals[1..], width, keys[1..]);
      assert text[..width] == Row(literals[0], width);
      assert text[width..] == Table(literals[1..], width);
    }
  }

  lemma EnvSearch(needle: string)
    requires needle != "" && StarFree(needle)
    ensures Lookup(ENV_LIST, ENV_LEN, needle) == FirstContaining(ENV_KEYS, needle)
  {
    TableIsPacked(["dev**", "test*", "pre**", "prod*"], ENV_LEN, ENV_KEYS);
    LookupIsFirstKeyword(ENV_LIST, ENV_LEN, ENV_KEYS, needle);
  }

  lemma NamespaceSearch(needle: string)
    requires needle != "" && StarFree(needle)
    ensures Lookup(NAMESPACE_LIST, NAMESPACE_LEN, needle) == FirstContaining(NAMESPACE_KEYS, needle)
  {
    TableIsPacked(["aiot**"], NAMESPACE_LEN, NAMESPACE_KEYS);
    LookupIsFirstKeyword(NAMESPACE_LIST, NAMESPACE_LEN, NAMESPACE_KEYS, needle);
  }

  lemma SendpSearch(needle: string)
    requires needle != "" && StarFree(needle)
    ensures Lookup(SENDP_LIST, SENDP_LEN, needle) == FirstContaining(SENDP_KEYS, needle)
  {
    TableIsPacked(["server****", "device****"], SENDP_LEN, SENDP_KEYS);
    LookupIsFirstKeyword(SENDP_LIST, SENDP_LEN, SENDP_KEYS, needle);
  }

  lemma ModelSearch(needle: string)
    requires needle != "" && StarFree(needle)
    ensures Lookup(MODEL_LIST, MODEL_LEN, needle) == FirstContaining(MODEL_KEYS, needle)
  {
    TableIsPacked(["el1*******"], MODEL_LEN, MODEL_KEYS);
    LookupIsFirstKeyword(MODEL_LIST, MODEL_LEN, MODEL_KEYS, needle);
  }

  lemma RouteSearch(needle: string)
    requires needle != "" && StarFree(needle)
    ensures Lookup(ROUTE_LIST, ROUTE_LEN, needle) == FirstContaining(ROUTE_KEYS, needle)
  {
    TableIsPacked(["heartbeat*", "config****", "do********", "info******", "event*****"], ROUTE_LEN, ROUTE_KEYS);
    LookupIsFirstKeyword(ROUTE_LIST, ROUTE_LEN, ROUTE_KEYS, needle);
  }

  lemma ConfigSearch(needle: string)
    requires needle != "" && StarFree(needle)
    ensures Lookup(CONFIG_LIST, SUBROUTE_LEN, needle) == FirstContaining(CONFIG_KEYS, needle)
  {
    TableIsPacked(["heartbeatGap***", "light**********", "fail***********"], SUBROUTE_LEN, CONFIG_KEYS);
    LookupIsFirstKeyword(CONFIG_LIST, SUBROUTE_LEN, CONFIG_KEYS, needle);
  }

  lemma DoSearch(needle: string)
    requires needle != "" && StarFree(needle)
    ensures Lookup(DO_LIST, SUBROUTE_LEN, needle) == FirstContaining(DO_KEYS, needle)
  {
    TableIsPacked(["light**********", "lightStrength**"], SUBROUTE_LEN, DO_KEYS);
    LookupIsFirstKeyword(DO_LIST, SUBROUTE_LEN, DO_KEYS, needle);
  }

  lemma InfoSearch(needle: string)
    requires needle != "" && StarFree(needle)
    ensures Lookup(INFO_LIST, SUBROUTE_LEN, needle) == FirstContaining(INFO_KEYS, needle)
  {
    TableIsPacked(["light**********", "lightStrength**", "exist**********"], SUBROUTE_LEN, INFO_KEYS);
    LookupIsFirstKeyword(INFO_LIST, SUBROUTE_LEN, INFO_KEYS, needle);
  }

  lemma EventSearch(needle: string)
    requires needle != "" && StarFree(needle)
    ensures Lookup(EVENT_LIST, SUBROUTE_LEN, needle) == FirstContaining(EVENT_KEYS, needle)
  {
    TableIsPacked(["existChange****"], SUBROUTE_LEN, EVENT_KEYS);
    LookupIsFirstKeyword(EVENT_LIST, SUBROUTE_LEN, EVENT_KEYS, needle);
  }

  /** Every head lookup is a plain keyword search, whatever '*'-free text is looked up. */
  lemma HeadCodesAreKeywordSearches(needle: string)
    requires needle != "" && StarFree(needle)
    ensures TopicGetHead(needle, 0) == CodeOf(FirstContaining(ENV_KEYS, needle), A_ENV)
    ensures TopicGetHead(needle, 1) == CodeOf(FirstContaining(NAMESPACE_KEYS, needle), B_NAMESPACE)
    ensures TopicGetHead(needle, 2) == CodeOf(FirstContaining(SENDP_KEYS, needle), C_SENDP)
    ensures TopicGetHead(needle, 3) == CodeOf(FirstContaining(MODEL_KEYS, needle), D_MODEL)
    ensures TopicGetHead(needle, 5) == RouteCodeOf(FirstContaining(ROUTE_KEYS, needle))
  {
    hide ENV_LIST, NAMESPACE_LIST, SENDP_LIST, MODEL_LIST, ROUTE_LIST, Lookup, FirstContaining, StarFree;
    hide ENV_KEYS, NAMESPACE_KEYS, SENDP_KEYS, MODEL_KEYS, ROUTE_KEYS;
    EnvSearch(needle);
    NamespaceSearch(needle);
    SendpSearch(needle);
    ModelSearch(needle);
    RouteSearch(needle);
  }

  /** The sub-route keywords declared under a route. */
  function SubKeys(route: int): seq<string> {
    if route == ROUTE_CONFIG then CONFIG_KEYS
    else if route == ROUTE_DO then DO_KEYS
    else if route == ROUTE_INFO then INFO_KEYS
    else if route == ROUTE_EVENT then EVENT_KEYS
    else []
  }

  lemma SubRouteCodesAreKeywordSearches(needle: string, route: int)
    requires needle != "" && StarFree(needle) && SubKeys(route) != []
    ensures TopicGetRoute(needle, Code(route)) == CodeOf(FirstContaining(SubKeys(route), needle), route)
  {
    hide CONFIG_LIST, DO_LIST, INFO_LIST, EVENT_LIST, Lookup, FirstContaining, StarFree;
    if route == ROUTE_CONFIG {
      ConfigSearch(needle);
    } else if route == ROUTE_DO {
      DoSearch(needle);
    } else if route == ROUTE_INFO {
      InfoSearch(needle);
    } else {
      EventSearch(needle);
    }
  }

  lemma NotWithin(key: string, needle: string)
    requires needle != ""
    requires forall p :: 0 <= p < |key| && p + |needle| <= |key| && key[p] == needle[0] ==>
                           key[p + |needle| - 1] != needle[|needle| - 1]
    ensures StrStr(key, needle).None?
  {
    forall p: int ensures !OccursAt(key, needle, p) {
      if 0 <= p && p + |needle| <= |key| {
        assert key[p..p + |needle|][0] == key[p];
        assert key[p..p + |needle|][|needle| - 1] == key[p + |needle| - 1];
      }
    }
  }

  lemma FoundInItself(key: string)
    ensures StrStr(key, key).Some?
  {
    assert OccursAt(key, key, 0);
  }

  /** A keyword finds its own row when no earlier keyword contains it. */
  lemma KeywordFindsItself(keys: seq<string>, i: nat)
    requires i < |keys|
    requires forall j :: 0 <= j < i ==> StrStr(keys[j], keys[i]).None?
    ensures FirstContaining(keys, keys[i]) == Some(i)
  {
    hide StrStr, OccursAt, FirstContaining;
    FoundInItself(keys[i]);
  }

  lemma RouteKeysFindThemselves(i: nat)
    requires i < |ROUTE_KEYS|
    ensures FirstContaining(ROUTE_KEYS, ROUTE_KEYS[i]) == Some(i)
  {
    forall j | 0 <= j < i ensures StrStr(ROUTE_KEYS[j], ROUTE_KEYS[i]).None? {
      NotWithin(ROUTE_KEYS[j], ROUTE_KEYS[i]);
    }
    KeywordFindsItself(ROUTE_KEYS, i);
  }

  lemma SubKeysFindThemselves(route: int, i: nat)
    requires i < |SubKeys(route)|
    ensures FirstContaining(SubKeys(route), SubKeys(route)[i]) == Some(i)
  {
    var keys := SubKeys(route);
    forall j | 0 <= j < i ensures StrStr(keys[j], keys[i]).None? {
      NotWithin(keys[j], keys[i]);
    }
    KeywordFindsItself(keys, i);
  }

  const ROUTE_CODES := [110, 130, 150, 170, 190]

  lemma DeclaredRouteCodes(i: nat)
    requires i < |ROUTE_KEYS|
    ensures TopicGetHead(ROUTE_KEYS[i], 5) == Code(ROUTE_CODES[i])
  {
    hide Lookup, FirstContaining, StrStr, TopicGetHead;
    RouteKeysFindThemselves(i);
    HeadCodesAreKeywordSearches(ROUTE_KEYS[i]);
  }

  /** Sub-route codes are the route's code plus 1, 2, ... in declaration order. */
  lemma DeclaredSubRouteCodes(route: int, i: nat)
    requires i < |SubKeys(route)|
    ensures TopicGetRoute(SubKeys(route)[i], Code(route)) == Code(route + 1 + i)
  {
    hide Lookup, FirstContaining, StrStr, TopicGetRoute;
    SubKeysFindThemselves(route, i);
    SubRouteCodesAreKeywordSearches(SubKeys(route)[i], route);
  }

  /** "s" and "d" abbreviate the two senders. */
  lemma SenderLetters()
    ensures FirstContaining(SENDP_KEYS, "s") == Some(0)
    ensures FirstContaining(SENDP_KEYS, "d") == Some(1)
  {
    assert OccursAt("server", "s", 0);
    NotWithin("server", "d");
    assert OccursAt("device", "d", 0);
  }

  /** The fixed part of every topic: environment, namespace, sender and model. */
  lemma DeclaredHeadCodes()
    ensures TopicGetHead("aiot", 1) == Code(11)
    ensures TopicGetHead("s", 2) == Code(21) && TopicGetHead("d", 2) == Code(22)
    ensures TopicGetHead("el1", 3) == Code(31)
  {
    hide Lookup, FirstContaining, StrStr;
    assert TopicGetHead("aiot", 1) == Code(11) by {
      KeywordFindsItself(NAMESPACE_KEYS, 0);
      NamespaceSearch(NAMESPACE_KEYS[0]);
    }
    assert TopicGetHead("s", 2) == Code(21) && TopicGetHead("d", 2) == Code(22) by {
      SenderLetters();
      SendpSearch("s");
      SendpSearch("d");
    }
    assert TopicGetHead("el1", 3) == Code(31) by {
      KeywordFindsItself(MODEL_KEYS, 0);
      ModelSearch(MODEL_KEYS[0]);
    }
  }

  /** The codes of a search over keywords numbered from `first` in steps of `step`. */
  function Numbered(row: Option<nat>, first: int, step: int): Slot {
    match row
    case None => Undefined
    case Some(i) => Code(first + step * i)
  }

  /** The head tables in full: what each segment is looked up in, and the codes of the rows. */
  lemma HeadTablesInFull(needle: string)
    requires needle != "" && StarFree(needle)
    ensures TopicGetHead(needle, 0) == Numbered(FirstContaining(["dev", "test", "pre", "prod"], needle), 1, 1)
    ensures TopicGetHead(needle, 1) == Numbered(FirstContaining(["aiot"], needle), 11, 1)
    ensures TopicGetHead(needle, 2) == Numbered(FirstContaining(["server", "device"], needle), 21, 1)
    ensures TopicGetHead(needle, 3) == Numbered(FirstContaining(["el1"], needle), 31, 1)
    ensures TopicGetHead(needle, 5) ==
            Numbered(FirstContaining(["heartbeat", "config", "do", "info", "event"], needle), 110, 20)
  {
    hide FirstContaining, StarFree, TopicGetHead, StrStr;
    HeadCodesAreKeywordSearches(needle);
  }

  /** The sub-route tables in full, under the code of their route. */
  lemma SubRouteTablesInFull(needle: string)
    requires needle != "" && StarFree(needle)
    ensures TopicGetRoute(needle, Code(130)) ==
            Numbered(FirstContaining(["heartbeatGap", "light", "fail"], needle), 131, 1)
    ensures TopicGetRoute(needle, Code(150)) == Numbered(FirstContaining(["light", "lightStrength"], needle), 151, 1)
    ensures TopicGetRoute(needle, Code(170)) ==
            Numbered(FirstContaining(["light", "lightStrength", "exist"], needle), 171, 1)
    ensures TopicGetRoute(needle, Code(190)) == Numbered(FirstContaining(["existChange"], needle), 191, 1)
  {
    hide FirstContaining, StarFree, TopicGetRoute, StrStr;
    SubRouteCodesAreKeywordSearches(needle, 130);
    SubRouteCodesAreKeywordSearches(needle, 150);
    SubRouteCodesAreKeywordSearches(needle, 170);
    SubRouteCodesAreKeywordSearches(needle, 190);
  }
}
