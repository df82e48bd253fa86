/** The station attempt: the WiFi event handler with its retry counter, and the wait for its verdict. */
module WifiStation {
  import opened Options
  import opened ErrMark

  datatype StaEvent = StaStart | Disconnected | GotIp

  const MAXIMUM_RETRY := 5

  function Count(events: seq<StaEvent>, e: StaEvent): nat {
    if events == [] then 0 else Count(events[..|events| - 1], e) + if events[|events| - 1] == e then 1 else 0
  }

  /** The events after the last GotIp, or all of them. */
  function SinceGotIp(events: seq<StaEvent>): seq<StaEvent> {
    if events == [] || events[|events| - 1] == GotIp then []
    else SinceGotIp(events[..|events| - 1]) + [events[|events| - 1]]
  }

  function Min(a: int, b: int): int {
    if a <= b then a else b
  }

  /** The retries the counter holds: disconnects since the last GotIp or since the counter started, capped. */
  function Retries(start: nat, events: seq<StaEvent>): int {
    Min(MAXIMUM_RETRY, (if GotIp in events then 0 else start) + Count(SinceGotIp(events), Disconnected))
  }

  /** What the attempt reports once its wait is over; nothing while neither bit is set. */
  function Verdict(start: nat, events: seq<StaEvent>): Option<YmErr> {
    if GotIp in events then Some(YmOk)
    else if start + Count(events, Disconnected) > MAXIMUM_RETRY then Some(StaConnectFail)
    else None
  }

  lemma {:induction false} SinceGotIpIsAll(events: seq<StaEvent>)
    requires GotIp !in events
    ensures SinceGotIp(events) == events
  {
    if events != [] {
      SinceGotIpIsAll(events[..|events| - 1]);
    }
  }

  lemma NothingYet(start: nat)
    ensures Retries(start, []) == Min(MAXIMUM_RETRY, start)
    ensures forall e :: Count([], e) == 0
  {
  }

  lemma CountOneMore(events: seq<StaEvent>, e: StaEvent, x: StaEvent)
    ensures Count(events + [e], x) == Count(events, x) + if x == e then 1 else 0
  {
    assert (events + [e])[..|events|] == events;
  }

  lemma SinceOneMore(events: seq<StaEvent>, e: StaEvent)
    ensures SinceGotIp(events + [e]) == if e == GotIp then [] else SinceGotIp(events) + [e]
  {
    assert (events + [e])[..|events|] == events;
  }

  lemma RetriesOneMore(start: nat, events: seq<StaEvent>, e: StaEvent)
    ensures Retries(start, events + [e]) ==
            match e case StaStart => Retries(start, events) case GotIp => 0
                    case Disconnected => Min(MAXIMUM_RETRY, Retries(start, events) + 1)
  {
    NothingYet(start);
    hide Count, SinceGotIp;
    SinceOneMore(events, e);
    CountOneMore(SinceGotIp(events), e, Disconnected);
  }

  lemma OneMore(start: nat, events: seq<StaEvent>, e: StaEvent)
    ensures var more := events + [e];
            && (forall x :: Count(more, x) == Count(events, x) + if x == e then 1 else 0)
            && (GotIp in more <==> GotIp in events || e == GotIp)
            && Retries(start, more) ==
               (match e case StaStart => Retries(start, events) case GotIp => 0
                        case Disconnected => Min(MAXIMUM_RETRY, Retries(start, events) + 1))
            && (GotIp !in events ==> Retries(start, events) == Min(MAXIMUM_RETRY, start + Count(events, Disconnected)))
  {
    hide Count, SinceGotIp;
    assert GotIp !in events ==> Retries(start, events) == Min(MAXIMUM_RETRY, start + Count(events, Disconnected)) by {
      if GotIp !in events {
        SinceGotIpIsAll(events);
      }
    }
    hide Retries;
    forall x ensures Count(events + [e], x) == Count(events, x) + if x == e then 1 else 0 {
      CountOneMore(events, e, x);
    }
    RetriesOneMore(start, events, e);
  }

  class StaDriver {
    var retryNum: nat
    var connected: bool
    var failed: bool
    var connectCalls: nat

    /** The static counter starts at zero on every boot. */
    constructor ()
      ensures retryNum == 0 && connectCalls == 0 && !connected && !failed
    {
      retryNum, connected, failed, connectCalls := 0, false, false, 0;
    }

    method HandleEvent(e: StaEvent)
      modifies this
      ensures retryNum == match e case StaStart => old(retryNum) case GotIp => 0
                                  case Disconnected => if old(retryNum) < MAXIMUM_RETRY then old(retryNum) + 1 else old(retryNum)
      ensures connected == (old(connected) || e == GotIp)
      ensures failed == (old(failed) || (e == Disconnected && old(retryNum) >= MAXIMUM_RETRY))
      ensures connectCalls == old(connectCalls) +
              if e == StaStart || (e == Disconnected && old(retryNum) < MAXIMUM_RETRY) then 1 else 0
    {
      if e == StaStart {
        connectCalls := connectCalls + 1;
      } else if e == Disconnected {
        if retryNum < MAXIMUM_RETRY {
          connectCalls := connectCalls + 1;
          retryNum := retryNum + 1;
        } else {
          failed := true;
        }
      } else {
        retryNum := 0;
        connected := true;
      }
    }

    /** wifi_init_sta: fresh event bits, then the events delivered until the waiting task looks at the bits. */
    method WifiInitSta(events: seq<StaEvent>) returns (r: Option<YmErr>)
      requires retryNum <= MAXIMUM_RETRY
      modifies this
      ensures r == Verdict(old(retryNum), events)
      ensures retryNum == Retries(old(retryNum), events)
      ensures GotIp !in events ==>
                connectCalls == old(connectCalls) + Count(events, StaStart) + (retryNum - old(retryNum))
    {
      hide Count, SinceGotIp, Retries;
      connected, failed := false, false;
      NothingYet(retryNum);
      assert events[..0] == [];
      ghost var start, calls := retryNum, connectCalls;
      var i := 0;
      while i < |events|
        invariant 0 <= i <= |events|
        invariant retryNum == Retries(start, events[..i]) <= MAXIMUM_RETRY
        invariant connected == (GotIp in events[..i])
        invariant !connected ==> failed == (start + Count(events[..i], Disconnected) > MAXIMUM_RETRY)
        invariant !connected ==> connectCalls == calls + Count(events[..i], StaStart) + (retryNum - start)
      {
        var e := events[i];
        OneMore(start, events[..i], e);
        HandleEvent(e);
        assert events[..i + 1] == events[..i] + [e];
        i := i + 1;
      }
      assert events[..|events|] == events;
      if connected {
        return Some(YmOk);
      } else if failed {
        return Some(StaConnectFail);
      }
      return None;
    }
  }
}
