/** radar_data_process and the publisher of presence changes. */
module RadarDecoder {
  import opened Options
  import opened MacAddress
  import opened TopicMaker

  const RD_BUF_SIZE := 1024
  const MAN_IS_NOT_EXIST := 0
  const MAN_IS_EXIST := 1

  /** What the radar told us. */
  datatype Sensor = Sensor(manExist: int, manMove: int, manMoveTo: int)

  /** What a buffer reports, wherever in it the report stood. */
  datatype Report = Nothing | Presence(b: Byte) | Motion(b: Byte) | SomeoneThere | Bearing(b: Byte)

  // ---- what a buffer reports

  /** A report's body: length 00 01, then one byte of data. */
  predicate BodyAt(f: seq<Byte>, q: nat)
    requires q + 2 < |f|
  {
    f[q] == 0x00 && f[q + 1] == 0x01
  }

  /** Where the 0x80 mark is looked for: one place later when the byte after the first is 0x53. */
  function MarkAt(f: seq<Byte>): nat
    requires |f| >= 10
  {
    if f[1] == 0x53 then 3 else 2
  }

  function MotionAt(f: seq<Byte>, q: nat): Report
    requires q + 2 < |f|
  {
    if BodyAt(f, q) then Motion(f[q + 2]) else Nothing
  }

  function ReportIn(f: seq<Byte>): Report
    requires |f| >= 10
  {
    var mark := MarkAt(f);
    var q := mark + 2;
    if f[mark] != 0x80 then Nothing
    else if f[mark + 1] == 0x01 then
      // a presence report with a bad length is read on as a motion report from where the pointer stopped
      if BodyAt(f, q) then Presence(f[q + 2])
      else MotionAt(f, if f[q] == 0x00 then q + 2 else q + 1)
    else if f[mark + 1] == 0x02 then MotionAt(f, q)
    else if f[mark + 1] == 0x03 then SomeoneThere
    else if f[mark + 1] == 0x0b && BodyAt(f, q) then Bearing(f[q + 2])
    else Nothing
  }

  /** The presence value a report carries, if it carries one. */
  function ExistIn(r: Report): Option<int> {
    match r
    case Nothing => None
    case Presence(b) => Some(b)
    case SomeoneThere => Some(MAN_IS_EXIST)
    case Motion(b) => Some(if b == 0 then MAN_IS_NOT_EXIST else MAN_IS_EXIST)
    case Bearing(b) => Some(if b == 0 then MAN_IS_NOT_EXIST else MAN_IS_EXIST)
  }

  function Apply(s: Sensor, r: Report): Sensor {
    Sensor(
      ExistIn(r).GetOr(s.manExist),
      if r.Motion? && r.b != 0 then r.b else s.manMove,
      if r.Bearing? && r.b != 0 then r.b else s.manMoveTo)
  }

  /** The presence values a report makes the device announce: its own, when it is news. */
  function Announces(s: Sensor, r: Report): seq<int> {
    if ExistIn(r).Some? && ExistIn(r).value != s.manExist then [ExistIn(r).value] else []
  }

  /** The presence messages that announce these values. */
  function ExistChanges(pubHead: string, values: seq<int>): (messages: seq<Publish>)
    ensures |messages| == |values|
  {
    seq(|values|, i requires 0 <= i < |values| =>
      Publish(pubHead + "/event/existChange", Object([("exist", values[i]), ("time", 6666)])))
  }

  /** The zero-filled buffer with the received bytes in front. */
  function Padded(data: seq<Byte>): (f: seq<Byte>)
    requires |data| <= RD_BUF_SIZE
    ensures |f| == RD_BUF_SIZE
  {
    data + seq(RD_BUF_SIZE - |data|, _ => 0)
  }

  // ---- the code

  lemma NothingDoesNothing(s: Sensor)
    ensures Apply(s, Nothing) == s && Announces(s, Nothing) == []
  {
  }

  class Radar {
    const client: MqttClient
    var manExist: int
    var manMove: int
    var manMoveTo: int

    function State(): Sensor
      reads this
    {
      Sensor(manExist, manMove, manMoveTo)
    }

    constructor (client: MqttClient)
      ensures State() == Sensor(0, 0, 0) && this.client == client
    {
      this.client := client;
      manExist, manMove, manMoveTo := 0, 0, 0;
    }

    method ManExistChangePro(manExistOld: int, manExistIn: int)
      requires client.Valid() && client.HasRoom()
      modifies client`published, client.topicTemp
      ensures client.published ==
              old(client.published) +
              ExistChanges(client.pubHead, if manExistOld != manExistIn then [manExistIn] else [])
    {
      if manExistOld != manExistIn {
        client.PublishOn("/event/existChange", Object([("exist", manExistIn), ("time", 6666)]));
      }
    }

    /** The pair of statements every report ends in: announce the news, then take it over. */
    method SetExist(exist: int)
      requires client.Valid() && client.HasRoom()
      modifies this`manExist, client`published, client.topicTemp
      ensures manExist == exist
      ensures client.published ==
              old(client.published) + ExistChanges(client.pubHead, if old(manExist) != exist then [exist] else [])
    {
      ManExistChangePro(manExist, exist);
      manExist := exist;
    }

    /** What the end of each case does with the byte it has reached. */
    method Take(r: Report)
      requires r != Nothing && client.Valid() && client.HasRoom()
      modifies this, client`published, client.topicTemp
      ensures State() == Apply(old(State()), r)
      ensures client.published == old(client.published) + ExistChanges(client.pubHead, Announces(old(State()), r))
    {
      match r
      case Presence(b) => SetExist(b);
      case SomeoneThere => SetExist(MAN_IS_EXIST);
      case Motion(b) =>
        if b == MAN_IS_NOT_EXIST {
          SetExist(MAN_IS_NOT_EXIST);
        } else {
          SetExist(MAN_IS_EXIST);
          manMove := b;
        }
      case Bearing(b) =>
        if b == MAN_IS_NOT_EXIST {
          SetExist(MAN_IS_NOT_EXIST);
        } else {
          SetExist(MAN_IS_EXIST);
          manMoveTo := b;
        }
    }

    /** Every read is at index 9 or below. */
    method RadarDataProcess(dtmp: array<Byte>)
      requires dtmp.Length >= 10 && client.Valid() && client.HasRoom()
      modifies this, client`published, client.topicTemp
      ensures State() == Apply(old(State()), ReportIn(dtmp[..]))
      ensures client.published ==
              old(client.published) + ExistChanges(client.pubHead, Announces(old(State()), ReportIn(dtmp[..])))
    {
      hide HeadAfter, NulFree, ExistChanges, Apply, Announces, ExistIn;
      NothingDoesNothing(State());
      var p := 1;
      p := p + 1;
      if dtmp[p - 1] == 0x53 {
        p := p + 1;
        // the 0x59 test only decides whether a log line is written
      }
      p := p + 1;
      if dtmp[p - 1] == 0x80 {
        p := p + 1;
        var command := dtmp[p - 1];
        if command == 0x01 {
          p := p + 1;
          if dtmp[p - 1] == 0x00 {
            p := p + 1;
            if dtmp[p - 1] == 0x01 {
              Take(Presence(dtmp[p]));
              return;
            }
          }
        }
        if command == 0x01 || command == 0x02 {
          p := p + 1;
          if dtmp[p - 1] == 0x00 {
            p := p + 1;
            if dtmp[p - 1] == 0x01 {
              Take(Motion(dtmp[p]));
              return;
            }
          }
        } else if command == 0x03 {
          Take(SomeoneThere);
        } else if command == 0x0b {
          p := p + 1;
          if dtmp[p - 1] == 0x00 {
            p := p + 1;
            if dtmp[p - 1] == 0x01 {
              Take(Bearing(dtmp[p]));
              return;
            }
          }
        }
      }
    }

    /** The UART_DATA arm: clear the buffer, read the bytes, decode. */
    method UartData(data: seq<Byte>)
      requires |data| <= RD_BUF_SIZE && client.Valid() && client.HasRoom()
      modifies this, client`published, client.topicTemp
      ensures State() == Apply(old(State()), ReportIn(Padded(data)))
      ensures client.published ==
              old(client.published) + ExistChanges(client.pubHead, Announces(old(State()), ReportIn(Padded(data))))
    {
      var dtmp := new Byte[RD_BUF_SIZE](_ => 0);
      forall i | 0 <= i < |data| {
        dtmp[i] := data[i];
      }
      assert dtmp[..] == Padded(data);
      RadarDataProcess(dtmp);
    }
  }

  // ---- what the decoder keeps

  /** Only the first ten bytes of a buffer matter. */
  lemma TenBytesDecide(f: seq<Byte>, g: seq<Byte>)
    requires |f| >= 10 && |g| >= 10 && f[..10] == g[..10]
    ensures ReportIn(f) == ReportIn(g)
  {
    assert forall i :: 0 <= i < 10 ==> f[i] == f[..10][i] == g[..10][i] == g[i];
  }

  /** A frame that starts 53 59 80 reports the same when one stray byte precedes it, whatever follows. */
  lemma OneStrayByte(frame: seq<Byte>, stray: Byte)
    requires 3 <= |frame| < RD_BUF_SIZE && frame[..3] == [0x53, 0x59, 0x80]
    ensures ReportIn(Padded([stray] + frame)) == ReportIn(Padded(frame))
  {
    var f, g := Padded(frame), Padded([stray] + frame);
    assert frame[0] == frame[..3][0] && frame[1] == frame[..3][1] && frame[2] == frame[..3][2];
    assert forall i :: 0 <= i < RD_BUF_SIZE - 1 ==> g[i + 1] == f[i];
  }

  // ---- runs

  predicate AllFit(frames: seq<seq<Byte>>) {
    forall i :: 0 <= i < |frames| ==> |frames[i]| <= RD_BUF_SIZE
  }

  function Sense(s: Sensor, frames: seq<seq<Byte>>): Sensor
    requires AllFit(frames)
  {
    if frames == [] then s
    else Apply(Sense(s, frames[..|frames| - 1]), ReportIn(Padded(frames[|frames| - 1])))
  }

  /** The presence values announced over a run. */
  function Announcements(s: Sensor, frames: seq<seq<Byte>>): seq<int>
    requires AllFit(frames)
  {
    if frames == [] then []
    else
      var front := frames[..|frames| - 1];
      Announcements(s, front) + Announces(Sense(s, front), ReportIn(Padded(frames[|frames| - 1])))
  }

  /** The presence value before the run and after each of its buffers. */
  function History(s: Sensor, frames: seq<seq<Byte>>): (h: seq<int>)
    requires AllFit(frames)
    ensures h != []
  {
    if frames == [] then [s.manExist] else History(s, frames[..|frames| - 1]) + [Sense(s, frames).manExist]
  }

  /** The values of a history that differ from the one just before them. */
  function Changes(h: seq<int>): seq<int> {
    var n := |h|;
    if n <= 1 then [] else Changes(h[..n - 1]) + if h[n - 1] != h[n - 2] then [h[n - 1]] else []
  }

  lemma OneMoreValue(h: seq<int>, x: int)
    requires h != []
    ensures Changes(h + [x]) == Changes(h) + if x != h[|h| - 1] then [x] else []
  {
    assert (h + [x])[..|h|] == h;
  }

  lemma HistoryEnds(s: Sensor, frames: seq<seq<Byte>>)
    requires AllFit(frames)
    ensures var h := History(s, frames); h[|h| - 1] == Sense(s, frames).manExist
  {
  }

  lemma {:induction false} HistoryStarts(s: Sensor, frames: seq<seq<Byte>>)
    requires AllFit(frames)
    ensures History(s, frames)[0] == s.manExist
  {
    if frames != [] {
      HistoryStarts(s, frames[..|frames| - 1]);
    }
  }

  lemma AnnouncesTheChange(s: Sensor, r: Report)
    ensures Announces(s, r) == if Apply(s, r).manExist != s.manExist then [Apply(s, r).manExist] else []
  {
  }

  /** What is announced over a run is exactly its change history. */
  lemma {:induction false} AnnouncementsAreChanges(s: Sensor, frames: seq<seq<Byte>>)
    requires AllFit(frames)
    ensures Announcements(s, frames) == Changes(History(s, frames))
  {
    if frames != [] {
      hide ReportIn, Padded, Apply, Announces, Changes;
      var front := frames[..|frames| - 1];
      AnnouncementsAreChanges(s, front);
      HistoryEnds(s, front);
      AnnouncesTheChange(Sense(s, front), ReportIn(Padded(frames[|frames| - 1])));
      OneMoreValue(History(s, front), Sense(s, frames).manExist);
    }
  }

  /** No two values of a change history in a row are equal, and the last one is where the history stands. */
  lemma {:induction false} ChangesAlternate(h: seq<int>)
    requires h != []
    ensures var c := [h[0]] + Changes(h);
            && (forall i :: 0 <= i < |c| - 1 ==> c[i] != c[i + 1])
            && c[|c| - 1] == h[|h| - 1]
  {
    if |h| > 1 {
      var front := h[..|h| - 1];
      ChangesAlternate(front);
      assert front[|front| - 1] == h[|h| - 2];
      var c, d := [h[0]] + Changes(front), [h[0]] + Changes(h);
      assert h[|h| - 1] != h[|h| - 2] ==> d == c + [h[|h| - 1]];
      assert h[|h| - 1] == h[|h| - 2] ==> d == c;
    }
  }

  /** From power-up: consecutive announcements differ, the first is not 0, and the last one (or 0) is man_exist. */
  lemma AnnouncementsFollowPresence(frames: seq<seq<Byte>>)
    requires AllFit(frames)
    ensures var trace := [0] + Announcements(Sensor(0, 0, 0), frames);
            && (forall i :: 0 <= i < |trace| - 1 ==> trace[i] != trace[i + 1])
            && trace[|trace| - 1] == Sense(Sensor(0, 0, 0), frames).manExist
  {
    var start := Sensor(0, 0, 0);
    hide Announcements, History, Sense, Changes;
    AnnouncementsAreChanges(start, frames);
    HistoryEnds(start, frames);
    HistoryStarts(start, frames);
    ChangesAlternate(History(start, frames));
  }
}
