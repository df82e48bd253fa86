/** mqtt_topic_res: the pointer-walking loop that turns a topic into its seven codes. */
module TopicParser {
  import opened Options
  import opened CStrings
  import opened TopicCodes

  const TMP_SIZE := 20
  const SLOT_COUNT := 7

  /** Stray: a search missed or a piece overran `tmp`, so C gives the rest of the call no meaning. */
  datatype Outcome = Parsed | Rejected | Stray

  // ---- what the loop is for: a plain split at the first six separators

  function Skipped(topic: string): (k: nat)
    ensures k <= |topic|
  {
    if topic != "" && topic[0] == '/' then 1 else 0
  }

  /** The first piece keeps a leading '/', because `headOfLastW` is not moved past it. */
  function FirstPiece(topic: string, segment: string): string {
    topic[..Skipped(topic)] + segment
  }

  function Pieces(topic: string): Option<seq<string>> {
    match Cut(topic[Skipped(topic)..], 6)
    case None => None
    case Some(segments) => Some([FirstPiece(topic, segments[0])] + segments[1..])
  }

  predicate FitsTmp(pieces: seq<string>) {
    forall i :: 0 <= i < |pieces| ==> |pieces[i]| < TMP_SIZE
  }

  function SlotOf(pieces: seq<string>, i: nat): Slot
    requires |pieces| == SLOT_COUNT && i < SLOT_COUNT
  {
    if i < 6 then TopicGetHead(pieces[i], i) else TopicGetRoute(pieces[6], TopicGetHead(pieces[5], 5))
  }

  /** The seven codes of a topic, when C defines them. */
  function Slots(topic: string): (r: Option<seq<Slot>>)
    ensures r.Some? ==> |r.value| == SLOT_COUNT
  {
    match Pieces(topic)
    case None => None
    case Some(pieces) =>
      if FitsTmp(pieces) then Some(seq(SLOT_COUNT, i requires 0 <= i < SLOT_COUNT => SlotOf(pieces, i))) else None
  }

  // ---- the same split, read off the topic by offsets as the loop does

  function Prepend(done: seq<string>, rest: Option<seq<string>>): Option<seq<string>> {
    match rest
    case None => None
    case Some(pieces) => Some(done + pieces)
  }

  function SplitFrom(topic: string, head: nat, cursor: nat, k: nat): Option<seq<string>>
    requires head <= cursor <= |topic|
    decreases |topic| - cursor
  {
    if k == 0 then Some([topic[head..]])
    else
      match StrChr(topic, '/', cursor)
      case None => None
      case Some(at) => Prepend([topic[head..at]], SplitFrom(topic, at + 1, at + 1, k - 1))
  }

  /** The first step of a cut, by offsets. */
  lemma CutStep(topic: string, cursor: nat, k: nat)
    requires cursor <= |topic| && k > 0
    ensures Cut(topic[cursor..], k) ==
            match StrChr(topic, '/', cursor)
            case None => None
            case Some(at) => Prepend([topic[cursor..at]], Cut(topic[at + 1..], k - 1))
  {
    StrChrFrom(topic, '/', cursor, 0);
    match StrChr(topic, '/', cursor)
    case None =>
    case Some(at) =>
      assert topic[cursor..][at - cursor + 1..] == topic[at + 1..];
      assert topic[cursor..][..at - cursor] == topic[cursor..at];
  }

  lemma {:induction false} SplitFromIsCut(topic: string, cursor: nat, k: nat)
    requires cursor <= |topic|
    ensures SplitFrom(topic, cursor, cursor, k) == Cut(topic[cursor..], k)
    decreases k
  {
    if k > 0 {
      hide Cut, Prepend;
      CutStep(topic, cursor, k);
      if StrChr(topic, '/', cursor).Some? {
        SplitFromIsCut(topic, StrChr(topic, '/', cursor).value + 1, k - 1);
      }
    }
  }

  lemma FromFirstSlash(topic: string, k: nat)
    requires k > 0
    ensures SplitFrom(topic, 0, Skipped(topic), k) ==
            match Cut(topic[Skipped(topic)..], k)
            case None => None
            case Some(segments) => Some([FirstPiece(topic, segments[0])] + segments[1..])
  {
    hide Cut;
    var start := Skipped(topic);
    CutStep(topic, start, k);
    match StrChr(topic, '/', start)
    case None =>
    case Some(at) =>
      SplitFromIsCut(topic, at + 1, k - 1);
      assert topic[0..at] == FirstPiece(topic, topic[start..at]);
      match Cut(topic[at + 1..], k - 1)
      case None =>
      case Some(rest) => assert ([topic[start..at]] + rest)[1..] == rest;
  }

  lemma SplitFromIsPieces(topic: string)
    ensures Prepend([], SplitFrom(topic, 0, Skipped(topic), 6)) == Pieces(topic)
  {
    FromFirstSlash(topic, 6);
    var r := SplitFrom(topic, 0, Skipped(topic), 6);
    assert r.Some? ==> [] + r.value == r.value;
  }

  /** One turn of the loop: the piece up to the next slash is taken, and the rest is split from behind it. */
  lemma PieceTaken(topic: string, done: seq<string>, head: nat, cursor: nat, k: nat)
    requires head <= cursor <= |topic| && k > 0
    ensures Prepend(done, SplitFrom(topic, head, cursor, k)) ==
            match StrChr(topic, '/', cursor)
            case None => None
            case Some(at) => Prepend(done + [topic[head..at]], SplitFrom(topic, at + 1, at + 1, k - 1))
  {
    match StrChr(topic, '/', cursor)
    case None =>
    case Some(at) =>
      var tmp, rest := topic[head..at], SplitFrom(topic, at + 1, at + 1, k - 1);
      if rest.Some? {
        assert done + ([tmp] + rest.value) == done + [tmp] + rest.value;
      }
  }

  lemma LastPiece(topic: string, done: seq<string>, head: nat, cursor: nat)
    requires head <= cursor <= |topic|
    ensures Prepend(done, SplitFrom(topic, head, cursor, 0)) == Some(done + [topic[head..]])
  {
  }

  lemma OverlongPiece(done: seq<string>, tmp: string, rest: Option<seq<string>>)
    requires |tmp| >= TMP_SIZE
    ensures var pieces := Prepend(done + [tmp], rest); pieces.None? || !FitsTmp(pieces.value)
  {
    if rest.Some? {
      assert (done + [tmp] + rest.value)[|done|] == tmp;
    }
  }

  lemma SlotsOfPieces(topic: string)
    ensures Slots(topic).Some? <==> Pieces(topic).Some? && FitsTmp(Pieces(topic).value)
    ensures Pieces(topic).Some? ==> |Pieces(topic).value| == SLOT_COUNT
    ensures Slots(topic).Some? ==>
              forall i :: 0 <= i < SLOT_COUNT ==> Slots(topic).value[i] == SlotOf(Pieces(topic).value, i)
  {
  }

  // ---- the loop

  method MqttTopicRes(topic: string, content: array<Slot>) returns (r: Outcome)
    requires content.Length >= SLOT_COUNT
    modifies content
    ensures r == (if topic == "" then Rejected else if Slots(topic).Some? then Parsed else Stray)
    ensures r.Parsed? ==> content[..SLOT_COUNT] == Slots(topic).value
    ensures r.Rejected? ==> content[..] == old(content[..])
    ensures content[SLOT_COUNT..] == old(content[SLOT_COUNT..])
  {
    hide Slots, Pieces, SplitFrom, Prepend, StrChr, TopicGetHead, TopicGetRoute;
    var len := |topic|;
    var n, p, clen := 0, 0, 0;
    var cursor: int, headOfLastW: int := 0, 0;
    if topic != "" && topic[0] == '/' {
      cursor := cursor + 1;
    }
    ghost var done: seq<string> := [];
    ghost var pieces := Pieces(topic);
    SplitFromIsPieces(topic);
    SlotsOfPieces(topic);
    while p < len
      invariant 0 <= n <= 6 && |done| == n
      invariant topic == "" ==> n == 0
      invariant 0 <= headOfLastW <= cursor <= len
      invariant n == 0 ==> p == 0 && headOfLastW == 0
      invariant n > 0 ==> p == cursor - n && headOfLastW == cursor
      invariant pieces == Prepend(done, SplitFrom(topic, headOfLastW, cursor, 6 - n))
      invariant FitsTmp(done)
      invariant forall i :: 0 <= i < n ==> content[i] == TopicGetHead(done[i], i)
      invariant n == 0 ==> content[..] == old(content[..])
      invariant content[SLOT_COUNT..] == old(content[SLOT_COUNT..])
      decreases SLOT_COUNT - n
    {
      if n <= 5 {
        PieceTaken(topic, done, headOfLastW, cursor, 6 - n);
        var slash := StrChr(topic, '/', cursor);
        if slash.None? {
          return Stray;
        }
        var at: int := slash.value;
        cursor := at - 1;
        clen := cursor - headOfLastW;
        var tmp := topic[headOfLastW..cursor + 1];
        if |tmp| >= TMP_SIZE {
          OverlongPiece(done, tmp, SplitFrom(topic, at + 1, at + 1, 5 - n));
          return Stray;
        }
        done := done + [tmp];
        content[n] := TopicGetHead(tmp, n);
        cursor := cursor + 2;
        headOfLastW := cursor;
        p := p + clen + 1;
        n := n + 1;
      } else {
        LastPiece(topic, done, headOfLastW, cursor);
        cursor := len - 1;
        clen := cursor - headOfLastW;
        var tmp := topic[headOfLastW..cursor + 1];
        assert tmp == topic[headOfLastW..];
        if |tmp| >= TMP_SIZE {
          assert (done + [tmp])[6] == tmp;
          return Stray;
        }
        content[n] := TopicGetRoute(tmp, content[n - 1]);
        p := p + clen + 1;
        n := n + 1;
        assert forall i :: 0 <= i < SLOT_COUNT ==> content[i] == SlotOf(done + [tmp], i);
        break;
      }
    }
    if n <= 5 {
      return Rejected;
    }
    return Parsed;
  }

  // ---- what the parse means

  /** The parse is defined exactly when six separators follow the optional leading one and no piece overruns `tmp`. */
  lemma SlotsDefined(topic: string)
    ensures Pieces(topic).Some? <==> Slashes(topic[Skipped(topic)..]) >= 6
    ensures Slots(topic).Some? <==>
              Pieces(topic).Some? && forall i :: 0 <= i < |Pieces(topic).value| ==> |Pieces(topic).value[i]| <= 19
  {
    CutNeedsSlashes(topic[Skipped(topic)..], 6);
    SlotsOfPieces(topic);
  }

  /** The pieces of a topic written as segments joined by '/', after a leading '/'. */
  lemma PiecesOfJoin(segments: seq<string>)
    requires |segments| == SLOT_COUNT && forall i :: 0 <= i < 6 ==> Plain(segments[i])
    ensures Pieces("/" + Join(segments)) == Some(["/" + segments[0]] + segments[1..])
    ensures segments[0] != "" ==> Pieces(Join(segments)) == Some(segments)
  {
    hide Cut;
    var text := Join(segments);
    CutOfJoin(segments, 6);
    assert ("/" + text)[1..] == text;
    if segments[0] != "" {
      assert text[0] == segments[0][0] && segments[0][0] in segments[0];
      assert [segments[0]] + segments[1..] == segments;
      assert text[0..] == text && text[..0] + segments[0] == segments[0];
    }
  }

  /** Slot n of a well-formed topic is the lookup of segment n: slot 6 under the route in slot 5. */
  lemma SlotsOfSegments(segments: seq<string>)
    requires |segments| == SLOT_COUNT && forall i :: 0 <= i < 6 ==> Plain(segments[i])
    ensures var r := Slots("/" + Join(segments));
            && (r.Some? <==> FitsTmp(["/" + segments[0]] + segments[1..]))
            && (r.Some? ==> forall n :: 1 <= n < SLOT_COUNT ==> r.value[n] == SlotOf(segments, n))
  {
    hide Cut, Pieces, Slots, TopicGetHead, TopicGetRoute;
    PiecesOfJoin(segments);
    SlotsOfPieces("/" + Join(segments));
    var pieces := ["/" + segments[0]] + segments[1..];
    assert forall i :: 1 <= i < SLOT_COUNT ==> pieces[i] == segments[i];
  }

  /** A leading '/' changes nothing but slot 0, when both spellings fit. */
  lemma LeadingSlashIsIgnored(topic: string)
    requires topic == "" || topic[0] != '/'
    requires Slots(topic).Some? && Slots("/" + topic).Some?
    ensures Slots("/" + topic).value[1..] == Slots(topic).value[1..]
  {
    hide Cut, TopicGetHead, TopicGetRoute;
    assert ("/" + topic)[1..] == topic && topic[0..] == topic;
    SlotsOfPieces(topic);
    SlotsOfPieces("/" + topic);
    var a, b := Pieces(topic).value, Pieces("/" + topic).value;
    assert forall i :: 1 <= i < SLOT_COUNT ==> a[i] == b[i];
    assert forall i :: 1 <= i < SLOT_COUNT ==> Slots("/" + topic).value[i] == Slots(topic).value[i];
  }
}
