/** The C string operations the firmware uses, on NUL-free strings, and splitting at '/'. */
module CStrings {
  import opened Options

  ghost predicate OccursAt(text: string, needle: string, i: int) {
    0 <= i && i + |needle| <= |text| && text[i..i + |needle|] == needle
  }

  function StrStrFrom(text: string, needle: string, from: nat): (r: Option<nat>)
    ensures r.Some? ==> from <= r.value && OccursAt(text, needle, r.value)
    ensures r.Some? ==> forall j :: from <= j < r.value ==> !OccursAt(text, needle, j)
    ensures r.None? ==> forall j :: from <= j ==> !OccursAt(text, needle, j)
    decreases |text| - from
  {
    if from + |needle| > |text| then None
    else if text[from..from + |needle|] == needle then Some(from)
    else StrStrFrom(text, needle, from + 1)
  }

  /** strstr: the offset of the first occurrence. */
  function StrStr(text: string, needle: string): (r: Option<nat>)
    ensures r.Some? ==> OccursAt(text, needle, r.value)
    ensures r.Some? ==> forall j :: 0 <= j < r.value ==> !OccursAt(text, needle, j)
    ensures r.None? ==> forall j :: !OccursAt(text, needle, j)
  {
    StrStrFrom(text, needle, 0)
  }

  /** strchr, as an offset from the start of `text`, searching from `from`. */
  function StrChr(text: string, c: char, from: nat): (r: Option<nat>)
    requires from <= |text|
    ensures r.Some? ==> from <= r.value < |text|
    decreases |text| - from
  {
    if from == |text| then None
    else if text[from] == c then Some(from)
    else StrChr(text, c, from + 1)
  }

  lemma {:induction false} StrChrIsFirst(text: string, c: char, from: nat)
    requires from <= |text|
    ensures var r := StrChr(text, c, from);
            && (r.Some? ==> text[r.value] == c)
            && forall j :: from <= j < (if r.Some? then r.value else |text|) ==> text[j] != c
    decreases |text| - from
  {
    if from < |text| && text[from] != c {
      StrChrIsFirst(text, c, from + 1);
    }
  }

  /** Searching from an offset is searching the text after it. */
  lemma {:induction false} StrChrFrom(text: string, c: char, from: nat, k: nat)
    requires from + k <= |text|
    ensures StrChr(text, c, from + k) ==
            match StrChr(text[from..], c, k) case None => None case Some(i) => Some(from + i)
    decreases |text| - from - k
  {
    if from + k < |text| && text[from + k] != c {
      StrChrFrom(text, c, from, k + 1);
    }
  }

  /** The pieces joined by '/'. */
  function Join(pieces: seq<string>): string
    requires pieces != []
  {
    if |pieces| == 1 then pieces[0] else pieces[0] + "/" + Join(pieces[1..])
  }

  predicate Plain(piece: string) {
    '/' !in piece
  }

  function Slashes(s: string): nat {
    if s == "" then 0 else (if s[0] == '/' then 1 else 0) + Slashes(s[1..])
  }

  lemma {:induction false} SlashesConcat(a: string, b: string)
    ensures Slashes(a + b) == Slashes(a) + Slashes(b)
  {
    if a == "" {
      assert a + b == b;
    } else {
      assert (a + b)[1..] == a[1..] + b;
      SlashesConcat(a[1..], b);
    }
  }

  lemma {:induction false} NoSlashes(a: string)
    ensures Slashes(a) == 0 <==> '/' !in a
  {
    if a != "" {
      NoSlashes(a[1..]);
      assert a == [a[0]] + a[1..];
    }
  }

  /** Split at the first `k` slashes; what follows the last of them stays whole. */
  function Cut(s: string, k: nat): (r: Option<seq<string>>)
    ensures r.Some? ==> |r.value| == k + 1
    decreases |s|
  {
    if k == 0 then Some([s])
    else
      match StrChr(s, '/', 0)
      case None => None
      case Some(i) =>
        match Cut(s[i + 1..], k - 1)
        case None => None
        case Some(rest) => Some([s[..i]] + rest)
  }

  lemma JoinOfMore(piece: string, rest: seq<string>)
    requires rest != []
    ensures Join([piece] + rest) == piece + "/" + Join(rest)
  {
    assert ([piece] + rest)[1..] == rest;
  }

  /** The first step of a cut: a slash-free piece, and the cut of what follows its slash. */
  lemma CutAtFirst(s: string, k: nat)
    requires k > 0 && Cut(s, k).Some?
    ensures var i := StrChr(s, '/', 0);
            && i.Some? && Plain(s[..i.value]) && s == s[..i.value] + "/" + s[i.value + 1..]
            && Cut(s[i.value + 1..], k - 1).Some?
            && Cut(s, k).value == [s[..i.value]] + Cut(s[i.value + 1..], k - 1).value
  {
    StrChrIsFirst(s, '/', 0);
    hide StrChr;
  }

  /** The pieces of a split rebuild the text, and only the last may hold a slash. */
  lemma {:induction false} JoinOfCut(s: string, k: nat)
    requires Cut(s, k).Some?
    ensures Join(Cut(s, k).value) == s
    ensures forall i :: 0 <= i < k ==> Plain(Cut(s, k).value[i])
    decreases k
  {
    if k > 0 {
      hide Cut, Join, StrChr, Plain;
      CutAtFirst(s, k);
      var rest := s[StrChr(s, '/', 0).value + 1..];
      JoinOfCut(rest, k - 1);
      JoinOfMore(s[..StrChr(s, '/', 0).value], Cut(rest, k - 1).value);
    }
  }

  lemma FirstSlash(piece: string, rest: string)
    requires Plain(piece)
    ensures StrChr(piece + "/" + rest, '/', 0) == Some(|piece|)
  {
    var s := piece + "/" + rest;
    StrChrIsFirst(s, '/', 0);
    assert s[|piece|] == '/';
    assert forall i :: 0 <= i < |piece| ==> s[i] == piece[i];
  }

  lemma CutOfPiece(piece: string, rest: string, s: string, k: nat, tail: seq<string>)
    requires Plain(piece) && k > 0
    requires s == piece + "/" + rest
    requires Cut(rest, k - 1) == Some(tail)
    ensures Cut(s, k) == Some([piece] + tail)
  {
    FirstSlash(piece, rest);
    assert s[..|piece|] == piece && s[|piece| + 1..] == rest;
  }

  /** Cut inverts Join: the pieces are the only ones that rebuild the text. */
  lemma {:induction false} CutOfJoin(pieces: seq<string>, k: nat)
    requires |pieces| == k + 1
    requires forall i :: 0 <= i < k ==> Plain(pieces[i])
    ensures Cut(Join(pieces), k) == Some(pieces)
  {
    if k == 0 {
      assert pieces == [pieces[0]];
    } else {
      var rest := pieces[1..];
      CutOfJoin(rest, k - 1);
      CutOfPiece(pieces[0], Join(rest), Join(pieces), k, rest);
      assert [pieces[0]] + rest == pieces;
    }
  }

  lemma SlashesUpTo(s: string, i: nat)
    requires i < |s| && s[i] == '/' && forall j :: 0 <= j < i ==> s[j] != '/'
    ensures Slashes(s) == 1 + Slashes(s[i + 1..])
  {
    var tail := ['/'] + s[i + 1..];
    assert s == s[..i] + tail;
    SlashesConcat(s[..i], tail);
    assert tail[1..] == s[i + 1..];
    NoSlashes(s[..i]);
  }

  /** Cutting succeeds exactly when the text holds enough slashes. */
  lemma {:induction false} CutNeedsSlashes(s: string, k: nat)
    ensures Cut(s, k).Some? <==> Slashes(s) >= k
    decreases k
  {
    if k > 0 {
      NoSlashes(s);
      StrChrIsFirst(s, '/', 0);
      hide StrChr;
      match StrChr(s, '/', 0)
      case None =>
      case Some(i) =>
        CutNeedsSlashes(s[i + 1..], k - 1);
        SlashesUpTo(s, i);
    }
  }
}
