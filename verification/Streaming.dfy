/**
 * Reading base64 from a stream through a 64-character buffer, as a function of the text still to be read. ReadBase64.dfy
 * holds the loop that is proved against it.
 */
module Streaming {
  import opened Base64
  import opened Decoding
  import Codec

  const BUFFER_SIZE: nat := 64
  const EOF: int := -1

  /** The line that ends uuencoded text. */
  const LINE: string := "===="

  /** The low byte of the flags as a signed character; -1 is `EOF`, and -128 matches nothing that is read. */
  function ExitChar(flags: int): int {
    var low := flags % 256;
    if low < 128 then low else low - 256
  }

  /** `flags & BASE64_FLAG_UU_STOP` */
  predicate UuStyleEnd(flags: int) {
    flags / 256 % 2 == 1
  }

  /** Flags made of an exit character (or `EOF`, or -128 for none) and the stop flag are taken apart again. */
  lemma FlagsTakenApart(exit: int, uu: bool)
    requires -128 <= exit < 128
    ensures var flags := (if exit < 0 then exit + 256 else exit) + (if uu then 0x100 else 0);
            ExitChar(flags) == exit && UuStyleEnd(flags) == uu
  {
  }

  // ---- One refill ----

  /** What ended a refill: no room, a blank or control character, the exit character, or the end of the stream. */
  datatype Ending = Full | Blank | Exit | End

  predicate Stops(c: char, exit: int) {
    c as int == exit || c <= ' '
  }

  /** How many characters a refill with the given room stores. */
  function Stored(s: string, room: nat, exit: int): (n: nat)
    ensures n <= room && n <= |s|
  {
    if room == 0 || s == "" || Stops(s[0], exit) then 0 else 1 + Stored(s[1..], room - 1, exit)
  }

  function Ended(s: string, room: nat, exit: int): Ending {
    var n := Stored(s, room, exit);
    if n == room then Full
    else if n == |s| then End
    else if s[n] as int == exit then Exit
    else Blank
  }

  /** How many characters it takes from the stream. */
  function Taken(s: string, room: nat, exit: int): (n: nat)
    ensures Stored(s, room, exit) <= n <= |s|
  {
    Stored(s, room, exit) + if Ended(s, room, exit).Blank? || Ended(s, room, exit).Exit? then 1 else 0
  }

  // ---- The whole read ----

  /** How a read ends: with a result, the bytes written and the characters used, or caught in the loop for ever. */
  datatype Outcome = Returned(ret: int, out: seq<byte>, used: nat) | Stuck(out: seq<byte>) {
    function After(before: seq<byte>, n: nat): Outcome {
      match this
      case Returned(r, o, u) => Returned(r, before + o, n + u)
      case Stuck(o) => Stuck(before + o)
    }
  }

  /** Reads the stream s with the tail of an earlier group carried over. */
  function Read(s: string, carry: string, exit: int, uu: bool): Outcome
    requires |carry| < BUFFER_SIZE
    decreases |s|
  {
    var room := BUFFER_SIZE - |carry|;
    var taken := Taken(s, room, exit);
    var buf := carry + s[..Stored(s, room, exit)];
    var tail := DecodedTail(buf);
    UndecodedTail(buf);
    match Ended(s, room, exit)
    case Exit =>
      if buf == "" || (uu && buf == LINE) then Returned(1, [], taken)
      else Returned(if tail == "" then 1 else 0, DecodedBytes(buf), taken)
    case End =>
      if uu && buf == LINE then Returned(1, [], taken)
      else Returned(if tail == "" then 1 else 0, DecodedBytes(buf), taken)
    case _ =>
      if uu && buf == LINE then Returned(1, [], taken)
      else if |tail| == BUFFER_SIZE then Stuck(DecodedBytes(buf))
      else Read(s[taken..], tail, exit, uu).After(DecodedBytes(buf), taken)
  }

  lemma {:induction false} NegativeExitStored(s: string, room: nat, exit: int)
    requires exit < 0
    ensures Stored(s, room, exit) == Stored(s, room, EOF) && Ended(s, room, exit) == Ended(s, room, EOF)
  {
    if room > 0 && s != "" && !Stops(s[0], exit) {
      NegativeExitStored(s[1..], room - 1, exit);
    }
  }

  /** `EOF` as exit character is the same as none: both read to the end of the stream. */
  lemma {:induction false} EofIsNoExitChar(s: string, carry: string, exit: int, uu: bool)
    requires |carry| < BUFFER_SIZE && exit < 0
    ensures Read(s, carry, exit, uu) == Read(s, carry, EOF, uu)
    decreases |s|
  {
    hide Base64.DecodedBytes, Base64.DecodedTail, Stored, Ended;
    var room := BUFFER_SIZE - |carry|;
    NegativeExitStored(s, room, exit);
    var buf, rest := carry + s[..Stored(s, room, exit)], s[Taken(s, room, exit)..];
    if !Ended(s, room, exit).End? {
      RefillProgress(s, room, exit);
      if |DecodedTail(buf)| < BUFFER_SIZE {
        EofIsNoExitChar(rest, DecodedTail(buf), exit, uu);
      }
    }
  }

  // ---- Streaming equals one decoding ----

  /** The characters above ' ' before the first exit character or the end of the stream. */
  function Body(s: string, exit: int): string {
    if s == "" || s[0] as int == exit then ""
    else if s[0] <= ' ' then Body(s[1..], exit)
    else [s[0]] + Body(s[1..], exit)
  }

  /** Where the stream has been read to by then. */
  function Terminator(s: string, exit: int): nat {
    if s == "" then 0
    else if s[0] as int == exit then 1
    else 1 + Terminator(s[1..], exit)
  }

  lemma RefillNext(s: string, room: nat, exit: int)
    requires room > 0 && s != "" && !Stops(s[0], exit)
    ensures var r := s[1..];
            && Stored(s, room, exit) == Stored(r, room - 1, exit) + 1
            && Ended(s, room, exit) == Ended(r, room - 1, exit)
            && Taken(s, room, exit) == Taken(r, room - 1, exit) + 1
            && s[Taken(s, room, exit)..] == r[Taken(r, room - 1, exit)..]
  {
  }

  /** A refill takes the first characters of the body, and the rest of the stream holds the rest of it. */
  lemma {:induction false} RefillTakesBody(s: string, room: nat, exit: int)
    ensures var n, t, e := Stored(s, room, exit), Taken(s, room, exit), Ended(s, room, exit);
            var last := e.Exit? || e.End?;
            && Body(s, exit) == s[..n] + (if last then "" else Body(s[t..], exit))
            && Terminator(s, exit) == (if last then t else t + Terminator(s[t..], exit))
  {
    if room == 0 || s == "" || Stops(s[0], exit) {
      RefillStopsAtOnce(s, room, exit);
    } else {
      hide Stored, Ended, Taken, Body, Terminator;
      var r := s[1..];
      var n := Stored(r, room - 1, exit);
      RefillTakesBody(r, room - 1, exit);
      RefillNext(s, room, exit);
      BodyNext(s, exit);
      assert s[..n + 1] == [s[0]] + r[..n];
      var e, t := Ended(r, room - 1, exit), Taken(r, room - 1, exit);
      ConsAssociative(s[0], r[..n], if e.Exit? || e.End? then "" else Body(r[t..], exit));
    }
  }

  lemma ConsAssociative(c: char, a: string, b: string)
    ensures [c] + (a + b) == ([c] + a) + b
  {
  }

  lemma BodyNext(s: string, exit: int)
    requires s != "" && !Stops(s[0], exit)
    ensures Body(s, exit) == [s[0]] + Body(s[1..], exit)
    ensures Terminator(s, exit) == 1 + Terminator(s[1..], exit)
  {
  }

  lemma RefillStopsAtOnce(s: string, room: nat, exit: int)
    requires room == 0 || s == "" || Stops(s[0], exit)
    ensures var t, e := Taken(s, room, exit), Ended(s, room, exit);
            var last := e.Exit? || e.End?;
            && Stored(s, room, exit) == 0
            && Body(s, exit) == (if last then "" else Body(s[t..], exit))
            && Terminator(s, exit) == (if last then t else t + Terminator(s[t..], exit))
  {
    assert s[0..] == s;
  }

  /**
   * Streaming: whenever the function returns (and is not to stop on a "====" line), it has read up to the terminator,
   * has written what one decoding of all the characters above ' ' before it gives, however refills and blanks cut the
   * text, and returns 1 exactly when that decoding leaves nothing undecoded.
   */
  lemma {:induction false} StreamingFromCarry(s: string, carry: string, exit: int)
    requires |carry| < BUFFER_SIZE
    requires Read(s, carry, exit, false).Returned?
    ensures var o, text := Read(s, carry, exit, false), carry + Body(s, exit);
            && o.out == DecodedBytes(text)
            && o.ret == (if DecodedTail(text) == "" then 1 else 0)
            && o.used == Terminator(s, exit)
    decreases |s|
  {
    hide Base64.DecodedBytes, Base64.DecodedTail, Stored, Ended, Terminator, Body;
    var room := BUFFER_SIZE - |carry|;
    var taken, e := Taken(s, room, exit), Ended(s, room, exit);
    var buf := carry + s[..Stored(s, room, exit)];
    RefillTakesBody(s, room, exit);
    if e.Exit? || e.End? {
      assert carry + Body(s, exit) == buf;
      DecodeEmpty();
    } else {
      var rest := s[taken..];
      assert |rest| < |s| by { RefillProgress(s, room, exit); }
      assert carry + Body(s, exit) == buf + Body(rest, exit);
      Resumption(buf, Body(rest, exit));
      StreamingFromCarry(rest, DecodedTail(buf), exit);
    }
  }

  lemma DecodeEmpty()
    ensures DecodedBytes("") == [] && DecodedTail("") == ""
  {
  }

  /** A refill with room takes at least one character, unless the stream has ended. */
  lemma RefillProgress(s: string, room: nat, exit: int)
    requires room > 0 && !Ended(s, room, exit).End?
    ensures Taken(s, room, exit) > 0
  {
  }

  lemma {:induction false} StreamingIsOneShot(s: string, exit: int)
    requires Read(s, "", exit, false).Returned?
    ensures var o := Read(s, "", exit, false);
            && o.out == DecodedBytes(Body(s, exit))
            && o.ret == (if DecodedTail(Body(s, exit)) == "" then 1 else 0)
            && o.used == Terminator(s, exit)
  {
    StreamingFromCarry(s, "", exit);
    assert "" + Body(s, exit) == Body(s, exit);
  }

  // ---- When the loop makes progress ----

  /** A full buffer holding one unfinished group: 1 to 3 sextets, no pad, and otherwise characters outside the table. */
  predicate Stalls(w: string) {
    |w| == 64 && '=' !in w && 1 <= |Sextets(w)| <= 3
  }

  /** One pass of the loop gives such a buffer back unchanged, and no other buffer makes it carry a full tail. */
  lemma StallIsFixedPoint(w: string)
    requires |w| <= BUFFER_SIZE
    ensures |DecodedTail(w)| == BUFFER_SIZE <==> Stalls(w)
    ensures Stalls(w) ==> DecodedBytes(w) == [] && DecodedTail(w) == w
  {
    UndecodedTail(w);
    assert w[0..] == w;
    if Stalls(w) {
      assert "" + w == w;
      RunOpen(Start, w);
    }
  }

  lemma TailFits(w: string)
    requires |w| <= BUFFER_SIZE
    ensures |DecodedTail(w)| < BUFFER_SIZE <==> !Stalls(w)
  {
    hide Base64.DecodedTail, Stalls;
    UndecodedTail(w);
    StallIsFixedPoint(w);
  }

  /** From such a buffer the next pass reads nothing, writes nothing, and carries the same text over again. */
  lemma StalledPass(s: string, w: string, exit: int, uu: bool)
    requires Stalls(w)
    ensures Ended(s, BUFFER_SIZE - |w|, exit).Full? && Taken(s, BUFFER_SIZE - |w|, exit) == 0
    ensures var buf := w + s[..Stored(s, BUFFER_SIZE - |w|, exit)];
            buf == w && buf != LINE && DecodedBytes(buf) == [] && DecodedTail(buf) == w
  {
    hide Base64.DecodedBytes, Base64.DecodedTail;
    StallIsFixedPoint(w);
    assert w + s[..0] == w;
  }

  /** The texts that the loop decodes, refill by refill, until it returns or is caught. */
  function Buffers(s: string, carry: string, exit: int, uu: bool): (bs: seq<string>)
    requires |carry| < BUFFER_SIZE
    ensures bs != []
    decreases |s|
  {
    var room := BUFFER_SIZE - |carry|;
    var e, buf := Ended(s, room, exit), carry + s[..Stored(s, room, exit)];
    if e.Exit? || e.End? || (uu && buf == LINE) || |DecodedTail(buf)| >= BUFFER_SIZE then [buf]
    else [buf] + Buffers(s[Taken(s, room, exit)..], DecodedTail(buf), exit, uu)
  }

  /** Whether the loop decodes no further text after this refill. */
  predicate IsLast(s: string, carry: string, exit: int, uu: bool)
    requires |carry| < BUFFER_SIZE
  {
    |Buffers(s, carry, exit, uu)| == 1
  }

  lemma LastRefill(s: string, carry: string, exit: int, uu: bool)
    requires |carry| < BUFFER_SIZE && IsLast(s, carry, exit, uu)
    ensures Read(s, carry, exit, uu).Returned? <==> !Stalls(Buffers(s, carry, exit, uu)[0])
  {
    hide Base64.DecodedBytes, Base64.DecodedTail, Stored;
    var buf := carry + s[..Stored(s, BUFFER_SIZE - |carry|, exit)];
    TailFits(buf);
  }

  lemma NextRefill(s: string, carry: string, exit: int, uu: bool) returns (rest: string, tail: string)
    requires |carry| < BUFFER_SIZE && !IsLast(s, carry, exit, uu)
    ensures |rest| < |s| && |tail| < BUFFER_SIZE
    ensures Read(s, carry, exit, uu).Returned? <==> Read(rest, tail, exit, uu).Returned?
    ensures var bs := Buffers(s, carry, exit, uu);
            bs != [] && !Stalls(bs[0]) && bs[1..] == Buffers(rest, tail, exit, uu)
  {
    hide Base64.DecodedBytes, Base64.DecodedTail, Stored, Ended;
    var room := BUFFER_SIZE - |carry|;
    var buf := carry + s[..Stored(s, room, exit)];
    rest, tail := s[Taken(s, room, exit)..], DecodedTail(buf);
    if !Ended(s, room, exit).End? {
      RefillProgress(s, room, exit);
    }
    TailFits(buf);
  }

  /** The function returns if and only if none of these texts is an unfinished group that fills the buffer. */
  lemma {:induction false} ReturnsIffNoRefillStalls(s: string, carry: string, exit: int, uu: bool)
    requires |carry| < BUFFER_SIZE
    ensures Read(s, carry, exit, uu).Returned? <==> forall b :: b in Buffers(s, carry, exit, uu) ==> !Stalls(b)
    decreases |s|
  {
    hide Read, Buffers, Stalls;
    var bs := Buffers(s, carry, exit, uu);
    if IsLast(s, carry, exit, uu) {
      LastRefill(s, carry, exit, uu);
      assert bs == [bs[0]];
    } else {
      var rest, tail := NextRefill(s, carry, exit, uu);
      ReturnsIffNoRefillStalls(rest, tail, exit, uu);
      assert bs == [bs[0]] + bs[1..];
    }
  }

  predicate StallsAt(t: string, i: nat) {
    i + 64 <= |t| && Stalls(t[i..i + 64])
  }

  /** 64 consecutive characters of the text are an unfinished group, and no sextet is open before them. */
  predicate CatchesAt(t: string, i: nat) {
    StallsAt(t, i) && DecodedTail(t[..i]) == ""
  }

  ghost predicate NoStall(t: string) {
    forall i: nat :: !CatchesAt(t, i)
  }

  lemma SliceOfSuffix(t: string, d: nat, i: nat, n: nat)
    requires d + i + n <= |t|
    ensures t[d..][i..i + n] == t[d + i..d + i + n]
  {
  }

  lemma CutBehind(p: string, next: string, k: nat)
    requires k <= |next|
    ensures (p + next)[|p| + k..] == next[k..] && (p + next)[..|p| + k] == p + next[..k]
  {
  }

  /** The whole text from the k-th character behind the part that a refill has decoded. */
  lemma SameFromTail(buf: string, u: string, k: nat)
    requires k <= |DecodedTail(buf) + u|
    ensures |DecodedTail(buf)| <= |buf|
    ensures var d, next := |buf| - |DecodedTail(buf)|, DecodedTail(buf) + u;
            (buf + u)[d + k..] == next[k..] && (buf + u)[..d + k] == buf[..d] + next[..k]
  {
    hide Base64.DecodedTail;
    UndecodedTail(buf);
    var p := buf[..|buf| - |DecodedTail(buf)|];
    assert buf + u == p + (DecodedTail(buf) + u);
    CutBehind(p, DecodedTail(buf) + u, k);
  }

  /** No sextet is open there exactly if none is after the same part of what is left. */
  lemma TailLater(buf: string, u: string, k: nat)
    requires k <= |DecodedTail(buf) + u|
    ensures |DecodedTail(buf)| <= |buf|
    ensures DecodedTail((buf + u)[..|buf| - |DecodedTail(buf)| + k]) == "" <==> DecodedTail((DecodedTail(buf) + u)[..k]) == ""
  {
    hide Base64.DecodedBytes, Base64.DecodedTail;
    SameFromTail(buf, u, k);
    BeforeTail(buf);
    var next := (DecodedTail(buf) + u)[..k];
    Resumption(buf[..|buf| - |DecodedTail(buf)|], next);
    assert "" + next == next;
  }

  /** What follows a refill catches the loop exactly where the whole text does, counted from the tail carried over. */
  lemma CatchesLater(buf: string, u: string, k: nat)
    ensures |DecodedTail(buf)| <= |buf|
    ensures CatchesAt(buf + u, |buf| - |DecodedTail(buf)| + k) <==> CatchesAt(DecodedTail(buf) + u, k)
  {
    hide Base64.DecodedBytes, Base64.DecodedTail, Stalls;
    UndecodedTail(buf);
    var next, d := DecodedTail(buf) + u, |buf| - |DecodedTail(buf)|;
    if k + BUFFER_SIZE <= |next| {
      TailLater(buf, u, k);
      SameFromTail(buf, u, k);
      assert next[k..k + BUFFER_SIZE] == next[k..][..BUFFER_SIZE];
      assert (buf + u)[d + k..d + k + BUFFER_SIZE] == (buf + u)[d + k..][..BUFFER_SIZE];
    }
  }

  lemma NotFullEnds(s: string, room: nat, exit: int)
    ensures Ended(s, room, exit).Full? <==> Stored(s, room, exit) == room
  {
  }

  lemma CatchesInside(t: string, i: nat)
    requires CatchesAt(t, i)
    ensures i + BUFFER_SIZE <= |t|
  {
  }

  lemma CatchesAtOnce(buf: string, u: string)
    requires Stalls(buf)
    ensures CatchesAt(buf + u, 0)
  {
    assert (buf + u)[0..0 + BUFFER_SIZE] == buf && (buf + u)[..0] == "";
  }

  /** If no 64 characters that follow a point with no open sextet are an unfinished group, the function returns. */
  lemma {:induction false} ReadReturns(s: string, carry: string, exit: int, uu: bool)
    requires |carry| < BUFFER_SIZE && NoStall(carry + Body(s, exit))
    ensures Read(s, carry, exit, uu).Returned?
    decreases |s|
  {
    hide Base64.DecodedBytes, Base64.DecodedTail, Stored, Ended, Body, Stalls, CatchesAt;
    var room := BUFFER_SIZE - |carry|;
    var e := Ended(s, room, exit);
    if !e.Exit? && !e.End? {
      var buf := carry + s[..Stored(s, room, exit)];
      var rest, tail := s[Taken(s, room, exit)..], DecodedTail(buf);
      RefillTakesBody(s, room, exit);
      var u := Body(rest, exit);
      assert |rest| < |s| by { RefillProgress(s, room, exit); }
      assert carry + Body(s, exit) == buf + u;
      if Stalls(buf) {
        CatchesAtOnce(buf, u);
      }
      StallIsFixedPoint(buf);
      UndecodedTail(buf);
      forall i: nat
        ensures !CatchesAt(tail + u, i)
      {
        CatchesLater(buf, u, i);
      }
      ReadReturns(rest, tail, exit, uu);
    }
  }

  /** A text that ends inside an unfinished group beginning with a sextet leaves that part of it undecoded. */
  lemma PartIsTail(v: string, w: string)
    requires v != "" && v + w != "" && Stalls(v + w) && IsSextet(v[0])
    ensures DecodedTail(v) == v
  {
    assert forall c :: c in v ==> c in v + w;
    SextetsConcat(v, w);
    var c, r := v[0], v[1..];
    assert v == [c] + r;
    SextetsConcat([c], r);
    SextetsAppend("", c);
    assert "" + [c] == [c] && "" + v == v;
    RunOpen(Start, v);
  }

  lemma OverlapIsTail(buf: string, u: string, i: nat)
    requires |buf| <= BUFFER_SIZE && CatchesAt(buf + u, i) && IsSextet((buf + u)[i])
    ensures i + |DecodedTail(buf)| >= |buf|
  {
    hide Base64.DecodedTail, Dropped, Base64.Sextets, Base64.IsSextet;
    if i < |buf| {
      var v, w := buf[i..], (buf + u)[i..i + BUFFER_SIZE];
      var r := w[|v|..];
      assert w == v + r;
      PartIsTail(v, r);
      assert buf == buf[..i] + v && (buf + u)[..i] == buf[..i];
      assert "" + v == v;
      ResumptionTail(buf[..i], v);
    }
  }

  /** The loop never ends, unless it stops on a "====" line. */
  predicate Caught(s: string, carry: string, exit: int, uu: bool)
    requires |carry| < BUFFER_SIZE
  {
    Read(s, carry, exit, uu).Stuck? || (uu && LINE in Buffers(s, carry, exit, uu))
  }

  lemma CaughtLater(s: string, carry: string, exit: int, uu: bool)
    requires |carry| < BUFFER_SIZE
    requires var e := Ended(s, BUFFER_SIZE - |carry|, exit); e.Full? || e.Blank?
    ensures var buf := carry + s[..Stored(s, BUFFER_SIZE - |carry|, exit)];
            var rest, tail := s[Taken(s, BUFFER_SIZE - |carry|, exit)..], DecodedTail(buf);
            && |rest| < |s|
            && (Caught(s, carry, exit, uu) || (|tail| < BUFFER_SIZE && !Caught(rest, tail, exit, uu)))
  {
    hide Base64.DecodedBytes, Base64.DecodedTail, Stored, Ended, Stalls;
    var room := BUFFER_SIZE - |carry|;
    RefillProgress(s, room, exit);
    var buf := carry + s[..Stored(s, room, exit)];
    UndecodedTail(buf);
    assert buf in Buffers(s, carry, exit, uu);
    if |DecodedTail(buf)| < BUFFER_SIZE && !(uu && buf == LINE) {
      var later := Buffers(s[Taken(s, room, exit)..], DecodedTail(buf), exit, uu);
      assert LINE in later ==> LINE in [buf] + later;
    }
  }

  /**
   * The converse, for such characters that begin with a sextet: the loop never ends, wherever refills and blanks fall,
   * unless it stops on a "====" line before.
   */
  lemma {:induction false} ReadIsCaught(s: string, carry: string, exit: int, uu: bool, i: nat)
    requires |carry| < BUFFER_SIZE
    requires var t := carry + Body(s, exit); CatchesAt(t, i) && IsSextet(t[i])
    ensures Caught(s, carry, exit, uu)
    decreases |s|
  {
    hide Base64.DecodedTail, Stored, Ended, Body, Stalls, CatchesAt, Base64.IsSextet, Caught;
    var room := BUFFER_SIZE - |carry|;
    var t, buf := carry + Body(s, exit), carry + s[..Stored(s, room, exit)];
    RefillTakesBody(s, room, exit);
    CatchesInside(t, i);
    NotFullEnds(s, room, exit);
    CaughtLater(s, carry, exit, uu);
    if !Caught(s, carry, exit, uu) {
      var rest := s[Taken(s, room, exit)..];
      assert t == buf + Body(rest, exit);
      var k := StillCatches(buf, Body(rest, exit), i);
      ReadIsCaught(rest, DecodedTail(buf), exit, uu, k);
    }
  }

  lemma StillCatches(buf: string, u: string, i: nat) returns (k: nat)
    requires |buf| <= BUFFER_SIZE && CatchesAt(buf + u, i) && IsSextet((buf + u)[i])
    ensures CatchesAt(DecodedTail(buf) + u, k) && IsSextet((DecodedTail(buf) + u)[k])
  {
    hide Base64.DecodedTail, Stalls, StallsAt, Base64.IsSextet;
    OverlapIsTail(buf, u, i);
    UndecodedTail(buf);
    k := i + |DecodedTail(buf)| - |buf|;
    CatchesInside(buf + u, i);
    CatchesLater(buf, u, k);
    SameFromTail(buf, u, k);
    assert (buf + u)[i] == (buf + u)[i..][0] == (DecodedTail(buf) + u)[k..][0];
  }

  /** No character outside the table stands where no sextet is open. */
  ghost predicate NoJunkBetween(t: string) {
    forall i: nat :: i < |t| && DecodedTail(t[..i]) == "" ==> InTable(t[i])
  }

  /** Where that is so, the text alone decides, and `NoStall` is the exact condition. */
  lemma {:induction false} ReturnsIffNoStall(s: string, carry: string, exit: int)
    requires |carry| < BUFFER_SIZE && NoJunkBetween(carry + Body(s, exit))
    ensures Read(s, carry, exit, false).Returned? <==> NoStall(carry + Body(s, exit))
  {
    hide Read, Base64.DecodedTail;
    var t := carry + Body(s, exit);
    if NoStall(t) {
      ReadReturns(s, carry, exit, false);
    } else {
      var i: nat :| CatchesAt(t, i);
      assert t[i..i + BUFFER_SIZE][0] == t[i];
      ReadIsCaught(s, carry, exit, false, i);
    }
  }

  lemma {:induction false} AllSextets(w: string)
    requires forall c :: c in w ==> IsSextet(c)
    ensures |Sextets(w)| == |w|
  {
    if w != "" {
      AllSextets(w[..|w| - 1]);
    }
  }

  lemma TableTextNeverStalls(t: string)
    requires forall c :: c in t ==> InTable(c)
    ensures NoStall(t)
  {
    forall i: nat
      ensures !CatchesAt(t, i)
    {
      if i + BUFFER_SIZE <= |t| {
        var w := t[i..i + BUFFER_SIZE];
        assert forall c :: c in w ==> c in t;
        if '=' !in w {
          AllSextets(w);
        }
      }
    }
  }

  /** In particular it returns when every character above ' ' is in the table. */
  lemma {:induction false} TableTextReturns(s: string, exit: int, uu: bool)
    requires forall c :: c in Body(s, exit) ==> InTable(c)
    ensures Read(s, "", exit, uu).Returned?
  {
    assert "" + Body(s, exit) == Body(s, exit);
    TableTextNeverStalls(Body(s, exit));
    ReadReturns(s, "", exit, uu);
  }

  /** There, what is carried over is at most three sextets. */
  lemma ShortTail(w: string)
    requires forall c :: c in w ==> InTable(c)
    ensures |DecodedTail(w)| <= 3 && forall c :: c in DecodedTail(w) ==> IsSextet(c)
  {
    hide Base64.DecodedTail;
    UndecodedTail(w);
    var t := DecodedTail(w);
    assert forall c :: c in t ==> c in w;
    if t != "" {
      AllSextets(t);
    }
  }

  /** Characters that a refill stores. */
  predicate Plain(s: string, exit: int) {
    forall c :: c in s ==> !Stops(c, exit)
  }

  lemma {:induction false} StoredPlain(s: string, u: string, room: nat, exit: int)
    requires Plain(s, exit)
    requires u == "" || Stops(u[0], exit) || room <= |s|
    ensures Stored(s + u, room, exit) == if room <= |s| then room else |s|
  {
    if room == 0 {
    } else if s == "" {
      assert s + u == u;
    } else {
      assert (s + u)[1..] == s[1..] + u;
      StoredPlain(s[1..], u, room - 1, exit);
    }
  }

  lemma {:induction false} PlainBody(w: string, rest: string, exit: int)
    requires Plain(w, exit) && (rest == "" || rest[0] as int == exit)
    ensures Body(w + rest, exit) == w && Terminator(w + rest, exit) == |w| + (if rest == "" then 0 else 1)
  {
    if w == "" {
      assert w + rest == rest;
    } else {
      assert w[0] in w && forall c :: c in w[1..] ==> c in w;
      assert (w + rest)[1..] == w[1..] + rest;
      PlainBody(w[1..], rest, exit);
      assert w == [w[0]] + w[1..];
    }
  }

  /** The condition is needed: the loop never ends once such a buffer is read, whatever comes after it. */
  lemma {:induction false} StallsForEver(w: string, rest: string, exit: int, uu: bool)
    requires Plain(w, exit) && Stalls(w)
    ensures Read(w + rest, "", exit, uu) == Stuck([])
  {
    hide Base64.DecodedBytes, Base64.DecodedTail, Stored;
    StallIsFixedPoint(w);
    StoredPlain(w, rest, BUFFER_SIZE, exit);
    assert "" + (w + rest)[..BUFFER_SIZE] == w;
  }

  /** For a text that fills the buffer exactly, stalling is the only way not to return. */
  lemma {:induction false} FullBufferReturns(w: string, exit: int, uu: bool)
    requires Plain(w, exit) && |w| == BUFFER_SIZE
    ensures Read(w, "", exit, uu).Returned? <==> !Stalls(w)
  {
    if Stalls(w) {
      StallsForEver(w, "", exit, uu);
      assert w + "" == w;
    } else {
      PlainBody(w, "", exit);
      assert w + "" == w && "" + w == w && w[0..0 + BUFFER_SIZE] == w;
      assert forall i: nat :: CatchesAt(w, i) ==> i == 0;
      ReadReturns(w, "", exit, uu);
    }
  }

  /** An encoding comes back from a stream, with one or more blanks or control characters anywhere in it. */
  lemma {:induction false} StreamedRoundTrip(x: seq<byte>, s: string, exit: int)
    requires Body(s, exit) == Encode(x, BASE64_TABLE)
    ensures Read(s, "", exit, false) == Returned(1, x, Terminator(s, exit))
  {
    Codec.TableIsRfc();
    Codec.RoundTrip(x);
    TableTextReturns(s, exit, false);
    StreamingIsOneShot(s, exit);
  }

  // ---- Stopping on a "====" line ----

  predicate NoExit(s: string, exit: int) {
    forall c :: c in s ==> c as int != exit
  }

  /** A refill after which the loop goes on, if the terminator is not reached. */
  predicate Passes(b: string, uu: bool) {
    !Stalls(b) && !(uu && b == LINE)
  }

  ghost predicate AllPass(bs: seq<string>, uu: bool) {
    forall b :: b in bs ==> Passes(b, uu)
  }

  /** What is carried over when the text has been read. */
  function Left(text: string, carry: string, exit: int, uu: bool): string
    requires |carry| < BUFFER_SIZE
  {
    var bs := Buffers(text, carry, exit, uu);
    DecodedTail(bs[|bs| - 1])
  }

  /** A refill that starts inside the text, before a blank, does not read past that blank. */
  lemma {:induction false} RefillInText(text: string, rest: string, room: nat, exit: int)
    requires NoExit(text, exit) && rest != "" && rest[0] <= ' ' && rest[0] as int != exit
    ensures var n, e := Stored(text, room, exit), Ended(text, room, exit);
            && Stored(text + rest, room, exit) == n
            && Ended(text + rest, room, exit) == (if e.End? then Blank else e)
            && !e.Exit? && (e.End? ==> n == |text|)
  {
    var s := text + rest;
    if text != "" {
      assert text[0] in text;
      if room != 0 && !Stops(text[0], exit) {
        hide Stored, Ended, Taken;
        var u := text[1..];
        assert s[0] == text[0] && s[1..] == u + rest;
        assert forall c :: c in u ==> c in text;
        RefillNext(text, room, exit);
        RefillNext(s, room, exit);
        RefillInText(u, rest, room - 1, exit);
      }
    }
  }

  lemma AfterAfter(o: Outcome, a: seq<byte>, k: nat, b: seq<byte>, m: nat)
    ensures o.After(b, m).After(a, k) == o.After(a + b, k + m)
  {
    assert forall x: seq<byte> :: a + (b + x) == (a + b) + x;
  }

  /** One pass of the loop, in terms of what is left. */
  lemma ReadOn(s: string, carry: string, exit: int, uu: bool)
    requires |carry| < BUFFER_SIZE
    requires var e := Ended(s, BUFFER_SIZE - |carry|, exit); e.Full? || e.Blank?
    requires Passes(carry + s[..Stored(s, BUFFER_SIZE - |carry|, exit)], uu)
    ensures var n, t := Stored(s, BUFFER_SIZE - |carry|, exit), Taken(s, BUFFER_SIZE - |carry|, exit);
            var buf := carry + s[..n];
            && |DecodedTail(buf)| < BUFFER_SIZE
            && Read(s, carry, exit, uu) == Read(s[t..], DecodedTail(buf), exit, uu).After(DecodedBytes(buf), t)
  {
    hide Base64.DecodedBytes, Base64.DecodedTail, Stored, Ended, Stalls;
    var buf := carry + s[..Stored(s, BUFFER_SIZE - |carry|, exit)];
    TailFits(buf);
  }

  /** One more of the texts that the loop decodes. */
  lemma NextBuffer(s: string, carry: string, exit: int, uu: bool)
    requires |carry| < BUFFER_SIZE
    ensures var room := BUFFER_SIZE - |carry|;
            var e, buf, rest := Ended(s, room, exit), carry + s[..Stored(s, room, exit)], s[Taken(s, room, exit)..];
            if e.Exit? || e.End? || !Passes(buf, uu) then Buffers(s, carry, exit, uu) == [buf]
            else |DecodedTail(buf)| < BUFFER_SIZE
                 && Buffers(s, carry, exit, uu) == [buf] + Buffers(rest, DecodedTail(buf), exit, uu)
  {
    hide Base64.DecodedTail, Stored, Ended, Stalls;
    TailFits(carry + s[..Stored(s, BUFFER_SIZE - |carry|, exit)]);
  }

  /**
   * Text up to a blank is read as a unit, if no refill inside it stalls or is the line: the function has then written
   * what one decoding of it gives, carries the sextets that decoding leaves, and starts the next refill right behind
   * the blank.
   */
  lemma {:induction false} ReadText(text: string, blank: char, rest: string, carry: string, exit: int, uu: bool)
    requires |carry| < BUFFER_SIZE && NoExit(text, exit) && blank <= ' ' && blank as int != exit
    requires AllPass(Buffers(text, carry, exit, uu), uu)
    ensures var left, t := Left(text, carry, exit, uu), carry + Body(text, exit);
            && |left| < BUFFER_SIZE && DecodedTail(left) == left
            && Sextets(left) == Sextets(DecodedTail(t))
            && Read(text + [blank] + rest, carry, exit, uu) ==
               Read(rest, left, exit, uu).After(DecodedBytes(t), |text| + 1)
    decreases |text|
  {
    hide Base64.DecodedBytes, Base64.DecodedTail, Base64.Sextets, Stored, Ended, Body, NoExit, Read, Buffers, Passes;
    var s := text + [blank] + rest;
    var room := BUFFER_SIZE - |carry|;
    var n, t := Stored(s, room, exit), Taken(s, room, exit);
    assert s == text + ([blank] + rest);
    RefillInText(text, [blank] + rest, room, exit);
    RefillProgress(s, room, exit);
    assert s[..n] == text[..n];
    RefillTakesBody(text, room, exit);
    var buf := carry + s[..n];
    var tail := DecodedTail(buf);
    NextBuffer(text, carry, exit, uu);
    assert Buffers(text, carry, exit, uu)[0] == buf;
    ReadOn(s, carry, exit, uu);
    TailOfTail(buf);
    if Ended(text, room, exit).End? {
      assert text[..n] == text && s[t..] == rest;
      assert carry + Body(text, exit) == buf;
    } else {
      var next := text[t..];
      assert s[t..] == next + [blank] + rest;
      assert carry + Body(text, exit) == buf + Body(next, exit);
      TextSuffix(text, t, exit);
      Resumption(buf, Body(next, exit));
      ResumptionSextets(buf, Body(next, exit));
      ReadText(next, blank, rest, tail, exit, uu);
      AfterAfter(Read(rest, Left(next, tail, exit, uu), exit, uu), DecodedBytes(buf), t,
                 DecodedBytes(tail + Body(next, exit)), |next| + 1);
    }
  }

  lemma TextSuffix(text: string, k: nat, exit: int)
    requires k <= |text| && NoExit(text, exit)
    ensures NoExit(text[k..], exit)
  {
    assert forall c :: c in text[k..] ==> c in text;
  }

  /** If a refill inside the text is the line or stalls, what follows the text does not matter. */
  lemma {:induction false} ReadEndsInText(text: string, blank: char, rest: string, carry: string, exit: int, uu: bool)
    requires |carry| < BUFFER_SIZE && NoExit(text, exit) && blank <= ' ' && blank as int != exit
    requires !AllPass(Buffers(text, carry, exit, uu), uu)
    ensures var o := Read(text + [blank] + rest, carry, exit, uu);
            o.Stuck? || (uu && o.ret == 1 && o.used <= |text| + 1)
    decreases |text|
  {
    hide Base64.DecodedBytes, Base64.DecodedTail, Stored, Ended, Body, NoExit, Buffers, Stalls;
    var s := text + [blank] + rest;
    var room := BUFFER_SIZE - |carry|;
    var n, t := Stored(s, room, exit), Taken(s, room, exit);
    assert s == text + ([blank] + rest);
    RefillInText(text, [blank] + rest, room, exit);
    RefillProgress(s, room, exit);
    assert s[..n] == text[..n];
    var buf := carry + s[..n];
    NextBuffer(text, carry, exit, uu);
    TailFits(buf);
    if Passes(buf, uu) {
      var next := text[t..];
      assert s[t..] == next + [blank] + rest;
      TextSuffix(text, t, exit);
      ReadOn(s, carry, exit, uu);
      ReadEndsInText(next, blank, rest, DecodedTail(buf), exit, uu);
    }
  }

  /** Where no refill is the line, the stop flag makes no difference. */
  lemma {:induction false} WithoutLine(s: string, carry: string, exit: int)
    requires |carry| < BUFFER_SIZE && LINE !in Buffers(s, carry, exit, true)
    ensures Read(s, carry, exit, true) == Read(s, carry, exit, false)
    ensures Buffers(s, carry, exit, true) == Buffers(s, carry, exit, false)
    decreases |s|
  {
    hide Base64.DecodedBytes, Base64.DecodedTail, Stored, Ended;
    var room := BUFFER_SIZE - |carry|;
    var buf := carry + s[..Stored(s, room, exit)];
    assert Buffers(s, carry, exit, true)[0] == buf;
    if !Ended(s, room, exit).End? {
      RefillProgress(s, room, exit);
      if !Ended(s, room, exit).Exit? && |DecodedTail(buf)| < BUFFER_SIZE {
        WithoutLine(s[Taken(s, room, exit)..], DecodedTail(buf), exit);
      }
    }
  }

  /** What may follow the line: a blank, the exit character, or nothing. */
  predicate EndsLine(rest: string, exit: int) {
    rest == "" || Stops(rest[0], exit)
  }

  lemma ReadLine(rest: string, exit: int)
    requires EndsLine(rest, exit) && '=' as int != exit
    ensures Read(LINE + rest, "", exit, true) == Returned(1, [], 4 + (if rest == "" then 0 else 1))
  {
    hide Base64.DecodedBytes, Base64.DecodedTail, Stored;
    assert Plain(LINE, exit);
    StoredPlain(LINE, rest, BUFFER_SIZE, exit);
    assert "" + (LINE + rest)[..4] == LINE;
  }

  lemma PadEndsGroup(w: string)
    requires w != "" && w[|w| - 1] == '='
    ensures DecodedTail(w) == ""
  {
    assert w == w[..|w| - 1] + ['='];
    RunAppend(Start, w[..|w| - 1], '=');
  }

  /** Pads behind an open group are not taken for the line, even where the buffer ends between them. */
  lemma PadsPass(pads: string, rest: string, carry: string, exit: int)
    requires |carry| < BUFFER_SIZE && '=' !in carry && '=' as int != exit && (rest == "" || rest[0] as int == exit)
    requires |pads| <= (if carry == "" then 3 else 4) && forall c :: c in pads ==> c == '='
    ensures AllPass(Buffers(pads + rest, carry, exit, true), true)
    decreases carry != ""
  {
    hide Base64.DecodedBytes, Base64.DecodedTail, Stored, Buffers, Base64.Sextets;
    var s, room := pads + rest, BUFFER_SIZE - |carry|;
    StoredPlain(pads, rest, room, exit);
    var n := Stored(s, room, exit);
    var buf := carry + s[..n];
    assert s[..n] == pads[..n];
    assert buf != LINE by {
      assert carry != "" ==> buf[0] in carry;
    }
    if n > 0 {
      assert buf[|buf| - 1] == pads[n - 1] && pads[n - 1] in pads;
      PadEndsGroup(buf);
      assert '=' in buf;
    }
    NextBuffer(s, carry, exit, true);
    if room == n {
      assert s[n..] == pads[n..] + rest;
      assert forall c :: c in pads[n..] ==> c in pads;
      PadsPass(pads[n..], rest, "", exit);
    }
  }

  /** Behind an open group the line is read as data: its pads end the group, and the reading goes on if it can. */
  lemma ReadLineAsData(rest: string, carry: string, exit: int)
    requires EndsLine(rest, exit) && '=' as int != exit
    requires |carry| < BUFFER_SIZE && carry != "" && '=' !in carry
    ensures Read(LINE + rest, carry, exit, true) ==
            if rest != "" && rest[0] as int != exit
            then Read(rest[1..], "", exit, true).After(DecodedBytes(carry + LINE), 5)
            else Returned(1, DecodedBytes(carry + LINE), 4 + (if rest == "" then 0 else 1))
  {
    hide Base64.DecodedBytes, Base64.DecodedTail, Base64.Sextets, Buffers, Read, Stalls;
    assert Plain(LINE, exit);
    PadEndsGroup(carry + LINE);
    if rest != "" && rest[0] as int != exit {
      assert LINE + "" == LINE;
      PlainBody(LINE, "", exit);
      PadsPass(LINE, "", carry, exit);
      ReadText(LINE, rest[0], rest[1..], carry, exit, true);
      assert LINE + [rest[0]] + rest[1..] == LINE + rest;
      NoTailNoSextets(carry + LINE);
      NoTailNoSextets(Left(LINE, carry, exit, true));
    } else {
      PlainBody(LINE, rest, exit);
      PadsPass(LINE, rest, carry, exit);
      WithoutLine(LINE + rest, carry, exit);
      ReturnsIffNoRefillStalls(LINE + rest, carry, exit, false);
      StreamingFromCarry(LINE + rest, carry, exit);
    }
  }

  /**
   * The "====" stop, after any text that is read up to its blank. If one decoding uses the text up, a line of "===="
   * makes the function return 1, having written exactly the bytes of the text and read no further than that line. If
   * not, the line is missed: its pads end the open group, and only what follows the line decides whether it returns.
   */
  lemma UuStop(text: string, blank: char, rest: string, exit: int)
    requires NoExit(text, exit) && '=' as int != exit
    requires blank <= ' ' && blank as int != exit && EndsLine(rest, exit)
    requires AllPass(Buffers(text, "", exit, true), true)
    ensures var t := Body(text, exit);
            var end := |text| + 5 + (if rest == "" then 0 else 1);
            Read(text + [blank] + ("====" + rest), "", exit, true) ==
              if DecodedTail(t) == "" then Returned(1, DecodedBytes(t), end)
              else if rest == "" || rest[0] as int == exit then Returned(1, DecodedBytes(t + "===="), end)
              else Read(rest[1..], "", exit, true).After(DecodedBytes(t + "===="), end)
  {
    hide Base64.DecodedBytes, Base64.DecodedTail, Base64.Sextets, Body, NoExit, Read, Buffers, Stalls;
    var t := Body(text, exit);
    assert "" + t == t;
    ReadText(text, blank, LINE + rest, "", exit, true);
    var left := Left(text, "", exit, true);
    NoTailNoSextets(t);
    NoTailNoSextets(left);
    if left == "" {
      ReadLine(rest, exit);
      assert DecodedBytes(t) + [] == DecodedBytes(t);
    } else {
      UndecodedTail(left);
      ReadLineAsData(rest, left, exit);
      Resumption(t, LINE);
      TailOfTail(t);
      SameOpenGroup(left, DecodedTail(t), LINE);
      if rest != "" && rest[0] as int != exit {
        AfterAfter(Read(rest[1..], "", exit, true), DecodedBytes(t), |text| + 1, DecodedBytes(left + LINE), 5);
      }
    }
  }

  // ---- Texts in which no refill is the line ----

  /** Text of the table never stalls, so that being the line is all that can keep a refill from passing. */
  lemma TableTextPasses(text: string, exit: int)
    requires forall c :: c in Body(text, exit) ==> InTable(c)
    ensures AllPass(Buffers(text, "", exit, true), true) <==> LINE !in Buffers(text, "", exit, true)
  {
    hide Read, Buffers, Stalls;
    TableTextReturns(text, exit, true);
    ReturnsIffNoRefillStalls(text, "", exit, true);
    assert Passes(LINE, true) ==> false;
  }

  predicate LineAt(s: string, i: nat) {
    i + 4 <= |s| && s[i..i + 4] == "===="
  }

  ghost predicate HasLine(s: string) {
    exists i: nat :: LineAt(s, i)
  }

  lemma HasLineInSuffix(s: string, k: nat)
    requires k <= |s| && HasLine(s[k..])
    ensures HasLine(s)
  {
    var i: nat :| LineAt(s[k..], i);
    SliceOfSuffix(s, k, i, 4);
    assert LineAt(s, k + i);
  }

  lemma NotAtStart(s: string)
    requires !HasLine(s)
    ensures !LineAt(s, 0)
  {
  }

  /** Where no four pads follow each other, in particular. */
  lemma {:induction false} NoLineRefill(text: string, carry: string, exit: int)
    requires |carry| < BUFFER_SIZE && '=' !in carry && !HasLine(text)
    ensures LINE !in Buffers(text, carry, exit, true)
    decreases |text|
  {
    hide Base64.DecodedBytes, Base64.DecodedTail, Stored, Ended, Buffers, Stalls, HasLine;
    var room := BUFFER_SIZE - |carry|;
    var n, t := Stored(text, room, exit), Taken(text, room, exit);
    var buf := carry + text[..n];
    assert buf != LINE by {
      if carry != "" {
        assert buf[0] in carry;
      } else {
        assert buf == text[0..n];
        NotAtStart(text);
      }
    }
    NextBuffer(text, carry, exit, true);
    if !Ended(text, room, exit).End? {
      RefillProgress(text, room, exit);
      if |DecodedTail(buf)| < BUFFER_SIZE {
        UndecodedTail(buf);
        if HasLine(text[t..]) {
          HasLineInSuffix(text, t);
        }
        NoLineRefill(text[t..], DecodedTail(buf), exit);
      }
    }
  }

  // ---- Encodings in lines ----

  /** The lines with a newline behind each. */
  function Terminated(lines: seq<string>): seq<string> {
    if lines == [] then [] else [lines[0] + "\n"] + Terminated(lines[1..])
  }

  lemma {:induction false} BodyOfLine(line: string, rest: string)
    requires forall c :: c in line ==> c as int > 32
    ensures Body(line + "\n" + rest, -1) == line + Body(rest, -1)
    ensures Terminator(line + "\n" + rest, -1) == |line| + 1 + Terminator(rest, -1)
  {
    var s := line + "\n" + rest;
    if line == "" {
      assert s[0] == '\n' && s[1..] == rest;
    } else {
      assert line[0] in line && forall c :: c in line[1..] ==> c in line;
      assert s[0] == line[0] && s[1..] == line[1..] + "\n" + rest;
      BodyOfLine(line[1..], rest);
      assert line == [line[0]] + line[1..];
      ConsAssociative(line[0], line[1..], Body(rest, -1));
    }
  }

  lemma {:induction false} BodyOfLines(lines: seq<string>)
    requires forall c :: c in Codec.Flatten(lines) ==> c as int > 32
    ensures var s := Codec.Flatten(Terminated(lines)); Body(s, -1) == Codec.Flatten(lines) && Terminator(s, -1) == |s|
  {
    if lines != [] {
      hide Body, Terminator;
      var rest := Codec.Flatten(Terminated(lines[1..]));
      assert Codec.Flatten(lines) == lines[0] + Codec.Flatten(lines[1..]);
      assert forall c :: c in lines[0] ==> c in Codec.Flatten(lines);
      assert forall c :: c in Codec.Flatten(lines[1..]) ==> c in Codec.Flatten(lines);
      BodyOfLines(lines[1..]);
      BodyOfLine(lines[0], rest);
      assert Terminated(lines)[1..] == Terminated(lines[1..]);
      assert lines[0] + "\n" + rest == (lines[0] + "\n") + rest;
    }
  }

  lemma EncodingIsVisible(x: seq<byte>)
    ensures forall c :: c in Encode(x, BASE64_TABLE) ==> c as int > 32
  {
    Codec.TableIsRfc();
    var s := Encode(x, BASE64_TABLE);
    forall i | 0 <= i < |s|
      ensures s[i] as int > 32
    {
      assert s[i] == EncodedChar(x, BASE64_TABLE, i);
    }
  }

  /** An encoding cut into lines anywhere comes back from a stream that ends behind the last line. */
  lemma StreamedLines(x: seq<byte>, lines: seq<string>)
    requires Codec.Flatten(lines) == Encode(x, BASE64_TABLE)
    ensures var s := Codec.Flatten(Terminated(lines)); Read(s, "", -1, false) == Returned(1, x, |s|)
  {
    hide Read, Body, Terminator, Base64.Encode;
    EncodingIsVisible(x);
    BodyOfLines(lines);
    StreamedRoundTrip(x, Codec.Flatten(Terminated(lines)), -1);
  }

  // ---- A whole file of uuencoded text ----

  function Pads(s: string): nat {
    multiset(s)['=']
  }

  lemma {:induction false} PadsOfBody(s: string)
    ensures Pads(Body(s, -1)) == Pads(s)
  {
    if s != "" {
      PadsOfBody(s[1..]);
      assert s == [s[0]] + s[1..];
      assert multiset(s) == multiset{s[0]} + multiset(s[1..]);
    }
  }

  lemma FewPadsNoLine(s: string)
    requires Pads(s) < 4
    ensures !HasLine(s)
  {
    if i: nat :| LineAt(s, i) {
      assert s == s[..i] + "====" + s[i + 4..];
      assert multiset(s) == multiset(s[..i]) + multiset("====") + multiset(s[i + 4..]);
    }
  }

  lemma EncodingHasFewPads(x: seq<byte>)
    ensures Pads(Encode(x, BASE64_TABLE)) < 4
  {
    Codec.TableIsRfc();
    var s := Encode(x, BASE64_TABLE);
    var n := |s| - Padding(|x|);
    var head := s[..n];
    assert '=' !in head by {
      forall i | 0 <= i < n
        ensures s[i] != '='
      {
        assert s[i] == EncodedChar(x, BASE64_TABLE, i);
      }
    }
    assert s == head + s[n..];
    assert multiset(s) == multiset(head) + multiset(s[n..]);
    assert |multiset(s[n..])| < 4;
  }

  lemma {:induction false} BodyWithoutNewline(s: string)
    ensures Body(s + "\n", -1) == Body(s, -1)
  {
    if s == "" {
      assert (s + "\n")[1..] == "";
    } else {
      assert (s + "\n")[1..] == s[1..] + "\n";
      BodyWithoutNewline(s[1..]);
    }
  }

  lemma EncodingInTable(x: seq<byte>)
    ensures forall c :: c in Encode(x, BASE64_TABLE) ==> InTable(c)
  {
    Codec.TableIsRfc();
    var s := Encode(x, BASE64_TABLE);
    forall i | 0 <= i < |s|
      ensures InTable(s[i])
    {
      assert s[i] == EncodedChar(x, BASE64_TABLE, i);
    }
  }

  lemma LinesPass(x: seq<byte>, text: string)
    requires Body(text, -1) == Encode(x, BASE64_TABLE)
    ensures NoExit(text, -1) && AllPass(Buffers(text, "", -1, true), true)
  {
    hide Base64.Encode, Body, Buffers, Passes, HasLine, Pads;
    EncodingInTable(x);
    EncodingHasFewPads(x);
    PadsOfBody(text);
    FewPadsNoLine(text);
    NoLineRefill(text, "", -1);
    TableTextPasses(text, -1);
  }

  /** The last newline stands alone behind the text that it ends. */
  lemma {:induction false} LastNewline(lines: seq<string>)
    requires lines != []
    ensures var s := Codec.Flatten(Terminated(lines)); s != "" && s[|s| - 1] == '\n'
  {
    if |lines| > 1 {
      LastNewline(lines[1..]);
    }
    assert Terminated(lines)[1..] == Terminated(lines[1..]);
  }

  /**
   * Uuencoded text as it stands in a file: the encoding cut into lines anywhere, and a line of "====". The function
   * writes exactly the source, returns 1, and leaves what follows unread.
   */
  lemma UuFile(x: seq<byte>, lines: seq<string>, rest: string)
    requires Codec.Flatten(lines) == Encode(x, BASE64_TABLE)
    ensures var s := Codec.Flatten(Terminated(lines));
            Read(s + ("====\n" + rest), "", -1, true) == Returned(1, x, |s| + 5)
  {
    hide Read, Body, Terminator, Base64.Encode, Base64.DecodedBytes, Base64.DecodedTail, Buffers, NoExit, Passes;
    var s := Codec.Flatten(Terminated(lines));
    Codec.RoundTrip(x);
    assert "====\n" + rest == LINE + ("\n" + rest);
    if lines == [] {
      DecodeEmpty();
      ReadLine("\n" + rest, -1);
      assert s + ("====\n" + rest) == LINE + ("\n" + rest);
    } else {
      EncodingIsVisible(x);
      BodyOfLines(lines);
      LastNewline(lines);
      var text := s[..|s| - 1];
      assert s == text + "\n";
      BodyWithoutNewline(text);
      LinesPass(x, text);
      UuStop(text, '\n', "\n" + rest, -1);
      assert s + ("====\n" + rest) == text + ['\n'] + ("====" + ("\n" + rest));
    }
  }
}
