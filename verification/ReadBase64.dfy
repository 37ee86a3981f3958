/** `read_base64`: the loop over a stream, with its two fixed buffers (src/uuencode.c). */
module ReadBase64 {
  import opened Base64
  import opened Streaming
  import opened Uuencode
  import opened Decoding

  /** An input stream at a position; reading past the end gives `EOF` and does not move. */
  class InStream {
    const data: string
    var pos: nat

    constructor (data: string)
      ensures this.data == data && pos == 0 && Valid()
    {
      this.data := data;
      pos := 0;
    }

    ghost predicate Valid()
      reads this
    {
      pos <= |data|
    }

    ghost function Rest(): string
      reads this
      requires Valid()
    {
      data[pos..]
    }

    method Fgetc() returns (ch: int)
      requires Valid()
      modifies this
      ensures Valid()
      ensures if old(Rest()) == "" then ch == EOF && pos == old(pos)
              else ch == old(Rest())[0] as int && pos == old(pos) + 1
    {
      if pos == |data| {
        ch := EOF;
      } else {
        ch := data[pos] as int;
        pos := pos + 1;
      }
    }
  }

  class OutStream {
    var written: seq<byte>

    constructor ()
      ensures written == []
    {
      written := [];
    }

    method Fwrite(buf: array<byte>, n: nat)
      requires n <= buf.Length
      modifies this
      ensures written == old(written) + buf[..n]
    {
      written := written + buf[..n];
    }
  }

  method Strlen(buf: array<char>, at: nat, ghost s: string) returns (n: nat)
    requires HoldsString(buf[..], at, s)
    ensures n == |s|
  {
    n := 0;
    while buf[at + n] != '\0'
      invariant n <= |s|
      decreases |s| - n
    {
      assert buf[at + n] == buf[..][at..at + |s|][n] == s[n];
      n := n + 1;
    }
  }

  /** `memmove` to the start of the buffer. */
  method MoveToFront(buf: array<char>, from: nat, n: nat)
    requires from + n <= buf.Length
    modifies buf
    ensures buf[..n] == old(buf[from..from + n])
  {
    forall i | 0 <= i < n {
      buf[i] := buf[from + i];
    }
  }

  /** After k stored characters the refill goes on as a refill of what is left. */
  ghost predicate SameRefill(s: string, k: nat, room: nat, exit: int) {
    && k <= |s| && k <= room
    && Stored(s, room, exit) == k + Stored(s[k..], room - k, exit)
    && Ended(s, room, exit) == Ended(s[k..], room - k, exit)
  }

  lemma SameStart(s: string, room: nat, exit: int)
    ensures SameRefill(s, 0, room, exit)
  {
    assert s[0..] == s;
  }

  lemma SameNext(s: string, k: nat, room: nat, exit: int)
    requires SameRefill(s, k, room, exit) && k < |s| && k < room && !Stops(s[k], exit)
    ensures SameRefill(s, k + 1, room, exit)
  {
    RefillNext(s[k..], room - k, exit);
    assert s[k..][1..] == s[k + 1..];
  }

  lemma SameEnd(s: string, k: nat, room: nat, exit: int)
    requires SameRefill(s, k, room, exit)
    requires k == room || k == |s| || Stops(s[k], exit)
    ensures Stored(s, room, exit) == k
    ensures Ended(s, room, exit) == if k == room then Full else if k == |s| then End
                                    else if s[k] as int == exit then Exit else Blank
  {
  }

  lemma {:induction false} StoredIsPlain(s: string, room: nat, exit: int)
    ensures Plain(s[..Stored(s, room, exit)], exit)
  {
    if !(room == 0 || s == "" || Stops(s[0], exit)) {
      var r := s[1..];
      StoredIsPlain(r, room - 1, exit);
      assert s[..Stored(s, room, exit)] == [s[0]] + r[..Stored(r, room - 1, exit)];
    }
  }

  /** The inner loop: fills the buffer behind what is carried over until something ends the refill, and adds the NUL. */
  method Refill(src: InStream, inBuf: array<char>, carried: nat, exitChar: int)
    returns (inCount: nat, ending: Ending)
    requires src.Valid() && carried <= BUFFER_SIZE && inBuf.Length == BUFFER_SIZE + 2
    requires '\0' !in inBuf[..carried]
    modifies src, inBuf
    ensures src.Valid()
    ensures var s, room := old(src.Rest()), BUFFER_SIZE - carried;
            && inCount == carried + Stored(s, room, exitChar)
            && (ending == Ended(s, room, exitChar) || (exitChar == EOF && ending.Exit? && Ended(s, room, exitChar).End?))
            && src.pos == old(src.pos) + Taken(s, room, exitChar)
            && HoldsString(inBuf[..], 0, old(inBuf[..carried]) + s[..Stored(s, room, exitChar)])
  {
    hide Stored, Ended, SameRefill;
    ghost var s := src.Rest();
    ghost var room := BUFFER_SIZE - carried;
    assert SameRefill(s, 0, room, exitChar) by {
      SameStart(s, room, exitChar);
    }
    inCount := carried;
    ending := Full;
    assert s[0..] == s;
    while inCount < BUFFER_SIZE
      invariant src.Valid() && carried <= inCount <= BUFFER_SIZE && ending.Full?
      invariant src.pos == old(src.pos) + (inCount - carried) && inCount - carried <= |s|
      invariant SameRefill(s, inCount - carried, room, exitChar)
      invariant inBuf[..inCount] == old(inBuf[..carried]) + s[..inCount - carried]
    {
      ghost var k := inCount - carried;
      var ch := src.Fgetc();
      if ch == exitChar {
        SameEnd(s, k, room, exitChar);
        ending := Exit;
        break;
      }
      if ch == EOF {
        SameEnd(s, k, room, exitChar);
        ending := End;
        break;
      }
      if ch <= ' ' as int {
        SameEnd(s, k, room, exitChar);
        ending := Blank;
        break;
      }
      SameNext(s, k, room, exitChar);
      inBuf[inCount] := ch as char;
      inCount := inCount + 1;
      assert s[..k + 1] == s[..k] + [s[k]];
    }
    if ending.Full? {
      SameEnd(s, room, room, exitChar);
    }
    StoredIsPlain(s, room, exitChar);
    ghost var buf := inBuf[..inCount];
    inBuf[inCount] := '\0';
    assert inBuf[..][0..0 + inCount] == buf;
  }

  /** What comes of the outer loop from the top of a pass, also when it is caught already. */
  function Loop(s: string, carry: string, exit: int, uu: bool): Outcome
    requires |carry| < BUFFER_SIZE || Stalls(carry)
  {
    if |carry| < BUFFER_SIZE then Read(s, carry, exit, uu) else Stuck([])
  }

  /** One pass of the outer loop. */
  lemma Pass(s: string, carry: string, exit: int, uu: bool)
    requires |carry| < BUFFER_SIZE || Stalls(carry)
    ensures |carry| <= BUFFER_SIZE
    ensures var room := BUFFER_SIZE - |carry|;
            var e, n, t := Ended(s, room, exit), Stored(s, room, exit), Taken(s, room, exit);
            var buf := carry + s[..n];
            var tail := DecodedTail(buf);
            if ((e.Exit? || e.End?) && buf == "") || (uu && buf == LINE)
            then Loop(s, carry, exit, uu) == Returned(1, [], t)
            else if e.Exit? || e.End?
            then Loop(s, carry, exit, uu) == Returned(if tail == "" then 1 else 0, DecodedBytes(buf), t)
            else && (t > 0 || Stalls(tail)) && (|tail| < BUFFER_SIZE || Stalls(tail))
                 && Loop(s, carry, exit, uu) == Loop(s[t..], tail, exit, uu).After(DecodedBytes(buf), t)
  {
    hide Base64.DecodedTail, Base64.DecodedBytes, Stored, Ended, Stalls;
    DecodeEmpty();
    if |carry| < BUFFER_SIZE {
      var room := BUFFER_SIZE - |carry|;
      if !Ended(s, room, exit).End? {
        RefillProgress(s, room, exit);
      }
      var buf := carry + s[..Stored(s, room, exit)];
      TailFits(buf);
      StallIsFixedPoint(buf);
    } else {
      assert Stalls(carry) && |carry| == BUFFER_SIZE by { StallFills(carry); }
      StalledPass(s, carry, exit, uu);
      AfterNothing(Stuck([]));
    }
  }

  lemma StallFills(w: string)
    requires Stalls(w)
    ensures |w| == BUFFER_SIZE
  {
  }

  lemma TailChars(buf: string)
    requires '\0' !in buf
    ensures '\0' !in DecodedTail(buf)
  {
    UndecodedTail(buf);
  }

  /** Decodes the buffer and writes the bytes out; at most 48 of them, so they fit the 50-byte output buffer. */
  method Flush(inBuf: array<char>, outBuf: array<byte>, dst: OutStream, ghost buf: string) returns (inTail: nat)
    requires HoldsString(inBuf[..], 0, buf) && |buf| <= BUFFER_SIZE
    requires outBuf.Length == BUFFER_SIZE / 4 * 3 + 2
    modifies outBuf, dst
    ensures dst.written == old(dst.written) + DecodedBytes(buf)
    ensures inTail == |buf| - |DecodedTail(buf)| && HoldsString(inBuf[..], inTail, DecodedTail(buf))
    ensures inBuf[inTail] == '\0' <==> DecodedTail(buf) == ""
  {
    hide Base64.DecodedTail, Base64.DecodedBytes;
    RateBound(buf);
    UndecodedTail(buf);
    TailChars(buf);
    var outTail;
    outTail, inTail := DecodeBase64(outBuf, 0, inBuf, 0, buf);
    assert outBuf[..outTail] == outBuf[0..outTail];
    ghost var tail := DecodedTail(buf);
    if tail != "" {
      assert inBuf[inTail] == inBuf[inTail..inTail + |tail|][0] == tail[0];
    }
    dst.Fwrite(outBuf, outTail);
  }

  /** Moves the tail to the front of the buffer. */
  method CarryOver(inBuf: array<char>, inTail: nat, ghost tail: string) returns (inCount: nat)
    requires HoldsString(inBuf[..], inTail, tail)
    modifies inBuf
    ensures inCount == |tail| && inCount < inBuf.Length && inBuf[..inCount] == tail
  {
    inCount := Strlen(inBuf, inTail, tail);
    assert inBuf[inTail..inTail + inCount] == inBuf[..][inTail..inTail + inCount];
    MoveToFront(inBuf, inTail, inCount);
  }

  /** The body of the outer loop: either the function returns, or it carries a tail over to the next pass. */
  method OnePass(src: InStream, dst: OutStream, inBuf: array<char>, outBuf: array<byte>, carried: nat, exitChar: int, uu: bool)
    returns (done: bool, ret: int, inCount: nat, ghost out: seq<byte>)
    requires src.Valid() && inBuf.Length == BUFFER_SIZE + 2 && outBuf.Length == BUFFER_SIZE / 4 * 3 + 2
    requires carried <= BUFFER_SIZE && '\0' !in inBuf[..carried]
    requires carried < BUFFER_SIZE || Stalls(inBuf[..carried])
    modifies src, dst, inBuf, outBuf
    ensures src.Valid() && src.pos >= old(src.pos) && dst.written == old(dst.written) + out
    ensures var o := old(Loop(src.Rest(), inBuf[..carried], exitChar, uu));
            if done then o == Returned(ret, out, src.pos - old(src.pos))
            else && inCount <= BUFFER_SIZE && '\0' !in inBuf[..inCount]
                 && (inCount < BUFFER_SIZE || Stalls(inBuf[..inCount]))
                 && (src.pos > old(src.pos) || inCount == BUFFER_SIZE)
                 && o == Loop(src.Rest(), inBuf[..inCount], exitChar, uu).After(out, src.pos - old(src.pos))
  {
    hide Loop, Stalls, Ended, Stored, Taken, Base64.DecodedTail, Base64.DecodedBytes;
    ghost var s, carry := src.Rest(), inBuf[..carried];
    Pass(s, carry, exitChar, uu);
    DecodeEmpty();
    var ending: Ending;
    inCount, ending := Refill(src, inBuf, carried, exitChar);
    ghost var buf := carry + s[..Stored(s, BUFFER_SIZE - carried, exitChar)];
    assert inBuf[..inCount] == inBuf[..][0..0 + inCount] == buf;
    if ending.Exit? && inCount == 0 {
      return true, 1, 0, [];
    }
    if uu && inBuf[..inCount] == LINE {
      return true, 1, 0, [];
    }
    out := DecodedBytes(buf);
    var inTail := Flush(inBuf, outBuf, dst, buf);
    if ending.Exit? || ending.End? {
      return true, if inBuf[inTail] == '\0' then 1 else 0, 0, out;
    }
    TailChars(buf);
    ghost var tail := DecodedTail(buf);
    if Stalls(tail) {
      StallFills(tail);
    }
    done, ret := false, 0;
    inCount := CarryOver(inBuf, inTail, tail);
  }

  /**
   * Reads base64 text from the stream and writes what it decodes to, in at most so many passes of the outer loop. When
   * it returns, what it returns, writes and uses is what `Streaming.Read` says. With more passes than the stream has
   * characters, it returns unless that is to be caught for ever, and then all the bytes of that outcome are written.
   */
  method ReadBase64(src: InStream, dst: OutStream, flags: int, passes: nat) returns (done: bool, ret: int)
    requires src.Valid()
    modifies src, dst
    ensures src.Valid() && src.pos >= old(src.pos) && old(dst.written) <= dst.written
    ensures var o := old(Read(src.Rest(), "", ExitChar(flags), UuStyleEnd(flags)));
            && (done ==> o == Returned(ret, dst.written[|old(dst.written)|..], src.pos - old(src.pos)))
            && dst.written <= old(dst.written) + o.out
            && (passes > old(|src.Rest()|) && !done ==> o.Stuck? && dst.written == old(dst.written) + o.out)
  {
    hide Read, Loop, Stalls, ExitChar, UuStyleEnd, Outcome.After, BASE64_TABLE;
    var exitChar, uu := ExitChar(flags), UuStyleEnd(flags);
    ghost var whole := Read(src.Rest(), "", exitChar, uu);
    var inBuf := new char[BUFFER_SIZE + 2];
    var outBuf := new byte[BUFFER_SIZE / 4 * 3 + 2];
    var inCount: nat := 0;
    ghost var written: seq<byte> := [];
    assert inBuf[..0] == "";
    AfterNothing(whole);
    FirstPass(src.Rest(), exitChar, uu);
    for k := 0 to passes
      invariant src.Valid() && src.pos >= old(src.pos) && inCount <= BUFFER_SIZE && '\0' !in inBuf[..inCount]
      invariant inCount < BUFFER_SIZE || Stalls(inBuf[..inCount])
      invariant dst.written == old(dst.written) + written
      invariant whole == Loop(src.Rest(), inBuf[..inCount], exitChar, uu).After(written, src.pos - old(src.pos))
      invariant src.pos - old(src.pos) >= k || whole == Stuck(written)
    {
      ghost var from := src.pos;
      var d, r, n, out := OnePass(src, dst, inBuf, outBuf, inCount, exitChar, uu);
      if d {
        AfterReturned(r, out, src.pos - from, written, from - old(src.pos));
        return true, r;
      }
      inCount := n;
      ghost var later := Loop(src.Rest(), inBuf[..inCount], exitChar, uu);
      AfterAfter(later, written, from - old(src.pos), out, src.pos - from);
      written := written + out;
      StartsWith(later, written, src.pos - old(src.pos));
      if src.pos == from {
        CaughtLoop(src.Rest(), inBuf[..inCount], exitChar, uu);
      }
    }
    StartsWith(Loop(src.Rest(), inBuf[..inCount], exitChar, uu), written, src.pos - old(src.pos));
    return false, 0;
  }

  lemma AfterReturned(r: int, out: seq<byte>, used: nat, before: seq<byte>, n: nat)
    ensures Returned(r, out, used).After(before, n) == Returned(r, before + out, n + used)
  {
  }

  lemma StartsWith(o: Outcome, before: seq<byte>, n: nat)
    ensures before <= o.After(before, n).out
    ensures o == Stuck([]) ==> o.After(before, n) == Stuck(before)
    ensures o.After(before, n).Stuck? ==> o.Stuck?
  {
  }

  lemma FirstPass(s: string, exit: int, uu: bool)
    ensures Loop(s, "", exit, uu) == Read(s, "", exit, uu)
  {
  }

  lemma CaughtLoop(s: string, carry: string, exit: int, uu: bool)
    requires |carry| == BUFFER_SIZE && Stalls(carry)
    ensures Loop(s, carry, exit, uu) == Stuck([])
  {
  }

  lemma AfterNothing(o: Outcome)
    ensures o.After([], 0) == o
  {
  }
}
