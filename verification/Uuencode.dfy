/** `uuencode_get_length`, `uuencode` and `decode_base64` as they work on buffers (src/uuencode.c). */
module Uuencode {
  import opened Base64
  import opened Bits
  import Codec
  import Decoding

  newtype int32 = x: int | -0x8000_0000 <= x < 0x8000_0000

  /** The longest source whose encoded length is still a C int. */
  const MAX_SOURCE: int := 1610612733

  function UuencodeGetLength(sourceSize: int32): (size: int32)
    requires 0 <= sourceSize as int <= MAX_SOURCE
    ensures size as int == EncodedLength(sourceSize as int)
    ensures size as int + 1 < 0x8000_0000
  {
    4 * ((sourceSize + 2) / 3)
  }

  /** `MAX_SOURCE` is exact: one byte more and the length is not an int. */
  lemma LengthOverflows(n: nat)
    ensures EncodedLength(n) < 0x8000_0000 <==> n <= MAX_SOURCE
  {
  }

  // ---- Shifts and masks against digits ----

  lemma Powers()
    ensures Pow2(2) == 4 && Pow2(4) == 16 && Pow2(6) == 64
  {
    assert Pow2(1) == 2 && Pow2(2) == 4 && Pow2(3) == 8 && Pow2(4) == 16 && Pow2(5) == 32;
  }

  /** The four table offsets that the encoder computes, as C evaluates them. */
  function Offsets(s0: byte, s1: byte, s2: byte): seq<nat> {
    [Shr(s0, 2), Shl(And(s0, 3), 4) + Shr(s1, 4), Shl(And(s1, 0xf), 2) + Shr(s2, 6), And(s2, 0x3f)]
  }

  lemma OffsetsAreDigits(s0: byte, s1: byte, s2: byte)
    ensures Offsets(s0, s1, s2) == Codec.Digits(s0 * 65536 + s1 * 256 + s2)
  {
    Powers();
    AndIsMod(s0, 2);
    AndIsMod(s1, 4);
    AndIsMod(s2, 6);
    DigitsOfBytes(s0, s1, s2);
  }

  lemma DigitsOfBytes(a: nat, b: nat, c: nat)
    requires a < 256 && b < 256 && c < 256
    ensures Codec.Digits(a * 65536 + b * 256 + c) ==
            [a / 4, a % 4 * 16 + b / 16, b % 16 * 4 + c / 64, c % 64]
  {
    hide Pow2;
    var n := a * 65536 + b * 256 + c;
    DivMod(n, 262144, a / 4, a % 4 * 65536 + b * 256 + c);
    DivMod(n, 4096, a * 16 + b / 16, b % 16 * 256 + c);
    DivMod(a * 16 + b / 16, 64, a / 4, a % 4 * 16 + b / 16);
    DivMod(n, 64, a * 1024 + b * 4 + c / 64, c % 64);
    DivMod(a * 1024 + b * 4 + c / 64, 64, a * 16 + b / 16, b % 16 * 4 + c / 64);
  }

  /** The three bytes that the decoder computes from four sextets, as C evaluates and truncates them. */
  function Joined(v0: sextet, v1: sextet, v2: sextet, v3: sextet): (b: seq<byte>)
    ensures |b| == 3
  {
    [Or(Shl(v0, 2), Shr(v1, 4)) % 256, Or(Shl(v1, 4), Shr(v2, 2)) % 256, Or(Shl(v2, 6), v3) % 256]
  }

  lemma OrShifted(x: nat, k: nat, p: nat, y: nat)
    requires p == Pow2(k) && y < p
    ensures Or(Shl(x, k), y) == x * p + y
  {
    OrIsSum(x, k, y);
  }

  lemma JoinedAreBytes(v0: sextet, v1: sextet, v2: sextet, v3: sextet)
    ensures Joined(v0, v1, v2, v3) == GroupBytes([v0, v1, v2, v3])
  {
    hide Or, Shl;
    Powers();
    OrShifted(v0, 2, 4, v1 / 16);
    OrShifted(v1, 4, 16, v2 / 4);
    OrShifted(v2, 6, 64, v3);
    BytesOfSextets(v0, v1, v2, v3);
    var n := v0 * 262144 + v1 * 4096 + v2 * 64 + v3;
    assert Number([v0, v1, v2, v3]) == n;
    assert GroupBytes([v0, v1, v2, v3]) == [n / 65536, n / 256 % 256, n % 256];
  }

  lemma BytesOfSextets(a: nat, b: nat, c: nat, d: nat)
    requires a < 64 && b < 64 && c < 64 && d < 64
    ensures var n := a * 262144 + b * 4096 + c * 64 + d;
            && n / 65536 == (a * 4 + b / 16) % 256
            && n / 256 % 256 == (b * 16 + c / 4) % 256
            && n % 256 == (c * 64 + d) % 256
  {
    var n := a * 262144 + b * 4096 + c * 64 + d;
    DivMod(n, 65536, a * 4 + b / 16, b % 16 * 4096 + c * 64 + d);
    DivMod(n, 256, a * 1024 + b * 16 + c / 4, c % 4 * 64 + d);
    DivMod(a * 1024 + b * 16 + c / 4, 256, a * 4 + b / 16, b % 16 * 16 + c / 4);
    DivMod(b * 16 + c / 4, 256, b / 16, b % 16 * 16 + c / 4);
    DivMod(c * 64 + d, 256, c / 4, c % 4 * 64 + d);
  }

  // ---- The encoder ----

  /** Output character i before padding: every group is written out in full, missing bytes as zero. */
  function RawChar(x: seq<byte>, tbl: Table, i: nat): char {
    tbl[SixBits(Group(x, i / 4), i % 4)]
  }

  lemma RawGroup(x: seq<byte>, tbl: Table, g: nat, k: nat)
    requires k < 4
    ensures RawChar(x, tbl, 4 * g + k) == tbl[Codec.Digits(Group(x, g))[k]]
  {
    DivMod(4 * g + k, 4, g, k);
  }

  lemma EncodeFromRaw(x: seq<byte>, tbl: Table, t: string)
    requires |t| == EncodedLength(|x|)
    requires forall i :: 0 <= i < |t| ==> t[i] == if i < |t| - Padding(|x|) then RawChar(x, tbl, i) else tbl[64]
    ensures t == Encode(x, tbl)
  {
  }

  /** The four stores of the loop body, for group g of x. */
  method PutGroup(p: array<char>, q: nat, s0: byte, s1: byte, s2: byte, tbl: Table, ghost x: seq<byte>, ghost g: nat)
    requires q + 4 <= p.Length && s0 * 65536 + s1 * 256 + s2 == Group(x, g)
    modifies p
    ensures forall k :: q <= k < q + 4 ==> p[k] == RawChar(x, tbl, 4 * g + k - q)
    ensures forall k :: 0 <= k < p.Length && !(q <= k < q + 4) ==> p[k] == old(p[k])
  {
    hide Offsets, Codec.Digits, RawChar;
    var o := Offsets(s0, s1, s2);
    OffsetsAreDigits(s0, s1, s2);
    RawGroup(x, tbl, g, 0);
    RawGroup(x, tbl, g, 1);
    RawGroup(x, tbl, g, 2);
    RawGroup(x, tbl, g, 3);
    p[q] := tbl[o[0]];
    p[q + 1] := tbl[o[1]];
    p[q + 2] := tbl[o[2]];
    p[q + 3] := tbl[o[3]];
  }

  /** Walks back from q over the last characters, one for each unit that `left` is below zero, and puts the pad there. */
  method PadBackward(p: array<char>, q: nat, left: int32, tbl: Table)
    requires -2 <= left <= 0 && -left as int <= q <= p.Length
    modifies p
    ensures forall k :: q + left as int <= k < q ==> p[k] == tbl[64]
    ensures forall k :: 0 <= k < p.Length && !(q + left as int <= k < q) ==> p[k] == old(p[k])
  {
    var at, n := q, left;
    while n != 0
      invariant -2 <= n <= 0 && at == q + left as int - n as int
      invariant forall k :: at <= k < q ==> p[k] == tbl[64]
      invariant forall k :: 0 <= k < p.Length && !(at <= k < q) ==> p[k] == old(p[k])
      decreases -n
    {
      at := at - 1;
      p[at] := tbl[64];
      n := n + 1;
    }
  }

  lemma GroupFits(n: nat, g: nat)
    requires 3 * g < n
    ensures 4 * g + 4 <= EncodedLength(n)
  {
  }

  lemma GroupsDone(n: nat, g: nat)
    requires n <= 3 * g <= n + 2
    ensures 4 * g == EncodedLength(n) && 3 * g - n == Padding(n)
  {
  }

  predicate Outside(k: int, start: nat, size: nat) {
    k < start || start + size < k
  }

  /**
   * Writes the section 4 encoding of the first `length` bytes and a NUL, from `start` on: groups forward, then the
   * padding backward over the last one or two characters. Nothing else in the buffer changes.
   */
  method Uuencode(p: array<char>, start: nat, src: seq<byte>, length: int32, tbl: Table)
    requires 0 <= length as int <= MAX_SOURCE && length as int <= |src|
    requires start + UuencodeGetLength(length) as int < p.Length
    modifies p
    ensures var size := UuencodeGetLength(length) as int;
            && p[start..start + size] == Encode(src[..length as int], tbl)
            && p[start + size] == '\0'
            && forall k :: 0 <= k < p.Length && Outside(k, start, size) ==> p[k] == old(p[k])
  {
    hide Base64.Encode, RawChar, EncodedLength, Padding, UuencodeGetLength;
    ghost var x := src[..length as int];
    ghost var size := UuencodeGetLength(length) as int;
    var left, s, q := length, 0, start;
    ghost var g := 0;
    while left > 0
      invariant s == 3 * g && q == start + 4 * g <= start + size
      invariant left as int == length as int - s && left >= -2
      invariant forall i :: start <= i < q ==> p[i] == RawChar(x, tbl, i - start)
      invariant forall k :: 0 <= k < p.Length && Outside(k, start, size) ==> p[k] == old(p[k])
      decreases left
    {
      var s1: byte, s2: byte := 0, 0;
      left := left - 3;
      if left >= -1 {
        s1 := src[s + 1];
        if left >= 0 {
          s2 := src[s + 2];
        }
      }
      GroupFits(length as int, g);
      PutGroup(p, q, src[s], s1, s2, tbl, x, g);
      q := q + 4;
      s := s + 3;
      g := g + 1;
    }
    ghost var end := q;
    GroupsDone(length as int, g);
    p[q] := '\0';
    PadBackward(p, q, left, tbl);
    EncodeFromRaw(x, tbl, p[start..end]);
  }

  // ---- The decoder ----

  /** `strchr`, as an offset; -1 stands for a null result. */
  function Strchr(s: string, c: char): (i: int)
    ensures i == -1 || (0 <= i < |s| && s[i] == c)
    ensures i == -1 ==> c !in s
  {
    if s == "" then -1
    else if s[0] == c then 0
    else
      var i := Strchr(s[1..], c);
      if i == -1 then -1 else i + 1
  }

  lemma {:induction false} StrchrIsIndex(c: char)
    ensures Strchr(BASE64_TABLE, c) == Index(c)
  {
    hide Strchr;
    Codec.TableIsRfc();
    if InTable(c) {
      Codec.TableInverts(BASE64_TABLE, c);
    }
  }

  /** The buffer holds the C string s from `at` on. */
  ghost predicate HoldsString(buf: seq<char>, at: nat, s: string) {
    at + |s| < |buf| && buf[at..at + |s|] == s && buf[at + |s|] == '\0' && '\0' !in s
  }

  /** The state of the decoder after the first i characters of s, in terms of the C variables. */
  ghost predicate Reached(s: string, i: nat, tail: nat, out: seq<byte>, six: seq<sextet>) {
    && tail <= i <= |s|
    && Run(Start, s[..i]) == Decoder(out, s[tail..i])
    && Sextets(s[tail..i]) == six
  }

  lemma ReachNext(s: string, i: nat, tail: nat, out: seq<byte>, six: seq<sextet>)
    requires Reached(s, i, tail, out, six) && i < |s| && |six| < 4
    ensures !InTable(s[i]) ==> Reached(s, i + 1, tail, out, six)
    ensures s[i] == '=' ==> Reached(s, i + 1, i + 1, out + GroupBytes(six), [])
    ensures IsSextet(s[i]) && |six| < 3 ==> Reached(s, i + 1, tail, out, six + [Index(s[i])])
    ensures IsSextet(s[i]) && |six| == 3 ==> Reached(s, i + 1, i + 1, out + GroupBytes(six + [Index(s[i])]), [])
  {
    hide Base64.Run, Base64.GroupBytes;
    var t := s[tail..i];
    assert s[..i + 1] == s[..i] + [s[i]] && s[tail..i + 1] == t + [s[i]] && s[i + 1..i + 1] == "";
    Decoding.RunAppend(Start, s[..i], s[i]);
    Decoding.SextetsAppend(t, s[i]);
    assert six + [] == six;
  }

  /** The bytes of a short group do not depend on the sextets after it, whatever they are. */
  lemma GroupPrefix(six: seq<sextet>, count: nat)
    requires |six| == 4 && count <= 4
    ensures Joined(six[0], six[1], six[2], six[3])[..if count <= 1 then 0 else count - 1] == GroupBytes(six[..count])
  {
    hide Or, Shl, Shr;
    var w: seq<sextet> := [six[0], six[1], if count > 2 then six[2] else 0, if count > 3 then six[3] else 0];
    if count > 1 {
      JoinedAreBytes(w[0], w[1], w[2], w[3]);
      assert w == [w[0], w[1], w[2], w[3]];
      assert Number(six[..count]) == Number(w);
    }
  }

  /** What has been written is a beginning of what will be. */
  lemma WrittenSoFar(s: string, i: nat, tail: nat, out: seq<byte>)
    requires Reached(s, i, tail, out, [])
    ensures |out| <= |DecodedBytes(s)|
  {
    hide Base64.Step;
    assert s == s[..i] + s[i..];
    Decoding.RunConcat(Start, s[..i], s[i..]);
    Decoding.RunFrame(Run(Start, s[..i]), s[i..]);
  }

  lemma ReachStart(s: string)
    ensures Reached(s, 0, 0, [], [])
  {
  }

  lemma ReachEnd(s: string, tail: nat, out: seq<byte>, six: seq<sextet>)
    requires Reached(s, |s|, tail, out, six)
    ensures out == DecodedBytes(s)
    ensures DecodedTail(s) == if six == [] then "" else s[tail..]
  {
    assert s[..|s|] == s && s[tail..|s|] == s[tail..];
  }

  /** The three conditional stores that end the loop body. */
  method WriteGroup(dstBuf: array<byte>, ghost dst0: nat, dst: nat, sixBit: seq<sextet>, count: nat) returns (end: nat)
    requires |sixBit| == 4 && count <= 4
    requires dst0 <= dst && dst + |GroupBytes(sixBit[..count])| <= dstBuf.Length
    modifies dstBuf
    ensures end == dst + |GroupBytes(sixBit[..count])|
    ensures dstBuf[dst0..end] == old(dstBuf[dst0..dst]) + GroupBytes(sixBit[..count])
    ensures forall k :: 0 <= k < dstBuf.Length && !(dst0 <= k < end) ==> dstBuf[k] == old(dstBuf[k])
  {
    hide Base64.Number, Joined;
    GroupPrefix(sixBit, count);
    var joined := Joined(sixBit[0], sixBit[1], sixBit[2], sixBit[3]);
    end := dst;
    if count > 1 {
      dstBuf[end] := joined[0];
      end := end + 1;
    }
    if count > 2 {
      dstBuf[end] := joined[1];
      end := end + 1;
    }
    if count > 3 {
      dstBuf[end] := joined[2];
      end := end + 1;
    }
  }

  /**
   * Decodes the string at `src0` into the buffer at `dst0`. Returns where the output and the undecoded tail start; the
   * output buffer changes in the bytes written only.
   */
  method DecodeBase64(dstBuf: array<byte>, dst0: nat, srcBuf: array<char>, src0: nat, ghost s: string)
    returns (dst: nat, srcTail: nat)
    requires HoldsString(srcBuf[..], src0, s)
    requires dst0 + |DecodedBytes(s)| <= dstBuf.Length
    modifies dstBuf
    ensures dst == dst0 + |DecodedBytes(s)|
    ensures dstBuf[dst0..dst] == DecodedBytes(s)
    ensures forall k :: 0 <= k < dstBuf.Length && !(dst0 <= k < dst) ==> dstBuf[k] == old(dstBuf[k])
    ensures srcTail == src0 + |s| - |DecodedTail(s)|
    ensures srcBuf[srcTail..src0 + |s|] == DecodedTail(s)
  {
    hide Reached, Base64.GroupBytes, Base64.DecodedBytes, Base64.DecodedTail, Strchr;
    ReachStart(s);
    dst := dst0;
    assert dstBuf[dst0..dst] == [];
    var src := src0;
    while true
      invariant src0 <= src <= src0 + |s|
      invariant dst0 <= dst <= dstBuf.Length
      invariant Reached(s, src - src0, src - src0, dstBuf[dst0..dst], [])
      invariant forall k :: 0 <= k < dstBuf.Length && !(dst0 <= k < dst) ==> dstBuf[k] == old(dstBuf[k])
      decreases src0 + |s| - src
    {
      var sixBit := new sextet[4];
      var count := 0;
      ghost var group: seq<sextet> := [];
      srcTail := src;
      while count < 4
        invariant 0 <= count <= 4 && group == sixBit[..count]
        invariant srcTail <= src <= src0 + |s| && (count > 0 ==> srcTail < src)
        invariant count < 4 ==> Reached(s, src - src0, srcTail - src0, dstBuf[dst0..dst], group)
        invariant count == 4 ==> Reached(s, src - src0, src - src0, dstBuf[dst0..dst] + GroupBytes(group), [])
        modifies sixBit
        decreases 4 - count
      {
        var ch := '\0';
        var tablePtr := -1;
        while tablePtr == -1
          invariant srcTail <= src <= src0 + |s| && (tablePtr != -1 ==> srcTail < src && tablePtr == Index(ch))
          invariant tablePtr == -1 ==> Reached(s, src - src0, srcTail - src0, dstBuf[dst0..dst], group)
          invariant tablePtr != -1 ==>
            Reached(s, src - src0 - 1, srcTail - src0, dstBuf[dst0..dst], group) && s[src - src0 - 1] == ch
          modifies {}
          decreases src0 + |s| - src, tablePtr == -1
        {
          ch := srcBuf[src];
          if ch == '\0' {
            ReachEnd(s, srcTail - src0, dstBuf[dst0..dst], group);
            if count == 0 {
              srcTail := src;
            }
            return;
          }
          assert ch == s[src - src0];
          StrchrIsIndex(ch);
          ReachNext(s, src - src0, srcTail - src0, dstBuf[dst0..dst], group);
          src := src + 1;
          tablePtr := Strchr(BASE64_TABLE, ch);
        }
        ReachNext(s, src - src0 - 1, srcTail - src0, dstBuf[dst0..dst], group);
        if tablePtr == 64 {
          break;
        }
        sixBit[count] := tablePtr;
        count := count + 1;
        group := group + [tablePtr];
      }
      WrittenSoFar(s, src - src0, src - src0, dstBuf[dst0..dst] + GroupBytes(group));
      assert sixBit[..][..count] == group;
      dst := WriteGroup(dstBuf, dst0, dst, sixBit[..], count);
    }
  }
}
