/**
 * Base64 as sequences: the encoding of section 4 of RFC 4648, and the decoder as a machine that reads one
 * character at a time. The loops that work in place are in Uuencode.dfy and are proved against these.
 */
module Base64 {

  type byte = b: int | 0 <= b < 256
  type sextet = v: int | 0 <= v < 64

  /** Sixty-four digits and a pad. */
  type Table = t: string | |t| == 65 witness seq(65, _ => '=')

  const BASE64_TABLE: Table :=
    ("ABCDEFGH" + "IJKLMNOP" + "QRSTUVWX" + "YZabcdef") + ("ghijklmn" + "opqrstuv" + "wxyz0123" + "456789+/") + "="

  const STD_TABLE: Table :=
    ("`!\"#$%&'" + "()*+,-./" + "01234567" + "89:;<=>?") + ("@ABCDEFG" + "HIJKLMNO" + "PQRSTUVW" + "XYZ[\\]^_") + "`"

  /** Place of a character in Table 1 of RFC 4648; 64 for the pad, -1 for a character outside the table. */
  function Index(c: char): (i: int)
    ensures -1 <= i <= 64
  {
    if 'A' <= c <= 'Z' then c as int - 'A' as int
    else if 'a' <= c <= 'z' then c as int - 'a' as int + 26
    else if '0' <= c <= '9' then c as int - '0' as int + 52
    else if c == '+' then 62
    else if c == '/' then 63
    else if c == '=' then 64
    else -1
  }

  predicate InTable(c: char) {
    Index(c) >= 0
  }

  predicate IsSextet(c: char) {
    0 <= Index(c) < 64
  }

  // ---- Encoding ----

  function At(x: seq<int>, k: nat): int {
    if k < |x| then x[k] else 0
  }

  /** Input group g as one 24-bit number; missing bytes count as zero. */
  function Group(x: seq<byte>, g: nat): (n: int)
    ensures 0 <= n < 0x100_0000
  {
    At(x, 3 * g) * 65536 + At(x, 3 * g + 1) * 256 + At(x, 3 * g + 2)
  }

  /** The k-th of the four 6-bit digits of a 24-bit number. */
  function SixBits(n: int, k: nat): (v: sextet)
    requires 0 <= n < 0x100_0000 && k < 4
  {
    match k
    case 0 => n / 262144
    case 1 => n / 4096 % 64
    case 2 => n / 64 % 64
    case _ => n % 64
  }

  function EncodedLength(n: nat): nat {
    4 * ((n + 2) / 3)
  }

  function Padding(n: nat): nat {
    (3 - n % 3) % 3
  }

  /** Output character i: a digit of its group, or the pad where the group's bytes have run out. */
  function EncodedChar(x: seq<byte>, tbl: Table, i: nat): char {
    if i < EncodedLength(|x|) - Padding(|x|) then tbl[SixBits(Group(x, i / 4), i % 4)] else tbl[64]
  }

  /** Section 4 of RFC 4648, for any table of 64 digits and a pad. */
  function Encode(x: seq<byte>, tbl: Table): (s: string)
    ensures |s| == EncodedLength(|x|)
  {
    seq(EncodedLength(|x|), i requires 0 <= i => EncodedChar(x, tbl, i))
  }

  // ---- Decoding ----

  /** The sextets of a text, in order: pads and characters outside the table are left out. */
  function Sextets(s: string): (v: seq<sextet>)
    ensures |v| <= |s|
  {
    if s == [] then []
    else
      var c := s[|s| - 1];
      Sextets(s[..|s| - 1]) + if IsSextet(c) then [Index(c)] else []
  }

  /** Up to four sextets as one 24-bit number. */
  function Number(v: seq<sextet>): (n: int)
    ensures 0 <= n < 0x100_0000
  {
    At(v, 0) * 262144 + At(v, 1) * 4096 + At(v, 2) * 64 + At(v, 3)
  }

  /** The bytes a group stands for: a group of n sextets has n - 1 whole bytes. */
  function GroupBytes(v: seq<sextet>): (b: seq<byte>)
    ensures |b| == if |v| <= 1 then 0 else if |v| >= 4 then 3 else |v| - 1
  {
    var n := Number(v);
    [n / 65536, n / 256 % 256, n % 256][..if |v| <= 1 then 0 else if |v| >= 4 then 3 else |v| - 1]
  }

  /** The bytes committed so far, and the text read since the last group ended. */
  datatype Decoder = Decoder(out: seq<byte>, tail: string)

  function Step(d: Decoder, c: char): Decoder {
    var tail := d.tail + [c];
    if c == '=' || |Sextets(tail)| == 4
    then Decoder(d.out + GroupBytes(Sextets(tail)), "")
    else Decoder(d.out, tail)
  }

  function Run(d: Decoder, s: string): Decoder {
    if s == [] then d else Step(Run(d, s[..|s| - 1]), s[|s| - 1])
  }

  const Start: Decoder := Decoder([], "")

  /** What `decode_base64` writes for the string s. */
  function DecodedBytes(s: string): seq<byte> {
    Run(Start, s).out
  }

  /** What it leaves undecoded: the open group, unless that holds no sextet. */
  function DecodedTail(s: string): string {
    var t := Run(Start, s).tail;
    if Sextets(t) == [] then "" else t
  }
}
