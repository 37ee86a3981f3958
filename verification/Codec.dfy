/** The encoder and the decoder are inverse to each other. */
module Codec {
  import opened Base64
  import opened Decoding

  lemma TableUpper(i: nat)
    requires i < 26
    ensures BASE64_TABLE[i] as int == 'A' as int + i
  {
  }

  lemma TableLower(i: nat)
    requires 26 <= i < 52
    ensures BASE64_TABLE[i] as int == 'a' as int + i - 26
  {
  }

  lemma TableRest(i: nat)
    requires 52 <= i < 62
    ensures BASE64_TABLE[i] as int == '0' as int + i - 52
  {
  }

  lemma TableEnd()
    ensures BASE64_TABLE[62] == '+' && BASE64_TABLE[63] == '/' && BASE64_TABLE[64] == '='
  {
  }

  /** Table 1 of RFC 4648 by value. */
  function Rfc(i: nat): char
    requires i < 65
  {
    if i < 26 then (65 + i) as char
    else if i < 52 then (97 + i - 26) as char
    else if i < 62 then (48 + i - 52) as char
    else if i == 62 then '+' else if i == 63 then '/' else '='
  }

  /** A table whose entries are the characters of Table 1 of RFC 4648, in order, with the pad last. */
  ghost predicate IsRfcTable(tbl: Table) {
    forall i :: 0 <= i < 65 ==> Index(tbl[i]) == i
  }

  lemma {:induction false} TableIsRfc()
    ensures IsRfcTable(BASE64_TABLE)
    ensures forall i :: 0 <= i < 65 ==> BASE64_TABLE[i] == Rfc(i)
  {
    TableEnd();
    forall i | 0 <= i < 65
      ensures BASE64_TABLE[i] == Rfc(i) && Index(BASE64_TABLE[i]) == i
    {
      if i < 26 {
        TableUpper(i);
      } else if i < 52 {
        TableLower(i);
      } else if i < 62 {
        TableRest(i);
      }
    }
  }

  lemma IndexInjective(c: char, d: char)
    requires InTable(c) && Index(c) == Index(d)
    ensures c == d
  {
  }

  lemma TableInverts(tbl: Table, c: char)
    requires IsRfcTable(tbl) && InTable(c)
    ensures tbl[Index(c)] == c
  {
    IndexInjective(c, tbl[Index(c)]);
  }

  lemma GroupConcat(x: seq<byte>, y: seq<byte>, g: nat)
    requires |x| % 3 == 0
    ensures Group(x + y, g) == if g < |x| / 3 then Group(x, g) else Group(y, g - |x| / 3)
  {
  }

  lemma LengthConcat(m: nat, n: nat)
    requires m % 3 == 0
    ensures EncodedLength(m + n) == m / 3 * 4 + EncodedLength(n)
    ensures Padding(m + n) == Padding(n) && Padding(m) == 0 && EncodedLength(m) == m / 3 * 4
  {
  }

  lemma CharConcat(x: seq<byte>, y: seq<byte>, tbl: Table, i: nat)
    requires |x| % 3 == 0
    ensures var k := |x| / 3 * 4;
            EncodedChar(x + y, tbl, i) == if i < k then EncodedChar(x, tbl, i) else EncodedChar(y, tbl, i - k)
  {
    var k := |x| / 3 * 4;
    LengthConcat(|x|, |y|);
    GroupConcat(x, y, i / 4);
    if i >= k {
      assert (i - k) / 4 == i / 4 - |x| / 3 && (i - k) % 4 == i % 4;
    }
  }

  lemma {:induction false} EncodeConcat(x: seq<byte>, y: seq<byte>, tbl: Table)
    requires |x| % 3 == 0
    ensures Encode(x + y, tbl) == Encode(x, tbl) + Encode(y, tbl)
  {
    hide Base64.EncodedChar;
    LengthConcat(|x|, |y|);
    forall i | 0 <= i < EncodedLength(|x| + |y|)
      ensures Encode(x + y, tbl)[i] == (Encode(x, tbl) + Encode(y, tbl))[i]
    {
      CharConcat(x, y, tbl, i);
    }
  }

  // ---- One group ----

  function Digits(n: int): (v: seq<sextet>)
    requires 0 <= n < 0x100_0000
    ensures |v| == 4
  {
    [SixBits(n, 0), SixBits(n, 1), SixBits(n, 2), SixBits(n, 3)]
  }

  lemma NumberOfDigits(n: int)
    requires 0 <= n < 0x100_0000
    ensures Number(Digits(n)) == n
  {
    assert n / 262144 * 64 + n / 4096 % 64 == n / 4096;
    assert n / 4096 * 64 + n / 64 % 64 == n / 64;
  }

  lemma DigitsOfInts(a: int, b: int, c: int, d: int)
    requires 0 <= a < 64 && 0 <= b < 64 && 0 <= c < 64 && 0 <= d < 64
    ensures Digits(Number([a, b, c, d])) == [a, b, c, d]
  {
    var n := a * 262144 + b * 4096 + c * 64 + d;
    assert Number([a, b, c, d]) == n;
    assert n / 64 == a * 4096 + b * 64 + c;
    assert n / 4096 == a * 64 + b;
    assert n / 262144 == a;
  }

  lemma DigitsOfNumber(v: seq<sextet>)
    requires |v| == 4
    ensures Digits(Number(v)) == v
  {
    assert v == [v[0], v[1], v[2], v[3]];
    DigitsOfInts(v[0], v[1], v[2], v[3]);
  }

  lemma BytesOfInts(a: int, b: int, c: int)
    requires 0 <= a < 256 && 0 <= b < 256 && 0 <= c < 256
    ensures var n := a * 65536 + b * 256 + c;
            n / 65536 == a && n / 256 % 256 == b && n % 256 == c
  {
    var n := a * 65536 + b * 256 + c;
    assert n / 256 == a * 256 + b;
  }

  /** Decoding one group of text: its sextets, then a fourth sextet or a pad. */
  lemma RunGroup(o: seq<byte>, t: string, c: char)
    requires Open(t)
    requires c == '=' || (IsSextet(c) && |Sextets(t)| == 3)
    ensures Run(Decoder(o, ""), t + [c]) == Decoder(o + GroupBytes(Sextets(t + [c])), "")
  {
    assert "" + t == t;
    RunOpen(Decoder(o, ""), t);
    RunAppend(Decoder(o, ""), t, c);
    SextetsAppend(t, c);
  }

  lemma SextetsOf3(a: char, b: char, c: char)
    requires IsSextet(a) && IsSextet(b)
    ensures Sextets([a, b, c]) == [Index(a), Index(b)] + if IsSextet(c) then [Index(c)] else []
    ensures Sextets([a, b]) == [Index(a), Index(b)]
  {
    assert [a, b] == [] + [a] + [b];
    assert [a, b, c] == [a, b] + [c];
    SextetsAppend([], a);
    SextetsAppend([] + [a], b);
    SextetsAppend([a, b], c);
  }

  lemma RunQuad(o: seq<byte>, a: char, b: char, c: char, e: char)
    requires IsSextet(a) && IsSextet(b) && IsSextet(c) && (IsSextet(e) || e == '=')
    ensures Run(Decoder(o, ""), [a, b, c, e]) ==
            Decoder(o + GroupBytes([Index(a), Index(b), Index(c)] + if IsSextet(e) then [Index(e)] else []), "")
  {
    SextetsOf3(a, b, c);
    SextetsAppend([a, b, c], e);
    assert [a, b, c, e] == [a, b, c] + [e];
    RunGroup(o, [a, b, c], e);
  }

  lemma PadAfterGroup(o: seq<byte>)
    ensures Step(Decoder(o, ""), '=') == Decoder(o, "")
  {
    SextetsAppend("", '=');
    assert o + [] == o;
  }

  /** With two pads, the first ends the group and the second ends an empty one. */
  lemma RunTwoPads(o: seq<byte>, a: char, b: char)
    requires IsSextet(a) && IsSextet(b)
    ensures Run(Decoder(o, ""), [a, b, '=', '=']) == Decoder(o + GroupBytes([Index(a), Index(b)]), "")
  {
    hide Base64.Step, Base64.GroupBytes;
    SextetsOf3(a, b, '=');
    assert [Index(a), Index(b)] + [] == [Index(a), Index(b)];
    assert [a, b, '='] == [a, b] + ['='];
    RunGroup(o, [a, b], '=');
    assert [a, b, '=', '='] == [a, b, '='] + ['='];
    RunAppend(Decoder(o, ""), [a, b, '='], '=');
    PadAfterGroup(o + GroupBytes([Index(a), Index(b)]));
  }

  lemma EncodeShort(x: seq<byte>, tbl: Table)
    requires 1 <= |x| <= 3
    ensures var v := Digits(Group(x, 0));
            Encode(x, tbl) == [tbl[v[0]], tbl[v[1]], if |x| >= 2 then tbl[v[2]] else tbl[64],
                               if |x| == 3 then tbl[v[3]] else tbl[64]]
  {
    var e := Encode(x, tbl);
    assert |e| == 4;
    assert e == [e[0], e[1], e[2], e[3]];
  }

  // ---- Round trip ----

  /** The digits left out of a short group are zero. */
  lemma NumberOfPrefix(n: int, k: nat)
    requires 0 <= n < 0x100_0000 && 2 <= k <= 4
    requires k == 2 ==> n % 4096 == 0
    requires k == 3 ==> n % 64 == 0
    ensures Number(Digits(n)[..k]) == n
  {
    NumberOfDigits(n);
    var v, d := Digits(n)[..k], Digits(n);
    assert At(v, 0) == d[0] && At(v, 1) == d[1];
    if k == 2 {
      assert d[2] == 0 && d[3] == 0;
    } else if k == 3 {
      assert d[3] == 0;
    }
  }

  lemma BytesOfGroup(x: seq<byte>)
    requires 1 <= |x| <= 3
    ensures GroupBytes(Digits(Group(x, 0))[..|x| + 1]) == x
  {
    BytesOfInts(At(x, 0), At(x, 1), At(x, 2));
    NumberOfPrefix(Group(x, 0), |x| + 1);
  }

  lemma RunEncodingShort(o: seq<byte>, x: seq<byte>, tbl: Table)
    requires 1 <= |x| <= 3 && IsRfcTable(tbl)
    ensures Run(Decoder(o, ""), Encode(x, tbl)) == Decoder(o + x, "")
  {
    var v := Digits(Group(x, 0));
    var e := Encode(x, tbl);
    EncodeShort(x, tbl);
    BytesOfGroup(x);
    if |x| == 1 {
      assert [Index(e[0]), Index(e[1])] == v[..2];
      RunTwoPads(o, e[0], e[1]);
    } else {
      assert [Index(e[0]), Index(e[1]), Index(e[2])] + (if IsSextet(e[3]) then [Index(e[3])] else []) == v[..|x| + 1];
      RunQuad(o, e[0], e[1], e[2], e[3]);
    }
  }

  lemma {:induction false} RunEncoding(o: seq<byte>, x: seq<byte>, tbl: Table)
    requires IsRfcTable(tbl)
    ensures Run(Decoder(o, ""), Encode(x, tbl)) == Decoder(o + x, "")
    decreases |x|
  {
    hide Base64.Encode;
    if x == [] {
      assert o + x == o;
      assert |Encode(x, tbl)| == 0;
    } else if |x| <= 3 {
      RunEncodingShort(o, x, tbl);
    } else {
      var y, z := x[..3], x[3..];
      assert x == y + z;
      EncodeConcat(y, z, tbl);
      RunConcat(Decoder(o, ""), Encode(y, tbl), Encode(z, tbl));
      RunEncodingShort(o, y, tbl);
      RunEncoding(o + y, z, tbl);
      assert o + y + z == o + x;
    }
  }

  /** Round trip: decoding an encoding gives the bytes back and uses the whole text. */
  lemma {:induction false} RoundTrip(x: seq<byte>)
    ensures DecodedBytes(Encode(x, BASE64_TABLE)) == x
    ensures DecodedTail(Encode(x, BASE64_TABLE)) == ""
  {
    TableIsRfc();
    RunEncoding([], x, BASE64_TABLE);
  }

  function Flatten<T>(xs: seq<seq<T>>): seq<T> {
    if xs == [] then [] else xs[0] + Flatten(xs[1..])
  }

  function EncodeEach(xs: seq<seq<byte>>, tbl: Table): seq<string>
  {
    if xs == [] then [] else [Encode(xs[0], tbl)] + EncodeEach(xs[1..], tbl)
  }

  lemma {:induction false} RunEncodings(o: seq<byte>, xs: seq<seq<byte>>, tbl: Table)
    requires IsRfcTable(tbl)
    ensures Run(Decoder(o, ""), Flatten(EncodeEach(xs, tbl))) == Decoder(o + Flatten(xs), "")
    decreases |xs|
  {
    hide Base64.Encode, Base64.Step, IsRfcTable;
    if xs == [] {
      assert o + [] == o;
    } else {
      var e, rest := Encode(xs[0], tbl), EncodeEach(xs[1..], tbl);
      assert ([e] + rest)[1..] == rest;
      assert Flatten(EncodeEach(xs, tbl)) == e + Flatten(rest);
      RunConcat(Decoder(o, ""), e, Flatten(rest));
      RunEncoding(o, xs[0], tbl);
      RunEncodings(o + xs[0], xs[1..], tbl);
      assert o + xs[0] + Flatten(xs[1..]) == o + (xs[0] + Flatten(xs[1..]));
    }
  }

  /** Encodings may be joined with their padding left in the middle. */
  lemma {:induction false} ConcatenatedEncodings(xs: seq<seq<byte>>)
    ensures DecodedBytes(Flatten(EncodeEach(xs, BASE64_TABLE))) == Flatten(xs)
    ensures DecodedTail(Flatten(EncodeEach(xs, BASE64_TABLE))) == ""
  {
    TableIsRfc();
    RunEncodings([], xs, BASE64_TABLE);
  }

  // ---- Canonical texts ----

  /** The last four characters of a canonical text: at most two pads, and the bits they leave unused are zero. */
  predicate CanonicalEnd(q: string)
    requires |q| == 4
  {
    && IsSextet(q[0]) && IsSextet(q[1])
    && (|| (IsSextet(q[2]) && IsSextet(q[3]))
        || (IsSextet(q[2]) && q[3] == '=' && Index(q[2]) % 4 == 0)
        || (q[2] == '=' && q[3] == '=' && Index(q[1]) % 16 == 0))
  }

  /** Canonical form of sections 3.5 and 4 of RFC 4648. */
  predicate Canonical(s: string) {
    s == "" ||
    (|s| % 4 == 0 && (forall i :: 0 <= i < |s| - 4 ==> IsSextet(s[i])) && CanonicalEnd(s[|s| - 4..]))
  }

  /** Sextets whose unused bits are zero are the digits of the bytes they stand for. */
  lemma GroupOfBytes(v: seq<sextet>)
    requires 2 <= |v| <= 4
    requires |v| == 2 ==> v[1] % 16 == 0
    requires |v| == 3 ==> v[2] % 4 == 0
    ensures Group(GroupBytes(v), 0) == Number(v)
    ensures Digits(Number(v))[..|v|] == v
  {
    var n := Number(v);
    var w: seq<sextet> := [At(v, 0), At(v, 1), At(v, 2), At(v, 3)];
    DigitsOfNumber(w);
    assert Number(w) == n;
    assert v == w[..|v|];
    UnusedBits(At(v, 0), At(v, 1), At(v, 2), |v|);
    GroupOfPrefix(n, |v| - 1);
  }

  lemma GroupOfPrefix(n: int, k: nat)
    requires 0 <= n < 0x100_0000 && 1 <= k <= 3
    requires k == 1 ==> n % 65536 == 0
    requires k == 2 ==> n % 256 == 0
    ensures Group([n / 65536, n / 256 % 256, n % 256][..k], 0) == n
  {
    assert n / 65536 * 65536 + n / 256 % 256 * 256 + n % 256 == n;
  }

  lemma UnusedBits(a: int, b: int, c: int, k: nat)
    requires 0 <= a < 64 && 0 <= b < 64 && 0 <= c < 64
    requires k == 2 ==> b % 16 == 0
    requires k == 3 ==> c % 4 == 0
    ensures k == 2 ==> (a * 262144 + b * 4096) % 65536 == 0
    ensures k == 3 ==> (a * 262144 + b * 4096 + c * 64) % 256 == 0
  {
    if k == 2 {
      assert a * 262144 + b * 4096 == (a * 4 + b / 16) * 65536;
    } else if k == 3 {
      assert a * 262144 + b * 4096 + c * 64 == (a * 1024 + b * 16 + c / 4) * 256;
    }
  }

  /** The sextets of a canonical end. */
  function QuadSextets(q: string): (v: seq<sextet>)
    requires |q| == 4 && CanonicalEnd(q)
  {
    if q[2] == '=' then [Index(q[0]), Index(q[1])]
    else [Index(q[0]), Index(q[1]), Index(q[2])] + if IsSextet(q[3]) then [Index(q[3])] else []
  }

  lemma RunCanonicalQuad(q: string)
    requires |q| == 4 && CanonicalEnd(q)
    ensures Run(Start, q) == Decoder(GroupBytes(QuadSextets(q)), "")
  {
    hide Base64.GroupBytes, Base64.Run;
    assert q == [q[0], q[1], q[2], q[3]];
    assert [] + GroupBytes(QuadSextets(q)) == GroupBytes(QuadSextets(q));
    if q[2] == '=' {
      RunTwoPads([], q[0], q[1]);
    } else {
      RunQuad([], q[0], q[1], q[2], q[3]);
    }
  }

  lemma EncodeQuad(q: string, tbl: Table)
    requires |q| == 4 && CanonicalEnd(q) && IsRfcTable(tbl)
    ensures Encode(GroupBytes(QuadSextets(q)), tbl) == q
  {
    hide Base64.Encode, Digits, IsRfcTable, Base64.Number;
    var v := QuadSextets(q);
    var x := GroupBytes(v);
    GroupOfBytes(v);
    EncodeShort(x, tbl);
    var d := Digits(Group(x, 0));
    assert forall k :: 0 <= k < |v| ==> d[k] == d[..|v|][k];
    assert tbl[64] == '=' by {
      TableInverts(tbl, '=');
    }
    TableInverts(tbl, q[0]);
    TableInverts(tbl, q[1]);
    TableInverts(tbl, q[2]);
    TableInverts(tbl, q[3]);
  }

  lemma CanonicalQuad(q: string, tbl: Table)
    requires |q| == 4 && CanonicalEnd(q) && IsRfcTable(tbl)
    ensures Run(Start, q).tail == ""
    ensures Encode(Run(Start, q).out, tbl) == q
    ensures IsSextet(q[2]) && IsSextet(q[3]) ==> |Run(Start, q).out| == 3
  {
    hide Base64.Encode, Base64.Run, IsRfcTable, Base64.Number;
    RunCanonicalQuad(q);
    EncodeQuad(q, tbl);
  }

  lemma {:induction false} EncodeDecoded(s: string, tbl: Table)
    requires Canonical(s) && IsRfcTable(tbl)
    ensures Encode(DecodedBytes(s), tbl) == s
    decreases |s|
  {
    hide Base64.Encode, Base64.Step, Base64.GroupBytes, IsRfcTable;
    if s == "" {
    } else if |s| == 4 {
      assert s[0..] == s;
      CanonicalQuad(s, tbl);
    } else {
      var q, u := s[..4], s[4..];
      assert s == q + u;
      assert u[|u| - 4..] == s[|s| - 4..];
      CanonicalQuad(q, tbl);
      RunConcat(Start, q, u);
      RunFrame(Run(Start, q), u);
      EncodeDecoded(u, tbl);
      EncodeConcat(Run(Start, q).out, DecodedBytes(u), tbl);
    }
  }

  lemma EncodeShortIsCanonical(x: seq<byte>, tbl: Table)
    requires 1 <= |x| <= 3 && IsRfcTable(tbl)
    ensures Canonical(Encode(x, tbl))
    ensures |x| == 3 ==> forall c :: c in Encode(x, tbl) ==> IsSextet(c)
  {
    EncodeShort(x, tbl);
    var e, n := Encode(x, tbl), Group(x, 0);
    assert e[|e| - 4..] == e;
    ZeroDigits(At(x, 0), At(x, 1), |x|);
    var v := Digits(n);
    assert Index(tbl[v[0]]) == v[0] && Index(tbl[v[1]]) == v[1] && Index(tbl[v[2]]) == v[2] && Index(tbl[v[3]]) == v[3];
  }

  lemma ZeroDigits(a: int, b: int, k: nat)
    requires 0 <= a < 256 && 0 <= b < 256
    ensures k == 1 ==> SixBits(a * 65536, 1) % 16 == 0
    ensures k == 2 ==> SixBits(a * 65536 + b * 256, 2) % 4 == 0
  {
    assert a * 65536 / 4096 == a * 16;
    assert (a * 65536 + b * 256) / 64 == a * 1024 + b * 4;
  }

  lemma CanonicalAppend(q: string, u: string)
    requires |q| == 4 && (forall c :: c in q ==> IsSextet(c)) && u != "" && Canonical(u)
    ensures Canonical(q + u)
  {
    var s := q + u;
    assert s[|s| - 4..] == u[|u| - 4..];
    forall i | 0 <= i < |s| - 4
      ensures IsSextet(s[i])
    {
      assert s[i] == if i < 4 then q[i] else u[i - 4];
    }
  }

  lemma {:induction false} EncodingIsCanonical(x: seq<byte>, tbl: Table)
    requires IsRfcTable(tbl)
    ensures Canonical(Encode(x, tbl))
    decreases |x|
  {
    hide Base64.Encode, IsRfcTable;
    if x == [] {
      assert |Encode(x, tbl)| == 0;
    } else if |x| <= 3 {
      EncodeShortIsCanonical(x, tbl);
    } else {
      hide Canonical;
      var y, z := x[..3], x[3..];
      assert x == y + z;
      EncodeConcat(y, z, tbl);
      EncodeShortIsCanonical(y, tbl);
      EncodingIsCanonical(z, tbl);
      CanonicalAppend(Encode(y, tbl), Encode(z, tbl));
    }
  }

  /** The canonical texts are exactly those that decoding and encoding give back. */
  lemma {:induction false} CanonicalInverse(s: string)
    ensures Canonical(s) <==> Encode(DecodedBytes(s), BASE64_TABLE) == s
  {
    TableIsRfc();
    if Canonical(s) {
      EncodeDecoded(s, BASE64_TABLE);
    }
    EncodingIsCanonical(DecodedBytes(s), BASE64_TABLE);
  }

  /** Byte strings and canonical texts correspond one to one. */
  lemma {:induction false} CodecIsBijection(s: string)
    ensures Canonical(s) <==> exists x :: Encode(x, BASE64_TABLE) == s
    ensures forall x, y :: Encode(x, BASE64_TABLE) == s && Encode(y, BASE64_TABLE) == s ==> x == y
  {
    TableIsRfc();
    CanonicalInverse(s);
    forall x | Encode(x, BASE64_TABLE) == s
      ensures x == DecodedBytes(s) && Canonical(s)
    {
      RoundTrip(x);
      EncodingIsCanonical(x, BASE64_TABLE);
    }
  }
}
