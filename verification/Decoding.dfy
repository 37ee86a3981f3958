/** How the decoder behaves on texts that are cut, joined, or interleaved with other characters. */
module Decoding {
  import opened Base64

  // ---- Cutting a text in two ----

  lemma {:induction false} RunConcat(d: Decoder, s: string, u: string)
    ensures Run(d, s + u) == Run(Run(d, s), u)
  {
    if u == [] {
      assert s + u == s;
    } else {
      var v := u[..|u| - 1];
      assert (s + u)[..|s + u| - 1] == s + v;
      RunConcat(d, s, v);
    }
  }

  lemma {:induction false} SextetsConcat(s: string, u: string)
    ensures Sextets(s + u) == Sextets(s) + Sextets(u)
  {
    if u == [] {
      assert s + u == s;
    } else {
      var v := u[..|u| - 1];
      assert (s + u)[..|s + u| - 1] == s + v;
      SextetsConcat(s, v);
    }
  }

  lemma SextetsAppend(s: string, c: char)
    ensures Sextets(s + [c]) == Sextets(s) + if IsSextet(c) then [Index(c)] else []
  {
    assert (s + [c])[..|s|] == s;
  }

  lemma RunAppend(d: Decoder, s: string, c: char)
    ensures Run(d, s + [c]) == Step(Run(d, s), c)
  {
    assert (s + [c])[..|s|] == s;
  }

  /** Bytes committed earlier do not influence what is decoded later. */
  lemma {:induction false} RunFrame(d: Decoder, s: string)
    ensures Run(d, s).out == d.out + Run(Decoder([], d.tail), s).out
    ensures Run(d, s).tail == Run(Decoder([], d.tail), s).tail
  {
    if s == [] {
      assert d.out + [] == d.out;
    } else {
      var v := s[..|s| - 1];
      RunFrame(d, v);
      StepFrame(Run(d, v), d.out, Run(Decoder([], d.tail), v), s[|s| - 1]);
    }
  }

  lemma StepFrame(d: Decoder, o: seq<byte>, e: Decoder, c: char)
    requires d == Decoder(o + e.out, e.tail)
    ensures Step(d, c) == Decoder(o + Step(e, c).out, Step(e, c).tail)
  {
    var b := GroupBytes(Sextets(d.tail + [c]));
    assert o + e.out + b == o + (e.out + b);
  }

  // ---- Open groups ----

  /** A group that has not ended: no pad, and fewer than four sextets. */
  predicate Open(t: string) {
    '=' !in t && |Sextets(t)| < 4
  }

  lemma {:induction false} RunKeepsOpen(d: Decoder, s: string)
    requires Open(d.tail)
    ensures Open(Run(d, s).tail)
  {
    if s != [] {
      RunKeepsOpen(d, s[..|s| - 1]);
      SextetsAppend(Run(d, s[..|s| - 1]).tail, s[|s| - 1]);
    }
  }

  /** Reading an open group only lengthens the tail. */
  lemma {:induction false} RunOpen(d: Decoder, t: string)
    requires Open(d.tail + t)
    ensures Run(d, t) == Decoder(d.out, d.tail + t)
  {
    if t == [] {
      assert d.tail + t == d.tail;
    } else {
      var v := t[..|t| - 1];
      assert d.tail + t == d.tail + v + [t[|t| - 1]];
      SextetsAppend(d.tail + v, t[|t| - 1]);
      RunOpen(d, v);
    }
  }

  /** The tail is the end of the text just read. */
  lemma {:induction false} TailIsSuffix(s: string)
    ensures |Run(Start, s).tail| <= |s|
    ensures s[|s| - |Run(Start, s).tail|..] == Run(Start, s).tail
  {
    hide Base64.GroupBytes, Base64.Sextets;
    if s != [] {
      var v, c := s[..|s| - 1], s[|s| - 1];
      TailIsSuffix(v);
      var t := Run(Start, v).tail;
      assert s[|s| - |t| - 1..] == v[|v| - |t|..] + [c];
    }
  }

  /**
   * The undecoded tail: it ends the text, and when it is not empty it is one open group of 1 to 3 sextets and no pad.
   */
  lemma UndecodedTail(s: string)
    ensures var t := DecodedTail(s);
            && |t| <= |s| && s[|s| - |t|..] == t
            && (t == "" || (1 <= |Sextets(t)| <= 3 && '=' !in t))
  {
    TailIsSuffix(s);
    RunKeepsOpen(Start, s);
  }

  lemma {:induction false} BeforeOpenGroup(s: string)
    ensures |Run(Start, s).tail| <= |s| && Run(Start, s[..|s| - |Run(Start, s).tail|]).tail == ""
  {
    if s != [] {
      var v, c := s[..|s| - 1], s[|s| - 1];
      BeforeOpenGroup(v);
      var n := |Run(Start, v).tail|;
      assert s[..|s|] == s && s[..|v| - n] == v[..|v| - n];
    }
  }

  /** No sextet is open before the tail. */
  lemma BeforeTail(s: string)
    ensures |DecodedTail(s)| <= |s| && DecodedTail(s[..|s| - |DecodedTail(s)|]) == ""
  {
    hide Base64.Run, Base64.Sextets;
    BeforeOpenGroup(s);
    assert s[..|s|] == s;
  }

  // ---- Characters outside the table ----

  /** A tail matters to the decoder only through its sextets. */
  lemma {:induction false} SameSextets(d: Decoder, e: Decoder, s: string)
    requires d.out == e.out && Sextets(d.tail) == Sextets(e.tail)
    ensures Run(d, s).out == Run(e, s).out
    ensures Sextets(Run(d, s).tail) == Sextets(Run(e, s).tail)
  {
    if s != [] {
      var v, c := s[..|s| - 1], s[|s| - 1];
      SameSextets(d, e, v);
      SextetsAppend(Run(d, v).tail, c);
      SextetsAppend(Run(e, v).tail, c);
    }
  }

  /** The characters of s that are in the table. */
  function Clean(s: string): string {
    if s == [] then []
    else Clean(s[..|s| - 1]) + if InTable(s[|s| - 1]) then [s[|s| - 1]] else []
  }

  lemma {:induction false} CleanKeepsSextets(s: string)
    ensures Sextets(Clean(s)) == Sextets(s)
  {
    if s != [] {
      var v, c := s[..|s| - 1], s[|s| - 1];
      CleanKeepsSextets(v);
      if InTable(c) {
        SextetsAppend(Clean(v), c);
      } else {
        assert Clean(s) == Clean(v);
      }
    }
  }

  lemma CleanAppend(s: string, c: char)
    ensures Clean(s + [c]) == Clean(s) + if InTable(c) then [c] else []
  {
    assert (s + [c])[..|s|] == s;
  }

  lemma StepOnClean(d: Decoder, c: char)
    requires Open(d.tail)
    ensures var e := Step(d, c);
            var e' := Decoder(d.out, Clean(d.tail));
            Decoder(e.out, Clean(e.tail)) == if InTable(c) then Step(e', c) else e'
  {
    CleanAppend(d.tail, c);
    CleanKeepsSextets(d.tail + [c]);
    if !InTable(c) {
      SextetsAppend(d.tail, c);
      assert Clean(d.tail) + [] == Clean(d.tail);
    }
  }

  lemma {:induction false} JunkIsSkipped(s: string)
    ensures Run(Start, Clean(s)) == Decoder(Run(Start, s).out, Clean(Run(Start, s).tail))
  {
    if s != [] {
      var v, c := s[..|s| - 1], s[|s| - 1];
      JunkIsSkipped(v);
      RunKeepsOpen(Start, v);
      StepOnClean(Run(Start, v), c);
      if InTable(c) {
        RunAppend(Start, Clean(v), c);
      } else {
        assert Clean(s) == Clean(v);
      }
    }
  }

  /** Junk invariance: other characters may stand anywhere, and change neither the bytes nor the open sextets. */
  lemma {:induction false} JunkInvariance(s: string)
    ensures DecodedBytes(Clean(s)) == DecodedBytes(s)
    ensures DecodedTail(Clean(s)) == Clean(DecodedTail(s))
    ensures DecodedTail(Clean(s)) == "" <==> DecodedTail(s) == ""
  {
    JunkIsSkipped(s);
    CleanKeepsSextets(Run(Start, s).tail);
    UndecodedTail(s);
    CleanKeepsSextets(DecodedTail(s));
  }

  lemma {:induction false} JunkOnly(j: string)
    requires forall c :: c in j ==> !InTable(c)
    ensures Sextets(j) == [] && '=' !in j
  {
    if j != [] {
      var c := j[|j| - 1];
      assert c in j && !InTable(c) && c != '=';
      assert forall d :: d in j[..|j| - 1] ==> d in j;
      assert '=' !in j;
      JunkOnly(j[..|j| - 1]);
    }
  }

  /** Such characters can be put in at any place. */
  lemma JunkInserted(s: string, j: string, u: string)
    requires forall c :: c in j ==> !InTable(c)
    ensures DecodedBytes(s + j + u) == DecodedBytes(s + u)
    ensures DecodedTail(s + j + u) == "" <==> DecodedTail(s + u) == ""
  {
    hide Base64.Run, Base64.Sextets;
    JunkOnly(j);
    RunConcat(Start, s, u);
    RunConcat(Start, s, j);
    RunConcat(Start, s + j, u);
    var d := Run(Start, s);
    RunKeepsOpen(Start, s);
    SextetsConcat(d.tail, j);
    RunOpen(d, j);
    SameSextets(Decoder(d.out, d.tail + j), d, u);
    NoTailNoSextets(s + j + u);
    NoTailNoSextets(s + u);
    SextetsConcat("", "");
  }

  // ---- Resumption ----

  lemma {:induction false} TailOverJunk(j: string, u: string)
    requires '=' !in j && Sextets(j) == []
    ensures var t, t' := Run(Start, u).tail, Run(Decoder([], j), u).tail;
            t' == t || t' == j + t
  {
    if u != [] {
      var v, c := u[..|u| - 1], u[|u| - 1];
      var d, e := Run(Start, v), Run(Decoder([], j), v);
      TailOverJunk(j, v);
      SextetsConcat(j, d.tail + [c]);
      assert j + (d.tail + [c]) == (j + d.tail) + [c];
    }
  }

  /** The part of an open group that is dropped because it holds no sextet. */
  function Dropped(s: string): string {
    Run(Start, s).tail[..|Run(Start, s).tail| - |DecodedTail(s)|]
  }

  lemma ResumeRun(s: string, u: string)
    ensures var d := Run(Start, s);
            var x := Run(Decoder([], d.tail), u);
            Run(Start, s + u) == Decoder(d.out + x.out, x.tail)
    ensures Run(Start, DecodedTail(s) + u) == Run(Decoder([], DecodedTail(s)), u)
  {
    RunConcat(Start, s, u);
    RunFrame(Run(Start, s), u);
    var t := DecodedTail(s);
    RunKeepsOpen(Start, s);
    RunConcat(Start, t, u);
    assert "" + t == t;
    RunOpen(Start, t);
  }

  /**
   * Resumption: decoding may stop anywhere and go on from the returned tail. The bytes are those of one decoding, and
   * a tail is left in both cases or in neither; this includes the stops that drop junk because no sextet was open.
   */
  lemma Resumption(s: string, u: string)
    ensures DecodedBytes(s + u) == DecodedBytes(s) + DecodedBytes(DecodedTail(s) + u)
    ensures DecodedTail(s + u) == "" <==> DecodedTail(DecodedTail(s) + u) == ""
  {
    ResumeRun(s, u);
    var d, t := Run(Start, s), DecodedTail(s);
    if Sextets(d.tail) == [] {
      SameSextets(Start, Decoder([], d.tail), u);
    }
  }

  /** The two tails are the same text, except for junk that the first stop dropped. */
  lemma ResumptionTail(s: string, u: string)
    ensures var once, twice := DecodedTail(s + u), DecodedTail(DecodedTail(s) + u);
            once == twice || (DecodedTail(s) == "" && once == Dropped(s) + twice)
    ensures Sextets(Dropped(s)) == [] && '=' !in Dropped(s)
  {
    hide Base64.Run, Base64.Sextets;
    SextetsConcat("", "");
    assert "" + "" == "";
    ResumeRun(s, u);
    var t := Run(Start, s).tail;
    RunKeepsOpen(Start, s);
    if DecodedTail(s) == "" {
      assert Dropped(s) == t;
      TailOverJunk(t, u);
      SameSextets(Start, Decoder([], t), u);
    } else {
      assert Dropped(s) == "";
    }
  }

  /** Either way the same sextets are left. */
  lemma ResumptionSextets(s: string, u: string)
    ensures Sextets(DecodedTail(s + u)) == Sextets(DecodedTail(DecodedTail(s) + u))
  {
    hide Base64.DecodedTail, Dropped, Base64.Sextets;
    ResumptionTail(s, u);
    SextetsConcat(Dropped(s), DecodedTail(DecodedTail(s) + u));
  }

  /** A tail decodes to nothing but itself. */
  lemma TailOfTail(s: string)
    ensures DecodedTail(DecodedTail(s)) == DecodedTail(s)
  {
    UndecodedTail(s);
    var t := DecodedTail(s);
    assert "" + t == t;
    RunOpen(Start, t);
  }

  /** Two open groups of the same sextets are gone on from alike. */
  lemma SameOpenGroup(a: string, b: string, u: string)
    requires DecodedTail(a) == a && DecodedTail(b) == b && Sextets(a) == Sextets(b)
    ensures DecodedBytes(a + u) == DecodedBytes(b + u)
  {
    hide Base64.DecodedTail, Base64.Run, Base64.Sextets;
    ResumeRun(a, u);
    ResumeRun(b, u);
    SameSextets(Decoder([], a), Decoder([], b), u);
  }

  lemma NoTailNoSextets(s: string)
    ensures DecodedTail(s) == "" <==> Sextets(DecodedTail(s)) == []
  {
    UndecodedTail(s);
  }

  // ---- Rate ----

  lemma {:induction false} RateOfRun(s: string)
    ensures 4 * |Run(Start, s).out| + 3 * |Run(Start, s).tail| <= 3 * |s|
  {
    if s != [] {
      var v := s[..|s| - 1];
      RateOfRun(v);
      RunKeepsOpen(Start, v);
      SextetsAppend(Run(Start, v).tail, s[|s| - 1]);
    }
  }

  /** Rate: four characters or more are used up for every three bytes written. */
  lemma RateBound(s: string)
    ensures 4 * |DecodedBytes(s)| <= 3 * (|s| - |DecodedTail(s)|)
  {
    RateOfRun(s);
  }
}
