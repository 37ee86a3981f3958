/** Which of the sources that a run started are still live, told from the requests alone. */
module StartOrder {
  import opened Numbers
  import opened Regex
  import opened Playback
  import EndToEnd
  import Replies

  /** The source that request i, a PLAY, starts. */
  function SourceOf(cs: seq<Command>, i: nat): Source
    requires i < |cs| && cs[i].PlayCmd?
  {
    NewSource(cs[i].uri, cs[i].given)
  }

  /** Positions of PLAYs, the latest first. */
  predicate AreStarts(cs: seq<Command>, live: seq<nat>) {
    && (forall k :: 0 <= k < |live| ==> live[k] < |cs| && cs[live[k]].PlayCmd?)
    && forall a, b :: 0 <= a < b < |live| ==> live[a] > live[b]
  }

  /** Where the latest of them whose source has this hash stands. */
  function Position(cs: seq<Command>, live: seq<nat>, id: guint, hash: Hash): (p: nat)
    requires AreStarts(cs, live)
    ensures p <= |live| && (p < |live| ==> hash(SourceOf(cs, live[p])) == id)
    ensures forall j :: 0 <= j < p ==> hash(SourceOf(cs, live[j])) != id
  {
    if live == [] || hash(SourceOf(cs, live[0])) == id then 0 else 1 + Position(cs, live[1..], id, hash)
  }

  function Drop(live: seq<nat>, p: nat): seq<nat> {
    if p < |live| then live[..p] + live[p + 1..] else live
  }

  lemma DropKeepsStarts(cs: seq<Command>, live: seq<nat>, p: nat)
    requires AreStarts(cs, live)
    ensures AreStarts(cs, Drop(live, p)) && forall j :: j in Drop(live, p) ==> j in live
  {
    DropAt(live, p);
    hide Drop;
  }

  lemma DropAt(live: seq<nat>, p: nat)
    ensures |Drop(live, p)| <= |live|
    ensures forall k :: 0 <= k < |Drop(live, p)| ==>
              k + (if k < p then 0 else 1) < |live| && Drop(live, p)[k] == live[k + (if k < p then 0 else 1)]
  {
  }

  lemma StillStarts(cs: seq<Command>, live: seq<nat>)
    requires cs != [] && AreStarts(cs[..|cs| - 1], live)
    ensures AreStarts(cs, live)
    ensures cs[|cs| - 1].PlayCmd? ==> AreStarts(cs, [|cs| - 1] + live)
  {
  }

  /** The starts without those stopped: every STOP stops the latest of them that has its hash. */
  function LiveStarts(cs: seq<Command>, hash: Hash): (live: seq<nat>)
    ensures AreStarts(cs, live)
  {
    if cs == [] then []
    else
      var before, n := cs[..|cs| - 1], |cs| - 1;
      var live := LiveStarts(before, hash);
      StillStarts(cs, live);
      match cs[n]
      case PlayCmd(_, _) => [n] + live
      case StopCmd(param) =>
        var p := Position(before, live, StopId(param), hash);
        DropKeepsStarts(cs, live, p);
        Drop(live, p)
  }

  function SourcesOf(cs: seq<Command>, live: seq<nat>): (ss: seq<Source>)
    requires AreStarts(cs, live)
    ensures |ss| == |live| && forall k :: 0 <= k < |live| ==> ss[k] == SourceOf(cs, live[k])
  {
    seq(|live|, k requires 0 <= k < |live| => SourceOf(cs, live[k]))
  }

  lemma TailOfSources(cs: seq<Command>, live: seq<nat>)
    requires live != [] && AreStarts(cs, live)
    ensures live[0] < |cs| && cs[live[0]].PlayCmd? && AreStarts(cs, live[1..])
    ensures var ss := SourcesOf(cs, live);
            ss != [] && ss[0] == SourceOf(cs, live[0]) && ss[1..] == SourcesOf(cs, live[1..])
  {
  }

  lemma {:induction false} FoundAtPosition(cs: seq<Command>, live: seq<nat>, id: guint, hash: Hash)
    requires AreStarts(cs, live)
    ensures var p, found := Position(cs, live, id, hash), FindFirst(SourcesOf(cs, live), id, hash);
            if p < |live| then found == Some(SourceOf(cs, live[p])) else found == None
  {
    if live != [] {
      TailOfSources(cs, live);
      hide AreStarts, SourcesOf;
      FoundAtPosition(cs, live[1..], id, hash);
    }
  }

  lemma AfterPlay(cs: seq<Command>, live: seq<nat>, st: State)
    requires cs != [] && cs[|cs| - 1].PlayCmd? && AreStarts(cs[..|cs| - 1], live)
    requires st.sources == SourcesOf(cs[..|cs| - 1], live)
    ensures AreStarts(cs, [|cs| - 1] + live)
    ensures Play(st, cs[|cs| - 1].uri, cs[|cs| - 1].given).sources == SourcesOf(cs, [|cs| - 1] + live)
  {
  }

  lemma SourcesOfDrop(cs: seq<Command>, live: seq<nat>, p: nat)
    requires cs != [] && AreStarts(cs[..|cs| - 1], live)
    ensures AreStarts(cs, Drop(live, p))
    ensures var ss := SourcesOf(cs[..|cs| - 1], live);
            SourcesOf(cs, Drop(live, p)) == if p < |live| then Without(ss, p) else ss
  {
    StillStarts(cs, live);
    DropKeepsStarts(cs, live, p);
    DropLength(live, p);
    DropAt(live, p);
    hide AreStarts, Drop;
    var ss, rest := SourcesOf(cs[..|cs| - 1], live), SourcesOf(cs, Drop(live, p));
    hide SourcesOf;
    assert forall k :: 0 <= k < |rest| ==> rest[k] == ss[k + (if k < p then 0 else 1)];
    hide SourceOf, Without;
    if p < |live| {
      IsWithout(ss, rest, p);
    }
  }

  lemma IsWithout(ss: seq<Source>, rest: seq<Source>, p: nat)
    requires p < |ss| == |rest| + 1
    requires forall k :: 0 <= k < |rest| ==> rest[k] == ss[k + (if k < p then 0 else 1)]
    ensures rest == Without(ss, p)
  {
  }

  lemma DropLength(live: seq<nat>, p: nat)
    ensures if p < |live| then |Drop(live, p)| == |live| - 1 else Drop(live, p) == live
  {
  }

  lemma AfterStop(cs: seq<Command>, live: seq<nat>, st: State, id: guint, hash: Hash)
    requires cs != [] && AreStarts(cs[..|cs| - 1], live)
    requires st.sources == SourcesOf(cs[..|cs| - 1], live) && Distinct(st.sources)
    ensures var p, found := Position(cs[..|cs| - 1], live, id, hash), FindFirst(st.sources, id, hash);
            && AreStarts(cs, Drop(live, p))
            && SourcesOf(cs, Drop(live, p)) ==
               match found case None => st.sources case Some(s) => Remove(st.sources, s.addr)
  {
    hide Distinct, Remove, FindFirst, Position, AreStarts, SourcesOf, Drop;
    var before := cs[..|cs| - 1];
    var p := Position(before, live, id, hash);
    FoundAtPosition(before, live, id, hash);
    SourcesOfDrop(cs, live, p);
    if p < |live| {
      RemoveAtIndex(st.sources, p);
    }
  }

  /** After every run the list holds the sources of these starts, the latest first. */
  lemma {:induction false} ListIsInStartOrder(fixed: set<Element>, cs: seq<Command>, hash: Hash)
    requires Possible(Initial(fixed), cs, hash)
    ensures RunAll(Initial(fixed), cs, hash).sources == SourcesOf(cs, LiveStarts(cs, hash))
  {
    if cs != [] {
      hide AreStarts, SourcesOf, FindFirst, Remove, Position, Drop, Inv, IsFresh;
      var before := cs[..|cs| - 1];
      ListIsInStartOrder(fixed, before, hash);
      var live, st := LiveStarts(before, hash), RunAll(Initial(fixed), before, hash);
      match cs[|cs| - 1]
      case PlayCmd(_, _) =>
        AfterPlay(cs, live, st);
      case StopCmd(param) =>
        assert Distinct(st.sources) by {
          RunKeepsInv(fixed, before, hash);
          InvIsDistinct(st, fixed);
        }
        AfterStop(cs, live, st, StopId(param), hash);
    }
  }

  lemma InvIsDistinct(st: State, fixed: set<Element>)
    requires Inv(st, fixed)
    ensures Distinct(st.sources)
  {
  }

  /** So the k-th live source is what the k-th of these requests asked for. */
  lemma LiveSourcesPlay(fixed: set<Element>, cs: seq<Command>, hash: Hash, k: nat)
    requires Possible(Initial(fixed), cs, hash) && k < |LiveStarts(cs, hash)|
    ensures var s, i := RunAll(Initial(fixed), cs, hash).sources, LiveStarts(cs, hash)[k];
            && |s| == |LiveStarts(cs, hash)|
            && i < |cs| && cs[i].PlayCmd?
            && s[k].uri == cs[i].uri && s[k].addr == cs[i].given.addr && s[k].created == cs[i].given.created
            && s[k].element == cs[i].given.element && s[k].ac == cs[i].given.ac
  {
    ListIsInStartOrder(fixed, cs, hash);
  }

  // ---- Starts and stops are matched like brackets ----

  function Weight(c: Command, id: guint, hash: Hash): int {
    match c
    case PlayCmd(uri, f) => if hash(NewSource(uri, f)) == id then 1 else 0
    case StopCmd(param) => if StopId(param) == id then -1 else 0
  }

  /** How many more PLAYs with this hash than STOPs with this id there are from a position on. */
  function Excess(cs: seq<Command>, from: nat, id: guint, hash: Hash): int {
    if |cs| <= from then 0 else Excess(cs[..|cs| - 1], from, id, hash) + Weight(cs[|cs| - 1], id, hash)
  }

  /** At no time since start i had more STOPs with its id come than PLAYs with its hash. */
  predicate Survives(cs: seq<Command>, i: nat, hash: Hash)
    requires i < |cs| && cs[i].PlayCmd?
  {
    forall j :: i < j <= |cs| ==> Excess(cs[..j], i + 1, hash(SourceOf(cs, i)), hash) >= 0
  }

  lemma {:induction false} SurvivesNext(cs: seq<Command>, i: nat, hash: Hash)
    requires i < |cs| - 1 && cs[i].PlayCmd?
    ensures Survives(cs, i, hash) <==>
            Survives(cs[..|cs| - 1], i, hash) && Excess(cs, i + 1, hash(SourceOf(cs, i)), hash) >= 0
  {
    hide Excess;
    var before := cs[..|cs| - 1];
    assert cs[..|cs|] == cs;
    assert forall j :: i < j < |cs| ==> before[..j] == cs[..j];
  }

  /** How many of the starts are later than i and have the hash. */
  function Later(cs: seq<Command>, live: seq<nat>, i: nat, id: guint, hash: Hash): nat
    requires AreStarts(cs, live)
  {
    if live == [] then 0
    else (if live[0] > i && hash(SourceOf(cs, live[0])) == id then 1 else 0) + Later(cs, live[1..], i, id, hash)
  }

  lemma {:induction false} LaterInLonger(cs: seq<Command>, live: seq<nat>, i: nat, id: guint, hash: Hash)
    requires cs != [] && AreStarts(cs[..|cs| - 1], live)
    ensures AreStarts(cs, live) && Later(cs, live, i, id, hash) == Later(cs[..|cs| - 1], live, i, id, hash)
  {
    if live != [] {
      LaterInLonger(cs, live[1..], i, id, hash);
    }
  }

  lemma {:induction false} NoneLater(cs: seq<Command>, live: seq<nat>, i: nat, id: guint, hash: Hash)
    requires AreStarts(cs, live)
    ensures Later(cs, live, i, id, hash) == 0 <==> forall j :: j in live && j > i ==> hash(SourceOf(cs, j)) != id
  {
    if live != [] {
      NoneLater(cs, live[1..], i, id, hash);
      assert live == [live[0]] + live[1..];
    }
  }

  lemma DropNext(live: seq<nat>, p: nat)
    requires p < |live|
    ensures if p == 0 then Drop(live, p) == live[1..]
            else Drop(live, p) != [] && Drop(live, p)[0] == live[0] && Drop(live, p)[1..] == Drop(live[1..], p - 1)
  {
  }

  lemma TailKeepsStarts(cs: seq<Command>, live: seq<nat>)
    requires live != [] && AreStarts(cs, live)
    ensures AreStarts(cs, live[1..]) && live[0] < |cs| && cs[live[0]].PlayCmd?
    ensures forall k :: 0 <= k < |live| ==> live[k] < |cs| && cs[live[k]].PlayCmd?
  {
  }

  lemma {:induction false} LaterWithout(cs: seq<Command>, live: seq<nat>, p: nat, i: nat, id: guint, hash: Hash)
    requires AreStarts(cs, live) && p < |live|
    ensures AreStarts(cs, Drop(live, p))
    ensures Later(cs, Drop(live, p), i, id, hash) ==
            Later(cs, live, i, id, hash) - if live[p] > i && hash(SourceOf(cs, live[p])) == id then 1 else 0
  {
    hide AreStarts, Drop;
    DropKeepsStarts(cs, live, p);
    TailKeepsStarts(cs, live);
    DropNext(live, p);
    if p > 0 {
      LaterWithout(cs, live[1..], p - 1, i, id, hash);
    }
  }

  lemma NoneBefore(cs: seq<Command>, live: seq<nat>, k: nat, id: guint, hash: Hash)
    requires AreStarts(cs, live) && k < |live|
    ensures Later(cs, live, live[k], id, hash) == 0 <==> forall j :: 0 <= j < k ==> hash(SourceOf(cs, live[j])) != id
  {
    NoneLater(cs, live, live[k], id, hash);
    assert forall j :: 0 <= j < k ==> live[j] in live && live[j] > live[k];
    assert forall j :: j in live && j > live[k] ==> exists a :: 0 <= a < k && live[a] == j;
  }

  lemma StaysUnlessDropped(cs: seq<Command>, live: seq<nat>, p: nat, k: nat)
    requires AreStarts(cs, live) && k < |live|
    ensures live[k] in Drop(live, p) <==> p != k
  {
    DropAt(live, p);
    assert k < p ==> Drop(live, p)[k] == live[k];
    assert k > p ==> Drop(live, p)[k - 1] == live[k];
  }

  /** What a STOP does to a start that was live: it stops it exactly if no later live start has the id. */
  lemma StopOfStart(cs: seq<Command>, live: seq<nat>, i: nat, id: guint, hash: Hash)
    requires AreStarts(cs, live) && i in live
    ensures var h, p := hash(SourceOf(cs, i)), Position(cs, live, id, hash);
            && AreStarts(cs, Drop(live, p))
            && (i in Drop(live, p) <==> !(h == id && Later(cs, live, i, id, hash) == 0))
            && (i in Drop(live, p) ==>
                  Later(cs, Drop(live, p), i, h, hash) == Later(cs, live, i, h, hash) - if h == id then 1 else 0)
  {
    var h, p := hash(SourceOf(cs, i)), Position(cs, live, id, hash);
    var k :| 0 <= k < |live| && live[k] == i;
    hide Later, Drop;
    NoneBefore(cs, live, k, id, hash);
    StaysUnlessDropped(cs, live, p, k);
    DropKeepsStarts(cs, live, p);
    if p < |live| {
      LaterWithout(cs, live, p, i, h, hash);
      assert p < k ==> live[p] > i;
    } else {
      DropLength(live, p);
    }
  }

  /**
   * Of the starts with one hash and the STOPs with that id, each STOP takes the latest start that is left, as a closing
   * bracket does: a start is live at the end if and only if it survives, and its excess is then the number of later
   * live ones.
   */
  lemma {:induction false} LiveIffSurvives(cs: seq<Command>, i: nat, hash: Hash)
    requires i < |cs| && cs[i].PlayCmd?
    ensures var h, live := hash(SourceOf(cs, i)), LiveStarts(cs, hash);
            && (i in live <==> Survives(cs, i, hash))
            && (i in live ==> Excess(cs, i + 1, h, hash) == Later(cs, live, i, h, hash))
    decreases |cs|
  {
    hide AreStarts, Survives, Position, Drop, Later;
    var n, before := |cs| - 1, cs[..|cs| - 1];
    var live := LiveStarts(before, hash);
    var h := hash(SourceOf(cs, i));
    StillStarts(cs, live);
    if i == n {
      LastStart(cs, live, hash);
    } else {
      LiveIffSurvives(before, i, hash);
      SurvivesNext(cs, i, hash);
      match cs[n]
      case PlayCmd(_, _) =>
        PlayBehind(cs, live, i, hash);
      case StopCmd(param) =>
        StopBehind(cs, live, i, StopId(param), hash);
    }
  }

  lemma StopBehind(cs: seq<Command>, live: seq<nat>, i: nat, id: guint, hash: Hash)
    requires cs != [] && AreStarts(cs[..|cs| - 1], live) && i < |cs| - 1 && cs[i].PlayCmd?
    ensures var before, h := cs[..|cs| - 1], hash(SourceOf(cs, i));
            var rest := Drop(live, Position(before, live, id, hash));
            && AreStarts(cs, rest) && (i in rest ==> i in live)
            && (i in live && h != id ==> i in rest && Later(cs, rest, i, h, hash) == Later(before, live, i, h, hash))
            && (i in live && h == id ==>
                  && (i in rest <==> Later(before, live, i, h, hash) > 0)
                  && (i in rest ==> Later(cs, rest, i, h, hash) == Later(before, live, i, h, hash) - 1))
  {
    hide AreStarts, Position, Drop, Later;
    var before := cs[..|cs| - 1];
    var rest := Drop(live, Position(before, live, id, hash));
    DropKeepsStarts(before, live, Position(before, live, id, hash));
    LaterInLonger(cs, rest, i, hash(SourceOf(cs, i)), hash);
    if i in live {
      StopOfStart(before, live, i, id, hash);
    }
  }

  lemma LastStart(cs: seq<Command>, live: seq<nat>, hash: Hash)
    requires cs != [] && cs[|cs| - 1].PlayCmd? && AreStarts(cs[..|cs| - 1], live)
    ensures AreStarts(cs, [|cs| - 1] + live) && Survives(cs, |cs| - 1, hash)
    ensures var h := hash(SourceOf(cs, |cs| - 1));
            Excess(cs, |cs|, h, hash) == Later(cs, [|cs| - 1] + live, |cs| - 1, h, hash) == 0
  {
    assert cs[..|cs|] == cs;
    NoneLater(cs, [|cs| - 1] + live, |cs| - 1, hash(SourceOf(cs, |cs| - 1)), hash);
  }

  lemma PlayBehind(cs: seq<Command>, live: seq<nat>, i: nat, hash: Hash)
    requires cs != [] && cs[|cs| - 1].PlayCmd? && i < |cs| - 1 && cs[i].PlayCmd? && AreStarts(cs[..|cs| - 1], live)
    ensures AreStarts(cs, [|cs| - 1] + live) && (i in [|cs| - 1] + live <==> i in live)
    ensures var h, n := hash(SourceOf(cs, i)), |cs| - 1;
            Later(cs, [n] + live, i, h, hash) == Later(cs[..n], live, i, h, hash) + Weight(cs[n], h, hash)
  {
    LaterInLonger(cs, live, i, hash(SourceOf(cs, i)), hash);
    assert ([|cs| - 1] + live)[1..] == live;
  }

  /**
   * STOP of an earlier PLAY over a whole run: sent while the source of start i is live, it releases that source if and
   * only if PLAYs with its hash and STOPs with its id have come in equal numbers since. The source stands in the list
   * where the start stands among the live ones.
   */
  lemma StopOverRun(fixed: set<Element>, cs: seq<Command>, i: nat, param: string, hash: Hash) returns (k: nat)
    requires Possible(Initial(fixed), cs, hash)
    requires i < |cs| && cs[i].PlayCmd? && Survives(cs, i, hash) && StopId(param) == hash(SourceOf(cs, i))
    ensures k < |LiveStarts(cs, hash)| && LiveStarts(cs, hash)[k] == i
    ensures var st := RunAll(Initial(fixed), cs, hash);
            && k < |st.sources| && st.sources[k] == SourceOf(cs, i)
            && (EndToEnd.Stopped(st, Stop(st, param, hash), k) <==> Excess(cs, i + 1, StopId(param), hash) == 0)
            && Replies.ParseResponse(StopReply(st, param, hash)) == Replies.Ok("player id: " + Decimal(StopId(param)))
  {
    var id, live, st := StopId(param), LiveStarts(cs, hash), RunAll(Initial(fixed), cs, hash);
    LiveIffSurvives(cs, i, hash);
    k :| 0 <= k < |live| && live[k] == i;
    hide LiveStarts, Survives, Excess, Later, RunAll, Possible, Stop, Inv, Replies.ParseResponse, StopReply, Decimal, EndToEnd.Stopped;
    ListIsInStartOrder(fixed, cs, hash);
    RunKeepsInv(fixed, cs, hash);
    NoneBefore(cs, live, k, id, hash);
    EndToEnd.StopReplyRead(st, param, hash);
    assert st.sources[k] in st.sources;
    EndToEnd.StopHitsIntended(st, k, param, hash, fixed);
  }
}
