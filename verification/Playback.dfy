/**
 * The table of playing sources and the part of the GStreamer graph that it owns (src/operations/play.c). First the
 * state as a value, with what each request does to it; then the class whose methods are proved against that.
 */
module Playback {
  import opened Numbers
  import opened Regex

  type Element = nat
  type Pad = nat

  /** One live source: its heap address, what it plays, and its two elements. */
  datatype Source = Source(addr: nat, uri: string, created: int, element: Element, ac: Element)

  /** The elements in the bin, the mixer's request pads, and which of them each converter is linked to. */
  datatype Graph = Graph(bin: set<Element>, pads: set<Pad>, peer: map<Element, Pad>)

  /** What the allocator, the clock and GStreamer hand out for a new source. */
  datatype Fresh = Fresh(addr: nat, created: int, element: Element, ac: Element, pad: Pad)

  /** The list of sources, the graph, and the history: every source ever started, and every one ever released. */
  datatype State = State(sources: seq<Source>, graph: Graph, started: multiset<Source>, released: multiset<Source>)

  type Hash = Source -> guint

  // ---- What the operations do ----

  function NewSource(uri: string, f: Fresh): Source {
    Source(f.addr, uri, f.created, f.element, f.ac)
  }

  /** `source_new_and_link` */
  function Linked(g: Graph, s: Source, pad: Pad): Graph {
    Graph(g.bin + {s.ac, s.element}, g.pads + {pad}, g.peer[s.ac := pad])
  }

  /** `source_free_and_unlink`: the pad to give back is the one that the converter was linked to. */
  function Unlinked(g: Graph, s: Source): Graph {
    Graph(g.bin - {s.element, s.ac}, if s.ac in g.peer then g.pads - {g.peer[s.ac]} else g.pads, g.peer - {s.ac})
  }

  function FindFirst(sources: seq<Source>, id: guint, hash: Hash): Option<Source> {
    if sources == [] then None
    else if hash(sources[0]) == id then Some(sources[0])
    else FindFirst(sources[1..], id, hash)
  }

  /** `g_slist_remove`: drops the first link to this address. */
  function Remove(sources: seq<Source>, addr: nat): seq<Source> {
    if sources == [] then []
    else if sources[0].addr == addr then sources[1..]
    else [sources[0]] + Remove(sources[1..], addr)
  }

  function Play(st: State, uri: string, f: Fresh): State {
    var s := NewSource(uri, f);
    State([s] + st.sources, Linked(st.graph, s, f.pad), st.started + multiset{s}, st.released)
  }

  function PlayReply(uri: string, f: Fresh, hash: Hash): string {
    "OK player id: " + Decimal(hash(NewSource(uri, f)))
  }

  function StopId(param: string): guint {
    ToGuint(Atoll(param))
  }

  /** An id of any size counts modulo 2^32, and one with a minus sign as its complement. */
  lemma StopIdReads(n: nat)
    requires n <= 9223372036854775807
    ensures StopId(Decimal(n)) == n % 4294967296
    ensures StopId("-" + Decimal(n)) == (4294967296 - n % 4294967296) % 4294967296
  {
    hide Decimal, Value, Atoll;
    ValueOfDecimal(n);
    var d := Decimal(n);
    AtollReads("", false, false, d, "");
    AtollReads("", true, false, d, "");
    assert "" + ("" + (d + "")) == d && "" + ("-" + (d + "")) == "-" + d;
  }

  function Stop(st: State, param: string, hash: Hash): State {
    match FindFirst(st.sources, StopId(param), hash)
    case None => st
    case Some(s) => State(Remove(st.sources, s.addr), Unlinked(st.graph, s), st.started, st.released + multiset{s})
  }

  function StopReply(st: State, param: string, hash: Hash): string {
    if FindFirst(st.sources, StopId(param), hash).None? then "FAIL id is invalid"
    else "OK player id: " + Decimal(StopId(param))
  }

  /** `op_playback_free` after its first k sources; the list itself goes last. */
  function Freed(st: State, k: nat): State
    requires k <= |st.sources|
  {
    if k == 0 then st
    else
      var t := Freed(st, k - 1);
      t.(graph := Unlinked(t.graph, st.sources[k - 1]), released := t.released + multiset{st.sources[k - 1]})
  }

  function Free(st: State): State {
    Freed(st, |st.sources|).(sources := [])
  }

  // ---- What always holds ----

  /** The live sources share neither addresses nor elements. */
  ghost predicate Distinct(sources: seq<Source>) {
    && (forall i :: 0 <= i < |sources| ==> sources[i].element != sources[i].ac)
    && forall i, j :: 0 <= i < j < |sources| ==> Apart(sources[i], sources[j])
  }

  predicate Apart(s: Source, t: Source) {
    s.addr != t.addr && {s.element, s.ac} !! {t.element, t.ac}
  }

  /** The elements of the sources, and the converters among them. */
  function Elements(sources: seq<Source>): set<Element> {
    if sources == [] then {} else {sources[0].element, sources[0].ac} + Elements(sources[1..])
  }

  function Converters(sources: seq<Source>): set<Element> {
    if sources == [] then {} else {sources[0].ac} + Converters(sources[1..])
  }

  /** Every converter has a pad of its own, and there are no other pads. */
  ghost predicate PadsMatch(g: Graph) {
    && (forall a, b :: a in g.peer && b in g.peer && a != b ==> g.peer[a] != g.peer[b])
    && g.pads == g.peer.Values
  }

  ghost predicate Inv(st: State, fixed: set<Element>) {
    && Distinct(st.sources)
    && Elements(st.sources) !! fixed
    && st.graph.bin == fixed + Elements(st.sources)
    && st.graph.peer.Keys == Converters(st.sources)
    && PadsMatch(st.graph)
    && st.started == st.released + multiset(st.sources)
  }

  /** What is handed out for a new source is not in use: no live source has the address, and the graph is new to it. */
  ghost predicate IsFresh(st: State, f: Fresh) {
    && (forall s :: s in st.sources ==> s.addr != f.addr)
    && f.element !in st.graph.bin && f.ac !in st.graph.bin && f.element != f.ac
    && f.pad !in st.graph.pads
  }

  lemma {:induction false} ElementsOf(sources: seq<Source>, i: nat)
    requires i < |sources|
    ensures sources[i].element in Elements(sources) && sources[i].ac in Elements(sources)
    ensures sources[i].ac in Converters(sources)
  {
    if i > 0 {
      ElementsOf(sources[1..], i - 1);
    }
  }

  lemma {:induction false} ConvertersAreElements(sources: seq<Source>)
    ensures Converters(sources) <= Elements(sources)
  {
    if sources != [] {
      ConvertersAreElements(sources[1..]);
    }
  }

  lemma ValuesAfterAdd(peer: map<Element, Pad>, a: Element, p: Pad)
    requires a !in peer
    ensures peer[a := p].Values == peer.Values + {p}
  {
    var next := peer[a := p];
    forall v | v in peer.Values + {p}
      ensures v in next.Values
    {
      if v == p {
        assert next[a] == p;
      } else {
        var x :| x in peer && peer[x] == v;
        assert next[x] == v;
      }
    }
  }

  lemma ValuesAfterRemove(peer: map<Element, Pad>, a: Element)
    requires a in peer && forall x, y :: x in peer && y in peer && x != y ==> peer[x] != peer[y]
    ensures (peer - {a}).Values == peer.Values - {peer[a]}
  {
    var next := peer - {a};
    forall v | v in peer.Values - {peer[a]}
      ensures v in next.Values
    {
      var x :| x in peer && peer[x] == v;
      assert next[x] == v;
    }
  }

  /** What PLAY changes, field by field. */
  lemma PlayStarts(st: State, uri: string, f: Fresh)
    ensures var t := Play(st, uri, f);
            && |t.sources| == |st.sources| + 1 && t.sources[1..] == st.sources
            && t.sources[0].uri == uri && t.sources[0].addr == f.addr && t.sources[0].created == f.created
            && t.sources[0].element == f.element && t.sources[0].ac == f.ac
            && t.graph.bin == st.graph.bin + {f.element, f.ac} && t.graph.pads == st.graph.pads + {f.pad}
            && t.graph.peer == st.graph.peer[f.ac := f.pad]
            && t.started == st.started + multiset{t.sources[0]} && t.released == st.released
  {
  }

  lemma DistinctCons(s: Source, sources: seq<Source>)
    requires Distinct(sources) && s.element != s.ac && forall j :: 0 <= j < |sources| ==> Apart(s, sources[j])
    ensures Distinct([s] + sources)
  {
  }

  lemma {:induction false} PlayKeepsInv(st: State, uri: string, f: Fresh, fixed: set<Element>)
    requires Inv(st, fixed) && IsFresh(st, f)
    ensures Inv(Play(st, uri, f), fixed)
  {
    var s, next := NewSource(uri, f), Play(st, uri, f);
    forall j | 0 <= j < |st.sources|
      ensures Apart(s, st.sources[j])
    {
      ElementsOf(st.sources, j);
      assert st.sources[j] in st.sources;
    }
    DistinctCons(s, st.sources);
    hide Distinct;
    assert next.sources[1..] == st.sources;
    ConvertersAreElements(st.sources);
    ValuesAfterAdd(st.graph.peer, f.ac, f.pad);
    assert multiset(next.sources) == multiset{s} + multiset(st.sources);
  }

  function Without(sources: seq<Source>, i: nat): seq<Source>
    requires i < |sources|
  {
    sources[..i] + sources[i + 1..]
  }

  lemma DistinctTail(sources: seq<Source>)
    requires sources != [] && Distinct(sources)
    ensures Distinct(sources[1..])
    ensures forall j :: 0 <= j < |sources[1..]| ==> Apart(sources[0], sources[1..][j])
  {
    var rest := sources[1..];
    assert forall j :: 0 <= j < |rest| ==> rest[j] == sources[j + 1];
    forall j | 0 <= j < |rest|
      ensures Apart(sources[0], rest[j])
    {
      assert Apart(sources[0], sources[j + 1]);
    }
  }

  lemma {:induction false} ElementsWithout(sources: seq<Source>, i: nat)
    requires i < |sources| && Distinct(sources)
    ensures var s := sources[i];
            && Elements(Without(sources, i)) == Elements(sources) - {s.element, s.ac}
            && Converters(Without(sources, i)) == Converters(sources) - {s.ac}
  {
    hide Distinct;
    var s, rest := sources[i], sources[1..];
    DistinctTail(sources);
    if i == 0 {
      assert Without(sources, 0) == rest;
      ConvertersAreElements(rest);
      ElementsAreApart(rest, s);
    } else {
      assert rest[i - 1] == s;
      ElementsWithout(rest, i - 1);
      assert Without(sources, i) == [sources[0]] + Without(rest, i - 1);
      assert Without(sources, i)[1..] == Without(rest, i - 1);
      assert Apart(sources[0], s);
    }
  }

  lemma {:induction false} ElementsAreApart(sources: seq<Source>, s: Source)
    requires forall j :: 0 <= j < |sources| ==> Apart(s, sources[j])
    ensures {s.element, s.ac} !! Elements(sources)
  {
    if sources != [] {
      assert Apart(s, sources[0]);
      forall j | 0 <= j < |sources[1..]|
        ensures Apart(s, sources[1..][j])
      {
        assert Apart(s, sources[j + 1]);
      }
      ElementsAreApart(sources[1..], s);
    }
  }

  /** Source i leaves the list and is released. */
  function Released(st: State, i: nat): State
    requires i < |st.sources|
  {
    var s := st.sources[i];
    State(Without(st.sources, i), Unlinked(st.graph, s), st.started, st.released + multiset{s})
  }

  lemma DistinctWithout(sources: seq<Source>, i: nat)
    requires i < |sources| && Distinct(sources)
    ensures Distinct(Without(sources, i))
  {
    var t := Without(sources, i);
    forall a | 0 <= a < |t|
      ensures t[a] == sources[if a < i then a else a + 1]
    {
    }
    forall a, b | 0 <= a < b < |t|
      ensures Apart(t[a], t[b])
    {
      assert Apart(sources[if a < i then a else a + 1], sources[if b < i then b else b + 1]);
    }
  }

  /** Releasing any live source gives back its own pad and its own two elements, and nothing that others use. */
  lemma {:induction false} ReleaseKeepsInv(st: State, i: nat, fixed: set<Element>)
    requires Inv(st, fixed) && i < |st.sources|
    ensures Inv(Released(st, i), fixed)
  {
    hide Elements, Converters, Distinct;
    var s, t := st.sources[i], Without(st.sources, i);
    ElementsOf(st.sources, i);
    ElementsWithout(st.sources, i);
    DistinctWithout(st.sources, i);
    ValuesAfterRemove(st.graph.peer, s.ac);
    assert st.sources == st.sources[..i] + [s] + st.sources[i + 1..];
    assert multiset(st.sources) == multiset(t) + multiset{s};
  }

  /** The index that the search for an id stops at: the first, so the most recently started, source with that hash. */
  lemma {:induction false} FirstIndex(sources: seq<Source>, id: guint, hash: Hash) returns (i: nat)
    requires FindFirst(sources, id, hash).Some?
    ensures i < |sources| && sources[i] == FindFirst(sources, id, hash).value && hash(sources[i]) == id
    ensures forall j :: 0 <= j < i ==> hash(sources[j]) != id
  {
    if hash(sources[0]) == id {
      i := 0;
    } else {
      var k := FirstIndex(sources[1..], id, hash);
      i := k + 1;
      assert forall j :: 0 < j < i ==> sources[j] == sources[1..][j - 1];
    }
  }

  lemma {:induction false} NoneHasHash(sources: seq<Source>, id: guint, hash: Hash)
    ensures FindFirst(sources, id, hash).None? <==> forall s :: s in sources ==> hash(s) != id
  {
    if sources != [] {
      NoneHasHash(sources[1..], id, hash);
      assert sources == [sources[0]] + sources[1..];
    }
  }

  lemma {:induction false} RemoveAtIndex(sources: seq<Source>, i: nat)
    requires i < |sources| && Distinct(sources)
    ensures Remove(sources, sources[i].addr) == Without(sources, i)
  {
    if i > 0 {
      var rest := sources[1..];
      assert Apart(sources[0], sources[i]);
      assert forall j :: 0 <= j < |rest| ==> rest[j] == sources[j + 1];
      RemoveAtIndex(rest, i - 1);
      assert Without(sources, i) == [sources[0]] + Without(rest, i - 1);
    }
  }

  /** A successful STOP releases exactly the source it finds; a failed one changes nothing. */
  lemma StopIsRelease(st: State, param: string, hash: Hash, fixed: set<Element>) returns (i: nat)
    requires Inv(st, fixed) && FindFirst(st.sources, StopId(param), hash).Some?
    ensures i < |st.sources| && Stop(st, param, hash) == Released(st, i)
    ensures hash(st.sources[i]) == StopId(param) && forall j :: 0 <= j < i ==> hash(st.sources[j]) != StopId(param)
  {
    i := FirstIndex(st.sources, StopId(param), hash);
    RemoveAtIndex(st.sources, i);
  }

  lemma StopKeepsInv(st: State, param: string, hash: Hash, fixed: set<Element>)
    requires Inv(st, fixed)
    ensures Inv(Stop(st, param, hash), fixed)
  {
    if FindFirst(st.sources, StopId(param), hash).Some? {
      var i := StopIsRelease(st, param, hash, fixed);
      ReleaseKeepsInv(st, i, fixed);
    }
  }

  lemma {:induction false} FreedKeepsInv(st: State, k: nat, fixed: set<Element>)
    requires Inv(st, fixed) && k <= |st.sources|
    ensures Inv(Freed(st, k).(sources := st.sources[k..]), fixed)
  {
    if k == 0 {
      assert st.sources[0..] == st.sources;
    } else {
      hide Inv;
      FreedKeepsInv(st, k - 1, fixed);
      var t := Freed(st, k - 1).(sources := st.sources[k - 1..]);
      ReleaseKeepsInv(t, 0, fixed);
      assert Without(t.sources, 0) == st.sources[k..];
    }
  }

  /** The final free leaves only the fixed elements and no request pad, and every source was released exactly once. */
  lemma FreeReleasesAll(st: State, fixed: set<Element>)
    requires Inv(st, fixed)
    ensures var t := Free(st);
            t.sources == [] && t.graph == Graph(fixed, {}, map[]) && t.released == t.started == st.started
  {
    FreedKeepsInv(st, |st.sources|, fixed);
    assert st.sources[|st.sources|..] == [];
    FreedStarted(st, |st.sources|);
  }

  lemma {:induction false} FreedStarted(st: State, k: nat)
    requires k <= |st.sources|
    ensures Freed(st, k).started == st.started
  {
    if k > 0 {
      FreedStarted(st, k - 1);
    }
  }

  lemma FreedNothing(st: State)
    ensures Freed(st, 0) == st
  {
  }

  lemma FreedNext(st: State, k: nat)
    requires 0 < k <= |st.sources|
    ensures Freed(st, k).graph == Unlinked(Freed(st, k - 1).graph, st.sources[k - 1])
    ensures Freed(st, k).released == Freed(st, k - 1).released + multiset{st.sources[k - 1]}
  {
  }

  // ---- Whole runs ----

  datatype Command = PlayCmd(uri: string, given: Fresh) | StopCmd(param: string)

  function Step(st: State, c: Command, hash: Hash): State {
    match c
    case PlayCmd(uri, f) => Play(st, uri, f)
    case StopCmd(param) => Stop(st, param, hash)
  }

  function RunAll(st: State, cs: seq<Command>, hash: Hash): State {
    if cs == [] then st else Step(RunAll(st, cs[..|cs| - 1], hash), cs[|cs| - 1], hash)
  }

  /** Every PLAY of the run was handed something fresh. */
  ghost predicate Possible(st: State, cs: seq<Command>, hash: Hash) {
    cs != [] ==>
      && Possible(st, cs[..|cs| - 1], hash)
      && (cs[|cs| - 1].PlayCmd? ==> IsFresh(RunAll(st, cs[..|cs| - 1], hash), cs[|cs| - 1].given))
  }

  function Plays(cs: seq<Command>): nat {
    if cs == [] then 0 else Plays(cs[..|cs| - 1]) + if cs[|cs| - 1].PlayCmd? then 1 else 0
  }

  /** How many of the STOPs got an OK. */
  function Stops(st: State, cs: seq<Command>, hash: Hash): nat {
    if cs == [] then 0
    else
      var c, before := cs[|cs| - 1], RunAll(st, cs[..|cs| - 1], hash);
      Stops(st, cs[..|cs| - 1], hash)
        + if c.StopCmd? && FindFirst(before.sources, StopId(c.param), hash).Some? then 1 else 0
  }

  /** The state after `op_playback_new`. */
  function Initial(fixed: set<Element>): State {
    State([], Graph(fixed, {}, map[]), multiset{}, multiset{})
  }

  lemma {:induction false} RunKeepsInv(fixed: set<Element>, cs: seq<Command>, hash: Hash)
    requires Possible(Initial(fixed), cs, hash)
    ensures var st := RunAll(Initial(fixed), cs, hash);
            && Inv(st, fixed)
            && |st.sources| + Stops(Initial(fixed), cs, hash) == Plays(cs)
            && |st.started| == Plays(cs)
            && |st.released| == Stops(Initial(fixed), cs, hash)
  {
    if cs != [] {
      hide Inv, IsFresh, Play;
      var before, c := cs[..|cs| - 1], cs[|cs| - 1];
      var st := RunAll(Initial(fixed), before, hash);
      RunKeepsInv(fixed, before, hash);
      match c
      case PlayCmd(uri, f) =>
        PlayKeepsInv(st, uri, f, fixed);
        PlayAdds(st, uri, f);
      case StopCmd(param) =>
        StopKeepsInv(st, param, hash, fixed);
        if FindFirst(st.sources, StopId(param), hash).Some? {
          var i := StopIsRelease(st, param, hash, fixed);
        }
    }
  }

  lemma PlayAdds(st: State, uri: string, f: Fresh)
    ensures |Play(st, uri, f).sources| == |st.sources| + 1
    ensures |Play(st, uri, f).started| == |st.started| + 1
    ensures Play(st, uri, f).released == st.released
  {
  }

  lemma {:induction false} CountElements(sources: seq<Source>)
    requires Distinct(sources)
    ensures |Elements(sources)| == 2 * |sources| && |Converters(sources)| == |sources|
  {
    if sources != [] {
      var s, rest := sources[0], sources[1..];
      assert forall j :: 0 <= j < |rest| ==> rest[j] == sources[j + 1] && Apart(s, rest[j]);
      CountElements(rest);
      ElementsAreApart(rest, s);
      ConvertersAreElements(rest);
      assert |{s.element, s.ac}| == 2;
    }
  }

  lemma {:induction false} CountValues(peer: map<Element, Pad>)
    requires forall a, b :: a in peer && b in peer && a != b ==> peer[a] != peer[b]
    ensures |peer.Values| == |peer.Keys|
    decreases |peer|
  {
    if peer.Keys != {} {
      var a :| a in peer;
      ValuesAfterRemove(peer, a);
      var next := peer - {a};
      assert next.Keys == peer.Keys - {a};
      CountValues(next);
      assert |peer.Values| == |peer.Values - {peer[a]}| + 1;
    } else {
      assert peer.Values == {};
    }
  }

  /**
   * Conservation over every run of PLAY and STOP: the list has one source per successful PLAY that no successful STOP
   * has taken, without duplicates; the mixer has one request pad for each of them, the bin two elements each besides
   * the fixed ones. Freeing then returns everything, and each source that was started has been released once.
   */
  lemma {:induction false} Conservation(fixed: set<Element>, cs: seq<Command>, hash: Hash)
    requires Possible(Initial(fixed), cs, hash)
    ensures var st := RunAll(Initial(fixed), cs, hash);
            && |st.sources| == Plays(cs) - Stops(Initial(fixed), cs, hash)
            && (forall i, j :: 0 <= i < j < |st.sources| ==> st.sources[i].addr != st.sources[j].addr)
            && |st.graph.pads| == |st.sources|
            && st.graph.bin == fixed + Elements(st.sources) && Elements(st.sources) !! fixed
            && |Elements(st.sources)| == 2 * |st.sources|
            && st.started == st.released + multiset(st.sources)
    ensures var t := Free(RunAll(Initial(fixed), cs, hash));
            && t.sources == [] && t.graph == Initial(fixed).graph
            && t.released == t.started && |t.released| == Plays(cs)
  {
    var st := RunAll(Initial(fixed), cs, hash);
    RunKeepsInv(fixed, cs, hash);
    CountElements(st.sources);
    CountValues(st.graph.peer);
    FreeReleasesAll(st, fixed);
    assert forall i, j :: 0 <= i < j < |st.sources| ==> Apart(st.sources[i], st.sources[j]);
  }

  // ---- The context and its methods ----

  /** The bin, the mixer's request pads and the links from converters to them, as GStreamer keeps them. */
  class Pipeline {
    var bin: set<Element>
    var pads: set<Pad>
    var peer: map<Element, Pad>

    ghost function View(): Graph
      reads this
    {
      Graph(bin, pads, peer)
    }

    constructor (fixed: set<Element>)
      ensures View() == Graph(fixed, {}, map[])
    {
      bin, pads, peer := fixed, {}, map[];
    }

    method BinAdd(e: Element)
      modifies this
      ensures View() == old(View()).(bin := old(bin) + {e})
    {
      bin := bin + {e};
    }

    method BinRemove(e: Element)
      modifies this
      ensures View() == old(View()).(bin := old(bin) - {e})
    {
      bin := bin - {e};
    }

    /** Linking a converter to the mixer makes the mixer hand out a request pad. */
    method LinkToMux(ac: Element, pad: Pad)
      modifies this
      ensures View() == old(View()).(pads := old(pads) + {pad}, peer := old(peer)[ac := pad])
    {
      pads, peer := pads + {pad}, peer[ac := pad];
    }

    function GetPeer(ac: Element): Option<Pad>
      reads this
    {
      if ac in peer then Some(peer[ac]) else None
    }

    method Unlink(ac: Element)
      modifies this
      ensures View() == old(View()).(peer := old(peer) - {ac})
    {
      peer := peer - {ac};
    }

    method ReleaseRequestPad(pad: Option<Pad>)
      modifies this
      ensures View() == old(View()).(pads := if pad.Some? then old(pads) - {pad.value} else old(pads))
    {
      if pad.Some? {
        pads := pads - {pad.value};
      }
    }
  }

  class PlaybackContext {
    const pipeline: Pipeline
    const hash: Hash
    var sources: seq<Source>
    ghost var started: multiset<Source>
    ghost var released: multiset<Source>

    ghost function View(): State
      reads this, pipeline
    {
      State(sources, pipeline.View(), started, released)
    }

    constructor (fixed: set<Element>, hash: Hash)
      ensures View() == Initial(fixed) && fresh(pipeline) && this.hash == hash
    {
      pipeline := new Pipeline(fixed);
      this.hash := hash;
      sources := [];
      started, released := multiset{}, multiset{};
    }

    method SourceNewAndLink(uri: string, f: Fresh) returns (ret: Source)
      modifies pipeline
      ensures ret == NewSource(uri, f) && pipeline.View() == Linked(old(pipeline.View()), ret, f.pad)
    {
      ret := Source(f.addr, uri, f.created, f.element, f.ac);
      pipeline.BinAdd(ret.ac);
      pipeline.LinkToMux(ret.ac, f.pad);
      pipeline.BinAdd(ret.element);
      assert old(pipeline.bin) + {ret.ac} + {ret.element} == old(pipeline.bin) + {ret.ac, ret.element};
    }

    /** The pad is looked up through the converter before the unlinking, since afterwards the converter has no peer. */
    method SourceFreeAndUnlink(item: Source)
      modifies pipeline, `released
      ensures pipeline.View() == Unlinked(old(pipeline.View()), item)
      ensures released == old(released) + multiset{item}
    {
      var muxSink := pipeline.GetPeer(item.ac);
      pipeline.Unlink(item.ac);
      pipeline.ReleaseRequestPad(muxSink);
      pipeline.BinRemove(item.element);
      pipeline.BinRemove(item.ac);
      released := released + multiset{item};
      assert old(pipeline.bin) - {item.element} - {item.ac} == old(pipeline.bin) - {item.element, item.ac};
    }

    method SourceItemFromId(id: guint) returns (needle: Option<Source>)
      ensures needle == FindFirst(sources, id, hash)
    {
      var k := 0;
      assert sources[0..] == sources;
      while k < |sources|
        invariant 0 <= k <= |sources|
        invariant FindFirst(sources, id, hash) == FindFirst(sources[k..], id, hash)
      {
        if hash(sources[k]) == id {
          return Some(sources[k]);
        }
        assert sources[k..][1..] == sources[k + 1..];
        k := k + 1;
      }
      return None;
    }

    method OpPlayParse(param: string, f: Fresh) returns (reply: string)
      modifies this, pipeline
      ensures View() == Play(old(View()), param, f)
      ensures reply == PlayReply(param, f, hash)
      ensures sources == [Source(f.addr, param, f.created, f.element, f.ac)] + old(sources)
      ensures reply == "OK player id: " + Decimal(hash(sources[0]))
    {
      var toAdd := SourceNewAndLink(param, f);
      sources := [toAdd] + sources;
      started := started + multiset{toAdd};
      reply := "OK player id: " + Decimal(hash(toAdd));
    }

    method OpStopParse(param: string) returns (reply: string)
      modifies this, pipeline
      ensures View() == Stop(old(View()), param, hash)
      ensures reply == StopReply(old(View()), param, hash)
      ensures reply == if exists s :: s in old(sources) && hash(s) == StopId(param)
                       then "OK player id: " + Decimal(StopId(param)) else "FAIL id is invalid"
    {
      NoneHasHash(sources, StopId(param), hash);
      var id := ToGuint(Atoll(param));
      var toRemove := SourceItemFromId(id);
      if toRemove.None? {
        return "FAIL id is invalid";
      }
      sources := Remove(sources, toRemove.value.addr);
      SourceFreeAndUnlink(toRemove.value);
      reply := "OK player id: " + Decimal(id);
    }

    method OpPlaybackFree()
      modifies this, pipeline
      ensures View() == Free(old(View()))
    {
      hide Unlinked, Freed;
      ghost var st := View();
      var iter := 0;
      FreedNothing(st);
      while iter < |sources|
        invariant 0 <= iter <= |sources| && sources == st.sources && started == st.started
        invariant pipeline.View() == Freed(st, iter).graph && released == Freed(st, iter).released
      {
        SourceFreeAndUnlink(sources[iter]);
        iter := iter + 1;
        FreedNext(st, iter);
      }
      FreedStarted(st, iter);
      sources := [];
    }
  }
}
