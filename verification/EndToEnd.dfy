/** PLAY and STOP from the client through the dispatcher to the source table, and back. */
module EndToEnd {
  import opened Regex
  import opened Numbers
  import opened Requests
  import opened Replies
  import opened Registry
  import opened P = Playback

  // ---- The daemon's own plugins ----

  /** The three plugins that the daemon registers, in order; Playback is accepted unless its context is null (0). */
  function Plugins(services: nat, playback: nat): seq<Plugin> {
    [Plugin("Ping", services, true, [Listing("PING", Handler.Ping)]),
     Plugin("Control", services, true, [Listing("PUBSUB", Handler.PubSub), Listing("QUIT", Handler.Quit)]),
     Plugin("Playback", playback, playback != 0,
            [Listing("TAGS", Handler.Tags), Listing("PLAY", Handler.Play), Listing("STOP", Handler.Stop),
             Listing("DUMPGRAPH", Handler.DumpGraph)])]
  }

  function Messages(services: nat, playback: nat): MessageTable {
    RegisterAll(Plugins(services, playback)).table
  }

  lemma TwoListed(a: Listing, b: Listing, prefix: string)
    ensures ListedBy([a], prefix) == if a.prefix == prefix then Some(a.handler) else None
    ensures ListedBy([a, b], prefix) == if b.prefix == prefix then Some(b.handler) else ListedBy([a], prefix)
  {
    assert [a, b][..1] == [a] && [a][..0] == [];
  }

  lemma FourListed(a: Listing, b: Listing, c: Listing, d: Listing, prefix: string)
    ensures ListedBy([a, b, c, d], prefix) ==
            if d.prefix == prefix then Some(d.handler) else if c.prefix == prefix then Some(c.handler)
            else ListedBy([a, b], prefix)
  {
    assert [a, b, c, d][..3] == [a, b, c] && [a, b, c][..2] == [a, b];
  }

  /** The handler and the plugin context for each prefix that the daemon registers. */
  function Route(services: nat, playback: nat, prefix: string): Option<Target> {
    if prefix == "PING" then Some(Target(Handler.Ping, services))
    else if prefix == "PUBSUB" then Some(Target(Handler.PubSub, services))
    else if prefix == "QUIT" then Some(Target(Handler.Quit, services))
    else if playback == 0 then None
    else if prefix == "TAGS" then Some(Target(Handler.Tags, playback))
    else if prefix == "PLAY" then Some(Target(Handler.Play, playback))
    else if prefix == "STOP" then Some(Target(Handler.Stop, playback))
    else if prefix == "DUMPGRAPH" then Some(Target(Handler.DumpGraph, playback))
    else None
  }

  lemma LastOfThree(a: Plugin, b: Plugin, c: Plugin, prefix: string)
    ensures LastToList([a, b, c], prefix) ==
            var x, y, z := ListedBy(a.messages, prefix), ListedBy(b.messages, prefix), ListedBy(c.messages, prefix);
            if c.accepts && z.Some? then Some(Target(z.value, c.ctx))
            else if b.accepts && y.Some? then Some(Target(y.value, b.ctx))
            else if a.accepts && x.Some? then Some(Target(x.value, a.ctx)) else None
  {
    hide ListedBy;
    assert [a, b, c][..2] == [a, b] && [a, b][..1] == [a] && [a][..0] == [];
    assert LastToList([a], prefix) ==
           var x := ListedBy(a.messages, prefix); if a.accepts && x.Some? then Some(Target(x.value, a.ctx)) else None;
  }

  /** The daemon's table holds these entries and no others. */
  lemma DaemonRoutes(services: nat, playback: nat, prefix: string)
    ensures Lookup(Messages(services, playback), prefix) == Route(services, playback, prefix)
  {
    hide ListedBy, LastToList, RegisterAll;
    var ps := Plugins(services, playback);
    LastListingWins(ps, prefix);
    LastOfThree(ps[0], ps[1], ps[2], prefix);
    var a, b, c := ps[0].messages, ps[1].messages, ps[2].messages;
    TwoListed(a[0], b[0], prefix);
    TwoListed(b[0], b[1], prefix);
    TwoListed(c[0], c[1], prefix);
    FourListed(c[0], c[1], c[2], c[3], prefix);
    assert a == [a[0]] && b == [b[0], b[1]] && c == [c[0], c[1], c[2], c[3]] && ps == [ps[0], ps[1], ps[2]];
  }

  /** A request that the client formats with a registered prefix reaches its handler with its parameter. */
  lemma RequestArrives(services: nat, playback: nat, prefix: string, param: string)
    requires Capitals(prefix) && Route(services, playback, prefix).Some? && param != "" && LineFree(param)
    ensures Dispatch(Messages(services, playback), Format(prefix, param)) ==
            Call(Route(services, playback, prefix).value, param)
  {
    hide Route, Messages, Dispatch;
    FormattedDispatch(services, playback, prefix, param);
  }

  /**
   * Every request that the client can make, as it is written: a prefix, one blank and a parameter of any characters but
   * line breaks.
   */
  lemma RequestsArrive(services: nat, playback: nat, param: string)
    requires param != ""
    requires forall c :: c in param ==> c as int !in {10, 11, 12, 13, 0x85, 0x2028, 0x2029}
    ensures var t := Messages(services, playback);
            && Dispatch(t, "PING" + " " + param) == Call(Target(Handler.Ping, services), param)
            && Dispatch(t, "PUBSUB" + " " + param) == Call(Target(Handler.PubSub, services), param)
            && Dispatch(t, "QUIT" + " " + param) == Call(Target(Handler.Quit, services), param)
    ensures var t := Messages(services, playback);
            if playback == 0
            then && Dispatch(t, "TAGS" + " " + param) == Rejected && Dispatch(t, "PLAY" + " " + param) == Rejected
                 && Dispatch(t, "STOP" + " " + param) == Rejected && Dispatch(t, "DUMPGRAPH" + " " + param) == Rejected
            else && Dispatch(t, "TAGS" + " " + param) == Call(Target(Handler.Tags, playback), param)
                 && Dispatch(t, "PLAY" + " " + param) == Call(Target(Handler.Play, playback), param)
                 && Dispatch(t, "STOP" + " " + param) == Call(Target(Handler.Stop, playback), param)
                 && Dispatch(t, "DUMPGRAPH" + " " + param) == Call(Target(Handler.DumpGraph, playback), param)
  {
    hide Messages, Dispatch, Route;
    assert LineFree(param);
    FormattedDispatch(services, playback, "PING", param);
    FormattedDispatch(services, playback, "PUBSUB", param);
    FormattedDispatch(services, playback, "QUIT", param);
    FormattedDispatch(services, playback, "TAGS", param);
    FormattedDispatch(services, playback, "PLAY", param);
    FormattedDispatch(services, playback, "STOP", param);
    FormattedDispatch(services, playback, "DUMPGRAPH", param);
    Routes(services, playback);
  }

  lemma Routes(services: nat, playback: nat)
    ensures Route(services, playback, "PING") == Some(Target(Handler.Ping, services))
    ensures Route(services, playback, "PUBSUB") == Some(Target(Handler.PubSub, services))
    ensures Route(services, playback, "QUIT") == Some(Target(Handler.Quit, services))
    ensures playback == 0 ==>
              Route(services, playback, "TAGS").None? && Route(services, playback, "PLAY").None?
              && Route(services, playback, "STOP").None? && Route(services, playback, "DUMPGRAPH").None?
    ensures playback != 0 ==>
              && Route(services, playback, "TAGS") == Some(Target(Handler.Tags, playback))
              && Route(services, playback, "PLAY") == Some(Target(Handler.Play, playback))
              && Route(services, playback, "STOP") == Some(Target(Handler.Stop, playback))
              && Route(services, playback, "DUMPGRAPH") == Some(Target(Handler.DumpGraph, playback))
  {
  }

  lemma FormattedDispatch(services: nat, playback: nat, prefix: string, param: string)
    requires Capitals(prefix) && param != "" && LineFree(param)
    ensures Dispatch(Messages(services, playback), prefix + " " + param) ==
            match Route(services, playback, prefix) case None => Rejected case Some(t) => Call(t, param)
  {
    hide Route, ParseRequest, Messages;
    DaemonRoutes(services, playback, prefix);
    FormatParses(prefix, param);
  }

  /** A message of capitals alone is dispatched without its last letter, which becomes the parameter. */
  lemma BareCommandDispatch(table: MessageTable, p: string)
    requires Capitals(p)
    ensures var n := |p| - 1;
            Dispatch(table, p) == if n > 0 && p[..n] in table then Call(table[p[..n]], p[n..]) else Rejected
  {
    hide ParseRequest;
    BareCommandIsCut(p);
  }

  /** So every prefix that the daemon registers is rejected when it is sent alone. */
  lemma BarePrefixIsRejected(services: nat, playback: nat, prefix: string)
    requires Capitals(prefix) && prefix in Messages(services, playback)
    ensures Dispatch(Messages(services, playback), prefix) == Rejected
  {
    hide Messages, Dispatch;
    BareCommandDispatch(Messages(services, playback), prefix);
    DaemonRoutes(services, playback, prefix);
    assert |prefix| == 4 || |prefix| == 6 || |prefix| == 9;
    var cut := prefix[..|prefix| - 1];
    DaemonRoutes(services, playback, cut);
  }

  // ---- The id, there and back ----

  /** What `play` in the client returns; "" where it throws. */
  function ClientId(reply: string): string {
    match ParseResponse(reply)
    case Ok(text) => DropLabels(text)
    case _ => ""
  }

  lemma ClientIdIsDecimal(id: guint)
    ensures ClientId("OK player id: " + Decimal(id)) == Decimal(id)
  {
    hide ParseResponse, DropLabels, Decimal;
    var d := Decimal(id);
    ValueOfDecimal(id);
    assert ':' !in d && '\n' !in d;
    var text := "player id" + ": " + d;
    assert '\n' !in "player id";
    assert '\n' !in text;
    FormattedReply("OK", text, "");
    LabelDropped("player id", d);
    assert "OK" + " " + text + "" == "OK player id: " + d;
    assert ByStatus("OK", text) == Ok(text);
  }

  /**
   * The id in the reply to PLAY, taken out by the client and sent back in a STOP, reaches the STOP handler and is read
   * as the hash of the source that PLAY started.
   */
  lemma IdSurvives(services: nat, playback: nat, uri: string, f: Fresh, hash: Hash)
    requires playback != 0
    ensures var id := ClientId(PlayReply(uri, f, hash));
            && Dispatch(Messages(services, playback), Format("STOP", id)) == Call(Target(Handler.Stop, playback), id)
            && StopId(id) == hash(NewSource(uri, f))
  {
    hide ClientId, Decimal, Dispatch, Messages;
    var h := hash(NewSource(uri, f));
    ClientIdIsDecimal(h);
    AtollOfDecimal(h);
    ValueOfDecimal(h);
    assert LineFree(Decimal(h)) && Capitals("STOP");
    RequestArrives(services, playback, "STOP", Decimal(h));
  }

  /** The STOP released source i and left all others alone. */
  ghost predicate Stopped(before: State, after: State, i: nat) {
    i < |before.sources| && after == Released(before, i)
  }

  /**
   * Sent at any later time while the source is live, that STOP stops this source if and only if no source started
   * after it (and so before it in the list) is live with the same hash.
   */
  lemma StopHitsIntended(later: State, i: nat, param: string, hash: Hash, fixed: set<Element>)
    requires Inv(later, fixed) && i < |later.sources| && StopId(param) == hash(later.sources[i])
    ensures Stopped(later, P.Stop(later, param, hash), i) <==>
            forall j :: 0 <= j < i ==> hash(later.sources[j]) != hash(later.sources[i])
  {
    NoneHasHash(later.sources, StopId(param), hash);
    assert later.sources[i] in later.sources;
    var k := StopIsRelease(later, param, hash, fixed);
    if k != i {
      assert hash(later.sources[k]) == hash(later.sources[i]);
      assert Apart(later.sources[if k < i then k else i], later.sources[if k < i then i else k]);
      ReleasedDiffer(later, k, i);
    }
  }

  lemma ReleasedDiffer(st: State, k: nat, i: nat)
    requires k < |st.sources| && i < |st.sources| && st.sources[k] != st.sources[i]
    ensures Released(st, k) != Released(st, i)
  {
    var a, b := st.sources[k], st.sources[i];
    assert (st.released + multiset{a})[a] == st.released[a] + 1;
    assert (st.released + multiset{b})[a] == st.released[a];
  }

  /** If the source is gone, the STOP fails and changes nothing unless another live source has the same hash. */
  lemma StopOfGoneSource(later: State, param: string, hash: Hash)
    ensures StopReply(later, param, hash) == "FAIL id is invalid" <==>
            forall s :: s in later.sources ==> hash(s) != StopId(param)
    ensures StopReply(later, param, hash) == "FAIL id is invalid" ==> P.Stop(later, param, hash) == later
  {
    NoneHasHash(later.sources, StopId(param), hash);
    assert ("OK player id: " + Decimal(StopId(param)))[0] == 'O' && "FAIL id is invalid"[0] == 'F';
  }

  /** What the client makes of the reply to PLAY. */
  lemma PlayReplyRead(uri: string, f: Fresh, hash: Hash)
    ensures PlayReply(uri, f, hash) ==
            "OK player id: " + Decimal(hash(Source(f.addr, uri, f.created, f.element, f.ac)))
    ensures ParseResponse(PlayReply(uri, f, hash)) ==
            Ok("player id: " + Decimal(hash(Source(f.addr, uri, f.created, f.element, f.ac))))
  {
    hide ParseResponse, Decimal;
    IdReplyRead(hash(NewSource(uri, f)));
  }

  lemma IdReplyRead(id: guint)
    ensures ParseResponse("OK player id: " + Decimal(id)) == Ok("player id: " + Decimal(id))
  {
    hide ParseResponse, Decimal;
    ValueOfDecimal(id);
    var text := "player id: " + Decimal(id);
    assert '\n' !in "player id: " && '\n' !in Decimal(id);
    assert '\n' !in text;
    FormattedReply("OK", text, "");
    assert "OK" + " " + text + "" == "OK player id: " + Decimal(id);
  }

  /** What it makes of the reply to STOP: an id if a live source has it, and otherwise an exception. */
  lemma StopReplyRead(st: State, param: string, hash: Hash)
    ensures ParseResponse(StopReply(st, param, hash)) ==
            if exists s :: s in st.sources && hash(s) == StopId(param)
            then Ok("player id: " + Decimal(StopId(param))) else Thrown("id is invalid")
  {
    hide ParseResponse, Decimal, StopId;
    NoneHasHash(st.sources, StopId(param), hash);
    if exists s :: s in st.sources && hash(s) == StopId(param) {
      IdReplyRead(StopId(param));
    } else {
      FormattedReply("FAIL", "id is invalid", "");
      assert "FAIL" + " " + "id is invalid" + "" == "FAIL id is invalid";
    }
  }

  /** PLAY directly followed by the STOP for its id restores the list and the graph, whatever hashes collide. */
  lemma PlayThenStopRestores(st: State, uri: string, f: Fresh, hash: Hash, fixed: set<Element>)
    requires Inv(st, fixed) && IsFresh(st, f)
    ensures var s := NewSource(uri, f);
            P.Stop(P.Play(st, uri, f), ClientId(PlayReply(uri, f, hash)), hash) ==
            State(st.sources, st.graph, st.started + multiset{s}, st.released + multiset{s})
    ensures ParseResponse(StopReply(P.Play(st, uri, f), ClientId(PlayReply(uri, f, hash)), hash)) ==
            Ok("player id: " + Decimal(hash(NewSource(uri, f))))
  {
    hide ClientId, StopId, IsFresh, Inv, Linked, Unlinked, ParseResponse, StopReply, Decimal;
    var s := NewSource(uri, f);
    IdSurvives(1, 1, uri, f, hash);
    var played := P.Play(st, uri, f);
    assert Remove(played.sources, s.addr) == st.sources;
    assert played.sources[0] == s && s in played.sources;
    StopReplyRead(played, ClientId(PlayReply(uri, f, hash)), hash);
    UnlinkAfterLink(st, s, f, fixed);
  }

  lemma UnlinkAfterLink(st: State, s: Source, f: Fresh, fixed: set<Element>)
    requires Inv(st, fixed) && IsFresh(st, f) && s.element == f.element && s.ac == f.ac
    ensures Unlinked(Linked(st.graph, s, f.pad), s) == st.graph
  {
    var g := st.graph;
    ConvertersAreElements(st.sources);
    assert f.ac !in g.peer.Keys;
    var h := Unlinked(Linked(g, s, f.pad), s);
    assert h.bin == g.bin && h.pads == g.pads && h.peer == g.peer;
  }

  /** A bare "STOP", as the README of the daemon shows it, is rejected. */
  lemma BareStopIsRejected(services: nat, playback: nat)
    requires playback != 0
    ensures Dispatch(Messages(services, playback), "STOP") == Rejected
  {
    hide Messages, Dispatch;
    DaemonRoutes(services, playback, "STOP");
    BarePrefixIsRejected(services, playback, "STOP");
  }
}
