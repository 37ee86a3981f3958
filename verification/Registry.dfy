/** The plugin registry and the dispatch of requests (src/parser.c). */
module Registry {
  import opened Regex
  import opened Requests

  datatype Handler = Ping | PubSub | Quit | Tags | Play | Stop | DumpGraph

  datatype Listing = Listing(prefix: string, handler: Handler)

  /**
   * A plugin as registration sees it: the context that `plugin_new` returns, whether `plugin_register` accepts it, and
   * the messages it then lists.
   */
  datatype Plugin = Plugin(name: string, ctx: nat, accepts: bool, messages: seq<Listing>)

  /** An entry of the message table. */
  datatype Target = Target(handler: Handler, ctx: nat)

  type MessageTable = map<string, Target>

  /** The parser, and the history of the contexts that plugins made and freed, in order. */
  datatype Parser = Parser(table: MessageTable, plugins: seq<Plugin>, created: seq<nat>, freed: seq<nat>)

  const Empty: Parser := Parser(map[], [], [], [])

  // ---- What the operations do ----

  /** The table after the first k messages of a plugin. */
  function WithMessages(table: MessageTable, p: Plugin, k: nat): MessageTable
    requires k <= |p.messages|
  {
    if k == 0 then table
    else WithMessages(table, p, k - 1)[p.messages[k - 1].prefix := Target(p.messages[k - 1].handler, p.ctx)]
  }

  function Register(r: Parser, p: Plugin): Parser {
    if p.accepts
    then Parser(WithMessages(r.table, p, |p.messages|), [p] + r.plugins, r.created + [p.ctx], r.freed)
    else Parser(r.table, r.plugins, r.created + [p.ctx], r.freed + [p.ctx])
  }

  function RegisterAll(ps: seq<Plugin>): Parser {
    if ps == [] then Empty else Register(RegisterAll(ps[..|ps| - 1]), ps[|ps| - 1])
  }

  function Contexts(ps: seq<Plugin>): seq<nat> {
    seq(|ps|, i requires 0 <= i < |ps| => ps[i].ctx)
  }

  /** `parse_free` */
  function Free(r: Parser): Parser {
    Parser(map[], [], r.created, r.freed + Contexts(r.plugins))
  }

  datatype Dispatched = Rejected | Call(target: Target, param: string)

  /** Which handler a message reaches, and with what parameter; otherwise the reply is "FAIL Message is Invalid". */
  function Dispatch(table: MessageTable, message: string): Dispatched {
    match ParseRequest(message)
    case Invalid => Rejected
    case Request(prefix, param) => if prefix in table then Call(table[prefix], param) else Rejected
  }

  // ---- Who handles a prefix ----

  /** The last message of a plugin with this prefix. */
  function ListedBy(messages: seq<Listing>, prefix: string): Option<Handler> {
    if messages == [] then None
    else if messages[|messages| - 1].prefix == prefix then Some(messages[|messages| - 1].handler)
    else ListedBy(messages[..|messages| - 1], prefix)
  }

  /** The last plugin that was accepted and lists the prefix. */
  function LastToList(ps: seq<Plugin>, prefix: string): Option<Target> {
    if ps == [] then None
    else
      var p := ps[|ps| - 1];
      var h := ListedBy(p.messages, prefix);
      if p.accepts && h.Some? then Some(Target(h.value, p.ctx)) else LastToList(ps[..|ps| - 1], prefix)
  }

  function Lookup(table: MessageTable, prefix: string): Option<Target> {
    if prefix in table then Some(table[prefix]) else None
  }

  lemma {:induction false} WithMessagesLookup(table: MessageTable, p: Plugin, k: nat, prefix: string)
    requires k <= |p.messages|
    ensures var h := ListedBy(p.messages[..k], prefix);
            Lookup(WithMessages(table, p, k), prefix) ==
            if h.Some? then Some(Target(h.value, p.ctx)) else Lookup(table, prefix)
  {
    if k > 0 {
      assert p.messages[..k][..k - 1] == p.messages[..k - 1];
      WithMessagesLookup(table, p, k - 1, prefix);
    }
  }

  /** After any registrations a prefix belongs to the last accepted plugin that lists it, and to no one otherwise. */
  lemma {:induction false} LastListingWins(ps: seq<Plugin>, prefix: string)
    ensures Lookup(RegisterAll(ps).table, prefix) == LastToList(ps, prefix)
  {
    if ps != [] {
      var before, p := ps[..|ps| - 1], ps[|ps| - 1];
      LastListingWins(before, prefix);
      assert p.messages[..|p.messages|] == p.messages;
      WithMessagesLookup(RegisterAll(before).table, p, |p.messages|, prefix);
    }
  }

  // ---- Every context is freed once ----

  function Accepted(ps: seq<Plugin>): seq<Plugin> {
    if ps == [] then [] else Accepted(ps[..|ps| - 1]) + if ps[|ps| - 1].accepts then [ps[|ps| - 1]] else []
  }

  function Refused(ps: seq<Plugin>): seq<Plugin> {
    if ps == [] then [] else Refused(ps[..|ps| - 1]) + if ps[|ps| - 1].accepts then [] else [ps[|ps| - 1]]
  }

  function Reverse(ps: seq<Plugin>): seq<Plugin> {
    if ps == [] then [] else [ps[|ps| - 1]] + Reverse(ps[..|ps| - 1])
  }

  lemma ContextsConcat(ps: seq<Plugin>, qs: seq<Plugin>)
    ensures Contexts(ps + qs) == Contexts(ps) + Contexts(qs)
  {
  }

  lemma {:induction false} Registered(ps: seq<Plugin>)
    ensures var r := RegisterAll(ps);
            r.plugins == Reverse(Accepted(ps)) && r.created == Contexts(ps) && r.freed == Contexts(Refused(ps))
  {
    if ps != [] {
      var before, p := ps[..|ps| - 1], ps[|ps| - 1];
      Registered(before);
      assert ps == before + [p];
      ContextsConcat(before, [p]);
      assert Contexts([p]) == [p.ctx];
      if p.accepts {
        var a := Accepted(before);
        assert (a + [p])[..|a|] == a;
        assert Refused(before) + [] == Refused(before);
      } else {
        assert Accepted(before) + [] == Accepted(before);
        ContextsConcat(Refused(before), [p]);
      }
    }
  }

  ghost function Bag(ps: seq<Plugin>): multiset<nat> {
    multiset(Contexts(ps))
  }

  lemma BagConcat(ps: seq<Plugin>, qs: seq<Plugin>)
    ensures Bag(ps + qs) == Bag(ps) + Bag(qs)
  {
    ContextsConcat(ps, qs);
  }

  lemma {:induction false} BagReverse(ps: seq<Plugin>)
    ensures Bag(Reverse(ps)) == Bag(ps)
  {
    if ps != [] {
      hide Bag;
      var before, p := ps[..|ps| - 1], ps[|ps| - 1];
      assert ps == before + [p];
      BagReverse(before);
      BagConcat(before, [p]);
      BagConcat([p], Reverse(before));
    }
  }

  lemma {:induction false} BagSplit(ps: seq<Plugin>)
    ensures Bag(Refused(ps)) + Bag(Accepted(ps)) == Bag(ps)
  {
    if ps != [] {
      hide Bag;
      var before, p := ps[..|ps| - 1], ps[|ps| - 1];
      assert ps == before + [p];
      BagSplit(before);
      BagConcat(before, [p]);
      BagConcat(Accepted(before), [p]);
      BagConcat(Refused(before), [p]);
      assert Accepted(before) + [] == Accepted(before) && Refused(before) + [] == Refused(before);
    }
  }

  /**
   * Over every sequence of registrations and the final free: each context that a plugin made is freed exactly once, a
   * refused one at once, the others in reverse order of registration.
   */
  lemma ContextsFreedOnce(ps: seq<Plugin>)
    ensures var r := Free(RegisterAll(ps));
            && r.table == map[] && r.plugins == []
            && r.created == Contexts(ps)
            && r.freed == Contexts(Refused(ps)) + Contexts(Reverse(Accepted(ps)))
            && multiset(r.freed) == multiset(r.created)
  {
    Registered(ps);
    BagSplit(ps);
    BagReverse(Accepted(ps));
  }

  /** Refused plugins leave no trace in table and list: these are as if only the accepted ones had been registered. */
  lemma {:induction false} RefusedChangeNothing(ps: seq<Plugin>)
    ensures RegisterAll(ps).table == RegisterAll(Accepted(ps)).table
    ensures RegisterAll(ps).plugins == RegisterAll(Accepted(ps)).plugins
  {
    if ps != [] {
      var before, p := ps[..|ps| - 1], ps[|ps| - 1];
      RefusedChangeNothing(before);
      var a := Accepted(before);
      if p.accepts {
        assert (a + [p])[..|a|] == a;
      } else {
        assert a + [] == a;
      }
    }
  }

  // ---- Where a message goes ----

  /**
   * After any registrations: a message reaches a handler with a parameter if and only if, but for one line break at
   * its end, it is a line that is cut into a prefix and that parameter, and the handler is the one that the last
   * accepted plugin to list the prefix gave for it.
   */
  lemma DispatchReachesLast(ps: seq<Plugin>, message: string, target: Target, param: string)
    ensures Dispatch(RegisterAll(ps).table, message) == Call(target, param) <==>
            && LineFree(Core(message))
            && Cut(Core(message)).Request?
            && Cut(Core(message)).param == param
            && LastToList(ps, Cut(Core(message)).prefix) == Some(target)
  {
    hide Cut, Core, ParseRequest, RegisterAll, LastToList;
    ParseIsCut(message);
    if LineFree(Core(message)) && Cut(Core(message)).Request? {
      LastListingWins(ps, Cut(Core(message)).prefix);
    }
  }

  // ---- The parser object ----

  class ParseCtx {
    var messageTable: MessageTable
    var pluginList: seq<Plugin>
    ghost var created: seq<nat>
    ghost var freed: seq<nat>

    ghost function View(): Parser
      reads this
    {
      Parser(messageTable, pluginList, created, freed)
    }

    constructor ()
      ensures View() == Empty
    {
      messageTable, pluginList, created, freed := map[], [], [], [];
    }

    /** Calls a plugin's `plugin_free`. */
    ghost method PluginFree(ctx: nat)
      modifies `freed
      ensures freed == old(freed) + [ctx]
    {
      freed := freed + [ctx];
    }

    method RegisterPlugin(plugin: Plugin) returns (ok: bool)
      modifies this
      ensures View() == Register(old(View()), plugin) && ok == plugin.accepts
    {
      created := created + [plugin.ctx];
      if !plugin.accepts {
        PluginFree(plugin.ctx);
        return false;
      }
      pluginList := [plugin] + pluginList;
      var k := 0;
      while k < |plugin.messages|
        invariant 0 <= k <= |plugin.messages|
        invariant pluginList == [plugin] + old(pluginList) && created == old(created) + [plugin.ctx]
        invariant freed == old(freed) && messageTable == WithMessages(old(messageTable), plugin, k)
      {
        var msg := plugin.messages[k];
        messageTable := messageTable[msg.prefix := Target(msg.handler, plugin.ctx)];
        k := k + 1;
      }
      return true;
    }

    /** What the client formats arrives at the entry for its prefix with its parameter unchanged. */
    method ParseMessage(message: string) returns (d: Dispatched)
      ensures d == Dispatch(messageTable, message)
      ensures forall prefix, param ::
                Capitals(prefix) && param != "" && LineFree(param) && message == Format(prefix, param) ==>
                  d == if prefix in messageTable then Call(messageTable[prefix], param) else Rejected
    {
      forall prefix, param | Capitals(prefix) && param != "" && LineFree(param) && message == Format(prefix, param)
        ensures ParseRequest(message) == Request(prefix, param)
      {
        FormatParses(prefix, param);
      }
      var request := ParseRequest(message);
      if request.Invalid? || request.prefix !in messageTable {
        return Rejected;
      }
      return Call(messageTable[request.prefix], request.param);
    }

    /** Destroys the table, then frees the plugins in list order. */
    method ParseFree()
      modifies this
      ensures View() == Free(old(View()))
    {
      messageTable := map[];
      var k := 0;
      while k < |pluginList|
        invariant 0 <= k <= |pluginList| && pluginList == old(pluginList) && messageTable == map[]
        invariant created == old(created) && freed == old(freed) + Contexts(pluginList[..k])
      {
        PluginFree(pluginList[k].ctx);
        assert pluginList[..k + 1] == pluginList[..k] + [pluginList[k]];
        ContextsConcat(pluginList[..k], [pluginList[k]]);
        k := k + 1;
      }
      assert pluginList[..k] == pluginList;
      pluginList := [];
    }
  }
}
