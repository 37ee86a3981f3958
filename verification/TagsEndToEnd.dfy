/** From bus messages to the client's dictionary. */
module TagsEndToEnd {
  import opened Base64
  import opened Printer
  import opened Replies
  import opened Regex
  import opened Tags
  import opened Numbers
  import Codec

  // ---- What the messages say, by tag and index ----

  /** The value most recently given for index i of a tag. */
  function Latest(es: seq<TagEntry>, tag: string, i: nat): Option<TagValue> {
    if es == [] then None
    else
      var e := es[|es| - 1];
      if e.tag == tag && i < |e.values| then Some(e.values[i]) else Latest(es[..|es| - 1], tag, i)
  }

  lemma {:induction false} LatestConcat(es: seq<TagEntry>, fs: seq<TagEntry>, tag: string, i: nat)
    ensures Latest(es + fs, tag, i) == if Latest(fs, tag, i).Some? then Latest(fs, tag, i) else Latest(es, tag, i)
  {
    if fs == [] {
      assert es + fs == es;
    } else {
      assert (es + fs)[..|es + fs| - 1] == es + fs[..|fs| - 1];
      LatestConcat(es, fs[..|fs| - 1], tag, i);
    }
  }

  /** Entry b of list a gives a value for index i of the tag. */
  ghost predicate Gives(lists: seq<seq<TagEntry>>, a: nat, b: nat, tag: string, i: nat) {
    a < |lists| && b < |lists[a]| && lists[a][b].tag == tag && i < |lists[a][b].values|
  }

  /** And no later one does, in the same list or in a later list. */
  ghost predicate GivesLast(lists: seq<seq<TagEntry>>, a: nat, b: nat, tag: string, i: nat) {
    && Gives(lists, a, b, tag, i)
    && forall c: nat, d: nat :: Gives(lists, c, d, tag, i) ==> c < a || (c == a && d <= b)
  }

  lemma {:induction false} LatestInList(es: seq<TagEntry>, tag: string, i: nat)
    ensures Latest(es, tag, i) == None ==> forall b :: 0 <= b < |es| ==> !(es[b].tag == tag && i < |es[b].values|)
    ensures Latest(es, tag, i).Some? ==>
              exists b :: 0 <= b < |es| && es[b].tag == tag && i < |es[b].values|
                && es[b].values[i] == Latest(es, tag, i).value
                && forall d :: b < d < |es| ==> !(es[d].tag == tag && i < |es[d].values|)
  {
    if es != [] {
      LatestInList(es[..|es| - 1], tag, i);
    }
  }

  /**
   * The latest value in the lists of a row of TAG messages, by position: that of the last entry, in the last list, that
   * gives one for the tag and index; and there is none only if no entry does.
   */
  lemma {:induction false} LatestByPosition(lists: seq<seq<TagEntry>>, tag: string, i: nat)
    ensures var v := Latest(Codec.Flatten(lists), tag, i);
            && (v == None ==> forall a: nat, b: nat :: !Gives(lists, a, b, tag, i))
            && (v.Some? ==> exists a: nat, b: nat ::
                              GivesLast(lists, a, b, tag, i) && lists[a][b].values[i] == v.value)
  {
    if lists != [] {
      var l, rest := lists[0], lists[1..];
      LatestByPosition(rest, tag, i);
      LatestInList(l, tag, i);
      LatestConcat(l, Codec.Flatten(rest), tag, i);
      hide Latest;
      assert forall a: nat, b: nat :: Gives(lists, a + 1, b, tag, i) <==> Gives(rest, a, b, tag, i);
      assert forall a: nat, b: nat :: Gives(lists, a, b, tag, i) && a > 0 ==> Gives(rest, a - 1, b, tag, i);
      if Latest(Codec.Flatten(rest), tag, i).Some? {
        var a: nat, b: nat :|
          GivesLast(rest, a, b, tag, i) && rest[a][b].values[i] == Latest(Codec.Flatten(rest), tag, i).value;
        assert GivesLast(lists, a + 1, b, tag, i);
      } else if Latest(l, tag, i).Some? {
        var b :| 0 <= b < |l| && l[b].tag == tag && i < |l[b].values| && l[b].values[i] == Latest(l, tag, i).value
                 && forall d :: b < d < |l| ==> !(l[d].tag == tag && i < |l[d].values|);
        assert GivesLast(lists, 0, b, tag, i);
      }
    }
  }

  function Rendering(v: Option<TagValue>): Option<string> {
    match v case Some(x) => Some(Render(x)) case None => None
  }

  /** The table holds at every key exactly the latest value for that tag and index: merging never mixes two of them. */
  lemma {:induction false} TableHoldsLatest(es: seq<TagEntry>, tag: string, i: nat)
    ensures EntryAt(WithEntries(map[], es), Key(tag, i)) == Rendering(Latest(es, tag, i))
  {
    if es != [] {
      var e, fs := es[|es| - 1], es[..|es| - 1];
      TableHoldsLatest(fs, tag, i);
      WithValuesAt(WithEntries(map[], fs), e, |e.values|, tag, i);
    }
  }

  ghost predicate IsKey(key: string, es: seq<TagEntry>) {
    exists tag, i: nat :: key == Key(tag, i) && Latest(es, tag, i).Some?
  }

  /** And it holds nothing else. */
  lemma {:induction false} TableKeys(es: seq<TagEntry>, key: string)
    requires key in WithEntries(map[], es)
    ensures IsKey(key, es)
  {
    var e, fs := es[|es| - 1], es[..|es| - 1];
    WithValuesKeys(WithEntries(map[], fs), e, |e.values|, key);
    if i: nat :| i < |e.values| && key == Key(e.tag, i) {
      assert Latest(es, e.tag, i).Some?;
    } else {
      TableKeys(fs, key);
      var tag, i: nat :| key == Key(tag, i) && Latest(fs, tag, i).Some?;
      assert Latest(es, tag, i).Some?;
    }
  }

  // ---- The tag and index of a key ----

  ghost predicate IsKeyOf(key: string, tag: string, i: nat) {
    key == Key(tag, i)
  }

  ghost predicate HasParts(key: string) {
    exists tag, i: nat :: IsKeyOf(key, tag, i)
  }

  ghost function TagOf(key: string): string {
    if HasParts(key) then var tag, i: nat :| IsKeyOf(key, tag, i); tag else ""
  }

  ghost function IndexOf(key: string): nat {
    if HasParts(key) then var i: nat :| IsKeyOf(key, TagOf(key), i); i else 0
  }

  lemma PartsOfKey(tag: string, i: nat)
    ensures HasParts(Key(tag, i)) && TagOf(Key(tag, i)) == tag && IndexOf(Key(tag, i)) == i
  {
    hide Key;
    var key := Key(tag, i);
    assert IsKeyOf(key, tag, i);
    var j: nat :| IsKeyOf(key, TagOf(key), j);
    KeyInjective(tag, i, TagOf(key), j);
    KeyInjective(tag, i, tag, IndexOf(key));
  }

  lemma PartsAreOfKey(key: string)
    requires HasParts(key)
    ensures key == Key(TagOf(key), IndexOf(key))
  {
    hide Key;
    var tag, i: nat :| IsKeyOf(key, tag, i);
    PartsOfKey(tag, i);
  }

  // ---- What is to reach the client ----

  datatype Pair = Pair(tag: string, value: string)

  ghost predicate KeysIn(m: Printer.Table, order: seq<string>) {
    forall k :: k in order ==> k in m && HasParts(k)
  }

  /** Tag and value of each key of the table, in the order of the keys. */
  ghost function Pairs(m: Printer.Table, order: seq<string>): (ps: seq<Pair>)
    requires forall k :: k in order ==> k in m
    ensures |ps| == |order|
  {
    if order == [] then [] else [Pair(TagOf(order[0]), m[order[0]])] + Pairs(m, order[1..])
  }

  function Collected(ps: seq<Pair>, acc: Dict): Dict {
    if ps == [] then acc else Collected(ps[1..], Append(acc, ps[0].tag, ps[0].value))
  }

  /** The dictionary that holds, for each tag, the values at its keys in the order of the keys. */
  ghost function Gathered(m: Printer.Table, order: seq<string>): Dict
    requires forall k :: k in order ==> k in m
  {
    Collected(Pairs(m, order), map[])
  }

  function Get(d: Dict, tag: string): seq<string> {
    if tag in d then d[tag] else []
  }

  /** The values of one tag, in order. */
  function Select(ps: seq<Pair>, tag: string): seq<string> {
    if ps == [] then []
    else (if ps[0].tag == tag then [ps[0].value] else []) + Select(ps[1..], tag)
  }

  lemma Associative(a: seq<string>, b: seq<string>, c: seq<string>)
    ensures a + b + c == a + (b + c)
  {
  }

  lemma AppendAt(d: Dict, t: string, v: string, tag: string)
    ensures Get(Append(d, t, v), tag) == Get(d, tag) + if t == tag then [v] else []
    ensures tag in Append(d, t, v) <==> tag in d || t == tag
  {
    assert Get(d, tag) + [] == Get(d, tag);
  }

  lemma {:induction false} CollectedAt(ps: seq<Pair>, acc: Dict, tag: string)
    ensures Get(Collected(ps, acc), tag) == Get(acc, tag) + Select(ps, tag)
    ensures tag in Collected(ps, acc) <==> tag in acc || Select(ps, tag) != []
    decreases |ps|
  {
    if ps == [] {
      assert Get(acc, tag) + [] == Get(acc, tag);
    } else {
      hide Append, Get;
      var t, v := ps[0].tag, ps[0].value;
      AppendAt(acc, t, v, tag);
      CollectedAt(ps[1..], Append(acc, t, v), tag);
      Associative(Get(acc, tag), if t == tag then [v] else [], Select(ps[1..], tag));
    }
  }

  lemma GatheredAt(m: Printer.Table, order: seq<string>, tag: string)
    requires forall k :: k in order ==> k in m
    ensures Get(Gathered(m, order), tag) == Select(Pairs(m, order), tag)
    ensures tag in Gathered(m, order) <==> Select(Pairs(m, order), tag) != []
  {
    CollectedAt(Pairs(m, order), map[], tag);
    assert [] + Select(Pairs(m, order), tag) == Select(Pairs(m, order), tag);
  }

  // ---- What the client reads ----

  /** The pairs that the client takes from the lines, in order. */
  function PairsOfLines(lines: seq<string>): Option<seq<Pair>> {
    if lines == [] then Some([])
    else if KeyTag(lines[0]).None? || |lines| == 1 then None
    else
      match PairsOfLines(lines[2..])
      case None => None
      case Some(ps) => Some([Pair(KeyTag(lines[0]).value, Chomp(lines[1]))] + ps)
  }

  lemma {:induction false} FoldIsCollected(lines: seq<string>, acc: Dict)
    ensures TagDict(lines, acc) == match PairsOfLines(lines)
                                   case None => None
                                   case Some(ps) => Some(Collected(ps, acc))
    ensures PairsOfLines(lines).Some? ==> |lines| == 2 * |PairsOfLines(lines).value|
    decreases |lines|
  {
    hide KeyTag, Chomp, Append;
    if lines != [] && KeyTag(lines[0]).Some? && |lines| > 1 {
      FoldIsCollected(lines[2..], Append(acc, KeyTag(lines[0]).value, Chomp(lines[1])));
    }
  }

  lemma ReplyIsFold(m: Printer.Table, order: seq<string>)
    requires forall k :: k in order ==> k in m
    ensures ResponseToTagDict(OkReply(m, order)) == TagDict(Lines(Printed(m, order)), map[])
  {
    hide Lines, ParseResponse, TagDict;
    var p := Printed(m, order);
    BareReply(p);
    LinesOfText("OK", p);
    assert Lines(OkReply(m, order))[1..] == Lines(p);
  }

  /** The values as the client cuts them off their lines. */
  function Chomped(m: Printer.Table): Printer.Table {
    map k | k in m :: Chomp(m[k] + "\n")
  }

  ghost predicate OneLiners(m: Printer.Table, order: seq<string>) {
    forall k :: k in order ==> k in m && '\n' !in k && '\n' !in m[k]
  }

  /** Without newlines in keys and values, the client reads the table pair by pair. */
  lemma {:induction false} PairsOfPrinted(m: Printer.Table, order: seq<string>)
    requires KeysIn(m, order) && OneLiners(m, order)
    ensures PairsOfLines(Lines(Printed(m, order))) == Some(Pairs(Chomped(m), order))
    decreases |order|
  {
    if order != [] {
      hide Lines, KeyTag, Chomp, Key, HasParts, TagOf, IndexOf;
      var k, rest := order[0], order[1..];
      assert k in order && forall x :: x in rest ==> x in order;
      var tail := Printed(m, rest);
      LinesOfEntry(k, m[k], tail);
      PartsAreOfKey(k);
      assert '\n' !in TagOf(k) by { TagIsPrefix(TagOf(k), IndexOf(k)); }
      KeyTagOfKey(TagOf(k), IndexOf(k));
      var lines := Lines(Printed(m, order));
      assert lines == [k + "\n", m[k] + "\n"] + Lines(tail);
      assert lines[2..] == Lines(tail);
      PairsOfPrinted(m, rest);
    }
  }

  lemma TagIsPrefix(tag: string, i: nat)
    ensures forall c :: c in tag ==> c in Key(tag, i)
  {
  }

  lemma LinesOfEntry(k: string, v: string, tail: string)
    requires '\n' !in k && '\n' !in v
    ensures Lines(Entry(k, v) + tail) == [k + "\n", v + "\n"] + Lines(tail)
  {
    hide Lines;
    LinesOfText(v, tail);
    LinesOfText(k, v + "\n" + tail);
    assert Entry(k, v) + tail == k + "\n" + (v + "\n" + tail);
  }

  // ---- Newlines are counted ----

  function Newlines(s: string): nat {
    multiset(s)['\n']
  }

  lemma NewlinesAppend(a: string, b: string)
    ensures Newlines(a + b) == Newlines(a) + Newlines(b)
  {
    assert multiset(a + b) == multiset(a) + multiset(b);
  }

  lemma {:induction false} LinesAreCounted(s: string)
    requires s == "" || s[|s| - 1] == '\n'
    ensures |Lines(s)| == Newlines(s)
    decreases |s|
  {
    if s != "" {
      var k := LineEnd(s);
      var rest := s[k + 1..];
      assert s == s[..k] + "\n" + rest;
      NewlinesAppend(s[..k] + "\n", rest);
      NewlinesAppend(s[..k], "\n");
      LinesAreCounted(rest);
    }
  }

  /** A table prints to two newlines for every entry, and to more if a key or value holds one. */
  lemma {:induction false} NewlinesPrinted(m: Printer.Table, order: seq<string>)
    requires forall k :: k in order ==> k in m
    ensures Newlines(Printed(m, order)) >= 2 * |order|
    ensures Newlines(Printed(m, order)) == 2 * |order| ==> OneLiners(m, order)
    decreases |order|
  {
    if order != [] {
      hide Newlines, Entry, OneLiners, Printed;
      var k, rest := order[0], order[1..];
      assert k in order && forall x :: x in rest ==> x in order;
      NewlinesPrinted(m, rest);
      NewlinesOfEntry(k, m[k]);
      PrintedNext(m, order);
      assert order == [k] + rest;
      OneLinersCons(m, k, rest);
    }
  }

  lemma PrintedNext(m: Printer.Table, order: seq<string>)
    requires order != [] && forall k :: k in order ==> k in m
    ensures Newlines(Printed(m, order)) == Newlines(Entry(order[0], m[order[0]])) + Newlines(Printed(m, order[1..]))
  {
    NewlinesAppend(Entry(order[0], m[order[0]]), Printed(m, order[1..]));
  }

  lemma {:induction false} PrintedEnds(m: Printer.Table, order: seq<string>)
    requires forall k :: k in order ==> k in m
    ensures var p := Printed(m, order); p == "" || p[|p| - 1] == '\n'
  {
    if order != [] {
      PrintedEnds(m, order[1..]);
    }
  }

  lemma OneLinersCons(m: Printer.Table, k: string, rest: seq<string>)
    requires k in m
    ensures OneLiners(m, [k] + rest) <==> OneLiners(m, rest) && '\n' !in k && '\n' !in m[k]
  {
    assert k in [k] + rest && forall x :: x in [k] + rest <==> x == k || x in rest;
  }

  lemma NewlinesOfEntry(k: string, v: string)
    ensures Newlines(Entry(k, v)) >= 2
    ensures Newlines(Entry(k, v)) == 2 ==> '\n' !in k && '\n' !in v
  {
    NewlinesAppend(k + "\n" + v, "\n");
    NewlinesAppend(k + "\n", v);
    NewlinesAppend(k, "\n");
  }

  // ---- Dictionaries with the same values ----

  /** The same tags, each with the same values in any order. */
  ghost predicate SameValues(d: Dict, e: Dict) {
    forall tag :: (tag in d <==> tag in e) && multiset(Get(d, tag)) == multiset(Get(e, tag))
  }

  lemma {:induction false} SelectCounts(ps: seq<Pair>, p: Pair)
    ensures multiset(Select(ps, p.tag))[p.value] == multiset(ps)[p]
  {
    if ps != [] {
      var one := if ps[0].tag == p.tag then [ps[0].value] else [];
      SelectCounts(ps[1..], p);
      assert ps == [ps[0]] + ps[1..];
      assert multiset(one + Select(ps[1..], p.tag)) == multiset(one) + multiset(Select(ps[1..], p.tag));
    }
  }

  /** A dictionary of pairs tells how often each pair was collected. */
  lemma CollectedCounts(ps: seq<Pair>, p: Pair)
    ensures multiset(Get(Collected(ps, map[]), p.tag))[p.value] == multiset(ps)[p]
  {
    hide Select;
    CollectedAt(ps, map[], p.tag);
    SelectCounts(ps, p);
    assert [] + Select(ps, p.tag) == Select(ps, p.tag);
  }

  lemma SamePairs(ps: seq<Pair>, qs: seq<Pair>)
    requires SameValues(Collected(ps, map[]), Collected(qs, map[]))
    ensures multiset(ps) == multiset(qs)
  {
    hide Collected, Get;
    forall p: Pair
      ensures multiset(ps)[p] == multiset(qs)[p]
    {
      CollectedCounts(ps, p);
      CollectedCounts(qs, p);
    }
  }

  /** The characters of all the values. */
  function Volume(ps: seq<Pair>): nat {
    if ps == [] then 0 else |ps[0].value| + Volume(ps[1..])
  }

  lemma {:induction false} VolumeWithout(ps: seq<Pair>, j: nat)
    requires j < |ps|
    ensures Volume(ps) == |ps[j].value| + Volume(ps[..j] + ps[j + 1..])
  {
    var without := ps[..j] + ps[j + 1..];
    if j == 0 {
      assert without == ps[1..];
    } else {
      VolumeWithout(ps[1..], j - 1);
      assert without[1..] == ps[1..][..j - 1] + ps[1..][j..];
    }
  }

  lemma MultisetWithout(ps: seq<Pair>, j: nat)
    requires j < |ps|
    ensures multiset(ps[..j] + ps[j + 1..]) == multiset(ps) - multiset{ps[j]}
  {
    assert ps == ps[..j] + [ps[j]] + ps[j + 1..];
    assert multiset(ps) == multiset(ps[..j]) + multiset{ps[j]} + multiset(ps[j + 1..]);
  }

  lemma SameWithout(ps: seq<Pair>, qs: seq<Pair>) returns (j: nat)
    requires ps != [] && multiset(ps) == multiset(qs)
    ensures j < |qs| && qs[j] == ps[0]
    ensures multiset(ps[1..]) == multiset(qs[..j] + qs[j + 1..])
  {
    assert ps[0] in multiset(ps);
    j :| 0 <= j < |qs| && qs[j] == ps[0];
    MultisetWithout(qs, j);
    MultisetRest(ps);
  }

  lemma MultisetRest(ps: seq<Pair>)
    requires ps != []
    ensures multiset(ps[1..]) == multiset(ps) - multiset{ps[0]}
  {
    assert ps == [ps[0]] + ps[1..];
  }

  lemma {:induction false} SameVolume(ps: seq<Pair>, qs: seq<Pair>)
    requires multiset(ps) == multiset(qs)
    ensures Volume(ps) == Volume(qs)
  {
    assert |multiset(ps)| == |ps| && |multiset(qs)| == |qs|;
    if ps != [] {
      var j := SameWithout(ps, qs);
      VolumeWithout(qs, j);
      SameVolume(ps[1..], qs[..j] + qs[j + 1..]);
    }
  }

  // ---- The exact condition on keys and values ----

  predicate Clean(text: string) {
    '\n' !in text && (text == "" || text[|text| - 1] != '\r')
  }

  ghost predicate AllClean(m: Printer.Table, order: seq<string>) {
    forall k :: k in order ==> k in m && '\n' !in k && Clean(m[k])
  }

  /** Chomping a line of one value gives the value back exactly if that is clean, and something shorter if not. */
  lemma ChompOfLine(v: string)
    requires '\n' !in v
    ensures if Clean(v) then Chomp(v + "\n") == v else |Chomp(v + "\n")| < |v|
  {
    var s := v + "\n";
    if Clean(v) {
      ChompLine(v);
    } else {
      assert s[|s| - 2..] == "\r\n";
    }
  }

  lemma {:induction false} ChompedPairs(m: Printer.Table, order: seq<string>)
    requires OneLiners(m, order)
    ensures AllClean(m, order) ==> Pairs(Chomped(m), order) == Pairs(m, order)
    ensures Volume(Pairs(Chomped(m), order)) <= Volume(Pairs(m, order))
    ensures Volume(Pairs(Chomped(m), order)) == Volume(Pairs(m, order)) ==> AllClean(m, order)
    decreases |order|
  {
    if order != [] {
      hide Chomp, Clean, TagOf;
      var k, rest := order[0], order[1..];
      assert order == [k] + rest;
      ChompOfLine(m[k]);
      assert Clean(m[k]) ==> '\n' !in m[k];
      ChompedPairs(m, rest);
      assert Pairs(m, order)[1..] == Pairs(m, rest);
      assert Pairs(Chomped(m), order)[1..] == Pairs(Chomped(m), rest);
    }
  }

  /**
   * A table reaches the client if and only if no key or value holds a newline and no value ends in a carriage return.
   * The client then has the values of each tag in the order in which the table was visited; otherwise it does not have
   * them in any order.
   */
  lemma TableComesBack(m: Printer.Table, order: seq<string>)
    requires KeysIn(m, order)
    ensures var d := ResponseToTagDict(OkReply(m, order));
            && (AllClean(m, order) <==> d.Some? && SameValues(d.value, Gathered(m, order)))
            && (AllClean(m, order) ==> d == Some(Gathered(m, order)))
  {
    hide Lines, TagOf, HasParts, ResponseToTagDict, OkReply, TagDict, PairsOfLines, Clean, Newlines, Printed;
    var lines := Lines(Printed(m, order));
    ReplyIsFold(m, order);
    FoldIsCollected(lines, map[]);
    if AllClean(m, order) {
      assert OneLiners(m, order) by { CleanIsOneLine(m, order); }
      PairsOfPrinted(m, order);
      ChompedPairs(m, order);
    }
    var d := ResponseToTagDict(OkReply(m, order));
    if d.Some? && SameValues(d.value, Gathered(m, order)) {
      var ps := PairsOfLines(lines).value;
      SamePairs(ps, Pairs(m, order));
      assert |multiset(ps)| == |ps| == |order|;
      NewlinesPrinted(m, order);
      PrintedEnds(m, order);
      LinesAreCounted(Printed(m, order));
      PairsOfPrinted(m, order);
      SameVolume(ps, Pairs(m, order));
      ChompedPairs(m, order);
    }
  }

  lemma CleanIsOneLine(m: Printer.Table, order: seq<string>)
    requires AllClean(m, order)
    ensures OneLiners(m, order)
  {
  }

  lemma CollectedOne(p: Pair)
    ensures Collected([p], map[]) == map[p.tag := [p.value]]
  {
    assert [p][1..] == [] && [] + [p.value] == [p.value];
    assert Collected([p], map[]) == Collected([], Append(map[], p.tag, p.value));
  }

  /** In particular, a single value comes back as it was if and only if it is clean. */
  lemma SingleValueComesBack(tag: string, v: string)
    requires '\n' !in tag
    ensures var k := Key(tag, 0);
            ResponseToTagDict(OkReply(map[k := v], [k])) == Some(map[tag := [v]]) <==> Clean(v)
  {
    hide Key, ResponseToTagDict, OkReply, Clean, HasParts, TagOf;
    var k := Key(tag, 0);
    var m := map[k := v];
    PartsOfKey(tag, 0);
    KeyIsLine(tag, 0);
    TableComesBack(m, [k]);
    assert [k][1..] == [] && Pairs(m, [k]) == [Pair(tag, v)];
    CollectedOne(Pair(tag, v));
  }

  // ---- The indices of one tag ----

  /** The indices whose keys the table is visited at, in order. */
  ghost function Indices(order: seq<string>, tag: string): seq<nat> {
    if order == [] then []
    else (if TagOf(order[0]) == tag then [IndexOf(order[0])] else []) + Indices(order[1..], tag)
  }

  ghost predicate KeysOf(order: seq<string>, es: seq<TagEntry>) {
    forall k :: k in order ==> IsKey(k, es)
  }

  lemma KeyParts(k: string, es: seq<TagEntry>)
    requires IsKey(k, es)
    ensures HasParts(k) && k == Key(TagOf(k), IndexOf(k)) && Latest(es, TagOf(k), IndexOf(k)).Some?
  {
    hide Key;
    var tag, i: nat :| k == Key(tag, i) && Latest(es, tag, i).Some?;
    PartsOfKey(tag, i);
  }

  lemma SelectNext(m: Printer.Table, order: seq<string>, tag: string)
    requires order != [] && forall k :: k in order ==> k in m
    ensures var one := if TagOf(order[0]) == tag then [m[order[0]]] else [];
            Select(Pairs(m, order), tag) == one + Select(Pairs(m, order[1..]), tag)
  {
    assert Pairs(m, order)[1..] == Pairs(m, order[1..]);
  }

  /** They are the indices that the tag has a value for, each one once; and the values selected are those values. */
  lemma {:induction false} IndicesAreIndices(m: Printer.Table, order: seq<string>, es: seq<TagEntry>, tag: string)
    requires KeysOf(order, es)
    requires m == WithEntries(map[], es) && forall k :: k in order ==> k in m
    requires forall i, j :: 0 <= i < j < |order| ==> order[i] != order[j]
    ensures forall i: nat :: i in Indices(order, tag) <==> Key(tag, i) in order
    ensures var idx, values := Indices(order, tag), Select(Pairs(m, order), tag);
            && (forall a, b :: 0 <= a < b < |idx| ==> idx[a] != idx[b])
            && |values| == |idx|
            && forall a :: 0 <= a < |idx| ==> Rendering(Latest(es, tag, idx[a])) == Some(values[a])
    decreases |order|
  {
    hide Key, TagOf, IndexOf, IsKey, Latest, Select, Pairs, HasParts;
    if order == [] {
      NothingSelected(m, tag);
    } else {
      var k, rest := order[0], order[1..];
      assert k in order && forall x :: x in rest ==> x in order;
      assert order == [k] + rest;
      IndicesAreIndices(m, rest, es, tag);
      KeyParts(k, es);
      SelectNext(m, order, tag);
      assert k !in rest;
      var i := IndexOf(k);
      if TagOf(k) == tag {
        TableHoldsLatest(es, tag, i);
        forall j: nat
          ensures Key(tag, j) == k <==> j == i
        {
          PartsOfKey(tag, j);
        }
      } else {
        forall j: nat
          ensures Key(tag, j) != k
        {
          PartsOfKey(tag, j);
        }
      }
    }
  }

  lemma NothingSelected(m: Printer.Table, tag: string)
    ensures Select(Pairs(m, []), tag) == []
  {
  }

  // ---- End to end ----

  /** No tag and no text among the latest values holds a newline, and no such text ends in a carriage return. */
  ghost predicate CleanLatest(es: seq<TagEntry>) {
    forall tag, i: nat :: Latest(es, tag, i).Some? ==>
      '\n' !in tag && (Latest(es, tag, i).value.Rendered? ==> Clean(Latest(es, tag, i).value.text))
  }

  lemma EncodingIsClean(d: seq<byte>)
    ensures Clean(Encode(d, BASE64_TABLE))
  {
    Codec.TableIsRfc();
    var s := Encode(d, BASE64_TABLE);
    forall i | 0 <= i < |s|
      ensures InTable(s[i])
    {
      assert s[i] == EncodedChar(d, BASE64_TABLE, i);
    }
  }

  /** Rendered buffers, numbers and truth values are always clean, so only texts and tags can fail to be. */
  lemma RenderedIsClean(v: TagValue)
    ensures Clean(Render(v)) <==> (v.Rendered? ==> Clean(v.text))
  {
    hide Base64.Encode, Decimal;
    if v.Buffer? {
      EncodingIsClean(v.data);
    } else if v.Uint? {
      DigitsAreClean(Decimal(v.number), v.number);
    } else if v.Uint64? {
      DigitsAreClean(Decimal(v.wide), v.wide);
    }
  }

  lemma DigitsAreClean(s: string, n: nat)
    requires s == Decimal(n)
    ensures Clean(s) && Clean(s + "64")
  {
    hide Decimal;
    ValueOfDecimal(n);
    assert forall c :: c in s ==> Digit.Has(c);
  }

  /** A 64-bit number does not come back: the text that stands for it is that of another number. */
  lemma WideNumberIsOther(n: nat)
    ensures var s := Render(Uint64(n)); AllDigits(s) && Value(s) == 100 * n + 64
  {
    hide Decimal;
    ValueOfDecimal(n);
    var d := Decimal(n);
    var s := d + "64";
    assert s[..|s| - 1] == d + "6" && (d + "6")[..|d|] == d;
    assert Value(d + "6") == 10 * n + 6;
  }

  lemma OrderIsClean(m: Printer.Table, order: seq<string>, es: seq<TagEntry>)
    requires m == WithEntries(map[], es) && IsOrder(order, m)
    ensures KeysOf(order, es) && KeysIn(m, order)
    ensures AllClean(m, order) <==> CleanLatest(es)
  {
    hide Clean, Key, IsKey, Latest, HasParts, TagOf, IndexOf, WithEntries, Render;
    forall k | k in order
      ensures IsKey(k, es) && HasParts(k) && (CleanLatest(es) ==> '\n' !in k && Clean(m[k]))
    {
      TableKeys(es, k);
      KeyParts(k, es);
      TableHoldsLatest(es, TagOf(k), IndexOf(k));
      RenderedIsClean(Latest(es, TagOf(k), IndexOf(k)).value);
      if CleanLatest(es) {
        KeyIsLine(TagOf(k), IndexOf(k));
      }
    }
    if AllClean(m, order) {
      forall tag, i: nat | Latest(es, tag, i).Some?
        ensures '\n' !in tag && (Latest(es, tag, i).value.Rendered? ==> Clean(Latest(es, tag, i).value.text))
      {
        TableHoldsLatest(es, tag, i);
        RenderedIsClean(Latest(es, tag, i).value);
        TagIsPrefix(tag, i);
        assert Key(tag, i) in order;
      }
    }
  }

  /** The client's list for a tag shows the latest values at these indices. */
  ghost predicate Lists(values: seq<string>, idx: seq<nat>, es: seq<TagEntry>, tag: string) {
    && |values| == |idx|
    && (forall a, b :: 0 <= a < b < |idx| ==> idx[a] != idx[b])
    && (forall i: nat :: i in idx <==> Latest(es, tag, i).Some?)
    && forall a :: 0 <= a < |idx| ==>
         Latest(es, tag, idx[a]).Some? && Shows(values[a], Latest(es, tag, idx[a]).value)
  }

  /**
   * What is to reach the client: whatever the order in which the table is visited, exactly the tags that were given a
   * value, each with the latest value of every one of its indices, once.
   */
  lemma GatheredIsLatest(es: seq<TagEntry>, order: seq<string>, tag: string)
    requires IsOrder(order, WithEntries(map[], es))
    ensures var d := Gathered(WithEntries(map[], es), order);
            && (tag in d <==> exists i: nat :: Latest(es, tag, i).Some?)
            && (tag in d ==> Lists(d[tag], Indices(order, tag), es, tag))
  {
    hide Latest, Key, Select, Indices, Gathered, Lists, WithEntries, Pairs;
    var m := WithEntries(map[], es);
    OrderIsClean(m, order, es);
    GatheredAt(m, order, tag);
    SelectedValues(m, order, es, tag);
  }

  lemma SelectedValues(m: Printer.Table, order: seq<string>, es: seq<TagEntry>, tag: string)
    requires m == WithEntries(map[], es) && IsOrder(order, m) && KeysOf(order, es)
    ensures var values, idx := Select(Pairs(m, order), tag), Indices(order, tag);
            && Lists(values, idx, es, tag)
            && (forall i: nat :: Latest(es, tag, i).Some? ==> values != [])
            && (values != [] ==> idx != [] && Latest(es, tag, idx[0]).Some?)
  {
    hide Latest, Key, Select, Indices, Shows, Render, WithEntries, Pairs, IsKey;
    IndicesAreIndices(m, order, es, tag);
    var idx, values := Indices(order, tag), Select(Pairs(m, order), tag);
    forall i: nat
      ensures i in idx <==> Latest(es, tag, i).Some?
    {
      TableHoldsLatest(es, tag, i);
    }
    forall a | 0 <= a < |idx|
      ensures Latest(es, tag, idx[a]).Some? && Shows(values[a], Latest(es, tag, idx[a]).value)
    {
      assert Rendering(Latest(es, tag, idx[a])) == Some(values[a]);
      RenderShows(Latest(es, tag, idx[a]).value);
    }
    assert forall i: nat :: i in idx ==> |idx| > 0;
    assert idx != [] ==> idx[0] in idx;
  }

  /**
   * TAGS end to end, for all messages and every order in which the table may be visited: the client gets exactly the
   * latest values if and only if no tag and no such value holds a newline and no such value ends in a carriage return.
   * Otherwise it does not get them in any order.
   */
  lemma TagsReachTheClient(messages: seq<Message>, order: seq<string>)
    requires IsOrder(order, WithEntries(map[], Entries(messages)))
    ensures var es := Entries(messages);
            var m := WithEntries(map[], es);
            var d := ResponseToTagDict(OkReply(m, order));
            && (CleanLatest(es) <==> d.Some? && SameValues(d.value, Gathered(m, order)))
            && (CleanLatest(es) ==> d == Some(Gathered(m, order)))
  {
    hide Gathered, WithEntries, OkReply, ResponseToTagDict, CleanLatest, SameValues, AllClean;
    var es := Entries(messages);
    var m := WithEntries(map[], es);
    OrderIsClean(m, order, es);
    TableComesBack(m, order);
  }

  /** An error before any tag is raised in the client, with the first line of its text. */
  lemma FailReachesTheClient(text: string, rest: string)
    requires '\n' !in text && (rest == "" || rest[0] == '\n')
    ensures ParseResponse("FAIL " + (text + rest)) == Thrown(text)
  {
    hide ParseResponse;
    FormattedReply("FAIL", text, rest);
    assert "FAIL" + " " + text + rest == "FAIL " + (text + rest);
    assert ByStatus("FAIL", text) == Thrown(text);
  }

  lemma OkReplyText(m: Printer.Table, order: seq<string>)
    requires forall k :: k in order ==> k in m
    ensures OkReply(m, order) == "OK\n" + Printed(m, order)
  {
    assert "OK" + "\n" == "OK\n";
  }

  /**
   * A whole TAGS request, for any TAG messages and whatever comes behind them: the client raises the first line of the
   * error's text if an error comes and no list holds a value; otherwise it gets the latest values of all the lists
   * together exactly if they are clean.
   */
  lemma TagsRequest(messages: seq<Message>, lists: seq<seq<TagEntry>>, last: Message, walk: Walk)
    requires Collects(messages, lists, last) && Walks(walk)
    ensures exists m :: m in messages && !m.Tag?
    ensures var es, reply := Codec.Flatten(lists), TagsReply(messages, walk);
            var m := WithEntries(map[], es);
            var d := ResponseToTagDict(reply);
            if last.Error? && NoValues(lists)
            then ParseResponse(reply) == Thrown(last.text[..LineEnd(last.text)]) && d == None
            else && (CleanLatest(es) <==> d.Some? && SameValues(d.value, Gathered(m, walk(m))))
                 && (CleanLatest(es) ==> d == Some(Gathered(m, walk(m))))
  {
    hide Gathered, WithEntries, TagsReply, ParseResponse, CleanLatest, SameValues, NoValues, Collects, TagDict, Lines;
    ReplyToLists(messages, lists, last, walk);
    AllListsCollected(messages, lists, last);
    if last.Error? && NoValues(lists) {
      var k := LineEnd(last.text);
      assert last.text == last.text[..k] + last.text[k..];
      FailReachesTheClient(last.text[..k], last.text[k..]);
    } else {
      hide ResponseToTagDict, OkReply, Printed;
      var m := WithEntries(map[], Codec.Flatten(lists));
      assert IsOrder(walk(m), m);
      OkReplyText(m, walk(m));
      TagsReachTheClient(messages, walk(m));
    }
  }
}
