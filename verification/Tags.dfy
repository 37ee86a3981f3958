/** The tag renderer, the TAGS request, and what the client makes of its reply (src/gst-util.c, src/operations/play.c). */
module Tags {
  import opened Base64
  import opened Printer
  import opened Replies
  import opened Regex
  import opened Uuencode
  import opened Numbers
  import Codec

  /** A tag value; `Rendered` is a string, or a floating-point number or a date in the text it is rendered to. */
  datatype TagValue =
    | Rendered(text: string)
    | Uint(number: guint)
    | Uint64(wide: nat)
    | Boolean(flag: bool)
    | Buffer(data: seq<byte>)

  /** The values a tag list holds for one tag. */
  datatype TagEntry = TagEntry(tag: string, values: seq<TagValue>)

  /** The bus messages that TAGS waits for. */
  datatype Message = Tag(list: seq<TagEntry>) | AsyncDone | Error(text: string)

  function Render(v: TagValue): string {
    match v
    case Rendered(t) => t
    case Uint(n) => Decimal(n)
    case Uint64(n) => Decimal(n) + "64"
    case Boolean(b) => if b then "true" else "false"
    case Buffer(d) => Encode(d, BASE64_TABLE)
  }

  /** The text that stands for a value, kind by kind. */
  ghost predicate Shows(text: string, v: TagValue) {
    && (v.Rendered? ==> text == v.text)
    && (v.Uint? ==> text == Decimal(v.number))
    && (v.Uint64? ==> text == Decimal(v.wide) + "64")
    && (v.Boolean? ==> text == if v.flag then "true" else "false")
    && (v.Buffer? ==> text == Encode(v.data, BASE64_TABLE))
    && (v.Buffer? ==> DecodedBytes(text) == v.data && DecodedTail(text) == "")
  }

  predicate Encodable(e: TagEntry) {
    forall v :: v in e.values && v.Buffer? ==> |v.data| <= MAX_SOURCE
  }

  // ---- The table ----

  class StringTable {
    var table: Printer.Table

    constructor ()
      ensures table == map[]
    {
      table := map[];
    }

    /** `g_hash_table_insert`: replaces the value of a key that is there already. */
    method Insert(key: string, value: string)
      modifies this
      ensures table == old(table)[key := value]
    {
      table := table[key := value];
    }
  }

  /** The table after the first n values of an entry have been inserted. */
  function WithValues(m: Printer.Table, e: TagEntry, n: nat): Printer.Table
    requires n <= |e.values|
  {
    if n == 0 then m else WithValues(m, e, n - 1)[Key(e.tag, n - 1) := Render(e.values[n - 1])]
  }

  function WithEntries(m: Printer.Table, es: seq<TagEntry>): Printer.Table {
    if es == [] then m
    else
      var e := es[|es| - 1];
      WithValues(WithEntries(m, es[..|es| - 1]), e, |e.values|)
  }

  function EntryAt(m: Printer.Table, key: string): Option<string> {
    if key in m then Some(m[key]) else None
  }

  lemma {:induction false} WithValuesAt(m: Printer.Table, e: TagEntry, n: nat, tag: string, i: nat)
    requires n <= |e.values|
    ensures EntryAt(WithValues(m, e, n), Key(tag, i)) ==
            if e.tag == tag && i < n then Some(Render(e.values[i])) else EntryAt(m, Key(tag, i))
  {
    if n > 0 {
      hide Key, Render;
      WithValuesAt(m, e, n - 1, tag, i);
      if Key(tag, i) == Key(e.tag, n - 1) {
        KeyInjective(tag, i, e.tag, n - 1);
      }
    }
  }

  lemma {:induction false} WithValuesKeys(m: Printer.Table, e: TagEntry, n: nat, key: string)
    requires n <= |e.values| && key in WithValues(m, e, n)
    ensures key in m || exists i: nat :: i < n && key == Key(e.tag, i)
  {
    if n > 0 && key != Key(e.tag, n - 1) {
      WithValuesKeys(m, e, n - 1, key);
    }
  }

  /** The messages are TAG messages with these lists, a last one that is none, and perhaps others behind it. */
  ghost predicate Collects(messages: seq<Message>, lists: seq<seq<TagEntry>>, last: Message) {
    && |lists| < |messages|
    && (forall a :: 0 <= a < |lists| ==> messages[a] == Tag(lists[a]))
    && messages[|lists|] == last && !last.Tag?
  }

  ghost predicate NoValues(lists: seq<seq<TagEntry>>) {
    forall a, b :: 0 <= a < |lists| && 0 <= b < |lists[a]| ==> lists[a][b].values == []
  }

  /** The entries of the TAG messages up to the first other message, in order. */
  function Entries(messages: seq<Message>): seq<TagEntry> {
    if messages == [] || !messages[0].Tag? then [] else messages[0].list + Entries(messages[1..])
  }

  /** The message that ends the collecting. */
  function Last(messages: seq<Message>): Message
    requires exists m :: m in messages && !m.Tag?
  {
    if messages[0].Tag? then Last(messages[1..]) else messages[0]
  }

  /** All the lists of the TAG messages are collected, one after the other, and the other message ends that. */
  lemma {:induction false} AllListsCollected(messages: seq<Message>, lists: seq<seq<TagEntry>>, last: Message)
    requires Collects(messages, lists, last)
    ensures (exists m :: m in messages && !m.Tag?) && Last(messages) == last
    ensures Entries(messages) == Codec.Flatten(lists)
  {
    assert messages[|lists|] in messages;
    if lists != [] {
      assert messages[0] == Tag(lists[0]);
      AllListsCollected(messages[1..], lists[1..], last);
    }
  }

  lemma {:induction false} ValueIsInTable(m: Printer.Table, e: TagEntry, n: nat)
    requires n <= |e.values|
    ensures m != map[] || n > 0 ==> WithValues(m, e, n) != map[]
    ensures n == 0 ==> WithValues(m, e, n) == m
  {
    if n > 0 {
      assert Key(e.tag, n - 1) in WithValues(m, e, n);
    }
  }

  /** The table is empty only if no value was collected. */
  lemma {:induction false} EmptyTable(es: seq<TagEntry>)
    ensures WithEntries(map[], es) == map[] <==> forall b :: 0 <= b < |es| ==> es[b].values == []
  {
    if es != [] {
      var e, fs := es[|es| - 1], es[..|es| - 1];
      EmptyTable(fs);
      ValueIsInTable(WithEntries(map[], fs), e, |e.values|);
    }
  }

  lemma {:induction false} NoValuesInLists(lists: seq<seq<TagEntry>>)
    ensures NoValues(lists) <==> forall e :: e in Codec.Flatten(lists) ==> e.values == []
  {
    if lists != [] {
      NoValuesInLists(lists[1..]);
      assert forall a :: 0 <= a < |lists| - 1 ==> lists[1..][a] == lists[a + 1];
      assert Codec.Flatten(lists) == lists[0] + Codec.Flatten(lists[1..]);
      assert NoValues(lists) <==> NoValues(lists[1..]) && forall b :: 0 <= b < |lists[0]| ==> lists[0][b].values == [];
    }
  }

  lemma EmptyForLists(lists: seq<seq<TagEntry>>)
    ensures WithEntries(map[], Codec.Flatten(lists)) == map[] <==> NoValues(lists)
  {
    EmptyTable(Codec.Flatten(lists));
    NoValuesInLists(lists);
  }

  lemma {:induction false} WithEntriesConcat(m: Printer.Table, es: seq<TagEntry>, fs: seq<TagEntry>)
    ensures WithEntries(m, es + fs) == WithEntries(WithEntries(m, es), fs)
  {
    if fs == [] {
      assert es + fs == es;
    } else {
      assert (es + fs)[..|es + fs| - 1] == es + fs[..|fs| - 1];
      WithEntriesConcat(m, es, fs[..|fs| - 1]);
    }
  }

  /** Renders a buffer into a fresh block of exactly its encoded length and a NUL. */
  method RenderBuffer(data: seq<byte>) returns (text: string)
    requires |data| <= MAX_SOURCE
    ensures text == Encode(data, BASE64_TABLE)
  {
    var size := UuencodeGetLength(|data| as int32);
    var value := new char[size as int + 1](_ => '\0');
    Uuencode.Uuencode(value, 0, data, |data| as int32, BASE64_TABLE);
    assert data[..|data|] == data;
    text := value[..size as int];
    assert value[0..0 + size as int] == text;
  }

  lemma RenderShows(v: TagValue)
    ensures Shows(Render(v), v)
  {
    hide Base64.Encode, Base64.DecodedBytes, Base64.DecodedTail, Decimal;
    if v.Buffer? {
      Codec.RoundTrip(v.data);
    }
  }

  ghost predicate ShownAt(m: Printer.Table, key: string, v: TagValue) {
    key in m && Shows(m[key], v)
  }

  lemma EntryInserted(m: Printer.Table, e: TagEntry)
    ensures var t := WithValues(m, e, |e.values|);
            && (forall i :: 0 <= i < |e.values| ==> ShownAt(t, e.tag + "_" + Decimal(i), e.values[i]))
            && (forall key :: (forall i: nat :: i < |e.values| ==> key != Key(e.tag, i)) ==> EntryAt(t, key) == EntryAt(m, key))
  {
    hide Render, Shows;
    forall i | 0 <= i < |e.values|
      ensures ShownAt(WithValues(m, e, |e.values|), e.tag + "_" + Decimal(i), e.values[i])
    {
      WithValuesAt(m, e, |e.values|, e.tag, i);
      RenderShows(e.values[i]);
    }
    forall key | forall i: nat :: i < |e.values| ==> key != Key(e.tag, i)
      ensures EntryAt(WithValues(m, e, |e.values|), key) == EntryAt(m, key)
    {
      OtherKey(m, e, |e.values|, key);
    }
  }

  lemma {:induction false} OtherKey(m: Printer.Table, e: TagEntry, n: nat, key: string)
    requires n <= |e.values| && forall i: nat :: i < n ==> key != Key(e.tag, i)
    ensures EntryAt(WithValues(m, e, n), key) == EntryAt(m, key)
  {
    if n > 0 {
      OtherKey(m, e, n - 1, key);
    }
  }

  /** `tag_to_hash_table` */
  method TagToHashTable(e: TagEntry, ret: StringTable)
    requires Encodable(e)
    modifies ret
    ensures ret.table == WithValues(old(ret.table), e, |e.values|)
    ensures forall i :: 0 <= i < |e.values| ==> ShownAt(ret.table, e.tag + "_" + Decimal(i), e.values[i])
    ensures forall key :: (forall i: nat :: i < |e.values| ==> key != Key(e.tag, i)) ==>
              EntryAt(ret.table, key) == EntryAt(old(ret.table), key)
  {
    EntryInserted(ret.table, e);
    for i := 0 to |e.values|
      invariant ret.table == WithValues(old(ret.table), e, i)
    {
      var value: string;
      match e.values[i] {
        case Rendered(t) => value := t;
        case Uint(n) => value := Decimal(n);
        case Uint64(n) => value := Decimal(n) + "64";
        case Boolean(b) => value := if b then "true" else "false";
        case Buffer(d) => value := RenderBuffer(d);
      }
      ret.Insert(Key(e.tag, i), value);
    }
  }

  /** `gsu_tags_to_hash_table` */
  method TagsToHashTable(list: seq<TagEntry>, table: StringTable)
    requires forall e :: e in list ==> Encodable(e)
    modifies table
    ensures table.table == WithEntries(old(table.table), list)
  {
    for i := 0 to |list|
      invariant table.table == WithEntries(old(table.table), list[..i])
    {
      assert list[..i + 1][..i] == list[..i];
      TagToHashTable(list[i], table);
    }
    assert list[..|list|] == list;
  }

  // ---- The reply ----

  type Walk = Printer.Table -> seq<string>

  ghost predicate Walks(walk: Walk) {
    forall m :: IsOrder(walk(m), m)
  }

  function OkReply(m: Printer.Table, order: seq<string>): string
    requires forall k :: k in order ==> k in m
  {
    "OK" + "\n" + Printed(m, order)
  }

  /** The reply to TAGS when these messages come on the bus. */
  ghost function TagsReply(messages: seq<Message>, walk: Walk): string
    requires (exists m :: m in messages && !m.Tag?) && Walks(walk)
  {
    var m := WithEntries(map[], Entries(messages));
    if Last(messages).Error? && m == map[] then "FAIL " + Last(messages).text else OkReply(m, walk(m))
  }

  /**
   * After TAG messages with any lists, the reply is OK with the table of all the lists together, whatever the next
   * message is, unless that is an error and no list holds a value. Then it is FAIL with the text of the error.
   */
  lemma ReplyToLists(messages: seq<Message>, lists: seq<seq<TagEntry>>, last: Message, walk: Walk)
    requires Collects(messages, lists, last) && Walks(walk)
    ensures exists m :: m in messages && !m.Tag?
    ensures var m := WithEntries(map[], Codec.Flatten(lists));
            TagsReply(messages, walk) == if last.Error? && NoValues(lists) then "FAIL " + last.text
                                         else "OK\n" + Printed(m, walk(m))
  {
    hide NoValues, Collects, WithEntries, Entries, Last;
    AllListsCollected(messages, lists, last);
    EmptyForLists(lists);
  }

  ghost predicate AllEncodable(messages: seq<Message>) {
    forall e :: e in Entries(messages) ==> Encodable(e)
  }

  /**
   * The collecting loop of `op_tags_parse` and its reply; `walk` is the order in which glib visits a table.
   */
  method TagsParse(messages: seq<Message>, walk: Walk) returns (reply: string)
    requires (exists m :: m in messages && !m.Tag?) && AllEncodable(messages)
    requires Walks(walk)
    requires var m := WithEntries(map[], Entries(messages));
             |Printed(m, walk(m))| + 4 < 0x8000_0000
    ensures reply == TagsReply(messages, walk)
  {
    var tags := new StringTable();
    var fail: Option<string> := None;
    var i := 0;
    assert messages[0..] == messages;
    while true
      invariant 0 <= i < |messages|
      invariant exists m :: m in messages[i..] && !m.Tag?
      invariant Last(messages[i..]) == Last(messages)
      invariant WithEntries(tags.table, Entries(messages[i..])) == WithEntries(map[], Entries(messages))
      invariant AllEncodable(messages[i..])
      decreases |messages| - i
    {
      var msg := messages[i];
      if msg.Error? {
        fail := Some("FAIL " + msg.text);
        break;
      }
      if !msg.Tag? {
        break;
      }
      ghost var rest := messages[i + 1..];
      assert messages[i..][1..] == rest;
      assert forall e :: e in Entries(rest) ==> e in Entries(messages[i..]);
      WithEntriesConcat(tags.table, msg.list, Entries(rest));
      TagsToHashTable(msg.list, tags);
      i := i + 1;
    }
    ghost var m := WithEntries(map[], Entries(messages));
    assert tags.table == m && messages[i] == Last(messages);
    if fail.None? || |tags.table| > 0 {
      var data := HashTableAsString(tags.table, walk(tags.table));
      assert data[..data.Length - 4] == Printed(m, walk(m));
      reply := "OK" + "\n" + data[..data.Length - 4];
    } else {
      reply := fail.value;
    }
  }
}
