/** The two-pass printer of a string table (src/utility.c). */
module Printer {

  type Table = map<string, string>

  /** An order in which `g_hash_table_foreach` may visit the table: every key once. */
  ghost predicate IsOrder(order: seq<string>, table: Table) {
    && (forall i, j :: 0 <= i < j < |order| ==> order[i] != order[j])
    && (forall k :: k in order <==> k in table)
  }

  function Entry(key: string, value: string): string {
    key + "\n" + value + "\n"
  }

  /** The table as text, entry by entry. */
  function Printed(table: Table, order: seq<string>): string
    requires forall k :: k in order ==> k in table
  {
    if order == [] then "" else Entry(order[0], table[order[0]]) + Printed(table, order[1..])
  }

  /** The size of the first k entries together. */
  function SizeOf(table: Table, order: seq<string>, k: nat): nat
    requires k <= |order| && forall x :: x in order ==> x in table
  {
    if k == 0 then 0 else SizeOf(table, order, k - 1) + |order[k - 1]| + |table[order[k - 1]]| + 2
  }

  lemma {:induction false} PrintedAppend(table: Table, order: seq<string>, key: string)
    requires key in table && forall k :: k in order ==> k in table
    ensures Printed(table, order + [key]) == Printed(table, order) + Entry(key, table[key])
  {
    if order == [] {
      assert [key][1..] == [];
    } else {
      PrintedAppend(table, order[1..], key);
      assert (order + [key])[1..] == order[1..] + [key];
    }
  }

  lemma {:induction false} PrintedSize(table: Table, order: seq<string>, k: nat)
    requires k <= |order| && forall x :: x in order ==> x in table
    ensures |Printed(table, order[..k])| == SizeOf(table, order, k)
  {
    if k > 0 {
      PrintedSize(table, order, k - 1);
      PrintedAppend(table, order[..k - 1], order[k - 1]);
      assert order[..k] == order[..k - 1] + [order[k - 1]];
    }
  }

  lemma {:induction false} SizeMonotonic(table: Table, order: seq<string>, k: nat, n: nat)
    requires k <= n <= |order| && forall x :: x in order ==> x in table
    ensures SizeOf(table, order, k) <= SizeOf(table, order, n)
    decreases n - k
  {
    if k < n {
      SizeMonotonic(table, order, k, n - 1);
    }
  }

  /** `hash_foreach_calc_length` */
  method CalcLength(key: string, value: string, len: nat) returns (sum: nat)
    ensures sum == len + |Entry(key, value)|
  {
    sum := len + |key| + |value| + 2;
  }

  /** `sprintf` of a finished text: its characters, then a NUL that is not counted. */
  method Sprintf(buf: array<char>, at: nat, text: string) returns (n: nat)
    requires at + |text| < buf.Length
    modifies buf
    ensures n == |text|
    ensures buf[at..at + n] == text && buf[at + n] == '\0'
    ensures forall k :: 0 <= k < buf.Length && !(at <= k <= at + n) ==> buf[k] == old(buf[k])
  {
    n := 0;
    while n < |text|
      invariant n <= |text|
      invariant buf[at..at + n] == text[..n]
      invariant forall k :: 0 <= k < buf.Length && !(at <= k < at + n) ==> buf[k] == old(buf[k])
    {
      buf[at + n] := text[n];
      n := n + 1;
      assert text[..n] == text[..n - 1] + [text[n - 1]];
    }
    buf[at + n] := '\0';
    assert text[..n] == text;
  }

  /** `hash_foreach_create_message` */
  method CreateMessage(key: string, value: string, buf: array<char>, data: nat) returns (next: nat)
    requires data + |Entry(key, value)| < buf.Length
    modifies buf
    ensures next == data + |Entry(key, value)|
    ensures buf[data..next] == Entry(key, value) && buf[next] == '\0'
    ensures forall k :: 0 <= k < buf.Length && !(data <= k <= next) ==> buf[k] == old(buf[k])
  {
    var n := Sprintf(buf, data, Entry(key, value));
    next := data + n;
  }

  lemma EntrySize(key: string, value: string)
    ensures |Entry(key, value)| == |key| + |value| + 2
  {
  }

  /** The first `g_hash_table_foreach`: adds the size of every entry. */
  method Measure(table: Table, order: seq<string>, len: nat) returns (sum: nat)
    requires forall k :: k in order ==> k in table
    ensures sum == len + |Printed(table, order)|
  {
    sum := len;
    for i := 0 to |order|
      invariant sum == len + SizeOf(table, order, i)
    {
      EntrySize(order[i], table[order[i]]);
      sum := CalcLength(order[i], table[order[i]], sum);
    }
    PrintedSize(table, order, |order|);
    assert order[..|order|] == order;
  }

  /** The second one: after k entries the pointer has moved by the size of the first k entries. */
  method Write(table: Table, order: seq<string>, buf: array<char>)
    requires forall k :: k in order ==> k in table
    requires |Printed(table, order)| < buf.Length
    requires forall k :: 0 <= k < buf.Length ==> buf[k] == '\0'
    modifies buf
    ensures var n := |Printed(table, order)|;
            buf[..n] == Printed(table, order) && forall k :: n <= k < buf.Length ==> buf[k] == '\0'
  {
    hide Entry, Printed;
    var iter: nat := 0;
    PrintedSize(table, order, |order|);
    PrintedSize(table, order, 0);
    assert order[..|order|] == order && buf[..0] == Printed(table, order[..0]);
    for i := 0 to |order|
      invariant iter == SizeOf(table, order, i) <= |Printed(table, order)|
      invariant buf[..iter] == Printed(table, order[..i])
      invariant forall k :: iter <= k < buf.Length ==> buf[k] == '\0'
    {
      EntrySize(order[i], table[order[i]]);
      SizeMonotonic(table, order, i + 1, |order|);
      PrintedAppend(table, order[..i], order[i]);
      assert order[..i + 1] == order[..i] + [order[i]];
      ghost var before, from := buf[..iter], iter;
      iter := CreateMessage(order[i], table[order[i]], buf, iter);
      assert buf[..iter] == before + buf[from..iter];
    }
  }

  /**
   * `util_hash_table_as_string`: the first pass measures, the second writes. The buffer is exactly four characters
   * longer than the text, and these are NUL.
   */
  method HashTableAsString(table: Table, order: seq<string>) returns (ret: array<char>)
    requires IsOrder(order, table)
    requires |Printed(table, order)| + 4 < 0x8000_0000
    ensures fresh(ret) && ret.Length == |Printed(table, order)| + 4
    ensures ret[..|Printed(table, order)|] == Printed(table, order)
    ensures forall k :: |Printed(table, order)| <= k < ret.Length ==> ret[k] == '\0'
  {
    var bufsize := Measure(table, order, 4);
    ret := new char[bufsize](_ => '\0');
    Write(table, order, ret);
  }
}
