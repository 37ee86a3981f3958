/**
 * Backtracking matcher for the four regular expressions of the protocol (src/parser.c, extras/gst-playd-client.rb).
 * Each is a row of greedy repetitions of a character class, so this is all of the regex engine that they use.
 */
module Regex {

  datatype Option<T> = None | Some(value: T)

  /** The characters at which a line ends for the daemon's regex library, which knows every kind of line break. */
  predicate LineBreak(c: char) {
    c in "\n\r\U{0b}\U{0c}\U{85}\U{2028}\U{2029}"
  }

  /** `Any` is the dot of Ruby, `Dot` that of the daemon's library. */
  datatype Class = Upper | Digit | Any | Dot | One(c: char) {
    predicate Has(x: char) {
      match this
      case Upper => 'A' <= x <= 'Z'
      case Digit => '0' <= x <= '9'
      case Any => x != '\n'
      case Dot => !LineBreak(x)
      case One(c) => x == c
    }
  }

  /** The classes by character code. */
  lemma ClassesByCode(x: char)
    ensures Upper.Has(x) <==> 65 <= x as int <= 90
    ensures Digit.Has(x) <==> 48 <= x as int <= 57
    ensures Any.Has(x) <==> x as int != 10
    ensures Dot.Has(x) <==> x as int !in {10, 11, 12, 13, 0x85, 0x2028, 0x2029}
  {
  }

  /** `x+`, `x*`, `x?` and `x` */
  datatype Item = Plus(cls: Class) | Star(cls: Class) | Opt(cls: Class) | Just(cls: Class) {
    predicate Allows(n: nat) {
      match this
      case Plus(_) => n >= 1
      case Star(_) => true
      case Opt(_) => n <= 1
      case Just(_) => n == 1
    }
  }

  /** Where the last item must end: anywhere, at the end ($ on a line), or also before one line break there (`$`). */
  datatype Anchor = Anywhere | AtEnd | AtLastBreak {
    predicate Holds(s: string, i: nat)
      requires i <= |s|
    {
      match this
      case Anywhere => true
      case AtEnd => i == |s|
      case AtLastBreak => i == |s| || (i + 1 == |s| && LineBreak(s[i])) || s[i..] == "\r\n"
    }
  }

  // ---- What a match is ----

  /** The item can match the characters from a up to b. */
  predicate Covers(item: Item, s: string, a: nat, b: nat) {
    a <= b <= |s| && item.Allows(b - a) && forall j :: a <= j < b ==> item.cls.Has(s[j])
  }

  /** The items can end at these positions. */
  predicate Fits(items: seq<Item>, s: string, i: nat, at: Anchor, ends: seq<nat>)
    decreases |items|
  {
    && i <= |s| && |ends| == |items|
    && if items == [] then at.Holds(s, i)
       else Covers(items[0], s, i, ends[0]) && Fits(items[1..], s, ends[0], at, ends[1..])
  }

  /** The number of characters from i on that are in the class. */
  function RunLength(k: Class, s: string, i: nat): (n: nat)
    requires i <= |s|
    ensures i + n <= |s|
    ensures forall j :: i <= j < i + n ==> k.Has(s[j])
    ensures i + n < |s| ==> !k.Has(s[i + n])
    decreases |s| - i
  {
    if i < |s| && k.Has(s[i]) then 1 + RunLength(k, s, i + 1) else 0
  }

  /**
   * Matches the items from position i on and gives the position where each item ends; the anchor says where the last
   * one must end.
   */
  function Match(items: seq<Item>, s: string, i: nat, at: Anchor): (m: Option<seq<nat>>)
    requires i <= |s|
    ensures m.Some? ==> Fits(items, s, i, at, m.value)
    decreases |items|, |s| + 1
  {
    if items == [] then if at.Holds(s, i) then Some([]) else None
    else Try(items, s, i, RunLength(items[0].cls, s, i), at)
  }

  /** The first item takes n characters, or fewer if the rest does not match then. */
  function Try(items: seq<Item>, s: string, i: nat, n: nat, at: Anchor): (m: Option<seq<nat>>)
    requires items != [] && i + n <= |s|
    requires forall j :: i <= j < i + n ==> items[0].cls.Has(s[j])
    ensures m.Some? ==> Fits(items, s, i, at, m.value)
    decreases |items|, n
  {
    var rest := if items[0].Allows(n) then Match(items[1..], s, i + n, at) else None;
    if rest.Some? then Some([i + n] + rest.value)
    else if n == 0 then None
    else Try(items, s, i, n - 1, at)
  }

  // ---- Which match it is ----

  /** Lexicographic order on end positions. */
  predicate AtMost(a: seq<nat>, b: seq<nat>)
    requires |a| == |b|
  {
    a == [] || a[0] < b[0] || (a[0] == b[0] && AtMost(a[1..], b[1..]))
  }

  lemma TryIsGreatest(items: seq<Item>, s: string, i: nat, n: nat, at: Anchor, ends: seq<nat>)
    requires items != [] && i + n <= |s|
    requires forall j :: i <= j < i + n ==> items[0].cls.Has(s[j])
    ensures Fits(items, s, i, at, ends) && ends[0] <= i + n ==>
            Try(items, s, i, n, at).Some? && AtMost(ends, Try(items, s, i, n, at).value)
    decreases |items|, n
  {
    var fits := Fits(items, s, i, at, ends);
    if items[0].Allows(n) {
      MatchIsGreatest(items[1..], s, i + n, at, if fits then ends[1..] else []);
    }
    if n > 0 {
      TryIsGreatest(items, s, i, n - 1, at, ends);
    }
  }

  /** Greedy backtracking finds a match exactly when there is one, and then the lexicographically greatest one. */
  lemma {:induction false} MatchIsGreatest(items: seq<Item>, s: string, i: nat, at: Anchor, ends: seq<nat>)
    requires i <= |s|
    ensures Fits(items, s, i, at, ends) ==>
            Match(items, s, i, at).Some? && AtMost(ends, Match(items, s, i, at).value)
    decreases |items|, |s| + 1
  {
    if items != [] {
      TryIsGreatest(items, s, i, RunLength(items[0].cls, s, i), at, ends);
    }
  }

  // ---- Rows of three items, which is what every one of them is ----

  lemma ThreeFit(a: Item, b: Item, c: Item, s: string, at: Anchor, x: nat, y: nat, z: nat)
    ensures Fits([a, b, c], s, 0, at, [x, y, z]) <==>
            Covers(a, s, 0, x) && Covers(b, s, x, y) && Covers(c, s, y, z) && at.Holds(s, z)
  {
    assert [a, b, c][1..] == [b, c] && [b, c][1..] == [c] && [c][1..] == [];
    assert [x, y, z][1..] == [y, z] && [y, z][1..] == [z] && [z][1..] == [];
    assert Fits([c], s, y, at, [z]) <==> y <= |s| && Covers(c, s, y, z) && at.Holds(s, z);
  }

  /** Where three items end. */
  datatype Ends = Ends(first: nat, second: nat, third: nat)

  predicate Covers3(a: Item, b: Item, c: Item, s: string, at: Anchor, e: Ends) {
    && Covers(a, s, 0, e.first) && Covers(b, s, e.first, e.second) && Covers(c, s, e.second, e.third)
    && at.Holds(s, e.third)
  }

  function Match3(a: Item, b: Item, c: Item, s: string, at: Anchor): (m: Option<Ends>)
    ensures m.Some? ==> Covers3(a, b, c, s, at, m.value)
  {
    match Match([a, b, c], s, 0, at)
    case None => None
    case Some(e) =>
      ThreeFit(a, b, c, s, at, e[0], e[1], e[2]);
      assert e == [e[0], e[1], e[2]];
      Some(Ends(e[0], e[1], e[2]))
  }

  /** Three items match if they fit somewhere, and then no other fit takes more, item by item. */
  lemma Match3IsGreatest(a: Item, b: Item, c: Item, s: string, at: Anchor, e: Ends)
    requires Covers3(a, b, c, s, at, e)
    ensures var m := Match3(a, b, c, s, at);
            && m.Some?
            && (|| m.value.first > e.first
                || (m.value.first == e.first
                    && (m.value.second > e.second || (m.value.second == e.second && m.value.third >= e.third))))
  {
    hide Match;
    var x, items := [e.first, e.second, e.third], [a, b, c];
    ThreeFit(a, b, c, s, at, e.first, e.second, e.third);
    MatchIsGreatest(items, s, 0, at, x);
    var m := Match(items, s, 0, at).value;
    assert AtMost(x, m);
    assert AtMost(x[1..], m[1..]) ==> x[1] <= m[1];
    assert AtMost(x[1..][1..], m[1..][1..]) ==> x[2] <= m[2];
  }
}
