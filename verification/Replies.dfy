/** How the client takes replies apart (extras/gst-playd-client.rb). */
module Replies {
  import opened Regex
  import opened Numbers

  // ---- Lines ----

  function LineEnd(s: string): nat
    ensures LineEnd(s) <= |s|
    ensures forall i :: 0 <= i < LineEnd(s) ==> s[i] != '\n'
    ensures LineEnd(s) < |s| ==> s[LineEnd(s)] == '\n'
  {
    RunLength(Any, s, 0)
  }

  lemma LineEndIs(s: string, k: nat)
    requires k <= |s| && (forall i :: 0 <= i < k ==> s[i] != '\n') && (k < |s| ==> s[k] == '\n')
    ensures LineEnd(s) == k
  {
    hide RunLength;
  }

  /** `String#lines`: each line keeps its newline, and nothing follows a final newline. */
  function Lines(s: string): seq<string>
    decreases |s|
  {
    if s == "" then []
    else if LineEnd(s) < |s| then [s[..LineEnd(s) + 1]] + Lines(s[LineEnd(s) + 1..])
    else [s]
  }

  /** `String#chomp` */
  function Chomp(s: string): string {
    if |s| >= 2 && s[|s| - 2..] == "\r\n" then s[..|s| - 2]
    else if |s| >= 1 && s[|s| - 1] in "\n\r" then s[..|s| - 1]
    else s
  }

  lemma {:induction false} LinesOfText(t: string, rest: string)
    requires '\n' !in t
    ensures Lines(t + "\n" + rest) == [t + "\n"] + Lines(rest)
  {
    var s := t + "\n" + rest;
    assert forall i :: 0 <= i < |t| ==> s[i] == t[i] && t[i] in t;
    assert s[|t|] == '\n';
    LineEndIs(s, |t|);
    assert s[..|t| + 1] == t + "\n" && s[|t| + 1..] == rest;
  }

  lemma ChompLine(t: string)
    requires t == "" || t[|t| - 1] != '\r'
    ensures Chomp(t + "\n") == t
  {
    var s := t + "\n";
    assert s[|s| - 1] == '\n' && s[..|s| - 1] == t;
    if |s| >= 2 {
      assert s[|s| - 2..][0] == t[|t| - 1];
    }
  }

  lemma ChompCrLf(t: string)
    ensures Chomp(t + "\r\n") == t
  {
    var s := t + "\r\n";
    assert s[|s| - 2..] == "\r\n" && s[..|s| - 2] == t;
  }

  lemma EndsInLf(s: string)
    requires |s| >= 2 && s[|s| - 2..] == "\r\n"
    ensures s[|s| - 1] == '\n'
  {
    assert s[|s| - 2..][1] == s[|s| - 1];
  }

  lemma ChompCr(t: string)
    ensures Chomp(t + "\r") == t
  {
    var s := t + "\r";
    assert |s| == |t| + 1 && s[|t|] == '\r';
    if |s| >= 2 && s[|s| - 2..] == "\r\n" {
      EndsInLf(s);
      assert false;
    }
    assert s[..|t|] == t;
  }

  lemma ChompNothing(t: string)
    requires t == "" || t[|t| - 1] !in "\r\n"
    ensures Chomp(t) == t
  {
    if |t| >= 2 && t[|t| - 2..] == "\r\n" {
      EndsInLf(t);
      assert false;
    }
  }

  /** One line break at the end is taken off: "\r\n", "\n" or "\r". */
  lemma ChompTakesOneBreak(t: string)
    ensures Chomp(t + "\r\n") == t && Chomp(t + "\r") == t
    ensures t == "" || t[|t| - 1] != '\r' ==> Chomp(t + "\n") == t
    ensures t == "" || t[|t| - 1] !in "\r\n" ==> Chomp(t) == t
  {
    hide Chomp;
    ChompCrLf(t);
    ChompCr(t);
    if t == "" || t[|t| - 1] != '\r' {
      ChompLine(t);
    }
    if t == "" || t[|t| - 1] !in "\r\n" {
      ChompNothing(t);
    }
  }

  // ---- The first line of a reply ----

  datatype Reply = Ok(text: string) | Thrown(text: string) | NoMatch

  /** A match of `^([A-Z]+)[ ]?(.*)$` at the start of a line. */
  function MatchReplyLine(line: string): Reply {
    match Match3(Plus(Upper), Opt(One(' ')), Star(Any), line, AtEnd)
    case None => NoMatch
    case Some(e) => ByStatus(line[..e.first], line[e.second..e.third])
  }

  function ByStatus(status: string, text: string): Reply {
    if status == "OK" then Ok(text) else Thrown(text)
  }

  /** `parse_response`: the first line that matches decides, since `^` and `$` hold at every line. */
  function ParseResponse(msg: string): Reply
    decreases |msg|
  {
    var k := LineEnd(msg);
    var r := MatchReplyLine(msg[..k]);
    if r != NoMatch || k == |msg| then r else ParseResponse(msg[k + 1..])
  }

  lemma ReplyLineCut(line: string)
    requires '\n' !in line && line != "" && Upper.Has(line[0])
    ensures var r := RunLength(Upper, line, 0);
            var y := if r < |line| && line[r] == ' ' then r + 1 else r;
            MatchReplyLine(line) == ByStatus(line[..r], line[y..])
  {
    hide Match3, RunLength, ByStatus;
    var r := RunLength(Upper, line, 0);
    var y := if r < |line| && line[r] == ' ' then r + 1 else r;
    ReplyEnds(line, r, y);
    assert line[y..|line|] == line[y..];
  }

  lemma ReplyEnds(line: string, r: nat, y: nat)
    requires '\n' !in line && line != "" && Upper.Has(line[0])
    requires r == RunLength(Upper, line, 0) && y == if r < |line| && line[r] == ' ' then r + 1 else r
    ensures Match3(Plus(Upper), Opt(One(' ')), Star(Any), line, AtEnd) == Some(Ends(r, y, |line|))
  {
    hide Match3, RunLength;
    Match3IsGreatest(Plus(Upper), Opt(One(' ')), Star(Any), line, AtEnd, Ends(r, y, |line|));
  }

  /** A reply of capitals, a space, and text that may run over more lines is read as its first line. */
  lemma FormattedReply(status: string, text: string, rest: string)
    requires status != "" && (forall c :: c in status ==> 'A' <= c <= 'Z') && '\n' !in text
    requires rest == "" || rest[0] == '\n'
    ensures ParseResponse(status + " " + text + rest) == if status == "OK" then Ok(text) else Thrown(text)
  {
    var line := status + " " + text;
    var msg := line + rest;
    assert forall i :: 0 <= i < |line| ==> msg[i] == line[i] && line[i] != '\n' by {
      forall i | 0 <= i < |line|
        ensures line[i] != '\n'
      {
        if i < |status| {
          assert line[i] == status[i] && status[i] in status;
        } else if i > |status| {
          assert line[i] == text[i - |status| - 1] && line[i] in text;
        }
      }
    }
    LineEndIs(msg, |line|);
    assert msg[..|line|] == line;
    assert '\n' !in line;
    assert forall i :: 0 <= i < |status| ==> line[i] == status[i] && status[i] in status;
    assert line[|status|] == ' ' && line[..|status|] == status && line[|status| + 1..] == text;
    ReplyLineCut(line);
  }

  /** A bare status, as the reply to TAGS starts, has empty text. */
  lemma BareReply(rest: string)
    ensures ParseResponse("OK" + "\n" + rest) == Ok("")
  {
    var msg := "OK" + "\n" + rest;
    assert msg[0] == 'O' && msg[1] == 'K' && msg[2] == '\n';
    LineEndIs(msg, 2);
    assert msg[..2] == "OK";
    ReplyLineCut("OK");
    assert RunLength(Upper, "OK", 0) == 2 && "OK"[..2] == "OK" && "OK"[2..] == "";
  }

  /** A line that does not begin with a capital is passed over, and a message of such lines only does not match. */
  lemma OtherLine(line: string, rest: string)
    requires '\n' !in line && (line == "" || !('A' <= line[0] <= 'Z'))
    ensures ParseResponse(line + "\n" + rest) == ParseResponse(rest)
    ensures ParseResponse(line) == NoMatch
  {
    hide Match3, ByStatus;
    var msg, k := line + "\n" + rest, |line|;
    assert MatchReplyLine(line) == NoMatch by {
      var m := Match3(Plus(Upper), Opt(One(' ')), Star(Any), line, AtEnd);
      assert m.Some? ==> Upper.Has(line[0]);
    }
    assert forall i :: 0 <= i < k ==> msg[i] == line[i] && line[i] in line;
    assert msg[k] == '\n' && msg[..k] == line && msg[k + 1..] == rest;
    LineEndIs(msg, k);
    LineEndIs(line, k);
    assert line[..k] == line;
  }

  // ---- The id in the reply to PLAY ----

  /** `gsub(/.*: /, '')`: every match is dropped, everything else is kept. */
  function DropLabels(s: string): string
    decreases |s|
  {
    match Match3(Star(Any), Just(One(':')), Just(One(' ')), s, Anywhere)
    case Some(e) => DropLabels(s[e.third..])
    case None => if s == "" then "" else [s[0]] + DropLabels(s[1..])
  }

  lemma LabelHasColon(s: string, e: Ends)
    requires Covers3(Star(Any), Just(One(':')), Just(One(' ')), s, Anywhere, e)
    ensures ':' in s
  {
    assert s[e.first] == ':';
  }

  lemma {:induction false} NoLabel(s: string)
    requires ':' !in s
    ensures DropLabels(s) == s
  {
    hide Match3;
    var m := Match3(Star(Any), Just(One(':')), Just(One(' ')), s, Anywhere);
    if m.Some? {
      LabelHasColon(s, m.value);
    }
    if s != "" {
      assert forall c :: c in s[1..] ==> c in s;
      NoLabel(s[1..]);
      assert s == [s[0]] + s[1..];
    }
  }

  /** What is left of a line is what stands after its last ": ", if that holds no colon. */
  lemma LabelDropped(head: string, id: string)
    requires '\n' !in head && ':' !in id
    ensures DropLabels(head + ": " + id) == id
  {
    hide Match3;
    var s, k := head + ": " + id, |head|;
    assert s[k] == ':' && s[k + 1] == ' ' && s[k + 2..] == id;
    assert forall j :: 0 <= j < k ==> s[j] == head[j] && head[j] in head;
    assert forall j :: k + 2 <= j < |s| ==> s[j] == id[j - k - 2] && id[j - k - 2] in id;
    Match3IsGreatest(Star(Any), Just(One(':')), Just(One(' ')), s, Anywhere, Ends(k, k + 1, k + 2));
    var e := Match3(Star(Any), Just(One(':')), Just(One(' ')), s, Anywhere).value;
    assert s[e.first] == ':';
    NoLabel(id);
  }

  // ---- The tag dictionary ----

  /** `^(.*)_([0-9]+)$` on a key line; the first group. */
  function KeyTag(line: string): Option<string> {
    var key := line[..LineEnd(line)];
    match Match3(Star(Any), Just(One('_')), Plus(Digit), key, AtEnd)
    case None => None
    case Some(e) => Some(key[..e.first])
  }

  type Dict = map<string, seq<string>>

  function Append(d: Dict, tag: string, value: string): Dict {
    d[tag := (if tag in d then d[tag] else []) + [value]]
  }

  /** The fold over pairs of lines; None where the client raises: a key that does not match, or a last line alone. */
  function TagDict(lines: seq<string>, acc: Dict): Option<Dict> {
    if lines == [] then Some(acc)
    else if KeyTag(lines[0]).None? || |lines| == 1 then None
    else TagDict(lines[2..], Append(acc, KeyTag(lines[0]).value, Chomp(lines[1])))
  }

  /** `response_to_tag_dict`, with an exception of `parse_response` also read as None. */
  function ResponseToTagDict(msg: string): Option<Dict> {
    if !ParseResponse(msg).Ok? then None
    else TagDict(if Lines(msg) == [] then [] else Lines(msg)[1..], map[])
  }

  /** The fold as the client runs it, appending to the dictionary pair by pair. */
  method FoldTags(msg: string) returns (d: Option<Dict>)
    ensures d == ResponseToTagDict(msg)
  {
    if !ParseResponse(msg).Ok? {
      return None;
    }
    var lines := if Lines(msg) == [] then [] else Lines(msg)[1..];
    var acc: Dict := map[];
    var k := 0;
    assert lines[0..] == lines;
    while k < |lines|
      invariant 0 <= k <= |lines|
      invariant ResponseToTagDict(msg) == TagDict(lines[k..], acc)
      decreases |lines| - k
    {
      var m := KeyTag(lines[k]);
      if m.None? || k + 1 == |lines| {
        return None;
      }
      assert lines[k..][2..] == lines[k + 2..];
      acc := Append(acc, m.value, Chomp(lines[k + 1]));
      k := k + 2;
    }
    return Some(acc);
  }

  /** The client gets a dictionary if and only if the lines come in pairs and the first of each is a key. */
  lemma {:induction false} PairsMakeDict(lines: seq<string>, acc: Dict)
    ensures TagDict(lines, acc).Some? <==>
            |lines| % 2 == 0 && forall j :: 0 <= j < |lines| / 2 ==> KeyTag(lines[2 * j]).Some?
    decreases |lines|
  {
    hide KeyTag, Chomp, Append;
    if lines != [] && KeyTag(lines[0]).Some? && |lines| > 1 {
      var rest := lines[2..];
      PairsMakeDict(rest, Append(acc, KeyTag(lines[0]).value, Chomp(lines[1])));
      assert forall j :: 0 <= j < |rest| / 2 ==> rest[2 * j] == lines[2 * (j + 1)];
      if TagDict(lines, acc).Some? {
        forall j | 0 <= j < |lines| / 2
          ensures KeyTag(lines[2 * j]).Some?
        {
          assert j > 0 ==> lines[2 * j] == rest[2 * (j - 1)];
        }
      }
    } else if |lines| > 1 {
      assert lines[2 * 0] == lines[0];
    }
  }

  /** The key of value i of a tag, as the daemon prints it (src/gst-util.c). */
  function Key(tag: string, i: nat): string {
    tag + "_" + Decimal(i)
  }

  /** A key has an underscore right after the tag, and digits behind it. */
  lemma KeyShape(tag: string, i: nat)
    ensures var key, k := Key(tag, i), |tag|;
            && key[..k] == tag && key[k] == '_' && key[k + 1..] == Decimal(i) && |key| > k + 1
            && (forall j :: 0 <= j < k ==> key[j] == tag[j])
            && forall j :: k < j < |key| ==> Digit.Has(key[j])
  {
    hide Decimal;
    var key, d := Key(tag, i), Decimal(i);
    ValueOfDecimal(i);
    forall j | |tag| < j < |key|
      ensures Digit.Has(key[j])
    {
      assert key[j] == d[j - |tag| - 1];
    }
  }

  lemma KeyIsLine(tag: string, i: nat)
    requires '\n' !in tag
    ensures forall j :: 0 <= j < |Key(tag, i)| ==> Key(tag, i)[j] != '\n'
    ensures '\n' !in Key(tag, i)
  {
    KeyShape(tag, i);
    hide Key;
    assert forall j :: 0 <= j < |tag| ==> tag[j] in tag;
    assert forall j :: 0 <= j < |Key(tag, i)| ==> Key(tag, i)[j] != '\n';
  }

  ghost predicate IsKeyLine(key: string, tag: string, digits: string) {
    key == tag + "_" + digits && digits != "" && forall c :: c in digits ==> '0' <= c <= '9'
  }

  lemma FirstOfLine(key: string)
    requires '\n' !in key
    ensures LineEnd(key + "\n") == |key| && (key + "\n")[..|key|] == key
  {
    var line := key + "\n";
    assert forall j :: 0 <= j < |key| ==> line[j] == key[j] && key[j] in key;
    LineEndIs(line, |key|);
  }

  /** The last underscore ends the tag, whatever underscores and digits the tag itself holds. */
  lemma KeyLineMatches(key: string, tag: string, digits: string)
    requires IsKeyLine(key, tag, digits)
    ensures var m := Match3(Star(Any), Just(One('_')), Plus(Digit), key, AtEnd);
            '\n' !in key ==> m.Some? && m.value.first == |tag|
  {
    if '\n' !in key {
      hide Match3;
      var k := |tag|;
      assert key[k] == '_' && forall j :: k < j < |key| ==> key[j] == digits[j - k - 1] && key[j] in digits;
      assert forall j :: 0 <= j < |key| ==> key[j] in key;
      Match3IsGreatest(Star(Any), Just(One('_')), Plus(Digit), key, AtEnd, Ends(k, k + 1, |key|));
      assert key[Match3(Star(Any), Just(One('_')), Plus(Digit), key, AtEnd).value.first] == '_';
    }
  }

  lemma MatchIsKeyLine(key: string, e: Ends)
    requires Covers3(Star(Any), Just(One('_')), Plus(Digit), key, AtEnd, e)
    ensures IsKeyLine(key, key[..e.first], key[e.second..])
  {
    assert key[e.first] == '_';
    assert key == key[..e.first] + "_" + key[e.second..];
  }

  /** A line without newline is a key of a tag if and only if it is the tag, an underscore, and one digit or more. */
  lemma KeyTagIff(key: string, tag: string)
    requires '\n' !in key
    ensures KeyTag(key + "\n") == Some(tag) <==> exists digits :: IsKeyLine(key, tag, digits)
  {
    hide Match3, IsKeyLine;
    FirstOfLine(key);
    if KeyTag(key + "\n") == Some(tag) {
      MatchIsKeyLine(key, Match3(Star(Any), Just(One('_')), Plus(Digit), key, AtEnd).value);
    }
    if digits :| IsKeyLine(key, tag, digits) {
      KeyLineMatches(key, tag, digits);
      TagOfKeyLine(key, tag, digits);
    }
  }

  lemma TagOfKeyLine(key: string, tag: string, digits: string)
    requires IsKeyLine(key, tag, digits)
    ensures |tag| <= |key| && key[..|tag|] == tag
  {
  }

  /** In particular the tag of a key comes back. */
  lemma KeyTagOfKey(tag: string, i: nat)
    requires '\n' !in tag
    ensures KeyTag(Key(tag, i) + "\n") == Some(tag)
  {
    hide Key, Decimal, KeyTag;
    ValueOfDecimal(i);
    KeyIsLine(tag, i);
    assert IsKeyLine(Key(tag, i), tag, Decimal(i)) by {
      KeyForm(tag, i);
      assert forall c :: c in Decimal(i) ==> Digit.Has(c);
    }
    KeyTagIff(Key(tag, i), tag);
  }

  lemma KeyForm(tag: string, i: nat)
    ensures Key(tag, i) == tag + "_" + Decimal(i)
  {
  }

  /** Keys of different values never collide, not even for a tag that itself ends in an underscore and a number. */
  lemma KeyInjective(tag: string, i: nat, tag': string, i': nat)
    requires Key(tag, i) == Key(tag', i')
    ensures tag == tag' && i == i'
  {
    KeyShape(tag, i);
    KeyShape(tag', i');
    hide Key;
    ValueOfDecimal(i);
    ValueOfDecimal(i');
    assert |tag| == |tag'|;
  }
}
