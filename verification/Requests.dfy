/** How a request is split into a prefix and a parameter, and how the client writes one. */
module Requests {
  import opened Regex

  datatype Request = Invalid | Request(prefix: string, param: string)

  /** `^([A-Z]+)[ ]?(.+)$` (src/parser.c) */
  function ParseRequest(msg: string): (r: Request) {
    match Match3(Plus(Upper), Opt(One(' ')), Plus(Dot), msg, AtLastBreak)
    case None => Invalid
    case Some(e) => Request(msg[..e.first], msg[e.second..e.third])
  }

  /** Line breaks by character code. */
  predicate Breaks(c: char) {
    10 <= c as int <= 13 || c as int == 0x85 || c as int == 0x2028 || c as int == 0x2029
  }

  lemma BreaksAreLineBreaks(c: char)
    ensures Breaks(c) <==> LineBreak(c)
  {
  }

  predicate LineFree(s: string) {
    forall c :: c in s ==> !Breaks(c)
  }

  /** The message without one line break at its end. */
  function Core(msg: string): string {
    if |msg| >= 2 && msg[|msg| - 2..] == "\r\n" then msg[..|msg| - 2]
    else if msg != "" && Breaks(msg[|msg| - 1]) then msg[..|msg| - 1]
    else msg
  }

  /** How many capitals a line begins with. */
  function LeadingCapitals(line: string): (n: nat)
    ensures n <= |line| && (forall j :: 0 <= j < n ==> 'A' <= line[j] <= 'Z')
    ensures n < |line| ==> !('A' <= line[n] <= 'Z')
  {
    if line != "" && 'A' <= line[0] <= 'Z' then 1 + LeadingCapitals(line[1..]) else 0
  }

  /** Where a line is cut, in terms of its leading capitals alone. */
  function Cut(line: string): Request {
    var r := LeadingCapitals(line);
    if r == 0 || |line| == 1 then Invalid
    else if r == |line| then Request(line[..r - 1], line[r - 1..])
    else if line[r] == ' ' && r + 1 < |line| then Request(line[..r], line[r + 1..])
    else Request(line[..r], line[r..])
  }

  /** A match ends before the line break at the end of the message, if there is one, and nothing before is a break. */
  lemma MatchEndsAtCore(msg: string, e: Ends)
    requires Covers3(Plus(Upper), Opt(One(' ')), Plus(Dot), msg, AtLastBreak, e)
    ensures e.third == |Core(msg)| && LineFree(Core(msg))
  {
    var core := Core(msg);
    assert forall j :: 0 <= j < e.third ==> !LineBreak(msg[j]);
    assert !LineBreak(msg[e.third - 1]);
    assert e.third + 2 == |msg| ==> msg[|msg| - 2..] == msg[e.third..];
    assert |msg| >= 2 && msg[|msg| - 2..] == "\r\n" ==> msg[|msg| - 2] == '\r' && msg[|msg| - 1] == '\n';
  }

  lemma CoreIsPrefix(msg: string)
    ensures |Core(msg)| <= |msg| && Core(msg) == msg[..|Core(msg)|]
    ensures AtLastBreak.Holds(msg, |Core(msg)|)
  {
  }

  /**
   * For every message: one line break at its end is ignored, any other makes it invalid, and otherwise the greedy,
   * backtracking match cuts it as the closed form does.
   */
  lemma ParseIsCut(msg: string)
    ensures ParseRequest(msg) == if LineFree(Core(msg)) then Cut(Core(msg)) else Invalid
  {
    hide Match3, LeadingCapitals, Core, LineFree;
    var a, b, c := Plus(Upper), Opt(One(' ')), Plus(Dot);
    var line := Core(msg);
    CoreIsPrefix(msg);
    var m := Match3(a, b, c, msg, AtLastBreak);
    if m.Some? {
      MatchEndsAtCore(msg, m.value);
    }
    if LineFree(line) {
      CutIsGreatest(msg, line);
    }
  }

  lemma EndsOfCut(msg: string, r: nat, x: nat, y: nat)
    requires var n := |Core(msg)|; 0 < r <= n && n > 1 && forall j :: 0 <= j < n ==> !Breaks(msg[j])
    requires (forall j :: 0 <= j < r ==> 'A' <= msg[j] <= 'Z') && (r < |Core(msg)| ==> !('A' <= msg[r] <= 'Z'))
    requires x == (if r == |Core(msg)| then r - 1 else r)
    requires y == if x + 1 < |Core(msg)| && msg[x] == ' ' then x + 1 else x
    ensures Match3(Plus(Upper), Opt(One(' ')), Plus(Dot), msg, AtLastBreak) == Some(Ends(x, y, |Core(msg)|))
  {
    hide Match3, Core;
    CoreIsPrefix(msg);
    var e := Ends(x, y, |Core(msg)|);
    Match3IsGreatest(Plus(Upper), Opt(One(' ')), Plus(Dot), msg, AtLastBreak, e);
    MatchEndsAtCore(msg, Match3(Plus(Upper), Opt(One(' ')), Plus(Dot), msg, AtLastBreak).value);
  }

  lemma CutIsGreatest(msg: string, line: string)
    requires LineFree(line) && line == Core(msg)
    ensures ParseRequest(msg) == Cut(line)
  {
    hide Match3, LeadingCapitals, Core, LineBreak, Breaks;
    var r, n := LeadingCapitals(line), |line|;
    CoreIsPrefix(msg);
    assert forall j :: 0 <= j < n ==> msg[j] == line[j] && line[j] in line;
    if r > 0 && n > 1 {
      var x := if r == n then r - 1 else r;
      var y := if x + 1 < n && line[x] == ' ' then x + 1 else x;
      EndsOfCut(msg, r, x, y);
      assert msg[..x] == line[..x] && msg[y..n] == line[y..];
    } else {
      var m := Match3(Plus(Upper), Opt(One(' ')), Plus(Dot), msg, AtLastBreak);
      if m.Some? {
        MatchEndsAtCore(msg, m.value);
      }
    }
  }

  predicate Capitals(s: string) {
    s != "" && forall c :: c in s ==> 'A' <= c <= 'Z'
  }

  /** How the client writes a request: a prefix, one space, and the parameter. */
  function Format(prefix: string, param: string): string {
    prefix + " " + param
  }

  /** A formatted line is cut behind its prefix. */
  lemma CutFormat(prefix: string, param: string)
    requires Capitals(prefix)
    ensures Cut(Format(prefix, param)) == Request(prefix, if param == "" then " " else param)
  {
    hide LeadingCapitals;
    var line, k := Format(prefix, param), |prefix|;
    assert forall j :: 0 <= j < k ==> line[j] == prefix[j] && prefix[j] in prefix;
    assert line[k] == ' ' && line[..k] == prefix && line[k + 1..] == param && (param == "" ==> line[k..] == " ");
    assert LeadingCapitals(line) == k;
  }

  lemma CoreOfFormat(prefix: string, param: string)
    requires Capitals(prefix)
    ensures Core(Format(prefix, param)) == Format(prefix, Core(param))
    ensures LineFree(Format(prefix, Core(param))) <==> LineFree(Core(param))
  {
    var line, k := Format(prefix, param), |prefix|;
    assert line[k] == ' ' && line[k + 1..] == param;
    assert |param| >= 2 ==> line[|line| - 2..] == param[|param| - 2..];
    assert param != "" ==> line[|line| - 1] == param[|param| - 1];
    assert |param| == 1 ==> line[|line| - 2..][0] == ' ';
    if param == "" {
      assert line[|line| - 2..][1] == ' ';
    }
    var core := Core(param);
    assert Core(line) == Format(prefix, core);
    var f := Format(prefix, core);
    assert forall c :: c in f <==> c in prefix || c == ' ' || c in core;
  }

  /**
   * A formatted request is split back into its two parts if and only if the parameter is not empty and holds no line
   * break: a single one at its end is lost, and with any other the request is invalid.
   */
  lemma FormatParses(prefix: string, param: string)
    requires Capitals(prefix)
    ensures ParseRequest(Format(prefix, param)) == Request(prefix, param) <==> param != "" && LineFree(param)
    ensures ParseRequest(Format(prefix, param)) ==
            if !LineFree(Core(param)) then Invalid
            else Request(prefix, if Core(param) == "" then " " else Core(param))
  {
    hide Cut, Format;
    ParseIsCut(Format(prefix, param));
    CoreOfFormat(prefix, param);
    CutFormat(prefix, Core(param));
    CoreKeepsLineFree(param);
  }

  lemma CoreKeepsLineFree(s: string)
    ensures Core(s) == s && LineFree(Core(s)) <==> LineFree(s)
  {
    if s != "" {
      assert s[|s| - 1] in s;
    }
  }

  /** An empty parameter comes back as the space that was meant to end the prefix. */
  lemma EmptyParamIsSpace(prefix: string)
    requires Capitals(prefix)
    ensures ParseRequest(Format(prefix, "")) == Request(prefix, " ")
  {
    FormatParses(prefix, "");
  }

  /** A message of capitals alone gives its last letter to the parameter, and a single capital is invalid. */
  lemma BareCommandIsCut(prefix: string)
    requires Capitals(prefix)
    ensures var n := |prefix|;
            ParseRequest(prefix) == if n == 1 then Invalid else Request(prefix[..n - 1], prefix[n - 1..])
  {
    hide ParseRequest, Core, LeadingCapitals;
    assert forall j :: 0 <= j < |prefix| ==> prefix[j] in prefix;
    assert LineFree(prefix) && LeadingCapitals(prefix) == |prefix|;
    CoreKeepsLineFree(prefix);
    ParseIsCut(prefix);
  }
}
