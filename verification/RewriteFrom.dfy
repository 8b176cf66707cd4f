/** Rewriting the From header of a message, and what applying the rewrite twice does. */
module RewriteFrom {
  import opened Bytes

  const LF: Text := ['\n']
  const CRLF: Text := ['\r', '\n']
  const LF_LF: Text := ['\n', '\n']
  const CRLF_CRLF: Text := ['\r', '\n', '\r', '\n']

  predicate IsNewline(c: byte) { c == '\r' || c == '\n' }

  // ----------------------------------------------------------- byte searches

  ghost predicate NoneBefore(s: Text, pat: Text, p: int) {
    forall k :: 0 <= k < p ==> !StandsAt(s, k, pat)
  }

  /** The first place of a pattern in a text, or -1. */
  function Index(s: Text, pat: Text): (r: int)
    requires pat != []
    ensures -1 <= r
    ensures r >= 0 ==> StandsAt(s, r, pat) && NoneBefore(s, pat, r)
    ensures r == -1 ==> NoneBefore(s, pat, |s|)
  {
    IndexFrom(s, pat, 0)
  }

  function IndexFrom(s: Text, pat: Text, i: nat): (r: int)
    requires pat != []
    ensures r == -1 || i <= r
    ensures r >= 0 ==> StandsAt(s, r, pat) && forall k :: i <= k < r ==> !StandsAt(s, k, pat)
    ensures r == -1 ==> forall k :: i <= k < |s| ==> !StandsAt(s, k, pat)
    decreases |s| - i
  {
    if i + |pat| > |s| then -1
    else if s[i..i + |pat|] == pat then i
    else
      IndexFrom(s, pat, i + 1)
  }

  lemma IndexIs(s: Text, pat: Text, p: nat)
    requires pat != [] && StandsAt(s, p, pat) && NoneBefore(s, pat, p)
    ensures Index(s, pat) == p
  {
  }

  lemma IndexNone(s: Text, pat: Text)
    requires pat != [] && NoneBefore(s, pat, |s|)
    ensures Index(s, pat) == -1
  {
  }

  lemma StandsInTail(a: Text, b: Text, p: int, pat: Text)
    requires p >= |a|
    ensures StandsAt(a + b, p, pat) <==> StandsAt(b, p - |a|, pat)
  {
    if StandsAt(a + b, p, pat) {
      forall k | 0 <= k < |pat| ensures b[p - |a| + k] == pat[k] { assert (a + b)[p + k] == pat[k]; }
    }
    if StandsAt(b, p - |a|, pat) {
      forall k | 0 <= k < |pat| ensures (a + b)[p + k] == pat[k] { assert b[p - |a| + k] == pat[k]; }
    }
  }

  lemma StandsInHead(a: Text, b: Text, p: nat, pat: Text)
    requires p + |pat| <= |a|
    ensures StandsAt(a + b, p, pat) <==> StandsAt(a, p, pat)
  {
    if StandsAt(a + b, p, pat) {
      forall k | 0 <= k < |pat| ensures a[p + k] == pat[k] { assert (a + b)[p + k] == pat[k]; }
    }
    if StandsAt(a, p, pat) {
      forall k | 0 <= k < |pat| ensures (a + b)[p + k] == pat[k] { assert a[p + k] == pat[k]; }
    }
  }

  // --------------------------------------------------------- lines and joins

  /** The lines, joined by a separator. */
  function Join(lines: seq<Text>, nl: Text): Text {
    if lines == [] then [] else lines[0] + Glue(nl, lines[1..], [])
  }

  /** Each line with the separator before it, and then the body. */
  function Glue(nl: Text, lines: seq<Text>, body: Text): Text {
    if lines == [] then body else nl + lines[0] + Glue(nl, lines[1..], body)
  }

  lemma {:induction false} GlueBody(nl: Text, lines: seq<Text>, body: Text)
    ensures Glue(nl, lines, body) == Glue(nl, lines, []) + body
    decreases |lines|
  {
    if lines != [] {
      GlueBody(nl, lines[1..], body);
      assert nl + lines[0] + (Glue(nl, lines[1..], []) + body) == nl + lines[0] + Glue(nl, lines[1..], []) + body;
    }
  }

  lemma JoinBody(nl: Text, lines: seq<Text>, body: Text)
    requires lines != []
    ensures Join(lines, nl) + body == lines[0] + Glue(nl, lines[1..], body)
  {
    GlueBody(nl, lines[1..], body);
  }

  /** The text cut at every separator. */
  function Split(s: Text, nl: Text): (lines: seq<Text>)
    requires nl != []
    ensures lines != []
    decreases |s|
  {
    var i := Index(s, nl);
    if i < 0 then [s] else [s[..i]] + Split(s[i + |nl|..], nl)
  }

  lemma JoinNext(line: Text, lines: seq<Text>, nl: Text)
    requires lines != []
    ensures Join([line] + lines, nl) == line + (nl + Join(lines, nl))
  {
    assert ([line] + lines)[1..] == lines;
    assert nl + lines[0] + Glue(nl, lines[1..], []) == nl + (lines[0] + Glue(nl, lines[1..], []));
  }

  lemma JoinOne(line: Text, nl: Text)
    ensures Join([line], nl) == line
  {
    assert [line][1..] == [] && line + [] == line;
  }

  lemma {:induction false} SplitJoins(s: Text, nl: Text)
    requires nl != []
    ensures Join(Split(s, nl), nl) == s
    decreases |s|
  {
    hide Index, Join;
    var i := Index(s, nl);
    if i >= 0 {
      var rest := s[i + |nl|..];
      SplitJoins(rest, nl);
      JoinNext(s[..i], Split(rest, nl), nl);
      assert s == s[..i] + (nl + rest);
    } else {
      JoinOne(s, nl);
    }
  }

  predicate IsSeparator(nl: Text) { nl == LF || nl == CRLF }

  ghost predicate LacksAll(lines: seq<Text>, nl: Text) {
    forall k :: 0 <= k < |lines| ==> NoneBefore(lines[k], nl, |lines[k]|)
  }

  /** A line without the separator ends at the first separator that follows it. */
  lemma LineEnds(line: Text, nl: Text, rest: Text)
    requires IsSeparator(nl) && NoneBefore(line, nl, |line|)
    ensures Index(line + (nl + rest), nl) == |line|
  {
    var s := line + (nl + rest);
    assert StandsAt(s, |line|, nl) by { StandsInTail(line, nl + rest, |line|, nl); }
    forall k | 0 <= k < |line| ensures !StandsAt(s, k, nl) {
      assert !StandsAt(line, k, nl);
      if k + |nl| <= |line| {
        StandsInHead(line, nl + rest, k, nl);
      } else {
        assert s[k + 1] == nl[0] != nl[1];
      }
    }
    IndexIs(s, nl, |line|);
  }

  lemma {:induction false} JoinSplits(lines: seq<Text>, nl: Text)
    requires IsSeparator(nl) && lines != [] && LacksAll(lines, nl)
    ensures Split(Join(lines, nl), nl) == lines
    decreases |lines|
  {
    hide Index, NoneBefore, StandsAt;
    var s := Join(lines, nl);
    if |lines| == 1 {
      assert s == lines[0] + [] == lines[0];
      IndexNone(s, nl);
    } else {
      var rest := lines[1..];
      forall k | 0 <= k < |rest| ensures NoneBefore(rest[k], nl, |rest[k]|) { assert rest[k] == lines[k + 1]; }
      JoinSplits(rest, nl);
      LineEnds(lines[0], nl, Join(rest, nl));
      assert s == lines[0] + (nl + Join(rest, nl));
      assert s[..|lines[0]|] == lines[0];
      assert s[|lines[0]| + |nl|..] == Join(rest, nl);
    }
  }

  lemma {:induction false} SplitLacks(s: Text, nl: Text)
    requires nl != []
    ensures LacksAll(Split(s, nl), nl)
    decreases |s|
  {
    hide Index;
    var i := Index(s, nl);
    if i >= 0 {
      SplitLacks(s[i + |nl|..], nl);
      var line := s[..i];
      forall k | 0 <= k < |line| ensures !StandsAt(line, k, nl) {
        assert !StandsAt(s, k, nl);
      }
    }
  }

  // ---------------------------------------------------------------- rewriting

  predicate IsFrom(line: Text) { HasPrefix(Lower(line), "from:") }

  predicate IsContinuation(line: Text) { line != [] && (line[0] == ' ' || line[0] == '\t') }

  function Replacement(newFrom: Text): Text { "From: " + newFrom }

  /** Each From line replaced and its continuations dropped; `inFrom` says whether one was just read. */
  function Rewritten(repl: Text, lines: seq<Text>, inFrom: bool): seq<Text> {
    if lines == [] then []
    else if IsFrom(lines[0]) then [repl] + Rewritten(repl, lines[1..], true)
    else if inFrom && IsContinuation(lines[0]) then Rewritten(repl, lines[1..], true)
    else [lines[0]] + Rewritten(repl, lines[1..], false)
  }

  predicate HasFrom(lines: seq<Text>) { exists k :: 0 <= k < |lines| && IsFrom(lines[k]) }

  predicate AllFrom(repl: Text, lines: seq<Text>) {
    forall k :: 0 <= k < |lines| && IsFrom(lines[k]) ==> lines[k] == repl
  }

  function Output(repl: Text, lines: seq<Text>): seq<Text> {
    if HasFrom(lines) then Rewritten(repl, lines, false) else [repl] + lines
  }

  datatype Cut = Cut(at: nat, nl: Text)

  /** Where the header ends, and the separator of its lines. */
  function CutOf(raw: Text): (c: Option<Cut>)
    ensures c.Some? ==> c.value.at <= |raw| && IsSeparator(c.value.nl)
  {
    var i := if Index(raw, CRLF_CRLF) >= 0 then Index(raw, CRLF_CRLF) else Index(raw, LF_LF);
    if i < 0 then None
    else Some(Cut(i, if Index(raw[..i], CRLF) >= 0 then CRLF else LF))
  }

  function LinesOf(raw: Text, c: Cut): seq<Text>
    requires c.at <= |raw| && IsSeparator(c.nl)
  {
    Split(raw[..c.at], c.nl)
  }

  datatype Result = Result(text: Text, changed: bool)

  function Rewrite(raw: Text, newFrom: Text): Option<Result> {
    var c := CutOf(raw);
    if c.None? then None
    else
      var repl, lines := Replacement(newFrom), LinesOf(raw, c.value);
      Some(Result(Join(Output(repl, lines), c.value.nl) + raw[c.value.at..], !HasFrom(lines) || !AllFrom(repl, lines)))
  }

  // -------------------------------------------------------------- the loop

  lemma RewrittenNext(repl: Text, lines: seq<Text>, i: nat, inFrom: bool)
    requires i < |lines|
    ensures Rewritten(repl, lines[i..], inFrom)
         == if IsFrom(lines[i]) then [repl] + Rewritten(repl, lines[i + 1..], true)
            else if inFrom && IsContinuation(lines[i]) then Rewritten(repl, lines[i + 1..], true)
            else [lines[i]] + Rewritten(repl, lines[i + 1..], false)
  {
    hide IsFrom;
    assert lines[i..][1..] == lines[i + 1..];
  }

  /** After the continuations, nothing depends on there having been a From line. */
  lemma RewrittenAfter(repl: Text, lines: seq<Text>, j: nat)
    requires j <= |lines| && (j < |lines| ==> !IsContinuation(lines[j]))
    ensures Rewritten(repl, lines[j..], true) == Rewritten(repl, lines[j..], false)
  {
    hide IsFrom;
  }

  lemma ContinuationIsNoFrom(line: Text)
    requires IsContinuation(line)
    ensures !IsFrom(line)
  {
  }

  method RewriteFromHeader(raw: Text, newFrom: Text) returns (r: Option<Result>)
    ensures r == Rewrite(raw, newFrom)
  {
    hide IsFrom, IsContinuation, Index, Split, Join, Rewritten, CutOf, Replacement, LinesOf;
    var cut := CutOf(raw);
    if cut.None? {
      return None;
    }
    var lines := LinesOf(raw, cut.value);
    var repl := Replacement(newFrom);
    var out := [];
    var found, changed := false, false;
    var i := 0;
    assert lines[0..] == lines;
    assert [] + Rewritten(repl, lines, false) == Rewritten(repl, lines, false);
    while i < |lines|
      invariant 0 <= i <= |lines|
      invariant out + Rewritten(repl, lines[i..], false) == Rewritten(repl, lines, false)
      invariant found <==> exists k :: 0 <= k < i && IsFrom(lines[k])
      invariant changed <==> exists k :: 0 <= k < i && IsFrom(lines[k]) && lines[k] != repl
      invariant !found ==> out == lines[..i]
      decreases |lines| - i
    {
      var line := lines[i];
      RewrittenNext(repl, lines, i, false);
      if IsFrom(line) {
        found := true;
        var j := i + 1;
        while j < |lines| && IsContinuation(lines[j])
          invariant i < j <= |lines|
          invariant Rewritten(repl, lines[j..], true) == Rewritten(repl, lines[i + 1..], true)
          invariant forall k :: i < k < j ==> !IsFrom(lines[k])
        {
          RewrittenNext(repl, lines, j, true);
          ContinuationIsNoFrom(lines[j]);
          j := j + 1;
        }
        RewrittenAfter(repl, lines, j);
        OutNext(out, repl, Rewritten(repl, lines[j..], false));
        out := out + [repl];
        if line != repl {
          changed := true;
        }
        i := j;
        continue;
      }
      OutNext(out, line, Rewritten(repl, lines[i + 1..], false));
      out := out + [line];
      i := i + 1;
    }
    RewrittenNone(repl, lines);
    assert lines[..|lines|] == lines && (found ==> out == Output(repl, lines)) && (!found ==> out == lines);
    if !found {
      out := [repl] + out;
      changed := true;
    }
    r := Some(Result(Join(out, cut.value.nl) + raw[cut.value.at..], changed));
  }

  lemma OutNext(out: seq<Text>, line: Text, rest: seq<Text>)
    ensures out + ([line] + rest) == (out + [line]) + rest
  {
  }

  lemma RewrittenNone(repl: Text, lines: seq<Text>)
    ensures Rewritten(repl, lines[|lines|..], false) == []
  {
  }

  // -------------------------------------------------- what the rewrite keeps

  /** The lines that belong to no From field; `inFrom` as above. */
  function Others(lines: seq<Text>, inFrom: bool): seq<Text> {
    if lines == [] then []
    else if IsFrom(lines[0]) then Others(lines[1..], true)
    else if inFrom && IsContinuation(lines[0]) then Others(lines[1..], true)
    else [lines[0]] + Others(lines[1..], false)
  }

  function CountFrom(lines: seq<Text>): nat {
    if lines == [] then 0 else (if IsFrom(lines[0]) then 1 else 0) + CountFrom(lines[1..])
  }

  predicate NoNewlines(s: Text) { forall k :: 0 <= k < |s| ==> !IsNewline(s[k]) }

  lemma ReplacementIsFrom(newFrom: Text)
    ensures IsFrom(Replacement(newFrom)) && !IsContinuation(Replacement(newFrom))
    ensures NoNewlines(newFrom) ==> NoNewlines(Replacement(newFrom))
  {
    var s := Replacement(newFrom);
    assert s[..5] == "From:";
    assert Lower(s)[..5] == "from:";
  }

  predicate StartsField(lines: seq<Text>) { lines == [] || !IsContinuation(lines[0]) }

  /** All other lines stay, in order; each From line stays one line, now the replacement. */
  lemma {:induction false} RewrittenKeeps(repl: Text, lines: seq<Text>, inFrom: bool)
    requires IsFrom(repl) && !IsContinuation(repl)
    ensures var out := Rewritten(repl, lines, inFrom);
            && Others(out, false) == Others(lines, inFrom)
            && AllFrom(repl, out) && CountFrom(out) == CountFrom(lines)
            && (inFrom ==> StartsField(out))
    decreases |lines|
  {
    hide IsFrom, IsContinuation;
    if lines != [] {
      RewrittenKeeps(repl, lines[1..], true);
      RewrittenKeeps(repl, lines[1..], false);
      var out := Rewritten(repl, lines, inFrom);
      if IsFrom(lines[0]) || !inFrom || !IsContinuation(lines[0]) {
        assert out[1..] == Rewritten(repl, lines[1..], IsFrom(lines[0]));
      }
      if IsFrom(lines[0]) {
        HeadIsFree(out[1..]);
      }
    }
  }

  lemma HeadIsFree(lines: seq<Text>)
    requires StartsField(lines)
    ensures Others(lines, true) == Others(lines, false)
  {
    hide IsFrom;
  }

  /** Lines that are already rewritten stay as they are. */
  lemma {:induction false} RewrittenTwice(repl: Text, lines: seq<Text>, inFrom: bool)
    requires IsFrom(repl) && !IsContinuation(repl)
    ensures var out := Rewritten(repl, lines, inFrom); Rewritten(repl, out, inFrom) == out
    decreases |lines|
  {
    hide IsFrom, IsContinuation;
    if lines != [] {
      var out := Rewritten(repl, lines, inFrom);
      RewrittenTwice(repl, lines[1..], true);
      RewrittenTwice(repl, lines[1..], false);
      if IsFrom(lines[0]) || !inFrom || !IsContinuation(lines[0]) {
        assert out[1..] == Rewritten(repl, lines[1..], IsFrom(lines[0]));
      }
    }
  }

  // ----------------------------------------------- newlines stay where they are

  /** The number of newline bytes a text starts with. */
  function Breaks(s: Text): nat
    ensures Breaks(s) <= |s|
  {
    Run(IsNewline, s, 0)
  }

  /** Both texts start with the same newline bytes. */
  predicate SameBreaks(x: Text, y: Text) { Breaks(x) == Breaks(y) && x[..Breaks(x)] == y[..Breaks(y)] }

  lemma BreaksJoin(a: Text, x: Text)
    ensures Breaks(a + x) == if Breaks(a) == |a| then |a| + Breaks(x) else Breaks(a)
  {
    var n := if Breaks(a) == |a| then |a| + Breaks(x) else Breaks(a);
    forall k | 0 <= k < n ensures IsNewline((a + x)[k]) {
      if k < |a| { assert (a + x)[k] == a[k]; } else { assert (a + x)[k] == x[k - |a|]; }
    }
    if n < |a + x| {
      assert !IsNewline((a + x)[n]) by {
        if n < |a| { assert (a + x)[n] == a[n]; } else { assert (a + x)[n] == x[n - |a|]; }
      }
    }
    RunIs(IsNewline, a + x, 0, n);
  }

  lemma SameBreaksJoin(a: Text, x: Text, y: Text)
    requires SameBreaks(x, y)
    ensures SameBreaks(a + x, a + y)
  {
    BreaksJoin(a, x);
    BreaksJoin(a, y);
    if Breaks(a) == |a| {
      var n := Breaks(x);
      assert (a + x)[..|a| + n] == a + x[..n] && (a + y)[..|a| + n] == a + y[..n];
    } else {
      var n := Breaks(a);
      assert (a + x)[..n] == a[..n] && (a + y)[..n] == a[..n];
    }
  }

  predicate AllNewlines(s: Text) { forall k :: 0 <= k < |s| ==> IsNewline(s[k]) }

  /** A pattern of newlines that starts in a sees of what follows only the newlines. */
  lemma StandsAcross(a: Text, x: Text, y: Text, p: nat, pat: Text)
    requires p < |a| && AllNewlines(pat) && SameBreaks(x, y)
    requires StandsAt(a + x, p, pat)
    ensures StandsAt(a + y, p, pat)
  {
    var n := Breaks(x);
    var e := Run(IsNewline, a + x, p);
    assert n < |x| ==> (a + x)[|a| + n] == x[n];
    forall k | p <= k < p + |pat| ensures IsNewline((a + x)[k]) {
      assert (a + x)[p + (k - p)] == pat[k - p];
    }
    assert p + |pat| <= e <= |a| + n;
    forall k | 0 <= k < |pat| ensures (a + y)[p + k] == pat[k] {
      assert (a + x)[p + k] == pat[k];
      if p + k >= |a| {
        assert x[..n][p + k - |a|] == y[..n][p + k - |a|];
      }
    }
  }

  lemma {:induction false} GlueSize(nl: Text, lines: seq<Text>, body: Text)
    ensures |Glue(nl, lines, body)| >= |body|
    decreases |lines|
  {
    if lines != [] {
      GlueSize(nl, lines[1..], body);
    }
  }

  /** A replacement: a From line without newlines. */
  predicate IsReplacement(repl: Text) {
    IsFrom(repl) && !IsContinuation(repl) && repl != [] && NoNewlines(repl)
  }

  /** A run of newlines that is longer than, or other than, one separator. */
  predicate IsPattern(pat: Text, nl: Text) {
    AllNewlines(pat) && |pat| >= 2 && IsSeparator(nl) && pat != nl
  }

  lemma FromStarts(line: Text)
    requires IsFrom(line)
    ensures line != [] && !IsNewline(line[0])
  {
    assert Lower(line)[0] == 'f';
  }

  lemma NoBreaks(s: Text)
    requires s != [] && !IsNewline(s[0])
    ensures Breaks(s) == 0
  {
  }

  lemma {:induction false} GlueBreaks(nl: Text, repl: Text, lines: seq<Text>, body: Text)
    requires IsReplacement(repl)
    ensures SameBreaks(Glue(nl, Rewritten(repl, lines, false), body), Glue(nl, lines, body))
    decreases |lines|
  {
    hide IsFrom, IsContinuation, SameBreaks;
    if lines == [] {
      SameBreaksSelf(body);
    } else {
      var rest := lines[1..];
      var x, y := Glue(nl, Rewritten(repl, rest, IsFrom(lines[0])), body), Glue(nl, rest, body);
      assert Rewritten(repl, lines, false)[1..] == Rewritten(repl, rest, IsFrom(lines[0]));
      if IsFrom(lines[0]) {
        FromStarts(lines[0]);
        NoBreaks(repl + x);
        NoBreaks(lines[0] + y);
        SameBreaksNone(repl + x, lines[0] + y);
        SameBreaksJoin(nl, repl + x, lines[0] + y);
        assert nl + (repl + x) == nl + repl + x && nl + (lines[0] + y) == nl + lines[0] + y;
      } else {
        GlueBreaks(nl, repl, rest, body);
        SameBreaksJoin(nl + lines[0], x, y);
      }
    }
  }

  lemma SameBreaksSelf(s: Text)
    ensures SameBreaks(s, s)
  {
  }

  lemma SameBreaksNone(x: Text, y: Text)
    requires Breaks(x) == 0 && Breaks(y) == 0
    ensures SameBreaks(x, y)
  {
  }

  /** No such run starts in a separator that a line without newlines follows, nor in that line. */
  lemma NotInField(nl: Text, line: Text, x: Text, p: nat, pat: Text)
    requires IsPattern(pat, nl) && line != [] && NoNewlines(line)
    ensures StandsAt(nl + line + x, p, pat) ==> p >= |nl + line|
  {
    var s := nl + line + x;
    assert forall k :: 0 <= k < |line| ==> s[|nl| + k] == line[k];
    if p < |nl + line| {
      if p >= |nl| {
        assert s[p + 0] == line[p - |nl|];
        assert !IsNewline(s[p]) && IsNewline(pat[0]);
      } else if p + |pat| <= |nl| {
        assert p == 0 && |pat| == 2 == |nl|;
        assert s[0] == nl[0] && s[1] == nl[1];
        assert pat == [pat[0], pat[1]] && nl == [nl[0], nl[1]];
        assert s[p + 0] == s[0] && s[p + 1] == s[1];
      } else {
        var k := |nl| - p;
        assert s[p + k] == line[0];
        assert !IsNewline(s[p + k]) && IsNewline(pat[k]);
      }
    }
  }

  /** A run of newlines in the rewritten text stands in the original text as well. */
  lemma {:induction false} Traced(pat: Text, nl: Text, repl: Text, lines: seq<Text>, inFrom: bool, body: Text, p: nat)
    returns (q: nat)
    requires IsPattern(pat, nl) && IsReplacement(repl)
    requires var t := Glue(nl, Rewritten(repl, lines, inFrom), body); p + |body| < |t| && StandsAt(t, p, pat)
    ensures var t := Glue(nl, lines, body); q + |body| < |t| && StandsAt(t, q, pat)
    decreases |lines|
  {
    hide IsFrom, IsContinuation, StandsAt, IsPattern;
    var line, rest := lines[0], lines[1..];
    var tail := Glue(nl, rest, body);
    var out := Rewritten(repl, lines, inFrom);
    if !IsFrom(line) && inFrom && IsContinuation(line) {
      q := Traced(pat, nl, repl, rest, true, body, p);
      StandsInTail(nl + line, tail, q + |nl + line|, pat);
      q := q + |nl + line|;
    } else {
      var first := if IsFrom(line) then repl else line;
      assert out[1..] == Rewritten(repl, rest, IsFrom(line));
      var newTail := Glue(nl, out[1..], body);
      if IsFrom(line) {
        NotInField(nl, repl, newTail, p, pat);
      }
      if p >= |nl + first| {
        StandsInTail(nl + first, newTail, p, pat);
        q := Traced(pat, nl, repl, rest, IsFrom(line), body, p - |nl + first|);
        StandsInTail(nl + line, tail, q + |nl + line|, pat);
        q := q + |nl + line|;
      } else {
        GlueBreaks(nl, repl, rest, body);
        PatternBreaks(pat, nl);
        StandsAcross(nl + line, newTail, tail, p, pat);
        GlueSize(nl, rest, body);
        q := p;
      }
    }
  }

  lemma PatternBreaks(pat: Text, nl: Text)
    requires IsPattern(pat, nl)
    ensures AllNewlines(pat) && pat != []
  {
  }

  // ------------------------------------------------------- the second time

  /** As above, for a whole message. */
  lemma TracedMessage(pat: Text, nl: Text, repl: Text, lines: seq<Text>, body: Text, p: nat) returns (q: nat)
    requires IsPattern(pat, nl) && IsReplacement(repl) && lines != []
    requires var h := Join(Rewritten(repl, lines, false), nl); p < |h| && StandsAt(h + body, p, pat)
    ensures var h := Join(lines, nl); q < |h| && StandsAt(h + body, q, pat)
  {
    hide IsFrom, IsContinuation, StandsAt, IsPattern, Join;
    var line, rest := lines[0], lines[1..];
    var out := Rewritten(repl, lines, false);
    assert out[1..] == Rewritten(repl, rest, IsFrom(line));
    JoinBody(nl, lines, body);
    JoinBody(nl, out, body);
    var newTail, tail := Glue(nl, out[1..], body), Glue(nl, rest, body);
    GlueSize(nl, rest, body);
    if IsFrom(line) {
      NotAtStart(repl, newTail, p, pat, nl);
    }
    if p >= |out[0]| {
      StandsInTail(out[0], newTail, p, pat);
      q := Traced(pat, nl, repl, rest, IsFrom(line), body, p - |out[0]|);
      StandsInTail(line, tail, q + |line|, pat);
      q := q + |line|;
    } else {
      GlueBreaks(nl, repl, rest, body);
      PatternBreaks(pat, nl);
      StandsAcross(line, newTail, tail, p, pat);
      q := p;
    }
  }

  lemma NotAtStart(line: Text, x: Text, p: nat, pat: Text, nl: Text)
    requires IsPattern(pat, nl) && NoNewlines(line)
    ensures StandsAt(line + x, p, pat) ==> p >= |line|
  {
    if p < |line| {
      assert (line + x)[p + 0] == line[p];
      assert !IsNewline((line + x)[p + 0]) && IsNewline(pat[0]);
    }
  }

  /** The rewritten header brings no run of newlines that the original did not have. */
  lemma NoneAppear(pat: Text, nl: Text, repl: Text, lines: seq<Text>, body: Text)
    requires IsPattern(pat, nl) && IsReplacement(repl) && lines != []
    requires NoneBefore(Join(lines, nl) + body, pat, |Join(lines, nl)|)
    ensures var h := Join(Rewritten(repl, lines, false), nl); NoneBefore(h + body, pat, |h|)
  {
    hide IsFrom, IsContinuation, StandsAt, IsPattern, Join, Rewritten, IsReplacement;
    var h := Join(Rewritten(repl, lines, false), nl);
    forall p | 0 <= p < |h| ensures !StandsAt(h + body, p, pat) {
      if StandsAt(h + body, p, pat) {
        var q := TracedMessage(pat, nl, repl, lines, body, p);
        assert false;
      }
    }
  }

  lemma Patterns(nl: Text)
    requires IsSeparator(nl)
    ensures IsPattern(CRLF_CRLF, nl) && IsPattern(LF_LF, nl) && (nl == LF ==> IsPattern(CRLF, nl))
  {
  }

  /** Where the cut of a text is, told by where its runs of newlines are. */
  lemma CutIs(h: Text, body: Text)
    requires || (StandsAt(body, 0, CRLF_CRLF) && NoneBefore(h + body, CRLF_CRLF, |h|))
             || (NoneBefore(h + body, CRLF_CRLF, |h + body|)
                 && StandsAt(body, 0, LF_LF) && NoneBefore(h + body, LF_LF, |h|))
    ensures CutOf(h + body) == Some(Cut(|h|, if Index(h, CRLF) >= 0 then CRLF else LF))
  {
    hide StandsAt, NoneBefore, Index;
    assert (h + body)[..|h|] == h;
    StandsInTail(h, body, |h|, CRLF_CRLF);
    StandsInTail(h, body, |h|, LF_LF);
    if StandsAt(body, 0, CRLF_CRLF) && NoneBefore(h + body, CRLF_CRLF, |h|) {
      IndexIs(h + body, CRLF_CRLF, |h|);
    } else {
      IndexNone(h + body, CRLF_CRLF);
      IndexIs(h + body, LF_LF, |h|);
    }
  }

  /** The same read off a cut that is known. */
  lemma CutTells(raw: Text, c: Cut)
    requires CutOf(raw) == Some(c)
    ensures var h, body := raw[..c.at], raw[c.at..];
            && raw == h + body
            && (|| (StandsAt(body, 0, CRLF_CRLF) && NoneBefore(raw, CRLF_CRLF, |h|))
                || (NoneBefore(raw, CRLF_CRLF, |raw|) && StandsAt(body, 0, LF_LF) && NoneBefore(raw, LF_LF, |h|)))
            && (c.nl == LF ==> NoneBefore(h, CRLF, |h|))
            && (c.nl == CRLF ==> Index(h, CRLF) >= 0)
            && (Index(raw, CRLF_CRLF) >= 0 ==> StandsAt(body, 0, CRLF_CRLF) && NoneBefore(raw, CRLF_CRLF, |h|))
            && (Index(raw, CRLF_CRLF) < 0 ==>
                  && NoneBefore(raw, CRLF_CRLF, |raw|)
                  && StandsAt(body, 0, LF_LF) && NoneBefore(raw, LF_LF, |h|))
  {
    hide StandsAt, NoneBefore, Index;
    var h, body := raw[..c.at], raw[c.at..];
    assert raw == h + body;
    StandsInTail(h, body, |h|, CRLF_CRLF);
    StandsInTail(h, body, |h|, LF_LF);
  }

  /** Rewriting a text that is already rewritten, cut where the rewritten header ends. */
  lemma SecondTime(h: Text, out: seq<Text>, nl: Text, body: Text, newFrom: Text)
    requires IsSeparator(nl) && out != [] && LacksAll(out, nl) && h == Join(out, nl)
    requires CutOf(h + body) == Some(Cut(|h|, nl)) && HasFrom(out) && AllFrom(Replacement(newFrom), out)
    ensures Rewrite(h + body, newFrom)
         == Some(Result(Join(Rewritten(Replacement(newFrom), out, false), nl) + body, false))
  {
    hide Join, Split, CutOf, Rewritten, IsFrom, LacksAll, AllFrom, HasFrom;
    JoinSplits(out, nl);
    assert (h + body)[..|h|] == h && (h + body)[|h|..] == body;
  }

  lemma LacksNewlines(s: Text, nl: Text)
    requires NoNewlines(s) && IsSeparator(nl)
    ensures NoneBefore(s, nl, |s|)
  {
    forall k | 0 <= k < |s| ensures !StandsAt(s, k, nl) {
      assert !IsNewline(s[k + 0]) && IsNewline(nl[0]);
    }
  }

  lemma {:induction false} RewrittenLacks(repl: Text, lines: seq<Text>, inFrom: bool, nl: Text)
    requires LacksAll(lines, nl) && NoNewlines(repl) && IsSeparator(nl)
    ensures LacksAll(Rewritten(repl, lines, inFrom), nl)
    decreases |lines|
  {
    hide IsFrom, IsContinuation, NoneBefore;
    if lines != [] {
      var rest := lines[1..];
      forall k | 0 <= k < |rest| ensures NoneBefore(rest[k], nl, |rest[k]|) { assert rest[k] == lines[k + 1]; }
      RewrittenLacks(repl, rest, true, nl);
      RewrittenLacks(repl, rest, false, nl);
      LacksNewlines(repl, nl);
      assert NoneBefore(lines[0], nl, |lines[0]|);
    }
  }

  lemma JoinHas(lines: seq<Text>, nl: Text)
    requires |lines| >= 2 && IsSeparator(nl)
    ensures Index(Join(lines, nl), nl) >= 0
  {
    hide Index;
    var rest := lines[1..];
    assert lines == [lines[0]] + rest;
    JoinNext(lines[0], rest, nl);
    StandsInTail(lines[0], nl + Join(rest, nl), |lines[0]|, nl);
    assert StandsAt(nl + Join(rest, nl), 0, nl);
    assert StandsAt(Join(lines, nl), |lines[0]|, nl);
  }

  lemma NoneInTail(h: Text, other: Text, body: Text, pat: Text)
    requires pat != [] && NoneBefore(other + body, pat, |other + body|) && NoneBefore(h + body, pat, |h|)
    ensures NoneBefore(h + body, pat, |h + body|)
  {
    forall k | 0 <= k < |h + body| ensures !StandsAt(h + body, k, pat) {
      if k >= |h| {
        StandsInTail(h, body, k, pat);
        StandsInTail(other, body, k - |h| + |other|, pat);
        assert !StandsAt(other + body, k - |h| + |other|, pat);
      }
    }
  }

  lemma RewrittenFound(repl: Text, lines: seq<Text>)
    requires HasFrom(lines) && IsFrom(repl)
    ensures var out := Rewritten(repl, lines, false); HasFrom(out) && (|out| == 1 ==> out == [repl])
    decreases |lines|
  {
    hide IsFrom, IsContinuation;
    var out := Rewritten(repl, lines, false);
    if IsFrom(lines[0]) {
      assert out[0] == repl;
    } else {
      var k :| 0 <= k < |lines| && IsFrom(lines[k]);
      assert lines[1..][k - 1] == lines[k];
      RewrittenFound(repl, lines[1..]);
      var j :| 0 <= j < |out[1..]| && IsFrom(out[1..][j]);
      assert out[j + 1] == out[1..][j];
    }
  }

  /** The cut of the rewritten text, when what was before the body has been rewritten line by line. */
  lemma FoundCut(raw: Text, c: Cut, lines: seq<Text>, repl: Text, out: seq<Text>) returns (nl: Text)
    requires CutOf(raw) == Some(c) && lines == LinesOf(raw, c) && HasFrom(lines)
    requires IsReplacement(repl) && out == Rewritten(repl, lines, false)
    ensures IsSeparator(nl) && out != [] && LacksAll(out, nl) && HasFrom(out)
    ensures Join(out, nl) == Join(out, c.nl)
    ensures CutOf(Join(out, c.nl) + raw[c.at..]) == Some(Cut(|Join(out, c.nl)|, nl))
  {
    hide Join, CutOf, Rewritten, IsFrom, IsContinuation, StandsAt, IsPattern, LacksAll, NoneBefore, Index, Split;
    var h, body := Join(out, c.nl), raw[c.at..];
    SplitJoins(raw[..c.at], c.nl);
    SplitLacks(raw[..c.at], c.nl);
    RewrittenFound(repl, lines);
    CutTells(raw, c);
    Patterns(c.nl);
    if Index(raw, CRLF_CRLF) >= 0 {
      NoneAppear(CRLF_CRLF, c.nl, repl, lines, body);
    } else {
      NoneFromAll(raw, CRLF_CRLF, |raw[..c.at]|);
      NoneAppear(CRLF_CRLF, c.nl, repl, lines, body);
      NoneInTail(h, raw[..c.at], body, CRLF_CRLF);
      NoneAppear(LF_LF, c.nl, repl, lines, body);
    }
    CutIs(h, body);
    nl := if Index(h, CRLF) >= 0 then CRLF else LF;
    RewrittenLacks(repl, lines, false, c.nl);
    if c.nl == LF {
      assert raw[..c.at] + [] == raw[..c.at] && h + [] == h;
      NoneAppear(CRLF, LF, repl, lines, []);
      IndexNone(h, CRLF);
    } else if |out| >= 2 {
      JoinHas(out, CRLF);
    } else {
      OneLine(repl, nl);
      OneLine(repl, c.nl);
    }
  }

  lemma NoneFromAll(s: Text, pat: Text, p: nat)
    requires NoneBefore(s, pat, |s|) && p <= |s|
    ensures NoneBefore(s, pat, p)
  {
  }

  lemma OneLine(repl: Text, nl: Text)
    requires NoNewlines(repl) && IsSeparator(nl)
    ensures Join([repl], nl) == repl && LacksAll([repl], nl)
  {
    JoinOne(repl, nl);
    LacksNewlines(repl, nl);
  }

  predicate Idempotent(raw: Text, newFrom: Text)
    requires Rewrite(raw, newFrom).Some?
  {
    var once := Rewrite(raw, newFrom).value.text;
    Rewrite(once, newFrom) == Some(Result(once, false))
  }

  lemma FoundIdempotent(raw: Text, newFrom: Text, c: Cut)
    requires NoNewlines(newFrom) && CutOf(raw) == Some(c) && HasFrom(LinesOf(raw, c))
    ensures Idempotent(raw, newFrom)
  {
    hide Join, CutOf, Rewritten, IsFrom, IsContinuation, LacksAll, Index, Split, HasFrom, AllFrom;
    var repl, lines := Replacement(newFrom), LinesOf(raw, c);
    ReplacementIsFrom(newFrom);
    var out := Rewritten(repl, lines, false);
    var nl := FoundCut(raw, c, lines, repl, out);
    RewrittenKeeps(repl, lines, false);
    RewrittenTwice(repl, lines, false);
    SecondTime(Join(out, c.nl), out, nl, raw[c.at..], newFrom);
  }

  // ------------------------------------------- when no From line was found

  /** The rewritten text is the replacement and a separator in front of the original. */
  lemma PrependedText(raw: Text, c: Cut, repl: Text)
    requires CutOf(raw) == Some(c)
    ensures Join([repl] + LinesOf(raw, c), c.nl) == repl + (c.nl + raw[..c.at])
    ensures Join([repl] + LinesOf(raw, c), c.nl) + raw[c.at..] == repl + (c.nl + raw)
  {
    hide Join, CutOf, Split;
    SplitJoins(raw[..c.at], c.nl);
    JoinNext(repl, LinesOf(raw, c), c.nl);
    assert raw == raw[..c.at] + raw[c.at..];
    assert repl + (c.nl + raw[..c.at]) + raw[c.at..] == repl + (c.nl + (raw[..c.at] + raw[c.at..]));
  }

  lemma NoneInFront(repl: Text, nl: Text, raw: Text, pat: Text, at: nat)
    requires NoNewlines(repl) && IsSeparator(nl) && pat != [] && AllNewlines(pat)
    requires NoneBefore(raw, pat, at) && NoneBefore(nl + raw, pat, |nl|)
    ensures NoneBefore(repl + (nl + raw), pat, |repl + nl| + at)
  {
    var t := repl + (nl + raw);
    forall k | 0 <= k < |repl + nl| + at ensures !StandsAt(t, k, pat) {
      if k < |repl| {
        assert t[k + 0] == repl[k] && !IsNewline(t[k + 0]) && IsNewline(pat[0]);
      } else {
        StandsInTail(repl, nl + raw, k, pat);
        if k < |repl + nl| {
          assert !StandsAt(nl + raw, k - |repl|, pat);
        } else {
          StandsInTail(nl, raw, k - |repl|, pat);
          assert !StandsAt(raw, k - |repl| - |nl|, pat);
        }
      }
    }
  }

  predicate StartsCrlf(raw: Text) { |raw| >= 2 && raw[0] == '\r' && raw[1] == '\n' }

  predicate StartsLf(raw: Text) { raw != [] && raw[0] == '\n' }

  lemma NoCrlfStraddles(nl: Text, raw: Text)
    requires IsSeparator(nl) && !(nl == CRLF && StartsCrlf(raw))
    ensures NoneBefore(nl + raw, CRLF_CRLF, |nl|) && (nl == LF ==> NoneBefore(nl + raw, CRLF, |nl|))
  {
    var t := nl + raw;
    forall k | 0 <= k < |nl| ensures !StandsAt(t, k, CRLF_CRLF) && (nl == LF ==> !StandsAt(t, k, CRLF)) {
      assert t[k + 0] == nl[k];
      if nl == CRLF && k == 0 && |t| >= 4 {
        assert t[k + 2] == raw[0] && t[k + 3] == raw[1];
        assert CRLF_CRLF[2] == '\r' && CRLF_CRLF[3] == '\n';
      } else if nl == LF || k == 1 {
        assert t[k + 0] == '\n' && CRLF_CRLF[0] == '\r' && CRLF[0] == '\r';
      }
    }
  }

  lemma NoLfStraddles(nl: Text, raw: Text)
    requires IsSeparator(nl) && !StartsLf(raw)
    ensures NoneBefore(nl + raw, LF_LF, |nl|)
  {
    var t := nl + raw;
    forall k | 0 <= k < |nl| ensures !StandsAt(t, k, LF_LF) {
      assert t[k + 0] == nl[k] && LF_LF[0] == '\n' && LF_LF[1] == '\n';
      if k == |nl| - 1 && raw != [] {
        assert t[k + 1] == raw[0];
      }
    }
  }

  /** Nothing runs together at the front: the second cut is where the first one was. */
  lemma PrependedCut(raw: Text, c: Cut, repl: Text)
    requires CutOf(raw) == Some(c) && IsReplacement(repl)
    requires !(c.nl == CRLF && StartsCrlf(raw)) && (Index(raw, CRLF_CRLF) >= 0 || !StartsLf(raw))
    ensures var h := repl + (c.nl + raw[..c.at]); CutOf(h + raw[c.at..]) == Some(Cut(|h|, c.nl))
  {
    hide CutOf, IsFrom, IsContinuation, NoneBefore, Index, StandsAt, StartsCrlf, StartsLf;
    var h, body := repl + (c.nl + raw[..c.at]), raw[c.at..];
    CutTells(raw, c);
    NoCrlfStraddles(c.nl, raw);
    assert repl + (c.nl + raw) == h + body;
    if Index(raw, CRLF_CRLF) >= 0 {
      NoneInFront(repl, c.nl, raw, CRLF_CRLF, c.at);
    } else {
      NoneInFront(repl, c.nl, raw, CRLF_CRLF, |raw|);
      NoLfStraddles(c.nl, raw);
      NoneInFront(repl, c.nl, raw, LF_LF, c.at);
    }
    CutIs(h, body);
    if c.nl == LF {
      FrontOf(raw, c.at, LF, CRLF);
      NoneInFront(repl, LF, raw[..c.at], CRLF, c.at);
      IndexNone(h, CRLF);
    } else {
      assert h == repl + (CRLF + raw[..c.at]);
      HasSeparator(repl, raw[..c.at]);
    }
  }

  lemma HasSeparator(repl: Text, rest: Text)
    ensures Index(repl + (CRLF + rest), CRLF) >= 0
  {
    hide Index;
    StandsInTail(repl, CRLF + rest, |repl|, CRLF);
    assert StandsAt(CRLF + rest, 0, CRLF);
    assert StandsAt(repl + (CRLF + rest), |repl|, CRLF);
  }

  lemma FrontOf(raw: Text, at: nat, nl: Text, pat: Text)
    requires at <= |raw| && nl == LF && pat == CRLF
    ensures NoneBefore(nl + raw[..at], pat, |nl|)
  {
    assert (nl + raw[..at])[0 + 0] == '\n' && pat[0] == '\r';
  }

  /** An empty first line: the second cut is right behind the replacement, and nothing changes. */
  lemma EmptyFirstLine(raw: Text, c: Cut, newFrom: Text)
    requires CutOf(raw) == Some(c) && NoNewlines(newFrom)
    requires (c.nl == CRLF && StartsCrlf(raw)) || (c.nl == LF && StartsLf(raw) && Index(raw, CRLF_CRLF) < 0)
    ensures var t := Replacement(newFrom) + (c.nl + raw); Rewrite(t, newFrom) == Some(Result(t, false))
  {
    hide CutOf, IsFrom, IsContinuation, NoneBefore, Index, Join, Split;
    var repl := Replacement(newFrom);
    ReplacementIsFrom(newFrom);
    var rest := c.nl + raw;
    assert NoneBefore(repl + rest, CRLF_CRLF, |repl|) && NoneBefore(repl + rest, LF_LF, |repl|) by {
      NothingInReplacement(repl, rest);
    }
    if c.nl == CRLF {
      assert rest[0] == '\r' && rest[1] == '\n' && rest[2] == raw[0] && rest[3] == raw[1];
      assert StandsAt(rest, 0, CRLF_CRLF);
    } else {
      assert rest[0] == '\n' && rest[1] == raw[0];
      assert StandsAt(rest, 0, LF_LF);
      CutTells(raw, c);
      NoCrlfStraddles(c.nl, raw);
      NoneInFront(repl, c.nl, raw, CRLF_CRLF, |raw|);
    }
    CutIs(repl, rest);
    LacksNewlines(repl, CRLF);
    IndexNone(repl, CRLF);
    OneLine(repl, LF);
    assert HasFrom([repl]) by { assert IsFrom([repl][0]); }
    SecondTime(repl, [repl], LF, rest, newFrom);
    assert Rewritten(repl, [repl], false) == [repl] by { assert [repl][1..] == []; }
  }

  lemma NothingInReplacement(repl: Text, rest: Text)
    requires NoNewlines(repl)
    ensures NoneBefore(repl + rest, CRLF_CRLF, |repl|) && NoneBefore(repl + rest, LF_LF, |repl|)
  {
    forall k | 0 <= k < |repl| ensures !StandsAt(repl + rest, k, CRLF_CRLF) && !StandsAt(repl + rest, k, LF_LF) {
      assert (repl + rest)[k + 0] == repl[k] && !IsNewline(repl[k]);
      assert CRLF_CRLF[0] == '\r' && LF_LF[0] == '\n';
    }
  }

  /** A first line that begins with LF, where lines end in CRLF: the second cut splits the new CRLF. */
  lemma LineFeedFirst(raw: Text, c: Cut, newFrom: Text)
    requires CutOf(raw) == Some(c) && NoNewlines(newFrom)
    requires c.nl == CRLF && StartsLf(raw) && Index(raw, CRLF_CRLF) < 0
    ensures var t := Replacement(newFrom) + (c.nl + raw); Rewrite(t, newFrom).Some? && Rewrite(t, newFrom).value.changed
  {
    hide CutOf, IsContinuation, NoneBefore, Index, Join, Split;
    var repl := Replacement(newFrom);
    ReplacementIsFrom(newFrom);
    var h, body := repl + ['\r'], ['\n'] + raw;
    var t := repl + (CRLF + raw);
    assert h + body == t;
    CutTells(raw, c);
    NoCrlfStraddles(CRLF, raw);
    NoneInFront(repl, CRLF, raw, CRLF_CRLF, |raw|);
    NoLfInLine(repl, body);
    assert StandsAt(body, 0, LF_LF) by { assert body[0] == '\n' && body[1] == raw[0]; }
    CutIs(h, body);
    NoCrlfInLine(repl);
    assert t[..|h|] == h;
    LineLacks(repl);
    assert Split(h, LF) == [h] by { JoinOne(h, LF); JoinSplits([h], LF); }
    assert IsFrom(h) by { assert Lower(h)[..5] == Lower(repl)[..5]; }
    assert [h][0] == h != repl;
  }

  lemma NoLfInLine(repl: Text, body: Text)
    requires NoNewlines(repl)
    ensures NoneBefore(repl + ['\r'] + body, LF_LF, |repl| + 1)
  {
    var s := repl + ['\r'] + body;
    forall k | 0 <= k < |repl| + 1 ensures !StandsAt(s, k, LF_LF) {
      assert s[k + 0] == (repl + ['\r'])[k] && LF_LF[0] == '\n';
      assert k < |repl| ==> s[k] == repl[k] && !IsNewline(repl[k]);
    }
  }

  lemma NoCrlfInLine(repl: Text)
    requires NoNewlines(repl)
    ensures Index(repl + ['\r'], CRLF) < 0
  {
    var s := repl + ['\r'];
    forall k | 0 <= k < |s| ensures !StandsAt(s, k, CRLF) {
      assert k < |repl| ==> s[k + 0] == repl[k] && !IsNewline(repl[k]) && IsNewline(CRLF[0]);
    }
    IndexNone(s, CRLF);
  }

  lemma LineLacks(repl: Text)
    requires NoNewlines(repl)
    ensures LacksAll([repl + ['\r']], LF)
  {
    var s := repl + ['\r'];
    forall k | 0 <= k < |s| ensures !StandsAt(s, k, LF) {
      assert k < |repl| ==> s[k + 0] == repl[k] && !IsNewline(repl[k]);
      assert LF[0] == '\n' && s[k + 0] != '\n';
    }
  }

  /** The first line is a continuation when the text starts with a blank. */
  lemma FirstByte(raw: Text, c: Cut)
    requires CutOf(raw) == Some(c)
    ensures raw != [] && (IsContinuation(LinesOf(raw, c)[0]) <==> raw[0] == ' ' || raw[0] == '\t')
  {
    hide CutOf, Index, Join, Split, NoneBefore;
    CutTells(raw, c);
    var lines, body := LinesOf(raw, c), raw[c.at..];
    assert body != [] && IsNewline(body[0]) by {
      if StandsAt(body, 0, CRLF_CRLF) { assert body[0 + 0] == CRLF_CRLF[0]; } else { assert body[0 + 0] == LF_LF[0]; }
    }
    SplitJoins(raw[..c.at], c.nl);
    JoinBody(c.nl, lines, body);
    if lines[0] == [] {
      if |lines| > 1 {
        assert raw[0] == c.nl[0];
      } else {
        assert raw == [] + body == body;
      }
    } else {
      assert raw[0] == lines[0][0];
    }
  }

  lemma NoFromInRest(lines: seq<Text>)
    requires !HasFrom(lines) && lines != []
    ensures !IsFrom(lines[0]) && !HasFrom(lines[1..])
  {
    hide IsFrom;
    forall k | 0 <= k < |lines[1..]| ensures !IsFrom(lines[1..][k]) {
      assert lines[1..][k] == lines[k + 1];
    }
  }

  lemma {:induction false} NoFromStays(repl: Text, lines: seq<Text>)
    requires !HasFrom(lines)
    ensures Rewritten(repl, lines, false) == lines && |Rewritten(repl, lines, true)| <= |lines|
    ensures StartsField(lines) ==> Rewritten(repl, lines, true) == lines
    ensures !StartsField(lines) ==> |Rewritten(repl, lines, true)| < |lines|
    decreases |lines|
  {
    hide IsFrom, IsContinuation;
    if lines != [] {
      NoFromInRest(lines);
      NoFromStays(repl, lines[1..]);
    }
  }

  lemma PrependedLines(repl: Text, lines: seq<Text>, nl: Text)
    requires !HasFrom(lines) && IsReplacement(repl) && LacksAll(lines, nl) && IsSeparator(nl)
    ensures var out := [repl] + lines;
            && HasFrom(out) && AllFrom(repl, out) && LacksAll(out, nl) && LacksAll(Rewritten(repl, out, false), nl)
            && (Rewritten(repl, out, false) == out <==> StartsField(lines))
  {
    hide IsFrom, IsContinuation, NoneBefore;
    var out := [repl] + lines;
    LacksNewlines(repl, nl);
    assert out[1..] == lines && IsFrom(out[0]);
    NoFromStays(repl, lines);
    RewrittenLacks(repl, out, false, nl);
  }

  /** No From line, and the cut stays: all depends on how the first line begins. */
  lemma PrependedIff(raw: Text, c: Cut, newFrom: Text)
    requires CutOf(raw) == Some(c) && NoNewlines(newFrom) && !HasFrom(LinesOf(raw, c))
    requires !(c.nl == CRLF && StartsCrlf(raw)) && (Index(raw, CRLF_CRLF) >= 0 || !StartsLf(raw))
    ensures Idempotent(raw, newFrom) <==> !IsContinuation(LinesOf(raw, c)[0])
  {
    hide CutOf, IsFrom, IsContinuation, NoneBefore, Index, Join, Split, HasFrom, AllFrom, LacksAll, Rewritten,
      StartsCrlf, StartsLf;
    var repl, lines, body := Replacement(newFrom), LinesOf(raw, c), raw[c.at..];
    var out := [repl] + lines;
    ReplacementIsFrom(newFrom);
    SplitLacks(raw[..c.at], c.nl);
    PrependedText(raw, c, repl);
    PrependedCut(raw, c, repl);
    PrependedLines(repl, lines, c.nl);
    var h := Join(out, c.nl);
    SecondTime(h, out, c.nl, body, newFrom);
    var again := Rewritten(repl, out, false);
    if Join(again, c.nl) + body == h + body {
      assert Join(again, c.nl) == h by {
        assert (Join(again, c.nl) + body)[..|h|] == (h + body)[..|h|];
      }
      RewrittenNotEmpty(repl, out);
      JoinSplits(again, c.nl);
      JoinSplits(out, c.nl);
    }
  }

  lemma RewrittenNotEmpty(repl: Text, lines: seq<Text>)
    requires lines != []
    ensures Rewritten(repl, lines, false) != []
  {
    hide IsFrom;
  }

  /**
   * Exactly when rewriting twice is rewriting once, with changed=false: always when a From line was
   * there. Otherwise the header must not start with a blank, which makes its first line a
   * continuation of the new From line, nor with an LF where lines end in CRLF and the message has
   * no CRLF CRLF, where the new line end and that LF are taken for the end of the header.
   */
  lemma IdempotentIff(raw: Text, newFrom: Text, c: Cut)
    requires CutOf(raw) == Some(c) && NoNewlines(newFrom)
    ensures raw != []
    ensures Idempotent(raw, newFrom) <==>
              || HasFrom(LinesOf(raw, c))
              || !(raw[0] == ' ' || raw[0] == '\t' || (raw[0] == '\n' && c.nl == CRLF && Index(raw, CRLF_CRLF) < 0))
  {
    hide CutOf, IsFrom, IsContinuation, NoneBefore, Index, Join, Split, HasFrom, AllFrom, LacksAll, Rewritten;
    FirstByte(raw, c);
    if HasFrom(LinesOf(raw, c)) {
      FoundIdempotent(raw, newFrom, c);
    } else {
      PrependedText(raw, c, Replacement(newFrom));
      if c.nl == CRLF && StartsLf(raw) && Index(raw, CRLF_CRLF) < 0 {
        LineFeedFirst(raw, c, newFrom);
      } else if (c.nl == CRLF && StartsCrlf(raw)) || (c.nl == LF && StartsLf(raw) && Index(raw, CRLF_CRLF) < 0) {
        EmptyFirstLine(raw, c, newFrom);
      } else {
        PrependedIff(raw, c, newFrom);
      }
    }
  }

  /** Such a message: the one header line starts with a blank, and the second rewrite drops it. */
  lemma BlankFirstLine(raw: Text, newFrom: Text)
    requires raw == [' ', 'a'] + LF_LF + ['b'] && NoNewlines(newFrom)
    ensures Rewrite(raw, newFrom).Some? && !Idempotent(raw, newFrom)
  {
    hide IsFrom, IsContinuation, Join, Split, Rewritten, Index, CutOf;
    var h, body: Text := [' ', 'a'], LF_LF + ['b'];
    assert raw == h + body && |raw| == 5 && raw[0] == ' ';
    forall k | 0 <= k < |raw| ensures !StandsAt(raw, k, CRLF_CRLF) { assert raw[k + 0] != CRLF_CRLF[0]; }
    forall k | 0 <= k < 2 ensures !StandsAt(raw, k, LF_LF) { assert raw[k + 0] != LF_LF[0]; }
    forall k | 0 <= k < 2 ensures !StandsAt(h, k, CRLF) { assert h[k + 0] != CRLF[0]; }
    IndexNone(h, CRLF);
    CutIs(h, body);
    var c := Cut(2, LF);
    assert raw[..2] == h;
    OneLineSplit(h);
    IdempotentIff(raw, newFrom, c);
  }

  lemma OneLineSplit(h: Text)
    requires h == [' ', 'a']
    ensures !HasFrom(Split(h, LF))
  {
    forall k | 0 <= k < 2 ensures !StandsAt(h, k, LF) { assert h[k + 0] != LF[0]; }
    JoinOne(h, LF);
    JoinSplits([h], LF);
    assert Lower(h)[0] == ' ';
  }

  // ------------------------------------------------------ the main contract

  /** The body stays, and so does every other header line; From lines become the replacement. */
  lemma RewriteKeeps(raw: Text, newFrom: Text, c: Cut)
    requires CutOf(raw) == Some(c)
    ensures var repl, lines := Replacement(newFrom), LinesOf(raw, c);
            var out := Output(repl, lines);
            && Rewrite(raw, newFrom).Some?
            && Rewrite(raw, newFrom).value.text == Join(out, c.nl) + raw[c.at..]
            && AllFrom(repl, out)
            && CountFrom(out) == (if HasFrom(lines) then CountFrom(lines) else 1)
            && (HasFrom(lines) || StartsField(lines) ==> Others(out, false) == Others(lines, false))
  {
    hide CutOf, IsFrom, IsContinuation, Index, Join, Split, Rewritten;
    var repl, lines := Replacement(newFrom), LinesOf(raw, c);
    ReplacementIsFrom(newFrom);
    if HasFrom(lines) {
      RewrittenKeeps(repl, lines, false);
    } else {
      NoFromCounts(lines);
      assert ([repl] + lines)[1..] == lines;
      if StartsField(lines) {
        HeadIsFree(lines);
      }
    }
  }

  lemma NoFromCounts(lines: seq<Text>)
    requires !HasFrom(lines)
    ensures CountFrom(lines) == 0
    decreases |lines|
  {
    hide IsFrom;
    if lines != [] {
      NoFromInRest(lines);
      NoFromCounts(lines[1..]);
    }
  }

  predicate ContinuedFrom(lines: seq<Text>) {
    exists k :: 0 <= k < |lines| - 1 && IsFrom(lines[k]) && IsContinuation(lines[k + 1])
  }

  lemma {:induction false} RewrittenSame(repl: Text, lines: seq<Text>, inFrom: bool)
    requires AllFrom(repl, lines)
    ensures Rewritten(repl, lines, inFrom) == lines <==>
              !ContinuedFrom(lines) && (inFrom ==> StartsField(lines))
    ensures |Rewritten(repl, lines, inFrom)| <= |lines|
    decreases |lines|
  {
    hide IsFrom, IsContinuation;
    if lines != [] {
      var rest := lines[1..];
      assert AllFrom(repl, rest) by {
        forall k | 0 <= k < |rest| && IsFrom(rest[k]) ensures rest[k] == repl { assert rest[k] == lines[k + 1]; }
      }
      RewrittenSame(repl, rest, true);
      RewrittenSame(repl, rest, false);
      ContinuedNext(lines);
      if IsFrom(lines[0]) {
        assert lines[0] == repl;
        FromIsNoContinuation(lines[0]);
      }
      var out := Rewritten(repl, lines, inFrom);
      if IsFrom(lines[0]) || !inFrom || !IsContinuation(lines[0]) {
        assert out[1..] == Rewritten(repl, rest, IsFrom(lines[0]));
        assert out == lines <==> out[1..] == rest by {
          assert lines == [lines[0]] + rest && out == [lines[0]] + out[1..];
        }
      }
    }
  }

  lemma FromIsNoContinuation(line: Text)
    requires IsFrom(line)
    ensures !IsContinuation(line)
  {
    if IsContinuation(line) {
      ContinuationIsNoFrom(line);
    }
  }

  lemma ContinuedNext(lines: seq<Text>)
    requires lines != []
    ensures ContinuedFrom(lines) <==> ContinuedFrom(lines[1..]) || (IsFrom(lines[0]) && !StartsField(lines[1..]))
  {
    hide IsFrom, IsContinuation;
    var rest := lines[1..];
    if k :| 0 <= k < |lines| - 1 && IsFrom(lines[k]) && IsContinuation(lines[k + 1]) {
      if k > 0 {
        assert rest[k - 1] == lines[k] && rest[k - 1 + 1] == lines[k + 1];
      }
    }
    if k :| 0 <= k < |rest| - 1 && IsFrom(rest[k]) && IsContinuation(rest[k + 1]) {
      assert lines[k + 1] == rest[k] && lines[k + 1 + 1] == rest[k + 1];
    }
    if IsFrom(lines[0]) && !StartsField(rest) {
      assert IsContinuation(lines[0 + 1]);
    }
  }

  /** changed=false tells that the bytes are the same exactly when no From field had a continuation. */
  lemma UnchangedIff(raw: Text, newFrom: Text, c: Cut)
    requires CutOf(raw) == Some(c) && NoNewlines(newFrom) && !Rewrite(raw, newFrom).value.changed
    ensures Rewrite(raw, newFrom).value.text == raw <==> !ContinuedFrom(LinesOf(raw, c))
  {
    hide CutOf, IsFrom, IsContinuation, NoneBefore, Index, Join, Split, LacksAll, Rewritten, ContinuedFrom;
    var repl, lines, body := Replacement(newFrom), LinesOf(raw, c), raw[c.at..];
    ReplacementIsFrom(newFrom);
    var out := Rewritten(repl, lines, false);
    RewrittenSame(repl, lines, false);
    SplitJoins(raw[..c.at], c.nl);
    SplitLacks(raw[..c.at], c.nl);
    RewrittenLacks(repl, lines, false, c.nl);
    assert raw == raw[..c.at] + body;
    if Join(out, c.nl) + body == raw {
      assert Join(out, c.nl) == raw[..c.at] by {
        assert |Join(out, c.nl)| == c.at;
        assert (Join(out, c.nl) + body)[..c.at] == Join(out, c.nl);
      }
      RewrittenNotEmpty(repl, lines);
      JoinSplits(out, c.nl);
    }
  }
}
