/** The From rewrite on whole messages, written out line by line. */
module RewriteMessages {
  import opened Bytes
  import opened RewriteFrom

  /** A header line as a client writes one: not empty, and without CR and LF. */
  predicate IsHeaderLine(line: Text) { line != [] && NoNewlines(line) }

  predicate AreHeaderLines(lines: seq<Text>) { forall k :: 0 <= k < |lines| ==> IsHeaderLine(lines[k]) }

  /** The header lines, an empty line, and the body. */
  function Message(lines: seq<Text>, nl: Text, body: Text): Text { Join(lines, nl) + (nl + nl + body) }

  lemma FromWord(line: Text)
    ensures IsFrom(line) <==> BeginsAnyCase(line, "from:")
  {
    LowerPrefix(line, "from:");
  }

  ghost predicate NoFromWord(lines: seq<Text>) {
    forall k :: 0 <= k < |lines| ==> !BeginsAnyCase(lines[k], "from:")
  }

  lemma NoFromWords(lines: seq<Text>)
    requires NoFromWord(lines)
    ensures !HasFrom(lines)
  {
    hide IsFrom, BeginsAnyCase;
    forall k | 0 <= k < |lines| ensures !IsFrom(lines[k]) {
      FromWord(lines[k]);
    }
  }

  // ------------------------------------------------------ where the header ends

  /** No run of newlines starts before what follows the lines. */
  lemma {:induction false} NoneInGlue(pat: Text, nl: Text, lines: seq<Text>, tail: Text)
    requires IsPattern(pat, nl) && AreHeaderLines(lines)
    ensures var t := Glue(nl, lines, tail); |tail| <= |t| && NoneBefore(t, pat, |t| - |tail|)
    decreases |lines|
  {
    hide IsPattern, StandsAt;
    if lines != [] {
      var line, rest := lines[0], lines[1..];
      NoneInGlue(pat, nl, rest, tail);
      var x := Glue(nl, rest, tail);
      forall p | 0 <= p < |nl + line + x| - |tail| ensures !StandsAt(nl + line + x, p, pat) {
        NotInField(nl, line, x, p, pat);
        if p >= |nl + line| {
          StandsInTail(nl + line, x, p, pat);
        }
      }
    }
  }

  lemma NoneInHeader(pat: Text, nl: Text, lines: seq<Text>, tail: Text)
    requires IsPattern(pat, nl) && AreHeaderLines(lines) && lines != []
    ensures NoneBefore(Join(lines, nl) + tail, pat, |Join(lines, nl)|)
  {
    hide IsPattern, StandsAt;
    JoinBody(nl, lines, tail);
    NoneInGlue(pat, nl, lines[1..], tail);
    GlueBody(nl, lines[1..], tail);
    var x := Glue(nl, lines[1..], tail);
    forall p | 0 <= p < |Join(lines, nl)| ensures !StandsAt(lines[0] + x, p, pat) {
      NotAtStart(lines[0], x, p, pat, nl);
      if p >= |lines[0]| {
        StandsInTail(lines[0], x, p, pat);
      }
    }
  }

  lemma NoCrlfInBody(body: Text)
    requires NoneBefore(body, CRLF_CRLF, |body|)
    ensures NoneBefore(LF + LF + body, CRLF_CRLF, |LF + LF + body|)
  {
    var t := LF + LF + body;
    forall k | 0 <= k < |t| ensures !StandsAt(t, k, CRLF_CRLF) {
      if k < 2 {
        assert t[k + 0] == '\n' && CRLF_CRLF[0] == '\r';
      } else {
        StandsInTail(LF + LF, body, k, CRLF_CRLF);
      }
    }
  }

  /** The separator the rewrite works with: in a header of one line it is LF. */
  function Separator(lines: seq<Text>, nl: Text): Text { if |lines| > 1 then nl else LF }

  lemma SeparatorIs(lines: seq<Text>, nl: Text)
    requires AreHeaderLines(lines) && lines != [] && IsSeparator(nl)
    ensures var h, sep := Join(lines, nl), Separator(lines, nl);
            && sep == (if Index(h, CRLF) >= 0 then CRLF else LF)
            && h == Join(lines, sep) && Split(h, sep) == lines
  {
    hide Index, Join, Split, NoneBefore, IsPattern;
    var h, sep := Join(lines, nl), Separator(lines, nl);
    if |lines| == 1 {
      assert lines == [lines[0]];
      JoinOne(lines[0], nl);
      JoinOne(lines[0], LF);
      LacksNewlines(lines[0], CRLF);
      IndexNone(h, CRLF);
    } else if nl == CRLF {
      JoinHas(lines, CRLF);
    } else {
      Patterns(LF);
      NoneInHeader(CRLF, LF, lines, []);
      assert h + [] == h;
      IndexNone(h, CRLF);
    }
    forall k | 0 <= k < |lines| ensures NoneBefore(lines[k], sep, |lines[k]|) {
      assert IsHeaderLine(lines[k]);
      LacksNewlines(lines[k], sep);
    }
    JoinSplits(lines, sep);
  }

  lemma MessageCut(lines: seq<Text>, nl: Text, body: Text)
    requires AreHeaderLines(lines) && lines != [] && IsSeparator(nl)
    requires nl == LF ==> NoneBefore(body, CRLF_CRLF, |body|)
    ensures var raw, c := Message(lines, nl, body), Cut(|Join(lines, nl)|, Separator(lines, nl));
            && CutOf(raw) == Some(c) && LinesOf(raw, c) == lines
            && Join(lines, nl) == Join(lines, c.nl) && raw[c.at..] == nl + nl + body
  {
    hide Index, Join, Split, NoneBefore, IsPattern, CutOf, Separator, AreHeaderLines;
    var h, tail := Join(lines, nl), nl + nl + body;
    Patterns(nl);
    NoneInHeader(CRLF_CRLF, nl, lines, tail);
    NoneInHeader(LF_LF, nl, lines, tail);
    if nl == LF {
      NoCrlfInBody(body);
      assert [] + tail == tail && tail == LF + LF + body;
      NoneInTail(h, [], tail, CRLF_CRLF);
    }
    assert StandsAt(tail, 0, nl + nl);
    assert nl == CRLF ==> nl + nl == CRLF_CRLF;
    assert nl == LF ==> nl + nl == LF_LF;
    CutIs(h, tail);
    SeparatorIs(lines, nl);
    assert (h + tail)[..|h|] == h && (h + tail)[|h|..] == tail;
  }

  // ----------------------------------------------------------------- rewriting

  lemma {:induction false} NoFromBefore(repl: Text, pre: seq<Text>, rest: seq<Text>)
    requires !HasFrom(pre)
    ensures Rewritten(repl, pre + rest, false) == pre + Rewritten(repl, rest, false)
    decreases |pre|
  {
    hide IsFrom, IsContinuation;
    if pre == [] {
      assert pre + rest == rest;
    } else {
      NoFromInRest(pre);
      assert (pre + rest)[1..] == pre[1..] + rest;
      NoFromBefore(repl, pre[1..], rest);
    }
  }

  ghost predicate AllContinue(lines: seq<Text>) {
    forall k :: 0 <= k < |lines| ==> lines[k] != [] && (lines[k][0] == ' ' || lines[k][0] == '\t')
  }

  lemma {:induction false} ContinuationsGo(repl: Text, conts: seq<Text>, post: seq<Text>)
    requires AllContinue(conts)
    ensures Rewritten(repl, conts + post, true) == Rewritten(repl, post, true)
    decreases |conts|
  {
    hide IsFrom;
    if conts == [] {
      assert conts + post == post;
    } else {
      assert (conts + post)[1..] == conts[1..] + post;
      ContinuationIsNoFrom(conts[0]);
      ContinuationsGo(repl, conts[1..], post);
    }
  }

  /** What replaces one From field among other lines. */
  lemma OneFromField(repl: Text, pre: seq<Text>, from: Text, conts: seq<Text>, post: seq<Text>)
    requires IsFrom(from) && !HasFrom(pre) && !HasFrom(post) && AllContinue(conts) && StartsField(post)
    ensures var lines := pre + ([from] + (conts + post));
            && HasFrom(lines) && Rewritten(repl, lines, false) == pre + ([repl] + post)
            && (AllFrom(repl, lines) <==> from == repl)
  {
    hide IsFrom, IsContinuation;
    var rest := [from] + (conts + post);
    var lines := pre + rest;
    NoFromBefore(repl, pre, rest);
    assert rest[1..] == conts + post;
    ContinuationsGo(repl, conts, post);
    NoFromStays(repl, post);
    assert lines[|pre|] == from;
    forall k | 0 <= k < |lines| && k != |pre| ensures !IsFrom(lines[k]) {
      if k < |pre| {
        assert lines[k] == pre[k];
      } else if k > |pre| + |conts| {
        assert lines[k] == post[k - |pre| - 1 - |conts|];
      } else {
        assert lines[k] == conts[k - |pre| - 1];
        ContinuationIsNoFrom(lines[k]);
      }
    }
  }

  /**
   * A message with one From field, which may go on over several lines: the field becomes the line
   * "From: " with the given address, and every other byte stays. Where lines end in LF, the body has
   * to be free of CRLF CRLF, which would be taken for the end of the header.
   */
  lemma OneFrom(pre: seq<Text>, from: Text, conts: seq<Text>, post: seq<Text>, nl: Text, body: Text, newFrom: Text)
    requires IsSeparator(nl) && AreHeaderLines(pre + ([from] + (conts + post)))
    requires nl == LF ==> forall k :: 0 <= k < |body| ==> !StandsAt(body, k, ['\r', '\n', '\r', '\n'])
    requires BeginsAnyCase(from, "from:") && NoFromWord(pre) && NoFromWord(post)
    requires AllContinue(conts) && (post != [] ==> post[0] != [] && post[0][0] != ' ' && post[0][0] != '\t')
    ensures var lines, line := pre + ([from] + (conts + post)), ['F', 'r', 'o', 'm', ':', ' '] + newFrom;
            Rewrite(Message(lines, nl, body), newFrom)
            == Some(Result(Message(pre + ([line] + post), nl, body), from != line))
  {
    hide IsFrom, BeginsAnyCase, CutOf, Join, Split, Separator, Index, Rewritten, HasFrom, AllFrom, AllContinue,
      AreHeaderLines;
    var lines, line := pre + ([from] + (conts + post)), Replacement(newFrom);
    FromWord(from);
    NoFromWords(pre);
    NoFromWords(post);
    MessageCut(lines, nl, body);
    OneFromField(line, pre, from, conts, post);
    assert line == ['F', 'r', 'o', 'm', ':', ' '] + newFrom;
    SameJoin(pre, from, conts, post, line, nl);
  }

  /** With the separator the rewrite uses, the lines come out as with the one they were written with. */
  lemma SameJoin(pre: seq<Text>, from: Text, conts: seq<Text>, post: seq<Text>, line: Text, nl: Text)
    ensures var lines, out := pre + ([from] + (conts + post)), pre + ([line] + post);
            Join(out, Separator(lines, nl)) == Join(out, nl)
  {
    hide Join;
    var lines, out := pre + ([from] + (conts + post)), pre + ([line] + post);
    if |lines| == 1 {
      assert out == [line];
      JoinOne(line, nl);
      JoinOne(line, LF);
    }
  }

  /**
   * A message without a From line: the new line comes first, and nothing else changes. It ends like
   * the others, but with a bare LF when it is put before a single line.
   */
  lemma NoFrom(lines: seq<Text>, nl: Text, body: Text, newFrom: Text)
    requires IsSeparator(nl) && AreHeaderLines(lines) && lines != [] && NoFromWord(lines)
    requires nl == LF ==> forall k :: 0 <= k < |body| ==> !StandsAt(body, k, ['\r', '\n', '\r', '\n'])
    ensures var line := ['F', 'r', 'o', 'm', ':', ' '] + newFrom;
            Rewrite(Message(lines, nl, body), newFrom)
            == Some(Result(line + ((if |lines| > 1 then nl else ['\n']) + Message(lines, nl, body)), true))
  {
    hide IsFrom, BeginsAnyCase, CutOf, Join, Split, Index, Rewritten, HasFrom, AllFrom, AreHeaderLines;
    var line, sep := Replacement(newFrom), Separator(lines, nl);
    assert line == ['F', 'r', 'o', 'm', ':', ' '] + newFrom;
    NoFromWords(lines);
    MessageCut(lines, nl, body);
    JoinNext(line, lines, sep);
    var h, tail := Join(lines, nl), nl + nl + body;
    assert line + (sep + h) + tail == line + (sep + (h + tail));
  }

  /** The rewrite fails exactly when the message has no empty line. */
  lemma FailsIff(raw: Text, newFrom: Text)
    ensures Rewrite(raw, newFrom).None? <==>
              forall k :: 0 <= k < |raw| ==>
                            !StandsAt(raw, k, ['\r', '\n', '\r', '\n']) && !StandsAt(raw, k, ['\n', '\n'])
  {
    hide StandsAt, Rewritten, Split, Join;
    if Index(raw, CRLF_CRLF) >= 0 {
      StandsInside(raw, Index(raw, CRLF_CRLF), CRLF_CRLF);
    }
    if Index(raw, LF_LF) >= 0 {
      StandsInside(raw, Index(raw, LF_LF), LF_LF);
    }
  }

  lemma StandsInside(raw: Text, p: nat, pat: Text)
    requires StandsAt(raw, p, pat) && pat != []
    ensures p < |raw|
  {
  }
}
