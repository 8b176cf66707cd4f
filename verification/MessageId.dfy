/** Message-ID normal forms, and the splitting of In-Reply-To and References headers. */
module MessageIds {
  import opened Bytes

  /** ASCII white space, as strings.TrimSpace strips it. */
  predicate IsSpace(c: byte) {
    c == ' ' || c == '\t' || c == '\n' || c == '\r' || c as int == 11 || c as int == 12
  }

  predicate IsAngle(c: byte) { c == '<' || c == '>' }

  function TrimLeft(p: byte -> bool, s: Text): (r: Text)
    ensures |r| <= |s|
  {
    if s != [] && p(s[0]) then TrimLeft(p, s[1..]) else s
  }

  function TrimRight(p: byte -> bool, s: Text): (r: Text)
    ensures |r| <= |s|
  {
    if s != [] && p(s[|s| - 1]) then TrimRight(p, s[..|s| - 1]) else s
  }

  function Trim(p: byte -> bool, s: Text): Text { TrimRight(p, TrimLeft(p, s)) }

  predicate Trimmed(p: byte -> bool, s: Text) { s != [] ==> !p(s[0]) && !p(s[|s| - 1]) }

  /** What is left begins at the first byte that p does not take. */
  lemma {:induction false} TrimLeftIs(p: byte -> bool, s: Text)
    ensures var r := TrimLeft(p, s);
            && r == s[|s| - |r|..] && (r != [] ==> !p(r[0]))
            && forall k :: 0 <= k < |s| - |r| ==> p(s[k])
  {
    if s != [] && p(s[0]) {
      TrimLeftIs(p, s[1..]);
      var n := |s| - |TrimLeft(p, s)|;
      forall k | 0 <= k < n ensures p(s[k]) {
        if k > 0 { assert p(s[1..][k - 1]); }
      }
    }
  }

  /** What is left ends at the last byte that p does not take. */
  lemma {:induction false} TrimRightIs(p: byte -> bool, s: Text)
    ensures var r := TrimRight(p, s);
            && r == s[..|r|] && (r != [] ==> !p(r[|r| - 1]))
            && forall k :: |r| <= k < |s| ==> p(s[k])
  {
    if s != [] && p(s[|s| - 1]) {
      var front := s[..|s| - 1];
      TrimRightIs(p, front);
      forall k | |TrimRight(p, s)| <= k < |s| ensures p(s[k]) {
        if k < |s| - 1 { assert p(front[k]); }
      }
    }
  }

  /** A middle part of s, from the first to the last byte that p does not take. */
  lemma TrimSlice(p: byte -> bool, s: Text)
    ensures var l := TrimLeft(p, s);
            var i := |s| - |l|; var j := i + |Trim(p, s)|;
            0 <= i <= j <= |s| && Trim(p, s) == s[i..j]
    ensures Trimmed(p, Trim(p, s)) && |Trim(p, s)| <= |s|
    ensures Trimmed(p, s) ==> Trim(p, s) == s
  {
    TrimLeftIs(p, s);
    var l := TrimLeft(p, s);
    TrimRightIs(p, l);
    var r := TrimRight(p, l);
    assert r == s[|s| - |l|..|s| - |l| + |r|];
    if r != [] {
      assert r[0] == l[0];
    }
  }

  lemma TrimIsTrimmed(p: byte -> bool, s: Text)
    ensures Trimmed(p, Trim(p, s)) && |Trim(p, s)| <= |s|
    ensures Trimmed(p, s) <==> Trim(p, s) == s
  {
    TrimSlice(p, s);
  }

  /** The index of the last '@', or -1. */
  function LastAt(s: Text): (i: int)
    ensures -1 <= i < |s|
  {
    if s == [] then -1 else if s[|s| - 1] == '@' then |s| - 1 else LastAt(s[..|s| - 1])
  }

  lemma {:induction false} LastAtIs(s: Text)
    ensures LastAt(s) >= 0 ==> s[LastAt(s)] == '@'
    ensures forall k :: LastAt(s) < k < |s| ==> s[k] != '@'
  {
    if s != [] && s[|s| - 1] != '@' {
      var front := s[..|s| - 1];
      LastAtIs(front);
      forall k | LastAt(s) < k < |s| ensures s[k] != '@' {
        if k < |s| - 1 { assert front[k] != '@'; }
      }
    }
  }

  /** Lower-cases the domain of an id with a local part and a domain, and otherwise everything. */
  function Canonical(id: Text): Text {
    var at := LastAt(id);
    if 0 < at < |id| - 1 then id[..at] + ['@'] + Lower(id[at + 1..]) else Lower(id)
  }

  /** The id without surrounding white space and angle brackets. */
  function Core(id: Text): Text { Trim(IsSpace, Trim(IsAngle, Trim(IsSpace, id))) }

  function Normalize(id: Text): Text { Canonical(Core(id)) }

  // ----------------------------------------------------------- idempotence

  /** Byte by byte, t is s or its lower case. */
  predicate SameUpToCase(s: Text, t: Text) {
    |s| == |t| && forall k :: 0 <= k < |s| ==> t[k] == s[k] || t[k] == LowerByte(s[k])
  }

  lemma CanonicalCase(id: Text)
    ensures SameUpToCase(id, Canonical(id))
  {
    LastAtIs(id);
  }

  lemma CaseKeepsTrimmed(p: byte -> bool, s: Text, t: Text)
    requires SameUpToCase(s, t) && forall c :: p(c) <==> p(LowerByte(c))
    ensures Trimmed(p, s) <==> Trimmed(p, t)
  {
  }

  lemma {:induction false} LowerIdempotent(s: Text)
    ensures Lower(Lower(s)) == Lower(s)
  {
  }

  lemma LastAtUnderCase(s: Text, t: Text)
    requires SameUpToCase(s, t)
    ensures LastAt(s) == LastAt(t)
  {
    forall k | 0 <= k < |s| ensures s[k] == '@' <==> t[k] == '@' {
    }
  }

  lemma CanonicalIdempotent(id: Text)
    ensures Canonical(Canonical(id)) == Canonical(id)
  {
    CanonicalCase(id);
    var c, at := Canonical(id), LastAt(id);
    LastAtUnderCase(id, c);
    if 0 < at < |id| - 1 {
      assert c[..at] == id[..at] && c[at + 1..] == Lower(id[at + 1..]);
      LowerIdempotent(id[at + 1..]);
    } else {
      LowerIdempotent(id);
    }
  }

  lemma CoreShrinks(id: Text)
    ensures Trimmed(IsSpace, Core(id)) && |Core(id)| <= |id|
    ensures Trimmed(IsSpace, id) && Trimmed(IsAngle, id) ==> Core(id) == id
    ensures Trimmed(IsSpace, id) && !Trimmed(IsAngle, id) ==> |Core(id)| < |id|
  {
    var a := Trim(IsSpace, id);
    var b := Trim(IsAngle, a);
    TrimIsTrimmed(IsSpace, id);
    TrimIsTrimmed(IsAngle, a);
    TrimIsTrimmed(IsSpace, b);
    if !Trimmed(IsAngle, a) {
      TrimSlice(IsAngle, a);
    }
  }

  /**
   * Normalizing twice changes nothing more exactly when what is left between the outer white
   * space and brackets neither begins nor ends with an angle bracket.
   */
  lemma NormalizeIdempotentIff(id: Text)
    ensures Normalize(Normalize(id)) == Normalize(id) <==> Trimmed(IsAngle, Core(id))
  {
    hide Core, Canonical;
    var c := Core(id);
    var n := Canonical(c);
    CoreShrinks(id);
    CanonicalCase(c);
    CaseKeepsTrimmed(IsSpace, c, n);
    CaseKeepsTrimmed(IsAngle, c, n);
    CoreShrinks(n);
    CanonicalIdempotent(c);
    CanonicalCase(Core(n));
  }

  lemma TrimNothing(p: byte -> bool, s: Text)
    requires forall k :: 0 <= k < |s| ==> !p(s[k])
    ensures Trim(p, s) == s
  {
  }

  lemma TrimTwice(s: Text)
    ensures Trim(IsSpace, Trim(IsSpace, s)) == Trim(IsSpace, s)
  {
    TrimIsTrimmed(IsSpace, s);
    TrimIsTrimmed(IsSpace, Trim(IsSpace, s));
  }

  /** No trimming adds bytes: what s lacks, its core lacks. */
  lemma CoreBytes(p: byte -> bool, s: Text)
    requires forall k :: 0 <= k < |s| ==> !p(s[k])
    ensures forall k :: 0 <= k < |Core(s)| ==> !p(Core(s)[k])
  {
    hide Trim;
    TrimBytes(p, IsSpace, s);
    TrimBytes(p, IsAngle, Trim(IsSpace, s));
    TrimBytes(p, IsSpace, Trim(IsAngle, Trim(IsSpace, s)));
  }

  lemma TrimBytes(p: byte -> bool, q: byte -> bool, s: Text)
    requires forall k :: 0 <= k < |s| ==> !p(s[k])
    ensures forall k :: 0 <= k < |Trim(q, s)| ==> !p(Trim(q, s)[k])
  {
    hide Trim;
    TrimSlice(q, s);
  }

  // ------------------------------------------------------- the normal form

  /** The same letters, none of them upper case. */
  ghost predicate LowerCaseOf(s: Text, t: Text) {
    |t| == |s| && forall k :: 0 <= k < |s| ==> EitherCase(t[k], s[k]) && !('A' <= t[k] <= 'Z')
  }

  lemma {:induction false} LastAtAfter(local: Text, domain: Text)
    requires '@' !in domain
    ensures LastAt(local + ['@'] + domain) == |local|
    decreases |domain|
  {
    var s := local + ['@'] + domain;
    if domain != [] {
      assert s[..|s| - 1] == local + ['@'] + domain[..|domain| - 1];
      LastAtAfter(local, domain[..|domain| - 1]);
    }
  }

  /** The local part stays as it is, and the domain after the last at sign is lower-cased. */
  lemma CanonicalParts(local: Text, domain: Text) returns (lower: Text)
    requires local != [] && domain != [] && '@' !in domain
    ensures Canonical(local + ['@'] + domain) == local + ['@'] + lower && LowerCaseOf(domain, lower)
  {
    var id := local + ['@'] + domain;
    LastAtAfter(local, domain);
    assert id[..|local|] == local && id[|local| + 1..] == domain;
    lower := Lower(domain);
  }

  /** Without both parts everything is lower-cased. */
  lemma CanonicalWhole(id: Text)
    requires LastAt(id) <= 0 || LastAt(id) == |id| - 1
    ensures LowerCaseOf(id, Canonical(id))
  {
  }

  lemma {:induction false} TrimLeftSkips(p: byte -> bool, a: Text, s: Text)
    requires Every(p, a) && (s != [] ==> !p(s[0]))
    ensures TrimLeft(p, a + s) == s
    decreases |a|
  {
    if a == [] {
      assert a + s == s;
    } else {
      assert (a + s)[1..] == a[1..] + s;
      TrimLeftSkips(p, a[1..], s);
    }
  }

  lemma {:induction false} TrimRightSkips(p: byte -> bool, s: Text, z: Text)
    requires Every(p, z) && (s != [] ==> !p(s[|s| - 1]))
    ensures TrimRight(p, s + z) == s
    decreases |z|
  {
    if z == [] {
      assert s + z == s;
    } else {
      assert (s + z)[..|s + z| - 1] == s + z[..|z| - 1];
      TrimRightSkips(p, s, z[..|z| - 1]);
    }
  }

  lemma TrimMiddle(p: byte -> bool, a: Text, s: Text, z: Text)
    requires Every(p, a) && Every(p, z) && s != [] && Trimmed(p, s)
    ensures Trim(p, a + s + z) == s
  {
    assert a + s + z == a + (s + z);
    assert (s + z)[0] == s[0];
    TrimLeftSkips(p, a, s + z);
    TrimRightSkips(p, s, z);
  }

  /** White space and angle brackets around an id do not count, and its domain is lower-cased. */
  lemma NormalForm(a: Text, local: Text, domain: Text, z: Text) returns (lower: Text)
    requires Every(IsSpace, a) && Every(IsSpace, z)
    requires local != [] && domain != [] && '@' !in domain
    requires var c, d := local[0], domain[|domain| - 1]; !IsSpace(c) && !IsAngle(c) && !IsSpace(d) && !IsAngle(d)
    ensures Normalize(a + (['<'] + (local + ['@'] + domain) + ['>']) + z) == local + ['@'] + lower
    ensures Normalize(a + (local + ['@'] + domain) + z) == local + ['@'] + lower
    ensures LowerCaseOf(domain, lower)
  {
    hide Trim, Canonical;
    var id := local + ['@'] + domain;
    assert id[0] == local[0] && id[|id| - 1] == domain[|domain| - 1];
    TrimMiddle(IsSpace, a, ['<'] + id + ['>'], z);
    TrimMiddle(IsAngle, ['<'], id, ['>']);
    TrimMiddle(IsSpace, a, id, z);
    TrimIsTrimmed(IsAngle, id);
    TrimIsTrimmed(IsSpace, id);
    lower := CanonicalParts(local, domain);
  }

  // -------------------------------------------------------------- splitting

  /** The white space that separates tokens outside angle brackets: no VT and no FF. */
  predicate IsBreak(c: byte) { c == ' ' || c == '\t' || c == '\r' || c == '\n' }

  function Flush(b: Text): seq<Text> { if b == [] then [] else [Trim(IsSpace, b)] }

  /** The tokens of the bytes s, when b was collected before them. */
  function Tokens(s: Text, b: Text, inAngle: bool): seq<Text> {
    if s == [] then Flush(b)
    else if s[0] == '<' then Flush(b) + Tokens(s[1..], [], true)
    else if s[0] == '>' && inAngle then [Trim(IsSpace, b)] + Tokens(s[1..], [], false)
    else if s[0] == '>' || inAngle || !IsBreak(s[0]) then Tokens(s[1..], b + [s[0]], inAngle)
    else Flush(b) + Tokens(s[1..], [], false)
  }

  function Split(header: Text): seq<Text> { Tokens(Trim(IsSpace, header), [], false) }

  /** The tokens found so far and those still to come are all the tokens. */
  ghost predicate TokensLead(whole: seq<Text>, tokens: seq<Text>, s: Text, b: Text, inAngle: bool) {
    whole == tokens + Tokens(s, b, inAngle)
  }

  lemma TokensStep(whole: seq<Text>, tokens: seq<Text>, s: Text, b: Text, inAngle: bool)
    requires s != [] && TokensLead(whole, tokens, s, b, inAngle)
    ensures var c, t := s[0], s[1..];
            if c == '<' then TokensLead(whole, tokens + Flush(b), t, [], true)
            else if c == '>' && inAngle then TokensLead(whole, tokens + [Trim(IsSpace, b)], t, [], false)
            else if c == '>' || inAngle || !IsBreak(c) then TokensLead(whole, tokens, t, b + [c], inAngle)
            else TokensLead(whole, tokens + Flush(b), t, [], false)
  {
    hide Trim;
    var t := s[1..];
    assert tokens + (Flush(b) + Tokens(t, [], true)) == (tokens + Flush(b)) + Tokens(t, [], true);
    assert tokens + (Flush(b) + Tokens(t, [], false)) == (tokens + Flush(b)) + Tokens(t, [], false);
    assert tokens + ([Trim(IsSpace, b)] + Tokens(t, [], false)) == (tokens + [Trim(IsSpace, b)]) + Tokens(t, [], false);
  }

  method SplitMessageIdTokens(header: Text) returns (tokens: seq<Text>)
    ensures tokens == Split(header)
  {
    hide Trim, TokensLead;
    var s := Trim(IsSpace, header);
    if s == [] {
      return [];
    }
    tokens := [];
    var b: Text, inAngle := [], false;
    TokensBegin(s);
    for i := 0 to |s|
      invariant TokensLead(Split(header), tokens, s[i..], b, inAngle)
    {
      var r := s[i];
      assert s[i..][0] == r && s[i..][1..] == s[i + 1..];
      TokensStep(Split(header), tokens, s[i..], b, inAngle);
      assert tokens + [] == tokens;
      if r == '<' {
        if |b| > 0 {
          tokens := tokens + [Trim(IsSpace, b)];
          b := [];
        }
        inAngle := true;
      } else if r == '>' {
        if inAngle {
          tokens := tokens + [Trim(IsSpace, b)];
          b := [];
          inAngle := false;
        } else {
          b := b + [r];
        }
      } else if inAngle || (r != ' ' && r != '\t' && r != '\r' && r != '\n') {
        b := b + [r];
      } else if |b| > 0 {
        tokens := tokens + [Trim(IsSpace, b)];
        b := [];
      }
    }
    TokensEnd(Split(header), tokens, b, inAngle);
    if |b| > 0 {
      tokens := tokens + [Trim(IsSpace, b)];
    }
  }

  lemma TokensBegin(s: Text)
    ensures TokensLead(Tokens(s, [], false), [], s[0..], [], false)
  {
    assert s[0..] == s;
  }

  lemma TokensEnd(whole: seq<Text>, tokens: seq<Text>, b: Text, inAngle: bool)
    requires TokensLead(whole, tokens, [], b, inAngle)
    ensures whole == tokens + Flush(b)
  {
  }

  /** The distinct non-empty normal forms, in the order of their first appearance. */
  function Distinct(tokens: seq<Text>, seen: set<Text>): seq<Text> {
    if tokens == [] then []
    else
      var n := Normalize(tokens[0]);
      if n == [] || n in seen then Distinct(tokens[1..], seen)
      else [n] + Distinct(tokens[1..], seen + {n})
  }

  function Parse(header: Text): seq<Text> { Distinct(Split(header), {}) }

  method ParseMessageIds(header: Text) returns (ids: seq<Text>)
    ensures ids == Parse(header)
  {
    hide Trim, Normalize;
    var trimmed := Trim(IsSpace, header);
    TrimTwice(header);
    ids := [];
    if trimmed == [] {
      return;
    }
    var seen: set<Text> := {};
    var tokens := SplitMessageIdTokens(trimmed);
    for i := 0 to |tokens|
      invariant ids + Distinct(tokens[i..], seen) == Parse(header)
    {
      assert tokens[i..][0] == tokens[i] && tokens[i..][1..] == tokens[i + 1..];
      var norm := Normalize(tokens[i]);
      if norm == [] || norm in seen {
        continue;
      }
      assert ids + ([norm] + Distinct(tokens[i + 1..], seen + {norm}))
          == (ids + [norm]) + Distinct(tokens[i + 1..], seen + {norm});
      seen := seen + {norm};
      ids := ids + [norm];
    }
  }

  // ---------------------------------------------------- printing and parsing

  predicate NoAngles(s: Text) { forall k :: 0 <= k < |s| ==> !IsAngle(s[k]) }

  /** Message-IDs as a References header lists them. */
  function Printed(ids: seq<Text>): Text {
    if ids == [] then []
    else ['<'] + ids[0] + ['>'] + (if |ids| == 1 then [] else [' '] + Printed(ids[1..]))
  }

  lemma {:induction false} TokensInAngle(x: Text, rest: Text, b: Text)
    requires NoAngles(x)
    ensures Tokens(x + ['>'] + rest, b, true) == [Trim(IsSpace, b + x)] + Tokens(rest, [], false)
    decreases |x|
  {
    hide Trim;
    var s := x + ['>'] + rest;
    if x == [] {
      assert s[1..] == rest && b + x == b;
    } else {
      assert s[0] == x[0] && s[1..] == x[1..] + ['>'] + rest;
      assert (b + [x[0]]) + x[1..] == b + x;
      TokensInAngle(x[1..], rest, b + [x[0]]);
    }
  }

  function TrimmedAll(ids: seq<Text>): seq<Text> {
    if ids == [] then [] else [Trim(IsSpace, ids[0])] + TrimmedAll(ids[1..])
  }

  lemma TokensOfOne(x: Text, rest: Text)
    requires NoAngles(x)
    ensures Tokens(['<'] + x + ['>'] + rest, [], false) == [Trim(IsSpace, x)] + Tokens(rest, [], false)
  {
    hide Trim, NoAngles;
    var s := ['<'] + x + ['>'] + rest;
    assert s[1..] == x + ['>'] + rest && [] + x == x;
    TokensInAngle(x, rest, []);
  }

  lemma TokensAfterBreak(s: Text)
    ensures Tokens([' '] + s, [], false) == Tokens(s, [], false)
  {
    assert ([' '] + s)[1..] == s;
  }

  lemma {:induction false} TokensOfPrinted(ids: seq<Text>)
    requires forall k :: 0 <= k < |ids| ==> NoAngles(ids[k])
    ensures Tokens(Printed(ids), [], false) == TrimmedAll(ids)
    decreases |ids|
  {
    hide Trim, NoAngles;
    if |ids| == 1 {
      TokensOfOne(ids[0], []);
      assert ids[1..] == [];
    } else if |ids| > 1 {
      TokensOfOne(ids[0], [' '] + Printed(ids[1..]));
      TokensAfterBreak(Printed(ids[1..]));
      TokensOfPrinted(ids[1..]);
    }
  }

  lemma {:induction false} PrintedEnds(ids: seq<Text>)
    requires ids != []
    ensures var s := Printed(ids); s != [] && s[0] == '<' && s[|s| - 1] == '>'
    decreases |ids|
  {
    if |ids| > 1 {
      PrintedEnds(ids[1..]);
    }
  }

  lemma NormalizeTrimmed(id: Text)
    ensures Normalize(Trim(IsSpace, id)) == Normalize(id)
  {
    TrimTwice(id);
  }

  lemma {:induction false} DistinctTrimmed(ids: seq<Text>, seen: set<Text>)
    ensures Distinct(TrimmedAll(ids), seen) == Distinct(ids, seen)
    decreases |ids|
  {
    hide Trim, Normalize;
    if ids != [] {
      NormalizeTrimmed(ids[0]);
      assert TrimmedAll(ids)[1..] == TrimmedAll(ids[1..]);
      var n := Normalize(ids[0]);
      DistinctTrimmed(ids[1..], if n == [] || n in seen then seen else seen + {n});
    }
  }

  lemma EmptyPrinted()
    ensures Printed([]) == [] && Trim(IsSpace, []) == []
  {
  }

  /** A printed list of ids parses to its distinct non-empty normal forms. */
  lemma ParsePrinted(ids: seq<Text>)
    requires forall k :: 0 <= k < |ids| ==> NoAngles(ids[k])
    ensures Parse(Printed(ids)) == Distinct(ids, {})
  {
    hide Trim, NoAngles, Printed, Tokens, Distinct, TrimmedAll;
    if ids != [] {
      PrintedEnds(ids);
      TrimIsTrimmed(IsSpace, Printed(ids));
    } else {
      EmptyPrinted();
    }
    TokensOfPrinted(ids);
    DistinctTrimmed(ids, {});
  }

  function Forms(ids: seq<Text>): (r: seq<Text>)
    ensures |r| == |ids|
  {
    seq(|ids|, i requires 0 <= i < |ids| => Normalize(ids[i]))
  }

  /** The first index at which n stands, or the length. */
  function FirstIndex(forms: seq<Text>, n: Text): (i: nat)
    ensures i <= |forms|
    ensures i < |forms| ==> forms[i] == n
    ensures forall k :: 0 <= k < i ==> forms[k] != n
  {
    if forms == [] || forms[0] == n then 0 else 1 + FirstIndex(forms[1..], n)
  }

  lemma FormsOf(ids: seq<Text>)
    requires ids != []
    ensures Forms(ids)[0] == Normalize(ids[0]) && Forms(ids)[1..] == Forms(ids[1..])
  {
    hide Normalize;
  }

  lemma {:induction false} DistinctHas(ids: seq<Text>, seen: set<Text>, n: Text)
    ensures n in Distinct(ids, seen) <==> n != [] && n !in seen && FirstIndex(Forms(ids), n) < |ids|
    decreases |ids|
  {
    hide Normalize, Forms;
    if ids != [] {
      FormsOf(ids);
      var m := Normalize(ids[0]);
      DistinctHas(ids[1..], if m == [] || m in seen then seen else seen + {m}, n);
    }
  }

  lemma {:induction false} DistinctOrdered(ids: seq<Text>, seen: set<Text>, i: nat, j: nat)
    requires i < j < |Distinct(ids, seen)|
    ensures var r, f := Distinct(ids, seen), Forms(ids); FirstIndex(f, r[i]) < FirstIndex(f, r[j])
    decreases |ids|
  {
    hide Normalize, Forms;
    FormsOf(ids);
    var m, r, rest := Normalize(ids[0]), Distinct(ids, seen), ids[1..];
    if m == [] || m in seen {
      DistinctOrdered(rest, seen, i, j);
      DistinctHas(rest, seen, r[i]);
      DistinctHas(rest, seen, r[j]);
    } else {
      assert r == [m] + Distinct(rest, seen + {m});
      DistinctHas(rest, seen + {m}, r[j]);
      if i > 0 {
        DistinctHas(rest, seen + {m}, r[i]);
        DistinctOrdered(rest, seen + {m}, i - 1, j - 1);
      }
    }
  }

  /** Distinct keeps one of each non-empty normal form, by order of first appearance. */
  lemma DistinctIsDedup(ids: seq<Text>, seen: set<Text>)
    ensures var r, f := Distinct(ids, seen), Forms(ids);
            && (forall n :: n in r <==> n != [] && n !in seen && FirstIndex(f, n) < |f|)
            && (forall i, j :: 0 <= i < j < |r| ==> FirstIndex(f, r[i]) < FirstIndex(f, r[j]))
  {
    hide Distinct, Forms, FirstIndex;
    forall n ensures n in Distinct(ids, seen) <==> n != [] && n !in seen && FirstIndex(Forms(ids), n) < |ids| {
      DistinctHas(ids, seen, n);
    }
    var r, f := Distinct(ids, seen), Forms(ids);
    forall i, j | 0 <= i < j < |r| ensures FirstIndex(f, r[i]) < FirstIndex(f, r[j]) {
      DistinctOrdered(ids, seen, i, j);
    }
  }

  // --------------------------------------------------- tokens normalize once

  predicate NoSpaces(s: Text) { forall k :: 0 <= k < |s| ==> !IsSpace(s[k]) }

  lemma NormalizesOnce(t: Text)
    requires NoAngles(t) || NoSpaces(t)
    ensures Normalize(Normalize(t)) == Normalize(t)
  {
    hide Normalize, Trim;
    NormalizeIdempotentIff(t);
    if NoAngles(t) {
      CoreBytes(IsAngle, t);
    } else {
      TrimNothing(IsSpace, t);
      TrimBytes(IsSpace, IsAngle, t);
      TrimNothing(IsSpace, Trim(IsAngle, t));
      TrimIsTrimmed(IsAngle, t);
    }
  }

  /** Neither VT nor FF, which the trimmer strips but the splitter does not break at. */
  predicate OnlyBreaks(s: Text) { forall k :: 0 <= k < |s| && IsSpace(s[k]) ==> IsBreak(s[k]) }

  lemma FlushGood(b: Text, inAngle: bool)
    requires if inAngle then NoAngles(b) else NoSpaces(b)
    ensures var t := Trim(IsSpace, b); NoAngles(t) || NoSpaces(t)
  {
    if inAngle {
      TrimBytes(IsAngle, IsSpace, b);
    } else {
      TrimBytes(IsSpace, IsSpace, b);
    }
  }

  lemma {:induction false} TokensGood(s: Text, b: Text, inAngle: bool)
    requires OnlyBreaks(s) && if inAngle then NoAngles(b) else NoSpaces(b)
    ensures forall t :: t in Tokens(s, b, inAngle) ==> NoAngles(t) || NoSpaces(t)
    decreases |s|
  {
    hide Trim;
    FlushGood(b, inAngle);
    if s != [] {
      var c := s[0];
      if c == '<' {
        TokensGood(s[1..], [], true);
      } else if c == '>' && inAngle {
        TokensGood(s[1..], [], false);
      } else if c == '>' || inAngle || !IsBreak(c) {
        TokensGood(s[1..], b + [c], inAngle);
      } else {
        TokensGood(s[1..], [], false);
      }
    }
  }

  /** Normalizing is idempotent on every token of a header without VT and FF. */
  lemma TokensNormalizeOnce(header: Text, t: Text)
    requires OnlyBreaks(header) && t in Split(header)
    ensures Normalize(Normalize(t)) == Normalize(t)
  {
    hide Trim, Normalize;
    TrimSlice(IsSpace, header);
    TokensGood(Trim(IsSpace, header), [], false);
    NormalizesOnce(t);
  }

  /** With a VT it is not: the token `>` VT `>x` loses one bracket at a time. */
  lemma VerticalTabToken()
    ensures var t: Text := ['>', 11 as char, '>', 'x'];
            Split(t) == [t] && Normalize(Normalize(t)) != Normalize(t)
  {
    var t: Text := ['>', 11 as char, '>', 'x'];
    hide Normalize, Split;
    VerticalTabSplit(t);
    VerticalTabCore(t);
    NormalizeIdempotentIff(t);
  }

  lemma VerticalTabCore(t: Text)
    requires t == ['>', 11 as char, '>', 'x']
    ensures Core(t) == ['>', 'x']
  {
    hide Trim;
    TrimIsTrimmed(IsSpace, t);
    var r: Text := [11 as char, '>', 'x'];
    assert t == ['>'] + r && r == [11 as char] + ['>', 'x'];
    TrimOne(IsAngle, '>', r);
    TrimOne(IsSpace, 11 as char, ['>', 'x']);
  }

  lemma TrimOne(p: byte -> bool, c: byte, s: Text)
    requires p(c) && s != [] && Trimmed(p, s)
    ensures Trim(p, [c] + s) == s
  {
    assert ([c] + s)[1..] == s;
    assert TrimLeft(p, [c] + s) == TrimLeft(p, s) == s;
  }

  lemma VerticalTabSplit(t: Text)
    requires t == ['>', 11 as char, '>', 'x']
    ensures Split(t) == [t]
  {
    hide Trim;
    TrimIsTrimmed(IsSpace, t);
    TokensPlain(t, []);
    assert [] + t == t;
  }

  lemma {:induction false} TokensPlain(s: Text, b: Text)
    requires forall k :: 0 <= k < |s| ==> s[k] != '<' && !IsBreak(s[k])
    ensures Tokens(s, b, false) == Flush(b + s)
    decreases |s|
  {
    hide Trim;
    if s == [] {
      assert b + s == b;
    } else {
      TokensPlain(s[1..], b + [s[0]]);
      assert (b + [s[0]]) + s[1..] == b + s;
    }
  }
}
