/** The scanners of Rfc5321Scan accept exactly the productions of Rfc5321Grammar. */
module Rfc5321Language {
  import opened Bytes
  import opened Rfc5321Grammar
  import opened Rfc5321Scan

  // ---------------------------------------------------------------- domains

  lemma SubdomainSound(b: Text, i: nat)
    requires SubdomainFrom(b, i).out.Ok?
    ensures IsSubdomain(SubdomainFrom(b, i).text)
  {
  }

  lemma {:induction false} DomainSound(b: Text, i: nat) returns (parts: seq<Text>)
    requires DomainFrom(b, i).out.Ok?
    ensures AllParts(IsSubdomain, parts) && DomainFrom(b, i).text == Joined(parts)
    decreases |b| - i
  {
    var s := SubdomainFrom(b, i);
    SubdomainSound(b, i);
    if At(b, s.pos) == '.' {
      var rest := DomainSound(b, s.pos + 1);
      parts := [s.text] + rest;
      assert parts[1..] == rest;
    } else {
      parts := [s.text];
    }
  }

  lemma {:induction false} DomainStands(b: Text, i: nat)
    requires DomainFrom(b, i).out.Ok?
    ensures var s := DomainFrom(b, i); s.text == b[i..s.pos] && EndsDomain(At(b, s.pos))
    decreases |b| - i
  {
    var s := SubdomainFrom(b, i);
    if At(b, s.pos) == '.' {
      DomainStands(b, s.pos + 1);
      SliceJoin(b, i, s.pos, DomainFrom(b, s.pos + 1).pos);
    }
  }

  /** One sub-domain and what follows it decide the rest. */
  lemma DomainStep(b: Text, i: nat, d: Text)
    requires IsSubdomain(d) && StandsAt(b, i, d) && !IsLdh(At(b, i + |d|))
    ensures DomainFrom(b, i) ==
            if At(b, i + |d|) == '.' then
              var r := DomainFrom(b, i + |d| + 1);
              Scan(r.out, r.pos, d + ['.'] + r.text)
            else
              Scan(if EndsDomain(At(b, i + |d|)) then Ok else Fail(DomainError), i + |d|, d)
  {
    assert forall k :: i <= k < i + |d| ==> b[k] == d[k - i];
    RunIs(IsLdh, b, i, i + |d|);
    assert SubdomainFrom(b, i) == Scan(Ok, i + |d|, d);
  }

  lemma DomainCons(b: Text, i: nat, parts: seq<Text>)
    requires |parts| > 1 && IsSubdomain(parts[0])
    requires StandsAt(b, i, parts[0]) && At(b, i + |parts[0]|) == '.'
    requires var t := Joined(parts[1..]);
             DomainFrom(b, i + |parts[0]| + 1) == Scan(Ok, i + |parts[0]| + 1 + |t|, t)
    ensures DomainFrom(b, i) == Scan(Ok, i + |Joined(parts)|, Joined(parts))
  {
    DomainStep(b, i, parts[0]);
  }

  lemma {:induction false} DomainComplete(b: Text, i: nat, parts: seq<Text>)
    requires AllParts(IsSubdomain, parts)
    requires StandsAt(b, i, Joined(parts)) && EndsDomain(At(b, i + |Joined(parts)|))
    ensures DomainFrom(b, i) == Scan(Ok, i + |Joined(parts)|, Joined(parts))
    decreases |parts|
  {
    if |parts| == 1 {
      DomainStep(b, i, parts[0]);
    } else {
      StandsAtJoined(b, i, parts);
      DomainComplete(b, i + |parts[0]| + 1, parts[1..]);
      DomainCons(b, i, parts);
    }
  }

  lemma ThreeStand(b: Text, i: int, s: Text, c: byte, t: Text)
    requires StandsAt(b, i, s + [c] + t)
    ensures StandsAt(b, i, s) && b[i + |s|] == c && StandsAt(b, i + |s| + 1, t)
  {
    var u := s + [c] + t;
    forall k | 0 <= k < |s| ensures b[i + k] == s[k] { assert u[k] == s[k]; }
    assert b[i + |s|] == u[|s|] == c;
    forall k | 0 <= k < |t| ensures b[i + |s| + 1 + k] == t[k] {
      assert b[i + (|s| + 1 + k)] == u[|s| + 1 + k] == t[k];
    }
  }

  /** The first part, the dot after it and the rest stand one after the other. */
  lemma StandsAtJoined(b: Text, i: int, parts: seq<Text>)
    requires |parts| > 1 && StandsAt(b, i, Joined(parts))
    ensures StandsAt(b, i, parts[0]) && b[i + |parts[0]|] == '.'
    ensures StandsAt(b, i + |parts[0]| + 1, Joined(parts[1..]))
    ensures |Joined(parts)| == |parts[0]| + 1 + |Joined(parts[1..])|
  {
    var rest := Joined(parts[1..]);
    ThreeStand(b, i, parts[0], '.', rest);
  }

  /** Helo accepts a space, a Domain, and then the end of input or one of NUL `:` `,` `>`. */
  lemma HeloLanguage(b: Text, d: Text)
    ensures Helo(b) == Some(d)
      <==> At(b, 0) == ' ' && StandsAt(b, 1, d) && IsDomain(d) && EndsDomain(At(b, 1 + |d|))
  {
    if Helo(b) == Some(d) {
      var _ := DomainSound(b, 1);
      DomainStands(b, 1);
    } else if At(b, 0) == ' ' && StandsAt(b, 1, d) && IsDomain(d) && EndsDomain(At(b, 1 + |d|)) {
      var parts :| AllParts(IsSubdomain, parts) && d == Joined(parts);
      DomainComplete(b, 1, parts);
    }
  }

  // ------------------------------------------------------------- local parts

  lemma AtomSound(b: Text, pos: int)
    requires -1 <= pos && Atom(b, pos).out.Ok?
    ensures IsAtom(Atom(b, pos).text)
  {
  }

  lemma {:induction false} DotStringSound(b: Text, pos: int) returns (parts: seq<Text>)
    requires -1 <= pos && DotString(b, pos).out.Ok?
    ensures AllParts(IsAtom, parts)
    ensures var s := DotString(b, pos); s.text == Joined(parts) == b[pos + 1..s.pos]
    decreases |b| - pos
  {
    var a := Atom(b, pos);
    AtomSound(b, pos);
    hide Atom, IsAtom;
    if At(b, a.pos) == '.' {
      var rest := DotStringSound(b, a.pos);
      parts := [a.text] + rest;
      assert parts[1..] == rest;
      SliceJoin(b, pos + 1, a.pos, DotString(b, a.pos).pos);
    } else {
      parts := [a.text];
    }
  }

  lemma AtomComplete(b: Text, pos: int, a: Text)
    requires -1 <= pos && IsAtom(a) && StandsAt(b, pos + 1, a) && !IsAtext(At(b, pos + 1 + |a|))
    ensures Atom(b, pos) == Scan(Ok, pos + 1 + |a|, a)
  {
    var e := pos + 1 + |a|;
    assert forall k :: pos + 1 <= k < e ==> b[k] == a[k - pos - 1];
    RunIs(IsAtext, b, pos + 1, e);
  }

  lemma DotStringCons(b: Text, pos: int, parts: seq<Text>)
    requires -1 <= pos && |parts| > 1 && IsAtom(parts[0])
    requires StandsAt(b, pos + 1, parts[0]) && At(b, pos + 1 + |parts[0]|) == '.'
    requires var t, p := Joined(parts[1..]), pos + 1 + |parts[0]|; DotString(b, p) == Scan(Ok, p + 1 + |t|, t)
    ensures DotString(b, pos) == Scan(Ok, pos + 1 + |Joined(parts)|, Joined(parts))
  {
    AtomComplete(b, pos, parts[0]);
  }

  lemma LastAtom(b: Text, pos: int, a: Text)
    requires -1 <= pos && IsAtom(a) && StandsAt(b, pos + 1, a)
    requires var c := At(b, pos + 1 + |a|); !IsAtext(c) && c != '.'
    ensures DotString(b, pos) == Scan(Ok, pos + 1 + |a|, a)
  {
    hide StandsAt, IsAtom, Atom, IsAtext;
    AtomComplete(b, pos, a);
  }

  lemma {:induction false} DotStringComplete(b: Text, pos: int, parts: seq<Text>)
    requires -1 <= pos && AllParts(IsAtom, parts) && StandsAt(b, pos + 1, Joined(parts))
    requires var c := At(b, pos + 1 + |Joined(parts)|); !IsAtext(c) && c != '.'
    ensures DotString(b, pos) == Scan(Ok, pos + 1 + |Joined(parts)|, Joined(parts))
    decreases |parts|
  {
    hide StandsAt, IsAtom, DotString, Atom, IsAtext;
    if |parts| == 1 {
      LastAtom(b, pos, parts[0]);
    } else {
      StandsAtJoined(b, pos + 1, parts);
      DotStringComplete(b, pos + 1 + |parts[0]|, parts[1..]);
      DotStringCons(b, pos, parts);
    }
  }

  /** The content read up to the closing byte, which the cursor then stands on. */
  lemma {:induction false} QcontentSound(b: Text, pos: int)
    requires -1 <= pos && Qcontent(b, pos, false).out.Ok?
    ensures var s := Qcontent(b, pos, false);
            (pos < s.pos <= |b| && SpellsContent(b[pos + 1..s.pos], s.text)) || |b| <= s.pos == pos + 1
    decreases |b| - pos
  {
    var s, i := Qcontent(b, pos, false), pos + 1;
    var c := At(b, i);
    if c == '\\' {
      QcontentSound(b, pos + 2);
      assert b[i..s.pos][2..] == b[i + 2..s.pos];
    } else if IsQtext(c) {
      QcontentSound(b, i);
      assert b[i..s.pos][1..] == b[i + 1..s.pos];
    }
  }

  lemma {:induction false} QcontentComplete(b: Text, pos: int, q: Text, t: Text)
    requires -1 <= pos && SpellsContent(q, t) && StandsAt(b, pos + 1, q) && At(b, pos + 1 + |q|) == '"'
    ensures Qcontent(b, pos, false) == Scan(Ok, pos + 1 + |q|, t)
    decreases |q|
  {
    if q != [] {
      var n := if q[0] == '\\' then 2 else 1;
      assert b[pos + 1] == q[0] && b[pos + n] == q[n - 1] == if n == 2 then q[1] else q[0];
      assert forall k :: 0 <= k < |q[n..]| ==> q[n..][k] == q[n + k];
      QcontentComplete(b, pos + n, q[n..], t[1..]);
    }
  }

  lemma QuotedSound(b: Text, pos: int)
    requires -1 <= pos && At(b, pos + 1) == '"'
    requires QuotedString(b, pos).out.Ok? && Held(b, QuotedString(b, pos).pos) == '@'
    ensures var s := QuotedString(b, pos);
            s.pos < |b| && exists q :: b[pos + 1..s.pos] == ['"'] + q + ['"'] && SpellsContent(q, s.text)
  {
    QcontentSound(b, pos + 1);
    var q := b[pos + 2..QuotedString(b, pos).pos - 1];
    assert b[pos + 1..QuotedString(b, pos).pos] == ['"'] + q + ['"'];
  }

  /** A local part that is followed by `@` is a Dot-string or a Quoted-string. */
  lemma LocalPartSound(b: Text, pos: int)
    requires -1 <= pos && LocalPart(b, pos).out.Ok? && Held(b, LocalPart(b, pos).pos) == '@'
    ensures var s := LocalPart(b, pos);
            s.pos < |b| && SpellsLocal(b[pos + 1..s.pos], s.text, LocalNeedsQuotes(b, pos))
  {
    if At(b, pos + 1) == '"' {
      QuotedSound(b, pos);
    } else {
      var _ := DotStringSound(b, pos);
    }
  }

  lemma QuotedComplete(b: Text, pos: int, q: Text, local: Text)
    requires -1 <= pos && SpellsContent(q, local)
    requires StandsAt(b, pos + 1, ['"'] + q + ['"'])
    ensures At(b, pos + 1) == '"' && QuotedString(b, pos) == Scan(Ok, pos + 3 + |q|, local)
  {
    var form := ['"'] + q + ['"'];
    assert b[pos + 1] == form[0] && b[pos + 2 + |q|] == form[|q| + 1];
    assert forall k :: 0 <= k < |q| ==> q[k] == form[k + 1];
    QcontentComplete(b, pos + 1, q, local);
  }

  lemma DotStringStart(b: Text, pos: int, parts: seq<Text>)
    requires -1 <= pos && AllParts(IsAtom, parts) && StandsAt(b, pos + 1, Joined(parts))
    ensures At(b, pos + 1) != '"'
  {
    assert Joined(parts)[0] == parts[0][0];
    assert b[pos + 1 + 0] == Joined(parts)[0];
  }

  predicate EndsLocal(c: byte) { !IsAtext(c) && c != '.' }

  /** A form that is followed by `@`, or by any other byte that cannot go on with it, is read as it spells. */
  lemma LocalPartComplete(b: Text, pos: int, form: Text, local: Text, quotes: bool)
    requires -1 <= pos && SpellsLocal(form, local, quotes)
    requires StandsAt(b, pos + 1, form) && EndsLocal(At(b, pos + 1 + |form|))
    ensures LocalPart(b, pos) == Scan(Ok, pos + 1 + |form|, local)
    ensures LocalNeedsQuotes(b, pos) == quotes
  {
    hide StandsAt, SpellsContent, QuotedString, DotString, IsAtom, IsAtext;
    if IsDotString(form) && local == form && !quotes {
      var parts :| AllParts(IsAtom, parts) && form == Joined(parts);
      DotStringComplete(b, pos, parts);
      DotStringStart(b, pos, parts);
    } else {
      var q :| form == ['"'] + q + ['"'] && SpellsContent(q, local) && quotes == NeedsQuotes(local);
      QuotedComplete(b, pos, q, local);
    }
  }
}
