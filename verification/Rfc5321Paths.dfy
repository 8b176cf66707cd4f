/** Address literals, mailboxes, paths and parameters: what is accepted, in both directions. */
module Rfc5321Paths {
  import opened Bytes
  import opened Rfc5321Grammar
  import opened Rfc5321Scan
  import opened Rfc5321Language

  // -------------------------------------------------------- address literals

  /** Numbers that stop on no dot are the bytes up to the cursor. */
  lemma {:induction false} SnumsText(b: Text, pos: int, i: nat)
    requires -1 <= pos && i < 4 && Snums(b, pos, i).out.Ok? && At(b, Snums(b, pos, i).pos) != '.'
    ensures Snums(b, pos, i).text == b[pos + 1..Snums(b, pos, i).pos]
    decreases 4 - i
  {
    hide FitsOctet, Snum, Every;
    var s := Snum(b, pos);
    if At(b, s.pos) == '.' {
      SnumsText(b, s.pos, i + 1);
      SliceJoin(b, pos + 1, s.pos, Snums(b, s.pos, i + 1).pos);
    }
  }

  lemma SnumBytes(b: Text, pos: int)
    requires -1 <= pos && Snum(b, pos).out.Ok?
    ensures var e := Snum(b, pos).pos;
            pos + 1 < e <= |b| && (forall k :: pos < k < e ==> IsDigit(b[k]))
  {
    hide FitsOctet;
  }

  /** Numbers are digits and dots; at the end of the input the last byte is a digit. */
  lemma {:induction false} SnumsBytes(b: Text, pos: int, i: nat)
    requires -1 <= pos && i < 4 && Snums(b, pos, i).out.Ok?
    ensures forall k :: pos < k < Snums(b, pos, i).pos ==> IsIpv4Byte(b[k])
    ensures IsDigit(b[Snums(b, pos, i).pos - 1])
    decreases 4 - i
  {
    hide FitsOctet, Snum;
    var s := Snum(b, pos);
    SnumBytes(b, pos);
    if At(b, s.pos) == '.' && i < 3 {
      SnumsBytes(b, s.pos, i + 1);
    }
  }

  lemma SnumComplete(b: Text, pos: int, d: Text)
    requires -1 <= pos && IsSnum(d) && StandsAt(b, pos + 1, d) && !IsDigit(At(b, pos + 1 + |d|))
    ensures Snum(b, pos) == Scan(Ok, pos + 1 + |d|, d)
  {
    var e := pos + 1 + |d|;
    assert forall k :: pos + 1 <= k < e ==> b[k] == d[k - pos - 1];
    RunIs(IsDigit, b, pos + 1, e);
    assert b[pos + 1..e] == d;
  }

  lemma SnumsCons(b: Text, pos: int, parts: seq<Text>, i: nat)
    requires -1 <= pos && 1 < |parts| && i < 4 && IsSnum(parts[0])
    requires StandsAt(b, pos + 1, parts[0]) && At(b, pos + 1 + |parts[0]|) == '.'
    requires var t, p := Joined(parts[1..]), pos + 1 + |parts[0]|; Snums(b, p, i + 1) == Scan(Ok, p + 1 + |t|, t)
    ensures Snums(b, pos, i) == Scan(Ok, pos + 1 + |Joined(parts)|, Joined(parts))
  {
    hide Snum, IsSnum;
    SnumComplete(b, pos, parts[0]);
  }

  lemma {:induction false} SnumsComplete(b: Text, pos: int, parts: seq<Text>)
    requires -1 <= pos && |parts| <= 4 && AllParts(IsSnum, parts) && StandsAt(b, pos + 1, Joined(parts))
    requires !IsIpv4Byte(At(b, pos + 1 + |Joined(parts)|))
    ensures Snums(b, pos, 4 - |parts|) == Scan(Ok, pos + 1 + |Joined(parts)|, Joined(parts))
    decreases |parts|
  {
    hide Snum, IsSnum;
    if |parts| == 1 {
      SnumComplete(b, pos, parts[0]);
    } else {
      StandsAtJoined(b, pos + 1, parts);
      SnumsComplete(b, pos + 1 + |parts[0]|, parts[1..]);
      SnumsCons(b, pos, parts, 4 - |parts|);
    }
  }

  lemma Ipv4Start(s: Text)
    requires IsIpv4(s)
    ensures s != [] && IsDigit(s[0])
  {
    var parts :| |parts| == 4 && AllParts(IsSnum, parts) && s == Joined(parts);
    assert IsDigit(parts[0][0]);
  }

  lemma NoIpInEmpty(parseIp: IpParser)
    requires IpContract(parseIp)
    ensures parseIp([]) == None
  {
    if parseIp([]).Some? {
      assert Every(IsIpv4Byte, []);
      Ipv4Start([]);
    }
  }

  lemma SliceEvery(p: byte -> bool, b: Text, i: nat, j: nat)
    requires i <= j <= |b| && forall k :: i <= k < j ==> p(b[k])
    ensures Every(p, b[i..j])
  {
  }

  lemma Ipv4LiteralSound(parseIp: IpParser, b: Text, pos: int)
    requires -1 <= pos && IpContract(parseIp)
    requires Ipv4Literal(parseIp, b, pos).out.Ok? && Held(b, Ipv4Literal(parseIp, b, pos).pos) == ']'
    ensures var l := Ipv4Literal(parseIp, b, pos);
            && pos < l.pos < |b| && l.ip == parseIp(l.text) && l.ip.Some?
            && l.text == b[pos + 1..l.pos] && IsIpv4(l.text)
  {
    var s := Snums(b, pos, 0);
    SnumsBytes(b, pos, 0);
    SnumsText(b, pos, 0);
    SliceEvery(IsIpv4Byte, b, pos + 1, s.pos);
  }

  lemma Ipv6LiteralSound(parseIp: IpParser, b: Text, pos: int)
    requires -1 <= pos && IpContract(parseIp) && b != []
    requires Ipv6Literal(parseIp, b, pos).out.Ok? && Held(b, Ipv6Literal(parseIp, b, pos).pos) == ']'
    ensures var l := Ipv6Literal(parseIp, b, pos);
            && pos < l.pos < |b| && l.ip == parseIp(b[pos + 1..l.pos]) && l.ip.Some? && l.text == l.ip.value.text
            && Every(IsIpv6Byte, b[pos + 1..l.pos])
  {
    NoIpInEmpty(parseIp);
  }

  lemma SliceDrop(b: Text, i: nat, n: nat, j: nat)
    requires i + n <= j <= |b|
    ensures b[i..j][n..] == b[i + n..j]
  {
  }

  lemma TaggedLiteral(parseIp: IpParser, b: Text, i: nat, j: nat, ip: Ip)
    requires i + 5 <= j <= |b| && (b[i] == 'I' || b[i] == 'i')
    requires Every(IsIpv6Byte, b[i + 5..j]) && parseIp(b[i + 5..j]) == Some(ip)
    ensures SpellsLiteral(parseIp, b[i..j], ip.text, ip)
  {
    SliceDrop(b, i, 5, j);
  }

  /** An accepted literal ends on its closing bracket and is one of the two forms. */
  lemma LiteralSound(parseIp: IpParser, b: Text, pos: int)
    requires -1 <= pos && At(b, pos + 1) == '[' && IpContract(parseIp)
    requires AddressLiteral(parseIp, b, pos).out.Ok?
    ensures var l := AddressLiteral(parseIp, b, pos);
            && pos + 2 <= l.pos < |b| && b[l.pos] == ']'
            && l.ip.Some? && SpellsLiteral(parseIp, b[pos + 2..l.pos], l.text, l.ip.value)
  {
    hide Ipv4Literal, Ipv6Literal, SpellsLiteral, IpContract;
    var p := At(b, pos + 2);
    if p == 'I' || p == 'i' {
      Ipv6LiteralSound(parseIp, b, pos + 6);
      var l := Ipv6Literal(parseIp, b, pos + 6);
      TaggedLiteral(parseIp, b, pos + 2, l.pos, l.ip.value);
    } else if IsDigit(p) {
      Ipv4LiteralSound(parseIp, b, pos + 1);
      var l := Ipv4Literal(parseIp, b, pos + 1);
      QuadSpells(parseIp, l.text, l.ip.value);
    }
  }

  lemma QuadSpells(parseIp: IpParser, s: Text, ip: Ip)
    requires IsIpv4(s) && parseIp(s) == Some(ip)
    ensures SpellsLiteral(parseIp, s, s, ip)
  {
  }

  lemma Ipv4LiteralComplete(parseIp: IpParser, b: Text, pos: int, s: Text, ip: Ip)
    requires -1 <= pos && IsIpv4(s) && parseIp(s) == Some(ip)
    requires StandsAt(b, pos + 1, s) && At(b, pos + 1 + |s|) == ']'
    ensures Ipv4Literal(parseIp, b, pos) == Literal(Ok, pos + 1 + |s|, s, Some(ip))
  {
    var parts :| |parts| == 4 && AllParts(IsSnum, parts) && s == Joined(parts);
    SnumsComplete(b, pos, parts);
  }

  lemma Ipv6LiteralComplete(parseIp: IpParser, b: Text, pos: int, s: Text, ip: Ip)
    requires -1 <= pos && Every(IsIpv6Byte, s) && parseIp(s) == Some(ip)
    requires StandsAt(b, pos + 1, s) && At(b, pos + 1 + |s|) == ']'
    ensures Ipv6Literal(parseIp, b, pos) == Literal(Ok, pos + 1 + |s|, ip.text, Some(ip))
  {
    var e := pos + 1 + |s|;
    assert forall k :: pos + 1 <= k < e ==> b[k] == s[k - pos - 1];
    RunIs(IsIpv6Byte, b, pos + 1, e);
    assert b[pos + 1..e] == s;
  }

  lemma LiteralComplete(parseIp: IpParser, b: Text, pos: int, l: Text, domain: Text, ip: Ip)
    requires -1 <= pos && At(b, pos + 1) == '[' && SpellsLiteral(parseIp, l, domain, ip)
    requires StandsAt(b, pos + 2, l) && At(b, pos + 2 + |l|) == ']'
    ensures AddressLiteral(parseIp, b, pos) == Literal(Ok, pos + 2 + |l|, domain, Some(ip))
  {
    hide Ipv4Literal, Ipv6Literal;
    if IsIpv4(l) && parseIp(l) == Some(ip) && domain == l {
      Ipv4Start(l);
      assert b[pos + 2] == l[0];
      Ipv4LiteralComplete(parseIp, b, pos + 1, l, ip);
    } else {
      assert b[pos + 2] == l[0];
      StandsAtTail(b, pos + 2, l, 5);
      Ipv6LiteralComplete(parseIp, b, pos + 6, l[5..], ip);
    }
  }

  lemma StandsAtTail(b: Text, i: int, s: Text, n: nat)
    requires StandsAt(b, i, s) && n <= |s|
    ensures StandsAt(b, i + n, s[n..])
  {
    assert forall k :: 0 <= k < |s[n..]| ==> s[n..][k] == s[n + k];
  }

  // --------------------------------------------------------------- mailboxes

  lemma StandsAtAppend(b: Text, i: int, s: Text, c: byte, t: Text)
    ensures StandsAt(b, i, s + [c] + t)
      <==> StandsAt(b, i, s) && i + |s| < |b| && b[i + |s|] == c && StandsAt(b, i + |s| + 1, t)
  {
    var all := s + [c] + t;
    if StandsAt(b, i, all) {
      assert forall k :: 0 <= k < |s| ==> s[k] == all[k];
      assert all[|s|] == c;
      assert forall k :: 0 <= k < |t| ==> t[k] == all[|s| + 1 + k];
    }
  }

  lemma StandsAtConcat(b: Text, i: int, s: Text, t: Text)
    ensures StandsAt(b, i, s + t) <==> StandsAt(b, i, s) && StandsAt(b, i + |s|, t)
  {
    if StandsAt(b, i, s + t) {
      assert forall k :: 0 <= k < |s| ==> s[k] == (s + t)[k];
      assert forall k :: 0 <= k < |t| ==> t[k] == (s + t)[|s| + k];
    }
  }

  lemma BracketsStand(b: Text, i: nat, j: nat)
    requires i < j < |b| && b[i] == '[' && b[j] == ']'
    ensures StandsAt(b, i, ['['] + b[i + 1..j] + [']'])
  {
  }

  lemma LiteralSpells(parseIp: IpParser, l: Text, domain: Text, ip: Ip)
    requires SpellsLiteral(parseIp, l, domain, ip)
    ensures SpellsDomain(parseIp, ['['] + l + [']'], domain, Some(ip))
  {
  }

  lemma DomainSpells(parseIp: IpParser, parts: seq<Text>)
    requires AllParts(IsSubdomain, parts)
    ensures SpellsDomain(parseIp, Joined(parts), Joined(parts), None)
  {
  }

  lemma SliceStands(b: Text, i: nat, j: nat)
    requires i <= j <= |b|
    ensures StandsAt(b, i, b[i..j])
  {
  }

  lemma DomainPartSound(parseIp: IpParser, b: Text, pos: int) returns (form: Text)
    requires 0 <= pos && IpContract(parseIp)
    requires if At(b, pos + 1) == '[' then AddressLiteral(parseIp, b, pos).out.Ok? else Domain(b, pos).out.Ok?
    ensures if At(b, pos + 1) == '[' then
              var a := AddressLiteral(parseIp, b, pos);
              SpellsDomain(parseIp, form, a.text, a.ip) && StandsAt(b, pos + 1, form) && a.pos == pos + |form|
            else
              var d := Domain(b, pos);
              SpellsDomain(parseIp, form, d.text, None) && StandsAt(b, pos + 1, form) && d.pos == pos + |form|
  {
    hide AddressLiteral, SpellsLiteral, SpellsDomain, DomainFrom, StandsAt, IpContract;
    if At(b, pos + 1) == '[' {
      LiteralSound(parseIp, b, pos);
      var a := AddressLiteral(parseIp, b, pos);
      form := ['['] + b[pos + 2..a.pos] + [']'];
      BracketsStand(b, pos + 1, a.pos);
      LiteralSpells(parseIp, b[pos + 2..a.pos], a.text, a.ip.value);
    } else {
      var parts := DomainSound(b, pos + 1);
      DomainStands(b, pos + 1);
      form := Domain(b, pos).text;
      DomainSpells(parseIp, parts);
      SliceStands(b, pos + 1, Domain(b, pos).pos + 1);
    }
  }

  /** A mailbox that was read is a local part, an `@` and a domain part. */
  lemma MailboxSound(parseIp: IpParser, b: Text, pos: int) returns (local: Text, domain: Text)
    requires -1 <= pos && IpContract(parseIp) && ScanMailbox(parseIp, b, pos, []).out.Ok?
    ensures var m := ScanMailbox(parseIp, b, pos, []);
            && SpellsMailbox(parseIp, local, domain, m)
            && StandsAt(b, pos + 1, local + ['@'] + domain) && m.pos == pos + |local| + 1 + |domain|
  {
    hide SpellsLocal, SpellsDomain, AddressLiteral, DomainFrom, LocalPart;
    var l := LocalPart(b, pos);
    assert [] + l.text == l.text;
    local := LocalFormSound(b, pos);
    domain := DomainPartSound(parseIp, b, l.pos);
    StandsAtAppend(b, pos + 1, local, '@', domain);
  }

  lemma LocalFormSound(b: Text, pos: int) returns (form: Text)
    requires -1 <= pos && LocalPart(b, pos).out.Ok? && Held(b, LocalPart(b, pos).pos) == '@'
    ensures var l := LocalPart(b, pos);
            && SpellsLocal(form, l.text, LocalNeedsQuotes(b, pos))
            && StandsAt(b, pos + 1, form) && l.pos == pos + 1 + |form| < |b| && b[l.pos] == '@'
  {
    hide SpellsLocal, LocalPart;
    LocalPartSound(b, pos);
    form := b[pos + 1..LocalPart(b, pos).pos];
  }

  lemma LiteralForm(b: Text, i: int, l: Text)
    requires StandsAt(b, i, ['['] + l + [']'])
    ensures 0 <= i && i + 1 + |l| < |b| && b[i] == '[' && StandsAt(b, i + 1, l) && b[i + 1 + |l|] == ']'
  {
    var form := ['['] + l + [']'];
    assert b[i] == form[0] && b[i + 1 + |l|] == form[1 + |l|];
    assert forall k :: 0 <= k < |l| ==> l[k] == form[k + 1];
  }

  lemma DomainPartComplete(parseIp: IpParser, b: Text, pos: int, form: Text, domain: Text, ip: Option<Ip>)
    requires 0 <= pos && SpellsDomain(parseIp, form, domain, ip)
    requires StandsAt(b, pos + 1, form) && At(b, pos + 1 + |form|) == '>'
    ensures if ip.Some? then
              At(b, pos + 1) == '[' && AddressLiteral(parseIp, b, pos) == Literal(Ok, pos + |form|, domain, ip)
            else
              At(b, pos + 1) != '[' && Domain(b, pos) == Scan(Ok, pos + |form|, domain)
  {
    match ip
    case Some(v) =>
      var l :| form == ['['] + l + [']'] && SpellsLiteral(parseIp, l, domain, v);
      LiteralForm(b, pos + 1, l);
      LiteralComplete(parseIp, b, pos, l, domain, v);
    case None =>
      var parts :| AllParts(IsSubdomain, parts) && form == Joined(parts);
      DomainComplete(b, pos + 1, parts);
      assert b[pos + 1] == form[0] == parts[0][0];
  }

  /** Some mailbox with a `>` after it stands at index i, and m is what it reads as. */
  ghost predicate MailboxAt(parseIp: IpParser, b: Text, i: int, m: Mailbox) {
    && m.out.Ok?
    && exists local, domain :: SpellsMailbox(parseIp, local, domain, m)
                               && StandsAt(b, i, local + ['@'] + domain)
                               && m.pos == i + |local| + |domain| && At(b, m.pos + 1) == '>'
  }

  ghost predicate SpellsMailbox(parseIp: IpParser, local: Text, domain: Text, m: Mailbox) {
    SpellsLocal(local, m.local, m.quotes) && SpellsDomain(parseIp, domain, m.domain, m.ip)
  }

  lemma MailboxComplete(parseIp: IpParser, b: Text, pos: int, m: Mailbox)
    requires -1 <= pos && MailboxAt(parseIp, b, pos + 1, m)
    ensures ScanMailbox(parseIp, b, pos, []) == m
  {
    hide SpellsLocal, SpellsDomain, AddressLiteral, DomainFrom, LocalPart;
    var local, domain :| SpellsMailbox(parseIp, local, domain, m)
                         && StandsAt(b, pos + 1, local + ['@'] + domain)
                         && m.pos == pos + 1 + |local| + |domain| && At(b, m.pos + 1) == '>';
    StandsAtAppend(b, pos + 1, local, '@', domain);
    LocalPartComplete(b, pos, local, m.local, m.quotes);
    DomainPartComplete(parseIp, b, pos + 1 + |local|, domain, m.domain, m.ip);
    assert [] + m.local == m.local;
  }

  /** The path at pos + 1 opens a source route. */
  predicate OpensRoute(b: Text, pos: int) { At(b, pos + 1) == '<' && At(b, pos + 2) == '@' }

  /**
   * Unless a source route opens it, a path is accepted exactly when, after one byte of any
   * kind, a mailbox of section 4.1.2 of RFC 5321 and a `>` follow; and it reads as that mailbox.
   */
  lemma PathLanguage(parseIp: IpParser, b: Text, pos: int, m: Mailbox)
    requires -1 <= pos && IpContract(parseIp) && !OpensRoute(b, pos)
    ensures m.out.Ok? && ScanPath(parseIp, b, pos) == Path([], m) <==> MailboxAt(parseIp, b, pos + 2, m)
  {
    hide ScanMailbox, Adl, SpellsMailbox, StandsAt;
    if m.out.Ok? && ScanPath(parseIp, b, pos) == Path([], m) {
      var local, domain := MailboxSound(parseIp, b, pos + 1);
      assert SpellsMailbox(parseIp, local, domain, m);
    } else if MailboxAt(parseIp, b, pos + 2, m) {
      MailboxComplete(parseIp, b, pos + 1, m);
    }
  }

  // ----------------------------------------------------------- source routes

  /** At-domains with a comma between each two stand in b from i up to j, and no comma follows. */
  ghost predicate RouteAt(b: Text, i: nat, ds: seq<Text>, j: nat)
    decreases |ds|
  {
    && ds != [] && IsDomain(ds[0]) && At(b, i) == '@' && StandsAt(b, i + 1, ds[0])
    && var e := i + 1 + |ds[0]|;
       if |ds| == 1 then j == e && EndsDomain(At(b, e)) && At(b, e) != ','
       else At(b, e) == ',' && RouteAt(b, e + 1, ds[1..], j)
  }

  /** The domains as the parser lists them, each with its at sign. */
  function AtDomains(ds: seq<Text>): (r: seq<Text>)
    ensures |r| == |ds| && forall k :: 0 <= k < |ds| ==> r[k] == ['@'] + ds[k]
  {
    seq(|ds|, i requires 0 <= i < |ds| => ['@'] + ds[i])
  }

  lemma AtDomainSound(b: Text, pos: int) returns (d: Text)
    requires -1 <= pos && AtDomain(b, pos).out.Ok?
    ensures var a := AtDomain(b, pos);
            && a.text == ['@'] + d && a.pos == pos + 1 + |d| && At(b, pos + 1) == '@'
            && IsDomain(d) && StandsAt(b, pos + 2, d) && EndsDomain(At(b, a.pos + 1))
  {
    hide DomainFrom, EndsDomain;
    var _ := DomainSound(b, pos + 2);
    DomainStands(b, pos + 2);
    d := Domain(b, pos + 1).text;
    SliceStands(b, pos + 2, Domain(b, pos + 1).pos + 1);
  }

  lemma AtDomainComplete(b: Text, pos: int, d: Text)
    requires -1 <= pos && At(b, pos + 1) == '@' && IsDomain(d) && StandsAt(b, pos + 2, d)
    requires EndsDomain(At(b, pos + 2 + |d|))
    ensures AtDomain(b, pos) == Scan(Ok, pos + 1 + |d|, ['@'] + d)
  {
    hide DomainFrom, EndsDomain;
    var parts :| AllParts(IsSubdomain, parts) && d == Joined(parts);
    DomainComplete(b, pos + 2, parts);
  }

  lemma RouteCons(b: Text, i: nat, d: Text, rest: seq<Text>, j: nat)
    requires IsDomain(d) && At(b, i) == '@' && StandsAt(b, i + 1, d) && At(b, i + 1 + |d|) == ','
    requires RouteAt(b, i + 2 + |d|, rest, j)
    ensures RouteAt(b, i, [d] + rest, j) && AtDomains([d] + rest) == [['@'] + d] + AtDomains(rest)
  {
    hide IsDomain, StandsAt;
    assert ([d] + rest)[1..] == rest;
  }

  lemma {:induction false} AdlSound(b: Text, pos: int) returns (ds: seq<Text>)
    requires -1 <= pos && Adl(b, pos).out.Ok?
    ensures RouteAt(b, pos + 1, ds, Adl(b, pos).pos + 1) && Adl(b, pos).domains == AtDomains(ds)
    decreases |b| - pos
  {
    hide AtDomain, IsDomain, StandsAt, EndsDomain;
    var a := AtDomain(b, pos);
    var d := AtDomainSound(b, pos);
    if At(b, a.pos + 1) == ',' {
      var rest := AdlSound(b, a.pos + 1);
      RouteCons(b, pos + 1, d, rest, Adl(b, a.pos + 1).pos + 1);
      ds := [d] + rest;
    } else {
      ds := [d];
      assert AtDomains(ds) == [['@'] + d];
    }
  }

  lemma {:induction false} AdlComplete(b: Text, pos: int, ds: seq<Text>, j: nat)
    requires -1 <= pos && RouteAt(b, pos + 1, ds, j)
    ensures Adl(b, pos) == Route(Ok, j - 1, AtDomains(ds), [])
    decreases |ds|
  {
    hide AtDomain, IsDomain, StandsAt;
    AtDomainComplete(b, pos, ds[0]);
    if |ds| > 1 {
      AdlComplete(b, pos + 2 + |ds[0]|, ds[1..], j);
      assert AtDomains(ds) == [['@'] + ds[0]] + AtDomains(ds[1..]);
    } else {
      assert AtDomains(ds) == [['@'] + ds[0]];
    }
  }

  /**
   * A path with a well-formed source route is accepted exactly when a colon, a mailbox and a `>`
   * follow the route; it reads as the domains of the route and that mailbox.
   */
  lemma RoutedPathLanguage(parseIp: IpParser, b: Text, pos: int, ds: seq<Text>, j: nat, adl: seq<Text>, m: Mailbox)
    requires -1 <= pos && IpContract(parseIp) && At(b, pos + 1) == '<' && RouteAt(b, pos + 2, ds, j)
    ensures m.out.Ok? && ScanPath(parseIp, b, pos) == Path(adl, m)
        <==> At(b, j) == ':' && adl == AtDomains(ds) && MailboxAt(parseIp, b, j + 1, m)
  {
    hide ScanMailbox, Adl, SpellsMailbox, StandsAt, IpContract, IsDomain;
    AdlComplete(b, pos + 1, ds, j);
    HeldAfterRoute(b, pos + 2, ds, j);
    if m.out.Ok? && ScanPath(parseIp, b, pos) == Path(adl, m) {
      var local, domain := MailboxSound(parseIp, b, j);
      assert SpellsMailbox(parseIp, local, domain, m);
    } else if At(b, j) == ':' && adl == AtDomains(ds) && MailboxAt(parseIp, b, j + 1, m) {
      MailboxComplete(parseIp, b, j, m);
    }
  }

  lemma {:induction false} HeldAfterRoute(b: Text, i: nat, ds: seq<Text>, j: nat)
    requires RouteAt(b, i, ds, j)
    ensures 0 < j <= |b| && b[j - 1] != ':'
    decreases |ds|
  {
    hide StandsAt;
    if |ds| > 1 {
      HeldAfterRoute(b, i + 2 + |ds[0]|, ds[1..], j);
    } else {
      DomainEnd(b, i + 1, ds[0]);
    }
  }

  lemma DomainEnd(b: Text, i: nat, d: Text)
    requires IsDomain(d) && StandsAt(b, i, d)
    ensures d != [] && i + |d| <= |b| && b[i + |d| - 1] != ':'
  {
    var parts :| AllParts(IsSubdomain, parts) && d == Joined(parts);
    JoinedEnd(parts);
    assert b[i + (|d| - 1)] == d[|d| - 1];
  }

  lemma {:induction false} JoinedEnd(parts: seq<Text>)
    requires AllParts(IsSubdomain, parts)
    ensures var d := Joined(parts); d != [] && IsLetDig(d[|d| - 1])
    decreases |parts|
  {
    if |parts| > 1 {
      JoinedEnd(parts[1..]);
    }
  }

  /** A bracketed literal stands at index i, and reads as this text. */
  ghost predicate LiteralAt(parseIp: IpParser, b: Text, i: int, text: Text) {
    exists l, ip :: StandsAt(b, i, ['['] + l + [']']) && SpellsLiteral(parseIp, l, text, ip)
  }

  /**
   * EHLO accepts what HELO accepts, and after a space a bracketed literal, whatever follows it, if
   * the text the literal reads as is an IP address to net.ParseIP once more.
   */
  lemma EhloLanguage(parseIp: IpParser, b: Text, name: Text, ip: Option<Ip>)
    requires IpContract(parseIp)
    ensures Ehlo(parseIp, b) == Some((name, ip)) <==>
              if ip.None? then Helo(b) == Some(name)
              else At(b, 0) == ' ' && LiteralAt(parseIp, b, 1, name) && parseIp(name) == ip
  {
    hide AddressLiteral, SpellsLiteral, StandsAt, IpContract;
    if At(b, 0) == ' ' && At(b, 1) == '[' {
      if AddressLiteral(parseIp, b, 0).out.Ok? {
        LiteralSound(parseIp, b, 0);
        var a := AddressLiteral(parseIp, b, 0);
        BracketsStand(b, 1, a.pos);
        assert LiteralAt(parseIp, b, 1, a.text);
      }
      if LiteralAt(parseIp, b, 1, name) {
        var l, v :| StandsAt(b, 1, ['['] + l + [']']) && SpellsLiteral(parseIp, l, name, v);
        LiteralForm(b, 1, l);
        LiteralComplete(parseIp, b, 0, l, name, v);
      }
    } else if LiteralAt(parseIp, b, 1, name) {
      var l, v :| StandsAt(b, 1, ['['] + l + [']']) && SpellsLiteral(parseIp, l, name, v);
      LiteralForm(b, 1, l);
    }
  }
}
