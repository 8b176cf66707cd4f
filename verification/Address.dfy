/** Printing an address and reading it back. */
module Addresses {
  import opened Bytes
  import opened Rfc5321Grammar
  import opened Rfc5321Scan
  import opened Rfc5321Language
  import opened Rfc5321Paths
  import opened Rfc5321Commands

  /** A local part with every backslash and double quote escaped. */
  function Escaped(user: Text): Text {
    if user == [] then [] else EscapedByte(user[0]) + Escaped(user[1..])
  }

  function EscapedByte(c: byte): Text {
    if c == '\\' || c == '"' then ['\\', c] else [c]
  }

  datatype Address = Address(
    user: Text, host: Text, adl: seq<Text>, params: seq<Param>, nullPath: bool, quoted: bool, ip: Option<Ip>)
  {
    predicate IsEmpty() { user == [] && host == [] }

    predicate IsPostmaster() { user == POSTMASTER }

    function Local(): Text { if quoted then ['"'] + Escaped(user) + ['"'] else user }

    function HostPart(): Text { if ip.Some? then ['['] + host + [']'] else host }

    function Printed(): Text {
      if IsEmpty() then []
      else if user == POSTMASTER && host == [] then POSTMASTER
      else if host != [] then Local() + ['@'] + HostPart()
      else Local()
    }

    /** The local part in quotes: a buffer is filled byte by byte, escaping as it goes. */
    method QuotedLocal() returns (sb: Text)
      ensures sb == ['"'] + Escaped(user) + ['"']
    {
      sb := ['"'];
      for i := 0 to |user|
        invariant sb == ['"'] + Escaped(user[..i])
      {
        EscapedStep(user, i);
        if user[i] == '\\' || user[i] == '"' {
          sb := sb + ['\\'];
        }
        sb := sb + [user[i]];
      }
      assert user[..|user|] == user;
      sb := sb + ['"'];
    }

    /** The address as text; the empty address prints as nothing. */
    method String() returns (s: Text)
      ensures s == Printed()
    {
      if IsEmpty() {
        return [];
      }
      if user == POSTMASTER && host == [] {
        return POSTMASTER;
      }
      var local := user;
      if quoted {
        local := QuotedLocal();
      }
      if host != [] {
        if ip.Some? {
          return local + ['@'] + (['['] + host + [']']);
        }
        return local + ['@'] + host;
      }
      return local;
    }
  }

  lemma {:induction false} EscapedSnoc(user: Text, c: byte)
    ensures Escaped(user + [c]) == Escaped(user) + EscapedByte(c)
    decreases |user|
  {
    if user == [] {
      assert [c][1..] == [];
    } else {
      assert (user + [c])[1..] == user[1..] + [c];
      EscapedSnoc(user[1..], c);
    }
  }

  lemma EscapedStep(user: Text, i: nat)
    requires i < |user|
    ensures ['"'] + Escaped(user[..i + 1]) == ['"'] + Escaped(user[..i]) + EscapedByte(user[i])
  {
    assert user[..i] + [user[i]] == user[..i + 1];
    EscapedSnoc(user[..i], user[i]);
  }

  lemma {:induction false} EscapedSpells(user: Text)
    requires Every(IsPrintable, user)
    ensures SpellsContent(Escaped(user), user)
    decreases |user|
  {
    if user != [] {
      assert forall k :: 0 <= k < |user[1..]| ==> user[1..][k] == user[k + 1];
      EscapedSpells(user[1..]);
      var e, rest := EscapedByte(user[0]), Escaped(user[1..]);
      assert (e + rest)[|e|..] == rest;
    }
  }

  /** The address a command hands on. */
  function OfReading(r: Reading): Address {
    Address(r.local, r.domain, r.adl, r.params, r.nullPath, r.quotes, r.ip)
  }

  function ReadingOf(a: Address): Reading {
    Reading(false, [], a.user, a.quoted, a.host, a.ip, [])
  }

  /** A local part as the parser produces it, other than the empty one. */
  ghost predicate LocalPrintable(a: Address) {
    if a.quoted then Every(IsPrintable, a.user) && NeedsQuotes(a.user) else IsDotString(a.user)
  }

  /** A host that is a Domain, or a dotted quad that net.ParseIP takes. */
  ghost predicate HostPrintable(parseIp: IpParser, a: Address) {
    match a.ip
    case None => IsDomain(a.host)
    case Some(_) => IsIpv4(a.host) && parseIp(a.host) == a.ip
  }

  function Path(a: Address): Text { ['<'] + a.Printed() + ['>'] }

  lemma DomainNotEmpty(d: Text)
    requires IsDomain(d)
    ensures d != []
  {
    var parts :| AllParts(IsSubdomain, parts) && d == Joined(parts);
    assert d[0] == parts[0][0];
  }

  lemma LocalSpells(a: Address)
    requires LocalPrintable(a)
    ensures SpellsLocal(a.Local(), a.user, a.quoted)
  {
    if a.quoted {
      EscapedSpells(a.user);
    }
  }

  lemma HostSpells(parseIp: IpParser, a: Address)
    requires HostPrintable(parseIp, a)
    ensures a.host != [] && SpellsDomain(parseIp, a.HostPart(), a.host, a.ip)
  {
    if a.ip.Some? {
      Ipv4Start(a.host);
      assert SpellsLiteral(parseIp, a.host, a.host, a.ip.value);
    } else {
      DomainNotEmpty(a.host);
    }
  }

  function MailboxOf(a: Address): Mailbox {
    Mailbox(Ok, |a.Printed()|, a.user, a.quoted, a.host, a.ip)
  }

  lemma PathStands(a: Address)
    requires a.host != []
    ensures var b := Path(a);
            && StandsAt(b, 1, a.Local() + ['@'] + a.HostPart()) && |b| == |a.Printed()| + 2
            && b[0] == '<' && b[|b| - 1] == '>'
  {
    hide Escaped;
    var b, t := Path(a), a.Local() + ['@'] + a.HostPart();
    assert forall k :: 0 <= k < |t| ==> b[1 + k] == t[k];
  }

  lemma PathOpens(a: Address)
    requires LocalPrintable(a)
    ensures a.Local() != [] && a.Local()[0] != '@' && a.Local()[0] != '>'
  {
    LocalSpells(a);
    LocalStart(a.Local(), a.user, a.quoted);
  }

  lemma PrintedMailbox(parseIp: IpParser, a: Address)
    requires LocalPrintable(a) && HostPrintable(parseIp, a)
    ensures MailboxAt(parseIp, Path(a), 1, MailboxOf(a))
    ensures !OpensRoute(Path(a), -1) && PathStart(Path(a)) == -1 && |Path(a)| == |a.Printed()| + 2
  {
    hide LocalPrintable, HostPrintable, SpellsLocal, SpellsDomain;
    HostSpells(parseIp, a);
    LocalSpells(a);
    PathStands(a);
    PathOpens(a);
    var b, t := Path(a), a.Local() + ['@'] + a.HostPart();
    assert b[1] == t[0] == a.Local()[0];
    assert SpellsMailbox(parseIp, a.Local(), a.HostPart(), MailboxOf(a));
  }

  /** Printing and parsing again gives back local part, quoting, domain and IP address. */
  lemma RoundTrip(parseIp: IpParser, a: Address)
    requires IpContract(parseIp) && LocalPrintable(a) && HostPrintable(parseIp, a)
    ensures MailFrom(parseIp, Path(a)) == Command(Ok, ReadingOf(a))
  {
    hide LocalPrintable, HostPrintable, MailboxAt, MailFrom, Params;
    PrintedMailbox(parseIp, a);
    var b, m := Path(a), MailboxOf(a);
    assert At(b, m.pos + 2) == '\0';
    assert WithParams(b, m.pos, OfMailbox(m)) == Command(Ok, ReadingOf(a));
    MailFromMailbox(parseIp, b, ReadingOf(a));
  }

  /** As RoundTrip, with ESMTP parameters after the path: they come back up to the first one without a value. */
  lemma RoundTripWithParams(parseIp: IpParser, a: Address, ps: seq<Param>)
    requires IpContract(parseIp) && LocalPrintable(a) && HostPrintable(parseIp, a) && WellFormedParams(ps)
    ensures MailFrom(parseIp, Path(a) + Printed(ps)) == Command(Ok, ReadingOf(a).(params := ps[..Kept(ps)]))
    ensures MailFrom(parseIp, Path(a) + Printed(ps)) == Command(Ok, ReadingOf(a).(params := ps)) <==> OnlyLastIsBare(ps)
  {
    hide LocalPrintable, HostPrintable, MailFrom, Params, WellFormedParams, OnlyLastIsBare, Printed, Kept;
    PrintedMailbox(parseIp, a);
    var p, b, m := Path(a), Path(a) + Printed(ps), MailboxOf(a);
    MailboxAtPrefix(parseIp, p, Printed(ps), 1, m);
    assert forall k :: 0 <= k < |Printed(ps)| ==> b[|p| + k] == Printed(ps)[k];
    assert b[0] == p[0] && b[1] == p[1];
    ParamsRoundTrip(b, m.pos, OfMailbox(m), ps);
    MailFromMailbox(parseIp, b, ReadingOf(a).(params := ps[..Kept(ps)]));
    KeptAllIff(ps);
  }

  /** Bytes after the closing `>` do not change which mailbox stands before it. */
  lemma MailboxAtPrefix(parseIp: IpParser, b: Text, rest: Text, i: int, m: Mailbox)
    requires 0 <= i && MailboxAt(parseIp, b, i, m)
    ensures MailboxAt(parseIp, b + rest, i, m)
  {
    hide SpellsMailbox;
    var local, domain :| SpellsMailbox(parseIp, local, domain, m)
                         && StandsAt(b, i, local + ['@'] + domain)
                         && m.pos == i + |local| + |domain| && At(b, m.pos + 1) == '>';
    assert StandsAt(b + rest, i, local + ['@'] + domain);
  }

  // ------------------------------------------- where the round trip fails

  lemma FirstStands(b: Text, i: nat, s: Text)
    requires s != [] && StandsAt(b, i, s)
    ensures i < |b| && b[i] == s[0]
  {
    assert b[i + 0] == s[0];
  }

  lemma UntaggedMailbox(parseIp: IpParser, a: Address)
    requires IpContract(parseIp) && LocalPrintable(a)
    requires a.ip.Some? && Every(IsIpv6Byte, a.host) && ':' in a.host
    ensures ScanMailbox(parseIp, Path(a), 0, []).out.Fail?
    ensures StandsAt(Path(a), 1, a.Local())
  {
    hide LocalPrintable, ScanMailbox, AddressLiteral, SpellsLiteral, Every, SpellsLocal, LocalPart, StandsAt,
      IpContract;
    PathStands(a);
    PathOpens(a);
    LocalSpells(a);
    var b, local := Path(a), a.Local();
    StandsAtAppend(b, 1, local, '@', a.HostPart());
    LocalPartComplete(b, 0, local, a.user, a.quoted);
    LiteralForm(b, 2 + |local|, a.host);
    UntaggedLiteral(parseIp, b, 1 + |local|, a.host);
    MailboxLiteral(parseIp, b, 0);
  }

  /** An IPv6 literal is printed without its tag, and then no longer parses. */
  lemma UntaggedIpv6(parseIp: IpParser, a: Address)
    requires IpContract(parseIp) && LocalPrintable(a)
    requires a.ip.Some? && Every(IsIpv6Byte, a.host) && ':' in a.host
    ensures MailFrom(parseIp, Path(a)).out.Fail?
  {
    hide LocalPrintable, MailFrom, ScanMailbox, StandsAt, Every, IpContract;
    UntaggedMailbox(parseIp, a);
    PathOpens(a);
    PathStands(a);
    FirstStands(Path(a), 1, a.Local());
    FailedMailbox(parseIp, Path(a));
  }

  /** A mailbox whose domain part opens with a bracket fails when the literal does. */
  lemma MailboxLiteral(parseIp: IpParser, b: Text, pos: int)
    requires -1 <= pos && LocalPart(b, pos).out.Ok?
    requires var l := LocalPart(b, pos);
             At(b, l.pos) == '@' && At(b, l.pos + 1) == '[' && AddressLiteral(parseIp, b, l.pos).out.Fail?
    ensures ScanMailbox(parseIp, b, pos, []).out.Fail?
  {
    hide LocalPart, AddressLiteral;
  }

  lemma FailedMailbox(parseIp: IpParser, b: Text)
    requires |b| > 1 && b[0] == '<' && b[1] != '@' && b[1] != '>'
    requires ScanMailbox(parseIp, b, 0, []).out.Fail?
    ensures MailFrom(parseIp, b).out.Fail?
  {
    hide ScanMailbox;
  }

  lemma UntaggedLiteral(parseIp: IpParser, b: Text, pos: nat, host: Text)
    requires IpContract(parseIp) && Every(IsIpv6Byte, host) && ':' in host
    requires At(b, pos + 1) == '[' && StandsAt(b, pos + 2, host)
    ensures AddressLiteral(parseIp, b, pos).out.Fail?
  {
    hide AddressLiteral;
    var l := AddressLiteral(parseIp, b, pos);
    if l.out.Ok? {
      LiteralSound(parseIp, b, pos);
      var k :| 0 <= k < |host| && host[k] == ':';
      forall j | 0 <= j < |host| ensures b[pos + 2 + j] == host[j] != ']' {
      }
      assert forall j :: pos + 2 <= j < pos + 2 + |host| ==> b[j] == host[j - pos - 2];
      var form := b[pos + 2..l.pos];
      assert form[0] == host[0] && form[k] == ':';
      if IsIpv4(form) {
        Ipv4Bytes(form);
      }
    }
  }

  lemma Ipv4Bytes(s: Text)
    requires IsIpv4(s)
    ensures Every(IsIpv4Byte, s)
  {
    var parts :| |parts| == 4 && AllParts(IsSnum, parts) && s == Joined(parts);
    JoinedBytes(parts);
  }

  lemma {:induction false} JoinedBytes(parts: seq<Text>)
    requires AllParts(IsSnum, parts)
    ensures Every(IsIpv4Byte, Joined(parts))
    decreases |parts|
  {
    if |parts| > 1 {
      JoinedBytes(parts[1..]);
    }
  }

  lemma NoAtNoMailbox(parseIp: IpParser, b: Text, pos: int, held: Text)
    requires 0 <= pos && b != [] && b[|b| - 1] != '@' && forall k :: pos < k < |b| ==> b[k] != '@'
    ensures ScanMailbox(parseIp, b, pos, held).out.Fail?
  {
    hide LocalPart;
  }

  lemma NoAtNoPath(parseIp: IpParser, b: Text)
    requires |b| > 2 && b[0] == '<' && b[1] == '@' && forall k :: 2 <= k < |b| ==> b[k] != '@'
    ensures MailFrom(parseIp, b).out.Fail?
  {
    hide ScanMailbox, DomainFrom;
    var r := Adl(b, 0);
    assert AtDomain(b, 0).pos >= 2;
    NoAtNoMailbox(parseIp, b, r.pos, r.rest);
    NoAtNoMailbox(parseIp, b, r.pos + 1, []);
  }

  /** What is relied on of IP.String: its bytes, and that dotted quads read back as themselves. */
  ghost predicate IpTextContract(parseIp: IpParser) {
    forall t: Text :: parseIp(t).Some? ==>
      var v := parseIp(t).value.text;
      v != [] && Every(IsIpv6Byte, v) && (':' !in v ==> IsIpv4(v) && parseIp(v) == parseIp(t))
  }

  lemma {:induction false} JoinedDomainBytes(parts: seq<Text>)
    requires AllParts(IsSubdomain, parts)
    ensures forall k :: 0 <= k < |Joined(parts)| ==> IsLdh(Joined(parts)[k]) || Joined(parts)[k] == '.'
    decreases |parts|
  {
    if |parts| > 1 {
      JoinedDomainBytes(parts[1..]);
    }
  }

  /** The host an accepted MAIL read: a Domain, a dotted quad or an untagged IPv6 address. */
  lemma HostContent(parseIp: IpParser, a: Address)
    requires IpTextContract(parseIp) && DomainContent(parseIp, a.host, a.ip)
    ensures a.host != [] && '@' !in a.HostPart()
    ensures !(a.ip.Some? && ':' in a.host) ==> HostPrintable(parseIp, a)
    ensures a.ip.Some? && ':' in a.host ==> Every(IsIpv6Byte, a.host)
  {
    match a.ip
    case None =>
      var parts :| AllParts(IsSubdomain, parts) && a.host == Joined(parts);
      JoinedDomainBytes(parts);
      DomainNotEmpty(a.host);
    case Some(v) =>
      var t :| parseIp(t) == a.ip && ((a.host == t && IsIpv4(t)) || a.host == v.text);
      if a.host == t && IsIpv4(t) {
        Ipv4Start(t);
        Ipv4Bytes(t);
      }
      assert forall k :: 0 <= k < |a.host| ==> a.host[k] != '@';
  }

  lemma LocalFromContent(a: Address)
    requires a.user != [] && LocalContent(a.user, a.quoted)
    ensures LocalPrintable(a)
  {
    if !NeedsQuotes(a.user) {
      assert IsAtom(a.user);
      assert AllParts(IsAtom, [a.user]) && Joined([a.user]) == a.user;
    }
  }

  lemma EmptyLocal(parseIp: IpParser, a: Address)
    requires a.user == [] && !a.quoted && a.host != [] && '@' !in a.HostPart()
    ensures MailFrom(parseIp, Path(a)).out.Fail?
  {
    hide MailFrom;
    var b, h := Path(a), a.HostPart();
    assert b == ['<', '@'] + h + ['>'];
    forall k | 2 <= k < |b| ensures b[k] != '@' {
      assert k < |b| - 1 ==> b[k] == h[k - 2];
    }
    NoAtNoPath(parseIp, b);
  }

  lemma EmptyNeedsNoQuotes(a: Address)
    requires LocalContent(a.user, a.quoted) && a.user == []
    ensures !a.quoted
  {
  }

  /**
   * Whatever MAIL accepted, printing it and parsing again yields the same reading exactly
   * when the local part is not empty and the host is no IPv6 literal.
   */
  lemma ReparseIff(parseIp: IpParser, b: Text)
    requires IpContract(parseIp) && IpTextContract(parseIp) && !OpensRoute(b, PathStart(b))
    requires MailFrom(parseIp, b).out.Ok? && !MailFrom(parseIp, b).reading.nullPath
    ensures var r := MailFrom(parseIp, b).reading;
            MailFrom(parseIp, Path(OfReading(r))) == Command(Ok, r.(params := []))
            <==> r.local != [] && !(r.ip.Some? && ':' in r.domain)
  {
    hide MailFrom, IpContract, IpTextContract, LocalContent, DomainContent, LocalPrintable, HostPrintable, Path,
      WellFormedParams, OpensRoute;
    MailFromSound(parseIp, b);
    var r := MailFrom(parseIp, b).reading;
    var a := OfReading(r);
    HostContent(parseIp, a);
    if r.local == [] {
      EmptyNeedsNoQuotes(a);
      EmptyLocal(parseIp, a);
    } else {
      LocalFromContent(a);
      if r.ip.Some? && ':' in r.domain {
        UntaggedIpv6(parseIp, a);
      } else {
        RoundTrip(parseIp, a);
      }
    }
  }

  /** RCPT reads a printed address back, except that it rewrites what begins with "postmaster". */
  lemma RcptReads(parseIp: IpParser, a: Address)
    requires IpContract(parseIp) && LocalPrintable(a) && HostPrintable(parseIp, a)
    ensures RcptTo(parseIp, Path(a))
            == Command(Ok, ReadingOf(a).(local := if IsPostmaster(a.user) then POSTMASTER else a.user))
  {
    hide LocalPrintable, HostPrintable, MailboxAt, ScanPath, Params;
    PrintedMailbox(parseIp, a);
    PathLanguage(parseIp, Path(a), -1, MailboxOf(a));
  }

  lemma PostmasterWord(local: Text)
    ensures IsPostmaster(local) <==> BeginsAnyCase(local, "postmaster")
  {
    LowerPrefix(local, "postmaster");
  }

  /**
   * RCPT of a printed address: a local part that begins with "postmaster", in any case and whatever
   * comes after it, is read as "postmaster"; every other one is read as it is.
   */
  lemma RcptRoundTrip(parseIp: IpParser, a: Address)
    requires IpContract(parseIp) && LocalPrintable(a) && HostPrintable(parseIp, a)
    ensures !BeginsAnyCase(a.user, "postmaster") ==> RcptTo(parseIp, Path(a)) == Command(Ok, ReadingOf(a))
    ensures BeginsAnyCase(a.user, "postmaster") ==>
              RcptTo(parseIp, Path(a)) == Command(Ok, ReadingOf(a).(local := "postmaster"))
    ensures RcptTo(parseIp, Path(a)) == Command(Ok, ReadingOf(a))
            <==> !BeginsAnyCase(a.user, "postmaster") || a.user == "postmaster"
  {
    hide LocalPrintable, HostPrintable, RcptTo, IsPostmaster, BeginsAnyCase;
    RcptReads(parseIp, a);
    PostmasterWord(a.user);
  }

  /**
   * RCPT reads whatever MAIL reads, up to the rewriting, but it takes no empty path; and besides it
   * takes only paths that lack an at sign after a local part that begins with "postmaster".
   */
  lemma RcptLikeMail(parseIp: IpParser, b: Text)
    ensures OpensNull(b) ==> RcptTo(parseIp, b).out.Fail?
    ensures var mail, rcpt, m := MailFrom(parseIp, b), RcptTo(parseIp, b), ScanPath(parseIp, b, PathStart(b)).mailbox;
            !OpensNull(b) ==>
              && (mail.out.Ok? ==>
                    var local := mail.reading.local;
                    rcpt == Command(Ok, mail.reading.(local := if BeginsAnyCase(local, "postmaster") then "postmaster"
                                                              else local)))
              && (mail.out.Fail? && rcpt.out.Ok? ==>
                    && m.out == Fail(AtExpected) && BeginsAnyCase(m.local, "postmaster")
                    && rcpt.reading.local == "postmaster")
  {
    hide ScanMailbox, Adl, Params, IsPostmaster, BeginsAnyCase;
    var p := ScanPath(parseIp, b, PathStart(b));
    PostmasterWord(p.mailbox.local);
    if OpensNull(b) {
      EmptyPath(parseIp, b, PathStart(b) + 1);
    }
  }

  lemma EmptyPath(parseIp: IpParser, b: Text, pos: nat)
    requires At(b, pos + 1) == '>'
    ensures ScanMailbox(parseIp, b, pos, []).out == Fail(AtomError)
  {
  }

  // ------------------------------------------------------- paths without a host

  /** A path whose local part is followed by `>` at once. */
  lemma HostlessMailbox(parseIp: IpParser, form: Text, local: Text, quotes: bool)
    requires SpellsLocal(form, local, quotes)
    ensures var b := ['<'] + form + ['>'];
            && PathStart(b) == -1 && ScanPath(parseIp, b, -1).adl == []
            && ScanPath(parseIp, b, -1).mailbox
               == Mailbox(Fail(AtExpected), |form| + 1, local, quotes, [], None)
  {
    hide SpellsLocal, LocalPart, LocalNeedsQuotes, AddressLiteral, Domain;
    LocalStart(form, local, quotes);
    var b := ['<'] + form + ['>'];
    assert b[1] == form[0] && b[|form| + 1] == '>';
    assert StandsAt(b, 1, form);
    LocalPartComplete(b, 0, form, local, quotes);
  }

  /**
   * RCPT of a local part without a host is accepted exactly when the local part begins with
   * "postmaster" in any case, and is then read as that.
   */
  lemma HostlessRcpt(parseIp: IpParser, form: Text, local: Text, quotes: bool)
    requires SpellsLocal(form, local, quotes)
    ensures var c := RcptTo(parseIp, ['<'] + form + ['>']);
            if BeginsAnyCase(local, "postmaster")
            then c == Command(Ok, NoReading.(local := "postmaster", quotes := quotes))
            else c.out == Fail(AtExpected)
  {
    hide SpellsLocal, ScanPath, BeginsAnyCase, IsPostmaster, Params;
    HostlessMailbox(parseIp, form, local, quotes);
    PostmasterWord(local);
    assert At(['<'] + form + ['>'], |form| + 3) == '\0';
  }

  /** An address without a host prints as its local part, and RCPT takes that back only for the postmaster. */
  lemma HostlessRoundTrip(parseIp: IpParser, a: Address)
    requires LocalPrintable(a) && a.host == []
    ensures Path(a) == ['<'] + a.Local() + ['>']
    ensures var c := RcptTo(parseIp, Path(a));
            if BeginsAnyCase(a.user, "postmaster")
            then c == Command(Ok, NoReading.(local := "postmaster", quotes := a.quoted))
            else c.out == Fail(AtExpected)
  {
    hide LocalPrintable, SpellsLocal, RcptTo, BeginsAnyCase, Escaped;
    LocalSpells(a);
    LocalNotEmpty(a);
    HostlessRcpt(parseIp, a.Local(), a.user, a.quoted);
  }

  lemma LocalNotEmpty(a: Address)
    requires LocalPrintable(a)
    ensures a.user != [] && (a.user == POSTMASTER ==> !a.quoted)
  {
    if !a.quoted {
      var parts :| AllParts(IsAtom, parts) && a.user == Joined(parts);
      assert a.user[0] == parts[0][0];
    }
  }

  /** The bare word, in letters of any case. */
  lemma BarePostmaster(parseIp: IpParser, word: Text)
    requires |word| == |"postmaster"| && BeginsAnyCase(word, "postmaster")
    ensures RcptTo(parseIp, ['<'] + word + ['>']) == Command(Ok, NoReading.(local := "postmaster"))
  {
    hide RcptTo;
    assert forall k :: 0 <= k < |word| ==> EitherCase(word[k], "postmaster"[k]) && IsAlpha(word[k]);
    assert IsAtom(word) && AllParts(IsAtom, [word]) && Joined([word]) == word;
    HostlessRcpt(parseIp, word, word, false);
  }

  /**
   * Without an at sign, whatever RCPT accepts has a local part that begins with "postmaster" in
   * any case: right after the byte that opens the path, unless the local part is quoted.
   */
  lemma WithoutAtOnlyPostmaster(parseIp: IpParser, b: Text)
    requires '@' !in b && RcptTo(parseIp, b).out.Ok?
    ensures var i := PathStart(b) + 2;
            && i <= |b| && RcptTo(parseIp, b).reading.local == "postmaster"
            && BeginsAnyCase(LocalPart(b, i - 1).text, "postmaster")
            && (At(b, i) != '"' ==> BeginsAnyCase(b[i..], "postmaster"))
  {
    hide LocalPart, BeginsAnyCase, IsPostmaster, Params, AddressLiteral, Domain, LocalNeedsQuotes;
    var pos := PathStart(b);
    assert forall i :: At(b, i) != '@';
    var l := LocalPart(b, pos + 1);
    LocalErrors(b, pos + 1);
    if l.out.Ok? {
      NoAtHeld(b, l.pos);
    }
    PostmasterWord(l.text);
    assert [] + l.text == l.text;
    if At(b, pos + 2) != '"' {
      PlainPrefix(b, pos + 1);
    }
  }

  /** A local part that fails does so for another reason than a missing at sign. */
  lemma LocalErrors(b: Text, pos: nat)
    ensures LocalPart(b, pos).out.Fail? ==> LocalPart(b, pos).out.error != AtExpected
  {
    hide DotString, Qcontent, Atom;
    if At(b, pos + 1) == '"' {
      QcontentErrors(b, pos + 1, false);
    } else {
      DotStringErrors(b, pos);
    }
  }

  lemma {:induction false} QcontentErrors(b: Text, pos: nat, escaped: bool)
    ensures Qcontent(b, pos, escaped).out.Fail? ==> Qcontent(b, pos, escaped).out.error != AtExpected
    decreases |b| - pos
  {
    if pos + 1 < |b| {
      QcontentErrors(b, pos + 1, !escaped && b[pos + 1] == '\\');
    }
  }

  lemma {:induction false} DotStringErrors(b: Text, pos: nat)
    ensures DotString(b, pos).out.Fail? ==> DotString(b, pos).out.error != AtExpected
    decreases |b| - pos
  {
    if At(b, pos + 1) != '\0' && At(b, Atom(b, pos).pos) == '.' {
      DotStringErrors(b, Atom(b, pos).pos);
    }
  }

  lemma NoAtHeld(b: Text, pos: int)
    requires '@' !in b && 0 <= pos && b != []
    ensures Held(b, pos) != '@'
  {
  }

  lemma PlainPrefix(b: Text, pos: nat)
    requires LocalPart(b, pos).out.Ok? && At(b, pos + 1) != '"' && BeginsAnyCase(LocalPart(b, pos).text, "postmaster")
    ensures pos + 1 <= |b| && BeginsAnyCase(b[pos + 1..], "postmaster")
  {
    hide DotString, EitherCase;
    var _ := DotStringSound(b, pos);
    var s := LocalPart(b, pos);
    assert forall k :: 0 <= k < |s.text| ==> b[pos + 1..][k] == s.text[k];
  }
}
