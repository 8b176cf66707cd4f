/** MAIL and RCPT as a whole: which inputs they accept, and what they read from them. */
module Rfc5321Commands {
  import opened Bytes
  import opened Rfc5321Grammar
  import opened Rfc5321Scan
  import opened Rfc5321Language
  import opened Rfc5321Paths

  function OfMailbox(m: Mailbox): Reading {
    Reading(false, [], m.local, m.quotes, m.domain, m.ip, [])
  }

  /** MAIL in terms of the mailbox that stands in it and of what is made of the bytes after that. */
  lemma MailFromMailbox(parseIp: IpParser, b: Text, r: Reading)
    requires IpContract(parseIp) && !OpensRoute(b, PathStart(b))
    ensures MailFrom(parseIp, b) == Command(Ok, r) && !r.nullPath
      <==> exists m :: MailboxAt(parseIp, b, PathStart(b) + 2, m)
                       && WithParams(b, m.pos, OfMailbox(m)) == Command(Ok, r)
  {
    hide MailboxAt, ScanPath, Params;
    var pos := PathStart(b);
    forall m | MailboxAt(parseIp, b, pos + 2, m)
      ensures !OpensNull(b) && ScanPath(parseIp, b, pos) == Path([], m) && m.out.Ok?
    {
      MailboxIsNotClosed(parseIp, b, pos + 2, m);
      PathLanguage(parseIp, b, pos, m);
    }
    if MailFrom(parseIp, b) == Command(Ok, r) && !r.nullPath {
      var p := ScanPath(parseIp, b, pos);
      PlainPath(parseIp, b, pos);
      PathLanguage(parseIp, b, pos, p.mailbox);
      assert OfPath(p) == OfMailbox(p.mailbox);
    }
  }

  lemma PlainPath(parseIp: IpParser, b: Text, pos: int)
    requires -1 <= pos && !OpensRoute(b, pos)
    ensures ScanPath(parseIp, b, pos).adl == []
  {
  }

  /** A mailbox does not begin with the closing byte of a path. */
  lemma MailboxIsNotClosed(parseIp: IpParser, b: Text, i: nat, m: Mailbox)
    requires MailboxAt(parseIp, b, i, m)
    ensures At(b, i) != '>' && At(b, i) != '@'
  {
    hide SpellsDomain;
    var local, domain :| SpellsMailbox(parseIp, local, domain, m) && StandsAt(b, i, local + ['@'] + domain);
    StandsAtAppend(b, i, local, '@', domain);
    LocalStart(local, m.local, m.quotes);
    assert b[i] == local[0];
  }

  lemma LocalStart(form: Text, local: Text, quotes: bool)
    requires SpellsLocal(form, local, quotes)
    ensures form != [] && (IsAtext(form[0]) || form[0] == '"')
  {
    if IsDotString(form) {
      var parts :| AllParts(IsAtom, parts) && form == Joined(parts);
      assert form[0] == parts[0][0];
    }
  }

  /** The empty reverse-path: `<>` and whatever follows it; its parameters are never read. */
  lemma NullPathLanguage(parseIp: IpParser, b: Text)
    ensures MailFrom(parseIp, b).reading.nullPath <==> OpensNull(b)
    ensures OpensNull(b) ==> MailFrom(parseIp, b) == Command(Ok, NoReading.(nullPath := true))
  {
    hide ScanPath;
  }

  // -------------------------------------------------------------- parameters

  ghost predicate WellFormedParam(p: Param) {
    IsKeyword(p.key) && p.key[|p.key| - 1] != '-' && (p.value == [] || IsValue(p.value))
  }

  ghost predicate WellFormedParams(ps: seq<Param>) {
    forall k :: 0 <= k < |ps| ==> WellFormedParam(ps[k])
  }

  /**
   * A parameter stands in b from i on. Its keyword is as long as possible and does not end in a
   * hyphen. After `=` comes a value, not empty and as long as possible.
   */
  ghost predicate ParamAt(b: Text, i: nat, p: Param) {
    var e := i + |p.key|;
    && IsKeyword(p.key) && p.key[|p.key| - 1] != '-' && StandsAt(b, i, p.key) && !IsLdh(At(b, e))
    && if At(b, e) == '=' then
         IsValue(p.value) && StandsAt(b, e + 1, p.value) && !IsEsmtpValue(At(b, ParamEnd(b, i, p)))
       else p.value == []
  }

  /** Where it ends: a keyword without `=` takes the byte after it as well, whichever that is. */
  function ParamEnd(b: Text, i: nat, p: Param): nat {
    var e := i + |p.key|;
    if At(b, e) == '=' then e + 1 + |p.value| else e + 1
  }

  /** Parameters stand in b from i on: a space goes on with the next one, and any other byte ends them. */
  ghost predicate ParamsAt(b: Text, i: nat, ps: seq<Param>)
    decreases |ps|
  {
    && ps != [] && ParamAt(b, i, ps[0])
    && var j := ParamEnd(b, i, ps[0]);
       if At(b, j) == ' ' then ParamsAt(b, j + 1, ps[1..]) else |ps| == 1
  }

  /** What may stand after the closing `>`: parameters after a space, or else anything, which is not read. */
  ghost predicate TailAt(b: Text, i: nat, ps: seq<Param>) {
    if At(b, i) == ' ' then ParamsAt(b, i + 1, ps) else ps == []
  }

  lemma ParamThere(b: Text, pos: int, p: Param)
    requires -1 <= pos && ParamAt(b, pos + 1, p)
    ensures ScanParam(b, pos) == ParamScan(Ok, ParamEnd(b, pos + 1, p) - 1, p)
  {
    hide StandsAt;
    var e := pos + 1 + |p.key|;
    FirstStandsThere(b, pos + 1, p.key);
    KeyComplete(b, pos + 1, p.key);
    if At(b, e) == '=' {
      ValueComplete(b, e + 1, p.value);
    }
  }

  lemma FirstStandsThere(b: Text, i: nat, key: Text)
    requires key != [] && StandsAt(b, i, key)
    ensures At(b, i) == key[0] && At(b, i + |key| - 1) == key[|key| - 1]
  {
    assert b[i + 0] == key[0] && b[i + (|key| - 1)] == key[|key| - 1];
  }

  lemma ParamIsThere(b: Text, pos: int)
    requires -1 <= pos && ScanParam(b, pos).out.Ok?
    ensures ParamAt(b, pos + 1, ScanParam(b, pos).param)
  {
    ParamSound(b, pos);
  }

  lemma ParamLanguage(b: Text, pos: int, p: Param)
    requires -1 <= pos
    ensures ScanParam(b, pos).out.Ok? && ScanParam(b, pos).param == p <==> ParamAt(b, pos + 1, p)
    ensures ParamAt(b, pos + 1, p) ==> ScanParam(b, pos).pos == ParamEnd(b, pos + 1, p) - 1
  {
    hide ScanParam, ParamAt, ParamEnd;
    if ParamAt(b, pos + 1, p) {
      ParamThere(b, pos, p);
    }
    if ScanParam(b, pos).out.Ok? {
      ParamIsThere(b, pos);
    }
  }

  /** The parameters that are read are exactly those that stand there. */
  lemma {:induction false} ParamsLanguage(b: Text, pos: int, ps: seq<Param>)
    requires -1 <= pos
    ensures Params(b, pos).out.Ok? && Params(b, pos).params == ps <==> ParamsAt(b, pos + 1, ps)
    decreases |ps|
  {
    hide ScanParam, ParamAt, ParamEnd;
    if ps != [] {
      ParamLanguage(b, pos, ps[0]);
      var s := ScanParam(b, pos);
      if s.out.Ok? && At(b, s.pos + 1) == ' ' {
        ParamsLanguage(b, s.pos + 1, ps[1..]);
        assert [ps[0]] + ps[1..] == ps;
      }
    }
  }

  lemma TailLanguage(b: Text, pos: int, r: Reading, full: Reading)
    requires -1 <= pos && r.params == []
    ensures WithParams(b, pos, r) == Command(Ok, full)
        <==> full == r.(params := full.params) && TailAt(b, pos + 2, full.params)
  {
    hide Params, ParamsAt;
    ParamsLanguage(b, pos + 2, full.params);
  }

  /**
   * Apart from source routes, MAIL is accepted with a reverse-path exactly when a mailbox and `>`
   * stand after the opening byte, and after that parameters or nothing; the reading is theirs.
   */
  lemma MailFromLanguage(parseIp: IpParser, b: Text, r: Reading)
    requires IpContract(parseIp) && !OpensRoute(b, PathStart(b))
    ensures MailFrom(parseIp, b) == Command(Ok, r) && !r.nullPath
      <==> exists m :: MailboxAt(parseIp, b, PathStart(b) + 2, m)
                       && r == OfMailbox(m).(params := r.params) && TailAt(b, m.pos + 2, r.params)
  {
    hide MailboxAt, MailFrom, TailAt, WithParams, IpContract;
    MailFromMailbox(parseIp, b, r);
    forall m | MailboxAt(parseIp, b, PathStart(b) + 2, m)
      ensures -1 <= m.pos
      ensures WithParams(b, m.pos, OfMailbox(m)) == Command(Ok, r)
          <==> r == OfMailbox(m).(params := r.params) && TailAt(b, m.pos + 2, r.params)
    {
      MailboxPos(parseIp, b, PathStart(b) + 2, m);
      TailLanguage(b, m.pos, OfMailbox(m), r);
    }
  }

  /**
   * With a well-formed source route, MAIL is accepted exactly when a colon, a mailbox and `>` stand
   * after the route, and after that parameters or nothing; the route is listed with the reading.
   */
  lemma RoutedMailLanguage(parseIp: IpParser, b: Text, ds: seq<Text>, j: nat, r: Reading)
    requires IpContract(parseIp) && At(b, PathStart(b) + 1) == '<' && RouteAt(b, PathStart(b) + 2, ds, j)
    ensures MailFrom(parseIp, b) == Command(Ok, r)
      <==> At(b, j) == ':'
           && exists m :: MailboxAt(parseIp, b, j + 1, m) && TailAt(b, m.pos + 2, r.params)
                          && r == OfMailbox(m).(adl := AtDomains(ds), params := r.params)
  {
    hide MailboxAt, ScanPath, TailAt, WithParams, IpContract, Adl;
    var pos := PathStart(b);
    var p := ScanPath(parseIp, b, pos);
    RouteStart(b, pos + 2, ds, j);
    RoutedPathLanguage(parseIp, b, pos, ds, j, p.adl, p.mailbox);
    forall m | MailboxAt(parseIp, b, j + 1, m)
      ensures 0 <= m.pos
      ensures At(b, j) == ':' ==> p.adl == AtDomains(ds) && p.mailbox == m && m.out.Ok?
      ensures var read := OfMailbox(m).(adl := AtDomains(ds));
              WithParams(b, m.pos, read) == Command(Ok, r)
              <==> r == read.(params := r.params) && TailAt(b, m.pos + 2, r.params)
    {
      MailboxPos(parseIp, b, j + 1, m);
      RoutedPathLanguage(parseIp, b, pos, ds, j, AtDomains(ds), m);
      TailLanguage(b, m.pos, OfMailbox(m).(adl := AtDomains(ds)), r);
    }
  }

  lemma RouteStart(b: Text, i: nat, ds: seq<Text>, j: nat)
    requires RouteAt(b, i, ds, j)
    ensures At(b, i) == '@'
  {
    hide IsDomain, StandsAt;
  }

  /** A source route that is not well formed is no error: its bytes so far become part of the local part. */
  lemma BrokenRouteIsKept(parseIp: IpParser)
    ensures MailFrom(parseIp, "<@,a@b>") == Command(Ok, NoReading.(local := "@a", domain := "b"))
  {
    hide LocalPart, DomainFrom, AddressLiteral, LocalNeedsQuotes;
    var b: Text := "<@,a@b>";
    var a: Text, d: Text := "a", "b";
    assert IsAtom(a) && AllParts(IsAtom, [a]) && Joined([a]) == a;
    assert IsSubdomain(d) && AllParts(IsSubdomain, [d]) && Joined([d]) == d;
    assert StandsAt(b, 3, a) && StandsAt(b, 5, d);
    assert SpellsLocal(a, a, false);
    LocalPartComplete(b, 2, a, a, false);
    DomainComplete(b, 5, [d]);
    NoDomain(b, 2);
    assert ['@'] + a == "@a";
  }

  lemma NoDomain(b: Text, i: nat)
    requires At(b, i) == ','
    ensures DomainFrom(b, i) == Scan(Fail(SubdomainError), i + 1, [])
  {
  }

  lemma MailboxPos(parseIp: IpParser, b: Text, i: int, m: Mailbox)
    requires MailboxAt(parseIp, b, i, m)
    ensures 0 <= m.pos
  {
    hide SpellsMailbox;
  }

  lemma KeywordRun(b: Text, i: nat)
    requires IsLetDig(At(b, i)) && b[Run(IsLdh, b, i) - 1] != '-'
    ensures var key := b[i..Run(IsLdh, b, i)]; IsKeyword(key) && key[|key| - 1] != '-'
  {
  }

  lemma ValueRun(b: Text, i: nat)
    requires i < Run(IsEsmtpValue, b, i)
    ensures IsValue(b[i..Run(IsEsmtpValue, b, i)])
  {
  }

  lemma ParamSound(b: Text, pos: int)
    requires -1 <= pos && ScanParam(b, pos).out.Ok?
    ensures WellFormedParam(ScanParam(b, pos).param)
  {
    hide IsKeyword, IsValue, Run, IsLetDig;
    var e := Run(IsLdh, b, pos + 1);
    KeywordRun(b, pos + 1);
    if At(b, e) == '=' {
      ValueRun(b, e + 1);
    }
  }

  lemma {:induction false} ParamsSound(b: Text, pos: int)
    requires -1 <= pos && Params(b, pos).out.Ok?
    ensures WellFormedParams(Params(b, pos).params)
    decreases |b| - pos
  {
    hide WellFormedParam, ScanParam;
    ParamSound(b, pos);
    var p := ScanParam(b, pos);
    if At(b, p.pos + 1) == ' ' {
      ParamsSound(b, p.pos + 1);
    }
  }

  /** Whatever MAIL reads, every parameter is an esmtp-keyword with an esmtp-value or none. */
  lemma MailFromParams(parseIp: IpParser, b: Text)
    requires MailFrom(parseIp, b).out.Ok?
    ensures WellFormedParams(MailFrom(parseIp, b).reading.params)
  {
    hide WellFormedParam, ScanPath, Params;
    var p := ScanPath(parseIp, b, PathStart(b));
    if !OpensNull(b) && At(b, p.mailbox.pos + 2) == ' ' {
      ParamsSound(b, p.mailbox.pos + 2);
    }
  }

  lemma {:induction false} ContentIsPrintable(q: Text, t: Text)
    requires SpellsContent(q, t)
    ensures Every(IsPrintable, t)
    decreases |q|
  {
    if q != [] {
      ContentIsPrintable(q[if q[0] == '\\' then 2 else 1..], t[1..]);
      assert forall k :: 0 < k < |t| ==> t[k] == t[1..][k - 1];
    }
  }

  /** A local part is a Dot-string, or printable text that is quoted exactly when it must be. */
  ghost predicate LocalContent(local: Text, quotes: bool) {
    (IsDotString(local) && !quotes) || (Every(IsPrintable, local) && quotes == NeedsQuotes(local))
  }

  ghost predicate DomainContent(parseIp: IpParser, domain: Text, ip: Option<Ip>) {
    match ip
    case None => IsDomain(domain)
    case Some(v) => exists t :: parseIp(t) == ip && ((domain == t && IsIpv4(t)) || domain == v.text)
  }

  lemma MailboxContent(parseIp: IpParser, b: Text, i: int, m: Mailbox)
    requires MailboxAt(parseIp, b, i, m)
    ensures LocalContent(m.local, m.quotes) && DomainContent(parseIp, m.domain, m.ip)
    ensures At(b, m.pos + 1) == '>'
  {
    var local, domain :| SpellsMailbox(parseIp, local, domain, m)
                         && StandsAt(b, i, local + ['@'] + domain)
                         && m.pos == i + |local| + |domain| && At(b, m.pos + 1) == '>';
    LocalFormContent(local, m.local, m.quotes);
    DomainFormContent(parseIp, domain, m.domain, m.ip);
  }

  lemma LocalFormContent(form: Text, local: Text, quotes: bool)
    requires SpellsLocal(form, local, quotes)
    ensures LocalContent(local, quotes)
  {
    if !(IsDotString(form) && local == form && !quotes) {
      var q :| form == ['"'] + q + ['"'] && SpellsContent(q, local) && quotes == NeedsQuotes(local);
      ContentIsPrintable(q, local);
    }
  }

  lemma DomainFormContent(parseIp: IpParser, form: Text, domain: Text, ip: Option<Ip>)
    requires SpellsDomain(parseIp, form, domain, ip)
    ensures DomainContent(parseIp, domain, ip)
  {
    if ip.Some? {
      var l :| form == ['['] + l + [']'] && SpellsLiteral(parseIp, l, domain, ip.value);
      assert parseIp(l) == ip || parseIp(l[5..]) == ip;
    }
  }

  /** What an accepted MAIL with a non-empty reverse-path and no source route has read. */
  lemma MailFromSound(parseIp: IpParser, b: Text)
    requires IpContract(parseIp) && !OpensRoute(b, PathStart(b))
    requires MailFrom(parseIp, b).out.Ok? && !MailFrom(parseIp, b).reading.nullPath
    ensures var r := MailFrom(parseIp, b).reading;
            && LocalContent(r.local, r.quotes) && DomainContent(parseIp, r.domain, r.ip)
            && r.adl == [] && WellFormedParams(r.params)
    ensures var m := ScanPath(parseIp, b, PathStart(b)).mailbox; At(b, m.pos + 1) == '>'
  {
    hide MailboxAt, ScanPath, LocalContent, DomainContent, Params, WellFormedParams;
    var pos := PathStart(b);
    var p := ScanPath(parseIp, b, pos);
    PlainPath(parseIp, b, pos);
    PathLanguage(parseIp, b, pos, p.mailbox);
    MailboxContent(parseIp, b, pos + 2, p.mailbox);
    MailFromParams(parseIp, b);
  }

  /** Parameters as a client writes them. */
  function Printed(ps: seq<Param>): Text {
    if ps == [] then [] else [' '] + PrintedParam(ps[0]) + Printed(ps[1..])
  }

  function PrintedParam(p: Param): Text {
    if p.value == [] then p.key else p.key + ['='] + p.value
  }

  lemma ParamComplete(b: Text, pos: int, p: Param)
    requires -1 <= pos && WellFormedParam(p) && StandsAt(b, pos + 1, PrintedParam(p))
    requires var c := At(b, pos + 1 + |PrintedParam(p)|);
             if p.value == [] then !IsLdh(c) && c != '=' else !IsEsmtpValue(c)
    ensures ScanParam(b, pos)
            == ParamScan(Ok, pos + |PrintedParam(p)| + (if p.value == [] then 1 else 0), p)
  {
    hide StandsAt;
    var e := pos + 1 + |p.key|;
    if p.value != [] {
      StandsAtAppend(b, pos + 1, p.key, '=', p.value);
      ValueComplete(b, e + 1, p.value);
    }
    KeyComplete(b, pos + 1, p.key);
  }

  lemma KeyComplete(b: Text, i: nat, key: Text)
    requires IsKeyword(key) && StandsAt(b, i, key) && !IsLdh(At(b, i + |key|))
    ensures Run(IsLdh, b, i) == i + |key| && b[i..i + |key|] == key
  {
    assert forall k :: i <= k < i + |key| ==> b[k] == key[k - i];
    RunIs(IsLdh, b, i, i + |key|);
  }

  lemma ValueComplete(b: Text, i: nat, value: Text)
    requires IsValue(value) && StandsAt(b, i, value) && !IsEsmtpValue(At(b, i + |value|))
    ensures Run(IsEsmtpValue, b, i) == i + |value| && b[i..i + |value|] == value
  {
    assert forall k :: i <= k < i + |value| ==> b[k] == value[k - i];
    RunIs(IsEsmtpValue, b, i, i + |value|);
  }

  /** Every parameter has a value, except possibly the last. */
  predicate OnlyLastIsBare(ps: seq<Param>) { forall k :: 0 <= k < |ps| - 1 ==> ps[k].value != [] }

  lemma PrintedStands(b: Text, i: int, ps: seq<Param>)
    requires ps != [] && StandsAt(b, i, Printed(ps))
    ensures b[i] == ' ' && StandsAt(b, i + 1, PrintedParam(ps[0]))
    ensures StandsAt(b, i + 1 + |PrintedParam(ps[0])|, Printed(ps[1..]))
    ensures |Printed(ps)| == 1 + |PrintedParam(ps[0])| + |Printed(ps[1..])|
    ensures |ps| > 1 ==> b[i + 1 + |PrintedParam(ps[0])|] == ' '
  {
    hide PrintedParam;
    var h, t := PrintedParam(ps[0]), Printed(ps[1..]);
    StandsAtConcat(b, i, [' '] + h, t);
    StandsAtConcat(b, i, [' '], h);
    assert b[i] == [' '][0];
    if |ps| > 1 {
      assert b[i + 1 + |h|] == t[0] == ' ';
    }
  }

  /** How many parameters survive: all up to the first that has no value. */
  function Kept(ps: seq<Param>): (n: nat)
    ensures n <= |ps| && (ps != [] ==> n > 0)
    ensures forall k :: 0 <= k < n - 1 ==> ps[k].value != []
    ensures n < |ps| ==> ps[n - 1].value == []
  {
    if ps == [] then 0
    else if ps[0].value == [] then 1
    else 1 + Kept(ps[1..])
  }

  lemma KeptAllIff(ps: seq<Param>)
    ensures ps[..Kept(ps)] == ps <==> OnlyLastIsBare(ps)
  {
    var n := Kept(ps);
    if n < |ps| {
      assert ps[n - 1].value == [];
    } else {
      assert ps[..n] == ps;
    }
  }

  /**
   * Parameters written up to the end of the input are read up to the first one without a value,
   * because that one swallows the space after it. So all of them come back exactly when no
   * parameter but the last lacks a value.
   */
  lemma ParamsReadBack(b: Text, pos: int, ps: seq<Param>)
    requires -1 <= pos && ps != [] && WellFormedParams(ps)
    requires StandsAt(b, pos, Printed(ps)) && |b| == pos + |Printed(ps)|
    ensures Params(b, pos).out.Ok? && Params(b, pos).params == ps[..Kept(ps)]
    ensures Params(b, pos).params == ps <==> OnlyLastIsBare(ps)
  {
    hide Params, WellFormedParams, OnlyLastIsBare, Kept;
    ParamsKept(b, pos, ps);
    KeptAllIff(ps);
  }

  lemma {:induction false} ParamsKept(b: Text, pos: int, ps: seq<Param>)
    requires -1 <= pos && ps != [] && WellFormedParams(ps)
    requires StandsAt(b, pos, Printed(ps)) && |b| == pos + |Printed(ps)|
    ensures Params(b, pos).out.Ok? && Params(b, pos).params == ps[..Kept(ps)]
    decreases |ps|
  {
    hide WellFormedParam, ScanParam, PrintedParam, StandsAt;
    PrintedStands(b, pos, ps);
    NotInside(b, pos, ps);
    assert WellFormedParam(ps[0]);
    ParamComplete(b, pos, ps[0]);
    if |ps| > 1 {
      var next := pos + 1 + |PrintedParam(ps[0])|;
      if ps[0].value == [] {
        assert WellFormedParam(ps[1]);
        PrintedStands(b, next, ps[1..]);
        FirstOfParam(b, next + 1, ps[1]);
      } else {
        ParamsKept(b, next, ps[1..]);
      }
    }
  }

  lemma FirstOfParam(b: Text, i: int, p: Param)
    requires WellFormedParam(p) && StandsAt(b, i, PrintedParam(p))
    ensures At(b, i) != ' '
  {
    assert b[i + 0] == PrintedParam(p)[0];
  }

  /** What follows a printed parameter, a space or the end of the input, is no part of it. */
  lemma NotInside(b: Text, pos: int, ps: seq<Param>)
    requires -1 <= pos && ps != [] && StandsAt(b, pos, Printed(ps)) && |b| == pos + |Printed(ps)|
    ensures var c := At(b, pos + 1 + |PrintedParam(ps[0])|); (c == ' ' || c == '\0') && (|ps| > 1 ==> c == ' ')
  {
    hide PrintedParam, StandsAt;
    PrintedStands(b, pos, ps);
  }

  /** Parameters written after a path are read back as the same list, up to the first bare one. */
  lemma ParamsRoundTrip(b: Text, pos: int, r: Reading, ps: seq<Param>)
    requires -1 <= pos && WellFormedParams(ps) && r.params == []
    requires StandsAt(b, pos + 2, Printed(ps)) && |b| == pos + 2 + |Printed(ps)|
    ensures WithParams(b, pos, r) == Command(Ok, r.(params := ps[..Kept(ps)]))
  {
    hide WellFormedParams, Params;
    if ps != [] {
      assert Printed(ps)[0] == ' ';
      ParamsReadBack(b, pos + 2, ps);
    }
  }

  /** A bare parameter before another one, as in this pair, hides what follows it. */
  lemma BodyIsDropped(b: Text)
    requires b == " SMTPUTF8 BODY=8BITMIME"
    ensures var ps := [Param("SMTPUTF8", []), Param("BODY", "8BITMIME")];
            WellFormedParams(ps) && b == Printed(ps) && Params(b, 0).out.Ok? && Params(b, 0).params == ps[..1]
  {
    hide Params;
    var ps := [Param("SMTPUTF8", []), Param("BODY", "8BITMIME")];
    assert ps[1..] == [ps[1]] && ps[1..][1..] == [];
    assert PrintedParam(ps[1]) == "BODY=8BITMIME";
    assert b == Printed(ps);
    ParamsReadBack(b, 0, ps);
  }
}
