/**
 * The parser object: a cursor, one byte held, one byte of lookahead and a shared accept
 * buffer. Every method is proved to do what the scanner of the same name says.
 */
module Rfc5321Parser {
  import opened Bytes
  import opened Rfc5321Grammar
  import S = Rfc5321Scan

  /** What is left of a production: `rest`, read from here, completes `whole`, read from the start. */
  ghost predicate Leads(accept0: Text, whole: S.Scan, accept: Text, rest: S.Scan) {
    whole.out == rest.out && whole.pos == rest.pos && accept0 + whole.text == accept + rest.text
  }

  /** Accepting t moves it from what is left to what is held. */
  lemma Accepts(accept0: Text, whole: S.Scan, accept: Text, t: Text, rest: S.Scan)
    requires Leads(accept0, whole, accept, S.Scan(rest.out, rest.pos, t + rest.text))
    ensures Leads(accept0, whole, accept + t, rest)
  {
    assert accept + (t + rest.text) == (accept + t) + rest.text;
  }

  lemma NothingRead(whole: S.Scan)
    ensures Leads([], whole, [], whole)
  {
  }

  lemma AllRead(whole: S.Scan, accept: Text, rest: S.Scan)
    requires Leads([], whole, accept, rest)
    ensures whole == S.Scan(rest.out, rest.pos, accept + rest.text)
  {
    assert [] + whole.text == whole.text;
  }

  /** acc holds base and then the bytes i..j of b, all of which satisfy p. */
  ghost predicate Collects(p: byte -> bool, b: Text, i: nat, j: nat, base: Text, acc: Text) {
    i <= j <= |b| && acc == base + b[i..j] && forall k :: i <= k < j ==> p(b[k])
  }

  lemma CollectsNone(p: byte -> bool, b: Text, i: nat, base: Text)
    requires i <= |b|
    ensures Collects(p, b, i, i, base, base)
  {
  }

  lemma CollectsBounds(p: byte -> bool, b: Text, i: nat, j: nat, base: Text, acc: Text)
    requires Collects(p, b, i, j, base, acc)
    ensures i <= j <= |b|
  {
  }

  lemma CollectsNext(p: byte -> bool, b: Text, i: nat, j: nat, base: Text, acc: Text)
    requires Collects(p, b, i, j, base, acc) && j < |b| && p(b[j])
    ensures Collects(p, b, i, j + 1, base, acc + [b[j]])
  {
    assert b[i..j] + [b[j]] == b[i..j + 1];
  }

  lemma CollectsAll(p: byte -> bool, b: Text, i: nat, j: nat, acc: Text)
    requires Collects(p, b, i, j, [], acc) && !p('\0') && !p(At(b, j))
    ensures i <= j <= |b| && acc == b[i..j] && Run(p, b, i) == j
  {
    RunIs(p, b, i, j);
  }

  /** The outcome of a sub-domain whose letters, digits and hyphens end before index e. */
  function SubdomainOutcome(b: Text, e: nat): S.Outcome
    requires 0 < e <= |b|
  {
    if b[e - 1] == '-' then S.Fail(S.SubdomainError) else S.Ok
  }

  lemma SubdomainRead(b: Text, i: nat, e: nat, base: Text, acc: Text)
    requires Collects(IsLdh, b, i, e, base, acc) && i < e && IsLetDig(b[i]) && !IsLdh(At(b, e))
    ensures var s := S.SubdomainFrom(b, i); s.out == SubdomainOutcome(b, e) && s.pos == e && acc == base + s.text
  {
    RunIs(IsLdh, b, i, e);
  }

  lemma NoSubdomain(b: Text, i: nat)
    requires !IsLetDig(At(b, i))
    ensures S.SubdomainFrom(b, i) == S.Scan(S.Fail(S.SubdomainError), i + 1, [])
  {
  }

  lemma DomainUnfolds(b: Text, i: nat)
    ensures var s := S.SubdomainFrom(b, i);
            S.DomainFrom(b, i) ==
            if s.out.Fail? then s
            else if At(b, s.pos) == '.' then
              var d := S.DomainFrom(b, s.pos + 1);
              S.Scan(d.out, d.pos, s.text + ['.'] + d.text)
            else S.Scan(if S.EndsDomain(At(b, s.pos)) then S.Ok else S.Fail(S.DomainError), s.pos, s.text)
  {
  }

  lemma AtomRead(b: Text, i: nat, e: nat, base: Text, acc: Text)
    requires Collects(IsAtext, b, i, e, base, acc) && i < e && !IsAtext(At(b, e))
    ensures var s := S.Atom(b, i - 1); s.out == S.Ok && s.pos == e && acc == base + s.text
  {
    RunIs(IsAtext, b, i, e);
  }

  lemma NoAtom(b: Text, i: nat)
    requires !IsAtext(At(b, i))
    ensures S.Atom(b, i - 1) == S.Scan(S.Fail(S.AtomError), i, [])
  {
  }

  lemma DotStringUnfolds(b: Text, pos: int)
    requires -1 <= pos
    ensures var a := S.Atom(b, pos);
            S.DotString(b, pos) ==
            if a.out.Fail? || At(b, a.pos) != '.' then a
            else
              var d := S.DotString(b, a.pos);
              S.Scan(d.out, d.pos, a.text + ['.'] + d.text)
    ensures var a := S.Atom(b, pos);
            a.out.Ok? ==> b != [] && 0 <= a.pos && (At(b, a.pos) == '.' <==> S.Held(b, a.pos) == '.')
  {
    var a := S.Atom(b, pos);
    if a.out.Ok? {
      assert a.text[|a.text| - 1] == b[a.pos - 1];
    }
  }

  lemma NeedsQuotesCons(c: byte, t: Text)
    ensures NeedsQuotes([c] + t) <==> !IsAtext(c) || NeedsQuotes(t)
  {
    assert ([c] + t)[0] == c;
    if NeedsQuotes(t) {
      var k :| 0 <= k < |t| && !IsAtext(t[k]);
      assert ([c] + t)[1 + k] == t[k];
    }
  }

  lemma SnumRead(b: Text, i: nat, e: nat, base: Text, acc: Text, num: Text)
    requires Collects(IsDigit, b, i, e, base, acc) && Collects(IsDigit, b, i, e, [], num)
    requires i < e <= i + 3 && !IsDigit(At(b, e))
    ensures var s := S.Snum(b, i - 1);
            && s.out == (if FitsOctet(num) then S.Ok else S.Fail(S.InvalidIpv4))
            && s.pos == e && acc == base + s.text
  {
    hide FitsOctet;
    CollectsAll(IsDigit, b, i, e, num);
  }

  lemma SnumTooLong(b: Text, i: nat, base: Text, acc: Text)
    requires Collects(IsDigit, b, i, i + 4, base, acc)
    ensures var s := S.Snum(b, i - 1); s.out == S.Fail(S.TooManyDigits) && s.pos == i + 3 && acc == base + s.text
  {
    var e := Run(IsDigit, b, i);
    assert e >= i + 4;
  }

  lemma NoSnum(b: Text, i: nat)
    requires !IsDigit(At(b, i))
    ensures S.Snum(b, i - 1) == S.Scan(S.Fail(S.SnumError), i, [])
  {
  }

  lemma AdlUnfolds(b: Text, pos: int)
    requires -1 <= pos
    ensures var a := S.AtDomain(b, pos);
            S.Adl(b, pos) ==
            if a.out.Fail? then S.Route(a.out, a.pos, [], a.text)
            else if At(b, a.pos + 1) == ',' then
              var r := S.Adl(b, a.pos + 1);
              S.Route(r.out, r.pos, [a.text] + r.domains, r.rest)
            else S.Route(S.Ok, a.pos, [a.text], [])
  {
  }

  /** As Leads, for the source route. */
  ghost predicate RouteLeads(adl0: seq<Text>, whole: S.Route, adl: seq<Text>, rest: S.Route) {
    whole.out == rest.out && whole.pos == rest.pos && whole.rest == rest.rest
    && adl0 + whole.domains == adl + rest.domains
  }

  lemma RouteAccepts(adl0: seq<Text>, whole: S.Route, adl: seq<Text>, d: Text, rest: S.Route)
    requires RouteLeads(adl0, whole, adl, S.Route(rest.out, rest.pos, [d] + rest.domains, rest.rest))
    ensures RouteLeads(adl0, whole, adl + [d], rest)
  {
    assert adl + ([d] + rest.domains) == (adl + [d]) + rest.domains;
  }

  lemma SnumsUnfolds(b: Text, pos: int, i: nat)
    requires -1 <= pos && i < 4
    ensures var s := S.Snum(b, pos);
            S.Snums(b, pos, i) ==
            if s.out.Fail? || At(b, s.pos) != '.' then s
            else
              var r := S.Snums(b, s.pos, i + 1);
              S.Scan(r.out, r.pos, s.text + ['.'] + r.text)
  {
    hide S.Snum;
  }

  lemma SnumHolds(b: Text, pos: int)
    requires -1 <= pos && S.Snum(b, pos).out.Ok?
    ensures var s := S.Snum(b, pos);
            b != [] && 0 <= s.pos && (At(b, s.pos) == '.' <==> S.Held(b, s.pos) == '.')
  {
    hide FitsOctet;
    var s := S.Snum(b, pos);
    assert IsDigit(b[s.pos - 1]) by {
      assert s.text[|s.text| - 1] == b[s.pos - 1];
    }
  }

  lemma NoSnumsLeft(b: Text, pos: int)
    requires -1 <= pos
    ensures S.Snums(b, pos, 4) == S.Scan(S.Ok, pos, [])
  {
  }

  /** A keyword stands at i..e: the run of letters, digits and hyphens, not ending in a hyphen. */
  ghost predicate KeyAt(b: Text, i: nat, e: nat, key: Text) {
    && Collects(IsLdh, b, i, e, [], key) && i < e && IsLetDig(b[i]) && b[e - 1] != '-' && !IsLdh(At(b, e))
  }

  lemma NoParam(b: Text, i: nat)
    requires !IsLetDig(At(b, i))
    ensures S.ScanParam(b, i - 1) == S.ParamScan(S.Fail(S.ParamError), i, S.Param([], []))
  {
  }

  lemma ParamStops(b: Text, i: nat, j: nat, acc: Text)
    requires Collects(IsLdh, b, i, j, [], acc) && i < j < |b| && IsLetDig(b[i]) && b[j] == '-' && !IsLdh(At(b, j + 1))
    ensures S.ScanParam(b, i - 1) == S.ParamScan(S.Fail(S.ParamError), j, S.Param([], []))
  {
    RunIs(IsLdh, b, i, j + 1);
  }

  lemma ParamBare(b: Text, i: nat, e: nat, key: Text)
    requires KeyAt(b, i, e, key) && At(b, e) != '='
    ensures S.ScanParam(b, i - 1) == S.ParamScan(S.Ok, e, S.Param(key, []))
  {
    CollectsAll(IsLdh, b, i, e, key);
  }

  lemma ParamNoValue(b: Text, i: nat, e: nat, key: Text)
    requires KeyAt(b, i, e, key) && At(b, e) == '=' && !IsEsmtpValue(At(b, e + 1))
    ensures S.ScanParam(b, i - 1) == S.ParamScan(S.Fail(S.ParamError), e + 1, S.Param(key, []))
  {
    CollectsAll(IsLdh, b, i, e, key);
    RunIs(IsEsmtpValue, b, e + 1, e + 1);
  }

  lemma ParamValue(b: Text, i: nat, e: nat, v: nat, key: Text, value: Text)
    requires KeyAt(b, i, e, key) && At(b, e) == '='
    requires Collects(IsEsmtpValue, b, e + 1, v, [], value) && e + 1 < v && !IsEsmtpValue(At(b, v))
    ensures S.ScanParam(b, i - 1) == S.ParamScan(S.Ok, v - 1, S.Param(key, value))
  {
    hide Collects;
    CollectsAll(IsLdh, b, i, e, key);
    CollectsAll(IsEsmtpValue, b, e + 1, v, value);
  }

  /** What the loop over a parameter knows before it reads the byte after pos. */
  ghost predicate ParamLoop(b: Text, i: nat, e: nat, pos: int, state: int, key: Text, acc: Text)
    requires -1 <= pos
  {
    if state == 0 then pos == i - 1 && acc == []
    else if state == 1 then
      && Collects(IsLdh, b, i, pos + 1, [], acc) && i <= pos && IsLetDig(b[i])
      && (b[pos] == '-' ==> IsLdh(At(b, pos + 1)))
    else
      && KeyAt(b, i, e, key) && At(b, e) == '=' && Collects(IsEsmtpValue, b, e + 1, pos + 1, [], acc)
      && if state == 3 then e < pos && IsEsmtpValue(At(b, pos + 1)) else pos == e
  }

  lemma ParamBegins(b: Text, i: nat)
    ensures ParamLoop(b, i, i, i - 1, 0, [], [])
  {
  }

  lemma ParamFirst(b: Text, i: nat, e: nat, pos: nat, acc: Text)
    requires ParamLoop(b, i, e, pos - 1, 0, [], acc)
    ensures var c := At(b, pos);
            if IsLetDig(c) then pos < |b| && ParamLoop(b, i, e, pos, 1, [], acc + [c])
            else S.ScanParam(b, i - 1) == S.ParamScan(S.Fail(S.ParamError), pos, S.Param([], []))
  {
    if IsLetDig(At(b, pos)) {
      CollectsNone(IsLdh, b, i, []);
      CollectsNext(IsLdh, b, i, pos, [], []);
    } else {
      NoParam(b, i);
    }
  }

  lemma ParamKey(b: Text, i: nat, e: nat, pos: nat, acc: Text)
    requires ParamLoop(b, i, e, pos - 1, 1, [], acc)
    ensures var c := At(b, pos);
            if IsLetDig(c) || (c == '-' && IsLdh(At(b, pos + 1))) then
              pos < |b| && ParamLoop(b, i, e, pos, 1, [], acc + [c])
            else if c == '-' then S.ScanParam(b, i - 1) == S.ParamScan(S.Fail(S.ParamError), pos, S.Param([], []))
            else if c == '=' then pos < |b| && ParamLoop(b, i, pos, pos, 2, acc, [])
            else S.ScanParam(b, i - 1) == S.ParamScan(S.Ok, pos, S.Param(acc, []))
  {
    hide Collects;
    var c := At(b, pos);
    CollectsBounds(IsLdh, b, i, pos, [], acc);
    if IsLdh(c) {
      CollectsNext(IsLdh, b, i, pos, [], acc);
      if c == '-' && !IsLdh(At(b, pos + 1)) {
        ParamStops(b, i, pos, acc);
      }
    } else {
      assert KeyAt(b, i, pos, acc);
      if c == '=' {
        CollectsNone(IsEsmtpValue, b, pos + 1, []);
      } else {
        ParamBare(b, i, pos, acc);
      }
    }
  }

  lemma ParamValueByte(b: Text, i: nat, e: nat, pos: nat, state: int, key: Text, acc: Text)
    requires 2 <= state <= 3 && ParamLoop(b, i, e, pos - 1, state, key, acc)
    ensures var c := At(b, pos);
            if !IsEsmtpValue(c) then
              state == 2 && S.ScanParam(b, i - 1) == S.ParamScan(S.Fail(S.ParamError), pos, S.Param(key, []))
            else if IsEsmtpValue(At(b, pos + 1)) then pos < |b| && ParamLoop(b, i, e, pos, 3, key, acc + [c])
            else S.ScanParam(b, i - 1) == S.ParamScan(S.Ok, pos, S.Param(key, acc + [c]))
  {
    hide Collects, KeyAt;
    var c := At(b, pos);
    CollectsBounds(IsEsmtpValue, b, e + 1, pos, [], acc);
    if !IsEsmtpValue(c) {
      ParamNoValue(b, i, e, key);
    } else {
      CollectsNext(IsEsmtpValue, b, e + 1, pos, [], acc);
      if !IsEsmtpValue(At(b, pos + 1)) {
        ParamValue(b, i, e, pos + 1, key, acc + [c]);
      }
    }
  }

  /** `rest` completes `whole` when the parameters read so far are put before it. */
  ghost predicate ParamsLead(whole: S.ParamsScan, read: seq<S.Param>, rest: S.ParamsScan) {
    whole.out == rest.out && whole.pos == rest.pos && whole.params == read + rest.params
  }

  lemma ParamsUnfolds(b: Text, pos: int)
    requires -1 <= pos
    ensures var p := S.ScanParam(b, pos);
            S.Params(b, pos) ==
            if p.out.Fail? then S.ParamsScan(p.out, p.pos, [p.param])
            else if At(b, p.pos + 1) == ' ' then
              var r := S.Params(b, p.pos + 1);
              S.ParamsScan(r.out, r.pos, [p.param] + r.params)
            else S.ParamsScan(S.Ok, p.pos + 1, [p.param])
    ensures |S.Params(b, pos).params| > 0
  {
  }

  lemma ParamsAccept(whole: S.ParamsScan, read: seq<S.Param>, p: S.Param, rest: S.ParamsScan)
    requires ParamsLead(whole, read, S.ParamsScan(rest.out, rest.pos, [p] + rest.params))
    ensures ParamsLead(whole, read + [p], rest)
  {
    assert read + ([p] + rest.params) == (read + [p]) + rest.params;
  }

  lemma NothingInEmpty(b: Text)
    ensures b == [] ==> S.Domain(b, 0).out.Fail?
  {
  }

  class Parser {
    const parseIp: IpParser
    var accept: Text
    var buf: Text
    var pathParams: seq<S.Param>
    var adl: seq<Text>
    var localPart: Text
    var localPartQuotes: bool
    var domain: Text
    var ip: Option<Ip>
    var pos: int
    var nullPath: bool
    var ch: byte

    /** The byte held is the last one read; past the end of the input it goes stale. */
    ghost predicate Valid()
      reads this
    {
      -1 <= pos && (0 <= pos && buf != [] ==> ch == S.Held(buf, pos))
    }

    function Result(): S.Reading
      reads this
    {
      S.Reading(nullPath, adl, localPart, localPartQuotes, domain, ip, pathParams)
    }

    /** Between commands: a parser that was never used holds nothing. */
    ghost predicate Ready()
      reads this
    {
      -1 <= pos && (pos == -1 ==> accept == [] && Result() == S.NoReading)
    }

    constructor (parseIp: IpParser, buf: Text)
      ensures this.parseIp == parseIp && this.buf == buf && pos == -1 && Ready() && Valid()
    {
      this.parseIp := parseIp;
      this.accept, this.buf, this.pathParams, this.adl := [], buf, [], [];
      this.localPart, this.localPartQuotes, this.domain, this.ip := [], false, [], None;
      this.pos, this.nullPath, this.ch := -1, false, '\0';
    }

    /** Everything but the byte held is cleared, unless nothing was read since the last reset. */
    method Reset()
      requires Ready()
      modifies this
      ensures pos == -1 && buf == [] && accept == [] && Result() == S.NoReading && ch == old(ch)
    {
      buf := [];
      if pos != -1 {
        pos := -1;
        adl, pathParams, nullPath := [], [], false;
        localPart, domain, accept := [], [], [];
        localPartQuotes, ip := false, None;
      }
    }

    method Set(input: Text)
      requires Ready()
      modifies this
      ensures pos == -1 && buf == input && accept == [] && Result() == S.NoReading && Valid()
    {
      Reset();
      buf := input;
    }

    method Next() returns (c: byte)
      requires Valid()
      modifies `pos, `ch
      ensures Valid() && pos == old(pos) + 1 && c == At(buf, pos)
    {
      pos := pos + 1;
      if pos < |buf| {
        ch := buf[pos];
        return ch;
      }
      return '\0';
    }

    method Peek() returns (c: byte)
      requires Valid()
      ensures c == At(buf, pos + 1)
    {
      if pos + 1 < |buf| {
        return buf[pos + 1];
      }
      return '\0';
    }

    // -------------------------------------------------------------- domains

    method Subdomain() returns (out: S.Outcome)
      requires Valid()
      modifies `pos, `ch, `accept
      ensures Valid()
      ensures var s := S.SubdomainFrom(buf, old(pos) + 1);
              out == s.out && pos == s.pos - 1 && accept == old(accept) + s.text
    {
      hide S.SubdomainFrom, Collects;
      ghost var i := pos + 1;
      var state := 0;
      var c := Next();
      if i <= |buf| {
        CollectsNone(IsLdh, buf, i, accept);
      }
      while true
        invariant Valid() && i <= pos && c == At(buf, pos) && 0 <= state <= 1
        invariant state == 0 ==> pos == i && accept == old(accept)
        invariant i <= |buf| ==> Collects(IsLdh, buf, i, pos, old(accept), accept)
        invariant state == 1 ==> i < pos < |buf| && IsLetDig(buf[i]) && IsLdh(c)
        decreases |buf| - pos
      {
        var p := Peek();
        if state == 0 {
          if !IsLetDig(c) {
            NoSubdomain(buf, i);
            return S.Fail(S.SubdomainError);
          }
          CollectsNext(IsLdh, buf, i, pos, old(accept), accept);
          accept := accept + [c];
          if !IsLetDig(p) && p != '-' {
            SubdomainRead(buf, i, pos + 1, old(accept), accept);
            return S.Ok;
          }
          state := 1;
        } else {
          if IsLetDig(c) || c == '-' {
            CollectsNext(IsLdh, buf, i, pos, old(accept), accept);
            accept := accept + [c];
          }
          if !IsLetDig(p) && p != '-' {
            SubdomainRead(buf, i, pos + 1, old(accept), accept);
            return if c == '-' then S.Fail(S.SubdomainError) else S.Ok;
          }
        }
        c := Next();
      }
    }

    method Domain() returns (out: S.Outcome)
      requires Valid()
      modifies `pos, `ch, `accept
      ensures Valid()
      ensures var s := S.Domain(buf, old(pos));
              out == s.out && pos == s.pos && accept == old(accept) + s.text
    {
      hide S.SubdomainFrom, S.DomainFrom;
      ghost var whole := S.DomainFrom(buf, pos + 1);
      while true
        invariant Valid() && Leads(old(accept), whole, accept, S.DomainFrom(buf, pos + 1))
        decreases |buf| - pos
      {
        ghost var accept0, s := accept, S.SubdomainFrom(buf, pos + 1);
        DomainUnfolds(buf, pos + 1);
        var err := Subdomain();
        if err.Fail? {
          return err;
        }
        var p := Peek();
        if p != '.' {
          return if p != ':' && p != ',' && p != '>' && p != '\0' then S.Fail(S.DomainError) else S.Ok;
        }
        var c := Next();
        Accepts(old(accept), whole, accept0, s.text + [c], S.DomainFrom(buf, pos + 1));
        assert accept0 + (s.text + [c]) == accept + [c];
        accept := accept + [c];
      }
    }

    // ----------------------------------------------------------- local parts

    method Atom() returns (out: S.Outcome)
      requires Valid()
      modifies `pos, `ch, `accept
      ensures Valid()
      ensures var s := S.Atom(buf, old(pos));
              out == s.out && pos == s.pos && accept == old(accept) + s.text
    {
      hide S.Atom, Collects;
      ghost var i := pos + 1;
      var state := 0;
      if i <= |buf| {
        CollectsNone(IsAtext, buf, i, accept);
      }
      while true
        invariant Valid() && 0 <= state <= 1 && (state == 0 ==> pos == i - 1 && accept == old(accept))
        invariant i <= |buf| ==> Collects(IsAtext, buf, i, pos + 1, old(accept), accept)
        invariant state == 1 ==> i <= pos < |buf|
        decreases |buf| - pos
      {
        var c := Next();
        if state == 0 {
          if !IsAtext(c) {
            NoAtom(buf, i);
            return S.Fail(S.AtomError);
          }
          CollectsNext(IsAtext, buf, i, pos, old(accept), accept);
          accept := accept + [ch];
          state := 1;
        } else {
          if !IsAtext(c) {
            AtomRead(buf, i, pos, old(accept), accept);
            return S.Ok;
          }
          CollectsNext(IsAtext, buf, i, pos, old(accept), accept);
          accept := accept + [ch];
        }
      }
    }

    method DotString() returns (out: S.Outcome)
      requires Valid()
      modifies `pos, `ch, `accept
      ensures Valid()
      ensures var s := S.DotString(buf, old(pos));
              out == s.out && pos == s.pos && accept == old(accept) + s.text
    {
      hide S.Atom, S.DotString;
      ghost var whole := S.DotString(buf, pos);
      while true
        invariant Valid() && Leads(old(accept), whole, accept, S.DotString(buf, pos))
        decreases |buf| - pos
      {
        ghost var accept0, a := accept, S.Atom(buf, pos);
        DotStringUnfolds(buf, pos);
        var err := Atom();
        if err.Fail? {
          return err;
        }
        if ch != '.' {
          return S.Ok;
        }
        Accepts(old(accept), whole, accept0, a.text + [ch], S.DotString(buf, pos));
        assert accept0 + (a.text + [ch]) == accept + [ch];
        accept := accept + [ch];
      }
    }

    method QcontentSMTP() returns (out: S.Outcome)
      requires Valid()
      modifies `pos, `ch, `accept, `localPartQuotes
      ensures Valid()
      ensures var s := S.Qcontent(buf, old(pos), false);
              && out == s.out && pos == s.pos && accept == old(accept) + s.text
              && localPartQuotes == (old(localPartQuotes) || NeedsQuotes(s.text))
    {
      ghost var whole := S.Qcontent(buf, pos, false);
      var state := 0;
      while true
        invariant Valid() && 0 <= state <= 1
        invariant Leads(old(accept), whole, accept, S.Qcontent(buf, pos, state == 1))
        invariant (old(localPartQuotes) || NeedsQuotes(whole.text))
               == (localPartQuotes || NeedsQuotes(S.Qcontent(buf, pos, state == 1).text))
        decreases |buf| - pos
      {
        ghost var rest := S.Qcontent(buf, pos + 1, false);
        var c := Next();
        if state == 0 {
          if c == '\\' {
            state := 1;
            continue;
          } else if c == ' ' || c == '!' || '#' <= c <= '[' || ']' <= c <= '~' {
            if localPartQuotes == false && !IsAtext(c) {
              localPartQuotes := true;
            }
          } else {
            return S.Ok;
          }
        } else {
          if ' ' <= c <= '~' {
            if localPartQuotes == false && !IsAtext(c) {
              localPartQuotes := true;
            }
            state := 0;
          } else {
            return S.Fail(S.NotPrintable);
          }
        }
        Accepts(old(accept), whole, accept, [c], rest);
        NeedsQuotesCons(c, rest.text);
        accept := accept + [c];
      }
    }

    method QuotedString() returns (out: S.Outcome)
      requires Valid() && At(buf, pos + 1) == '"'
      modifies `pos, `ch, `accept, `localPartQuotes
      ensures Valid()
      ensures var s := S.QuotedString(buf, old(pos));
              && out == s.out && pos == s.pos && accept == old(accept) + s.text
              && localPartQuotes == (old(localPartQuotes) || NeedsQuotes(s.text))
    {
      var c := Next();
      if c == '"' {
        var err := QcontentSMTP();
        if err.Fail? {
          return err;
        }
        if ch != '"' {
          return S.Fail(S.QuoteNotClosed);
        }
        var _ := Next();
      }
      return S.Ok;
    }

    /** Whatever was accepted becomes the local part, also when the production fails. */
    method LocalPart() returns (out: S.Outcome)
      requires Valid()
      modifies `pos, `ch, `accept, `localPartQuotes, `localPart
      ensures Valid() && accept == []
      ensures var l := S.LocalPart(buf, old(pos));
              && out == l.out && pos == l.pos
              && localPart == (if old(accept) + l.text == [] then old(localPart) else old(accept) + l.text)
              && localPartQuotes == (old(localPartQuotes) || S.LocalNeedsQuotes(buf, old(pos)))
    {
      var p := Peek();
      if p == '"' {
        out := QuotedString();
      } else {
        out := DotString();
      }
      if accept != [] {
        localPart := accept;
        accept := [];
      }
    }

    // ------------------------------------------------------ address literals

    method Snum() returns (out: S.Outcome)
      requires Valid()
      modifies `pos, `ch, `accept
      ensures Valid()
      ensures var s := S.Snum(buf, old(pos));
              out == s.out && pos == s.pos && accept == old(accept) + s.text
    {
      hide S.Snum, Collects, FitsOctet;
      ghost var i := pos + 1;
      var state := 0;
      var num: Text := [];
      if i <= |buf| {
        CollectsNone(IsDigit, buf, i, accept);
        CollectsNone(IsDigit, buf, i, []);
      }
      for n := 4 downto 0
        invariant Valid() && pos == i + 3 - n
        invariant state == (if n == 4 then 0 else 1) && (state == 1 ==> pos < |buf|)
        invariant state == 0 ==> accept == old(accept)
        invariant i <= |buf| ==> Collects(IsDigit, buf, i, pos + 1, old(accept), accept)
        invariant i <= |buf| ==> Collects(IsDigit, buf, i, pos + 1, [], num)
      {
        var c := Next();
        if state == 0 {
          if !IsDigit(c) {
            NoSnum(buf, i);
            return S.Fail(S.SnumError);
          }
          CollectsNext(IsDigit, buf, i, pos, [], num);
          CollectsNext(IsDigit, buf, i, pos, old(accept), accept);
          num := num + [ch];
          accept := accept + [ch];
          state := 1;
        } else if !IsDigit(c) {
          SnumRead(buf, i, pos, old(accept), accept, num);
          return if FitsOctet(num) then S.Ok else S.Fail(S.InvalidIpv4);
        } else {
          CollectsNext(IsDigit, buf, i, pos, [], num);
          CollectsNext(IsDigit, buf, i, pos, old(accept), accept);
          num := num + [ch];
          accept := accept + [ch];
        }
      }
      SnumTooLong(buf, i, old(accept), accept);
      return S.Fail(S.TooManyDigits);
    }

    /** The loop over the four numbers of an IPv4 address. */
    method Snums() returns (out: S.Outcome)
      requires Valid() && accept == []
      modifies `pos, `ch, `accept
      ensures Valid()
      ensures var s := S.Snums(buf, old(pos), 0); out == s.out && pos == s.pos && accept == s.text
    {
      hide S.Snum, S.Snums;
      ghost var whole := S.Snums(buf, pos, 0);
      NothingRead(whole);
      var i := 0;
      while i < 4
        invariant Valid() && 0 <= i <= 4 && Leads([], whole, accept, S.Snums(buf, pos, i))
      {
        SnumsUnfolds(buf, pos, i);
        ghost var accept0, pos0, s := accept, pos, S.Snum(buf, pos);
        var err := Snum();
        if err.Fail? {
          AllRead(whole, accept0, s);
          return err;
        }
        SnumHolds(buf, pos0);
        if ch != '.' {
          AllRead(whole, accept0, s);
          return S.Ok;
        }
        Accepts([], whole, accept0, s.text + [ch], S.Snums(buf, pos, i + 1));
        assert accept0 + (s.text + [ch]) == accept + [ch];
        accept := accept + [ch];
        i := i + 1;
      }
      NoSnumsLeft(buf, pos);
      AllRead(whole, accept, S.Scan(S.Ok, pos, []));
      return S.Ok;
    }

    method Ipv4AddressLiteral() returns (out: S.Outcome)
      requires Valid() && accept == []
      modifies `pos, `ch, `accept, `ip
      ensures Valid()
      ensures var l := S.Ipv4Literal(parseIp, buf, old(pos));
              && out == l.out && pos == l.pos && accept == l.text
              && ip == (if l.ip.Some? then l.ip else old(ip))
    {
      hide S.Snums;
      var err := Snums();
      if err.Fail? {
        return err;
      }
      match parseIp(accept)
      case None => return S.Fail(S.InvalidIp);
      case Some(v) =>
        ip := Some(v);
        return S.Ok;
    }

    method Ipv6AddressLiteral() returns (out: S.Outcome)
      requires Valid() && accept == []
      modifies `pos, `ch, `accept, `ip
      ensures Valid()
      ensures var l := S.Ipv6Literal(parseIp, buf, old(pos));
              && out == l.out && pos == l.pos && accept == l.text
              && ip == (if l.ip.Some? then l.ip else old(ip))
    {
      hide Collects;
      ghost var i := pos + 1;
      var text: Text := [];
      if i <= |buf| {
        CollectsNone(IsIpv6Byte, buf, i, text);
      }
      var c := Next();
      while IsIpv6Byte(c)
        invariant Valid() && i <= pos && c == At(buf, pos) && accept == [] && ip == old(ip)
        invariant if i <= |buf| then Collects(IsIpv6Byte, buf, i, pos, [], text) && pos <= |buf|
                  else text == [] && pos == i
        decreases |buf| - pos
      {
        CollectsNext(IsIpv6Byte, buf, i, pos, [], text);
        text := text + [c];
        c := Next();
      }
      if i <= |buf| {
        CollectsAll(IsIpv6Byte, buf, i, pos, text);
      }
      match parseIp(text)
      case Some(v) =>
        accept := accept + v.text;
        ip := Some(v);
        return S.Ok;
      case None => return S.Fail(S.InvalidIpv6);
    }

    method AddressLiteral() returns (out: S.Outcome)
      requires Valid() && accept == [] && At(buf, pos + 1) == '['
      modifies `pos, `ch, `accept, `ip
      ensures Valid()
      ensures var l := S.AddressLiteral(parseIp, buf, old(pos));
              && out == l.out && pos == l.pos && accept == l.text
              && ip == (if l.ip.Some? then l.ip else old(ip))
    {
      var c := Next();
      if c == '[' {
        var p := Peek();
        out := S.Ok;
        if p == 'I' || p == 'i' {
          for i := 0 to 5
            invariant Valid() && pos == old(pos) + 1 + i && accept == [] && ip == old(ip)
          {
            var _ := Next();
          }
          out := Ipv6AddressLiteral();
        } else if '0' <= p <= '9' {
          out := Ipv4AddressLiteral();
        }
        if out.Fail? {
          return;
        }
        if ch != ']' {
          return S.Fail(S.LiteralNotClosed);
        }
        return S.Ok;
      }
      return S.Ok;
    }

    // ----------------------------------------------------------------- paths

    /** Whatever was accepted becomes the domain, also when the production fails. */
    method Mailbox() returns (out: S.Outcome)
      requires Valid() && localPart == [] && domain == [] && ip == None && !localPartQuotes
      modifies `pos, `ch, `accept, `localPartQuotes, `localPart, `domain, `ip
      ensures Valid() && accept == []
      ensures var m := S.ScanMailbox(parseIp, buf, old(pos), old(accept));
              && out == m.out && pos == m.pos && localPart == m.local && localPartQuotes == m.quotes
              && domain == m.domain && ip == m.ip
    {
      hide S.LocalPart, S.LocalNeedsQuotes, S.AddressLiteral, S.DomainFrom;
      out := LocalPart();
      if out.Ok? {
        if ch != '@' {
          out := S.Fail(S.AtExpected);
        } else {
          var p := Peek();
          if p == '[' {
            out := AddressLiteral();
          } else {
            out := Domain();
          }
        }
      }
      if accept != [] {
        domain := accept;
        accept := [];
      }
    }

    method AtDomain() returns (out: S.Outcome)
      requires Valid()
      modifies `pos, `ch, `accept
      ensures Valid()
      ensures var s := S.AtDomain(buf, old(pos));
              out == s.out && pos == s.pos && accept == old(accept) + s.text
    {
      hide S.DomainFrom;
      var c := Next();
      if c == '@' {
        accept := accept + ['@'];
        out := Domain();
        ghost var d := S.Domain(buf, old(pos) + 1);
        assert (old(accept) + ['@']) + d.text == old(accept) + (['@'] + d.text);
        return;
      }
      return S.Fail(S.SyntaxError);
    }

    method Adl() returns (out: S.Outcome)
      requires Valid() && accept == []
      modifies `pos, `ch, `accept, `adl
      ensures Valid()
      ensures var r := S.Adl(buf, old(pos));
              out == r.out && pos == r.pos && accept == r.rest && adl == old(adl) + r.domains
    {
      hide S.AtDomain, S.Adl;
      ghost var whole := S.Adl(buf, pos);
      while true
        invariant Valid() && accept == [] && RouteLeads(old(adl), whole, adl, S.Adl(buf, pos))
        decreases |buf| - pos
      {
        AdlUnfolds(buf, pos);
        ghost var a := S.AtDomain(buf, pos);
        assert [] + a.text == a.text;
        var err := AtDomain();
        if err.Fail? {
          return err;
        }
        var p := Peek();
        if p == ',' {
          RouteAccepts(old(adl), whole, adl, accept, S.Adl(buf, pos + 1));
        }
        adl := adl + [accept];
        accept := [];
        if p != ',' {
          break;
        }
        var _ := Next();
      }
      return S.Ok;
    }

    method Path() returns (out: S.Outcome)
      requires Valid() && accept == [] && Result() == S.NoReading
      modifies `pos, `ch, `accept, `localPartQuotes, `localPart, `domain, `ip, `adl
      ensures Valid() && accept == []
      ensures var p := S.ScanPath(parseIp, buf, old(pos));
              out == p.mailbox.out && pos == p.mailbox.pos && Result() == S.OfPath(p)
    {
      hide S.ScanMailbox, S.Adl, S.Held;
      var c := Next();
      var p := Peek();
      if c == '<' && p == '@' {
        var err := Adl();
        if err.Ok? {
          var _ := Next();
          if ch != ':' {
            return S.Fail(S.SyntaxError);
          }
        }
      }
      out := Mailbox();
      if out.Fail? {
        return;
      }
      p := Peek();
      if p != '>' {
        return S.Fail(S.MissingGt);
      }
      return S.Ok;
    }

    method ReversePath() returns (out: S.Outcome)
      requires Valid() && pos == -1 && accept == [] && Result() == S.NoReading
      modifies `pos, `ch, `accept, `localPartQuotes, `localPart, `domain, `ip, `adl, `nullPath
      ensures Valid() && accept == []
      ensures if S.OpensNull(buf) then
                out == S.Ok && pos == S.PathStart(buf) && Result() == S.NoReading.(nullPath := true)
              else
                var p := S.ScanPath(parseIp, buf, S.PathStart(buf));
                out == p.mailbox.out && pos == p.mailbox.pos && Result() == S.OfPath(p)
    {
      hide S.ScanPath;
      var c := Peek();
      if c == ' ' {
        var _ := Next();
      }
      if pos + 2 < |buf| && buf[pos + 1] == '<' && buf[pos + 2] == '>' {
        nullPath := true;
        return S.Ok;
      }
      out := Path();
    }

    /** Returns AtExpected for a path without `@` unless it is addressed to the postmaster. */
    method ForwardPath() returns (out: S.Outcome)
      requires Valid() && pos == -1 && accept == [] && Result() == S.NoReading
      modifies `pos, `ch, `accept, `localPartQuotes, `localPart, `domain, `ip, `adl
      ensures Valid() && accept == []
      ensures var p := S.ScanPath(parseIp, buf, S.PathStart(buf));
              && pos == p.mailbox.pos
              && if (p.mailbox.out.Ok? || p.mailbox.out.error == S.AtExpected) && S.IsPostmaster(p.mailbox.local) then
                   out == S.Ok && Result() == S.OfPath(p).(local := S.POSTMASTER)
                 else
                   out == p.mailbox.out && Result() == S.OfPath(p)
    {
      hide S.ScanPath;
      var c := Peek();
      if c == ' ' {
        var _ := Next();
      }
      out := Path();
      if out.Fail? && out.error != S.AtExpected {
        return;
      }
      if HasPrefix(Lower(localPart), S.POSTMASTER) {
        localPart := S.POSTMASTER;
        return S.Ok;
      }
    }

    // ------------------------------------------------------------ parameters

    method Param() returns (out: S.Outcome, result: S.Param)
      requires Valid() && accept == []
      modifies `pos, `ch, `accept
      ensures Valid() && accept == []
      ensures var s := S.ScanParam(buf, old(pos)); out == s.out && pos == s.pos && result == s.param
    {
      hide S.ScanParam, ParamLoop;
      ghost var i: nat, e: nat := pos + 1, pos + 1;
      var state := 0;
      var key, value: Text := [], [];
      ParamBegins(buf, i);
      while true
        invariant Valid() && i - 1 <= pos && 0 <= state <= 3 && value == [] && (state <= 1 ==> key == [])
        invariant ParamLoop(buf, i, e, pos, state, key, accept)
        decreases |buf| - pos
      {
        var c := Next();
        if state == 0 {
          ParamFirst(buf, i, e, pos, accept);
          if !IsLetDig(c) {
            accept := [];
            return S.Fail(S.ParamError), S.Param(key, value);
          }
          accept := accept + [c];
          state := 1;
        } else if state == 1 {
          ParamKey(buf, i, e, pos, accept);
          if !IsLetDig(c) {
            if c == '=' {
              key := accept;
              accept := [];
              e := pos;
              state := 2;
              continue;
            } else if c == '-' {
              var p := Peek();
              if !IsLetDig(p) && p != '-' {
                accept := [];
                return S.Fail(S.ParamError), S.Param(key, value);
              }
              accept := accept + [c];
              continue;
            }
            key := accept;
            accept := [];
            return S.Ok, S.Param(key, value);
          }
          accept := accept + [c];
        } else {
          ParamValueByte(buf, i, e, pos, state, key, accept);
          if state == 2 && !IsEsmtpValue(c) {
            accept := [];
            return S.Fail(S.ParamError), S.Param(key, value);
          }
          accept := accept + [c];
          var p := Peek();
          if !IsEsmtpValue(p) {
            value := accept;
            accept := [];
            return S.Ok, S.Param(key, value);
          }
          state := 3;
        }
      }
    }

    method Parameters() returns (out: S.Outcome, params: seq<S.Param>)
      requires Valid() && accept == []
      modifies `pos, `ch, `accept
      ensures Valid() && accept == []
      ensures var s := S.Params(buf, old(pos)); out == s.out && pos == s.pos && params == s.params
    {
      hide S.ScanParam, S.Params;
      ghost var whole := S.Params(buf, pos);
      params := [];
      while true
        invariant Valid() && accept == [] && ParamsLead(whole, params, S.Params(buf, pos))
        decreases |buf| - pos
      {
        ParamsUnfolds(buf, pos);
        var err, result := Param();
        ghost var rest := S.Params(buf, pos + 1);
        if err.Ok? && At(buf, pos + 1) == ' ' {
          ParamsAccept(whole, params, result, rest);
        }
        params := params + [result];
        if err.Fail? {
          return err, params;
        }
        var p := Next();
        if p != ' ' {
          return S.Ok, params;
        }
      }
    }

    // ---------------------------------------------------------- entry points

    /** The closing byte of a path, and the parameters when a space follows it. */
    method PathEnd() returns (out: S.Outcome)
      requires Valid() && accept == [] && pathParams == []
      modifies `pos, `ch, `accept, `pathParams
      ensures Valid() && old(pos) + 2 <= pos <= (if old(pos) < |buf| then |buf| else old(pos)) + 4
      ensures var c := S.WithParams(buf, old(pos), old(Result())); out == c.out && Result() == c.reading
    {
      hide S.Params;
      var _ := Next();
      var p := Next();
      if p == ' ' {
        ParamsUnfolds(buf, pos);
        var err, tup := Parameters();
        if err.Fail? {
          return S.Fail(S.ParamsError);
        } else if |tup| > 0 {
          pathParams := tup;
        }
      }
      return S.Ok;
    }

    /** MAIL: the outcome and everything read depend on the input alone, not on earlier use. */
    method MailFrom(input: Text) returns (out: S.Outcome)
      requires Ready()
      modifies this
      ensures var c := S.MailFrom(parseIp, input); out == c.out && Result() == c.reading
      ensures Ready() && -1 < pos <= |input| + 12
    {
      hide S.ScanPath, S.WithParams;
      Set(input);
      var err := ReversePath();
      if err.Fail? {
        return err;
      }
      out := PathEnd();
    }

    /** RCPT: as MailFrom. */
    method RcptTo(input: Text) returns (out: S.Outcome)
      requires Ready()
      modifies this
      ensures var c := S.RcptTo(parseIp, input); out == c.out && Result() == c.reading
      ensures Ready() && -1 < pos <= |input| + 12
    {
      hide S.ScanPath, S.WithParams, S.Held, S.IsPostmaster;
      Set(input);
      var err := ForwardPath();
      if err.Fail? {
        return err;
      }
      out := PathEnd();
    }

    /** On empty input the byte held is still that of an earlier command; the domain fails then. */
    method Helo(input: Text) returns (out: S.Outcome, name: Text)
      requires Ready()
      modifies this
      ensures out.Ok? <==> S.Helo(input).Some?
      ensures out.Ok? ==> S.Helo(input) == Some(name)
      ensures Ready() && -1 < pos <= |input| + 12
    {
      hide S.DomainFrom;
      Set(input);
      var _ := Next();
      name := [];
      if ch == ' ' {
        NothingInEmpty(input);
        out := Domain();
        assert [] + S.Domain(input, 0).text == S.Domain(input, 0).text;
        if out.Ok? {
          name := accept;
        }
        return;
      }
      out := S.Fail(S.HeloError);
    }

    method Ehlo(input: Text) returns (out: S.Outcome, name: Text, addr: Option<Ip>)
      requires Ready()
      modifies this
      ensures out.Ok? <==> S.Ehlo(parseIp, input).Some?
      ensures out.Ok? ==> S.Ehlo(parseIp, input) == Some((name, addr))
      ensures Ready() && -1 < pos <= |input| + 12
    {
      hide S.DomainFrom, S.AddressLiteral;
      Set(input);
      var _ := Next();
      name, addr := [], None;
      if ch == ' ' {
        NothingInEmpty(input);
        var p := Peek();
        if p == '[' {
          out := AddressLiteral();
          if out.Ok? {
            name := accept;
            addr := parseIp(name);
            if addr == None {
              out := S.Fail(S.InvalidIp);
            }
          }
        } else {
          out := Domain();
          assert [] + S.Domain(input, 0).text == S.Domain(input, 0).text;
          if out.Ok? {
            name := accept;
          }
        }
        return;
      }
      out := S.Fail(S.EhloError);
    }
  }
}
