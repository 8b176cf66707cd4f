/**
 * What each production of the parser does with its input, as a function of the input
 * and the cursor. `pos` is the index of the byte read last (-1 before the first), so a
 * production starts at pos + 1. `text` is what the production adds to the accept buffer.
 */
module Rfc5321Scan {
  import opened Bytes
  import opened Rfc5321Grammar

  datatype Error =
    | AtExpected | SyntaxError | MissingGt | DomainError | SubdomainError | LiteralNotClosed
    | InvalidIp | InvalidIpv4 | InvalidIpv6 | SnumError | TooManyDigits | QuoteNotClosed
    | NotPrintable | AtomError | ParamError | ParamsError | HeloError | EhloError

  datatype Outcome = Ok | Fail(error: Error)

  datatype Scan = Scan(out: Outcome, pos: int, text: Text)

  /** The byte the parser still holds after reading up to pos: past the end it keeps the last one. */
  function Held(b: Text, pos: int): (c: byte)
    requires b != [] && 0 <= pos
  {
    if pos < |b| then b[pos] else b[|b| - 1]
  }

  // ---------------------------------------------------------------- domains

  /** From index i on; here pos is the index after the last byte read. */
  function SubdomainFrom(b: Text, i: nat): (s: Scan)
    ensures i < s.pos <= |b| || s.pos == i + 1
    ensures s.out.Ok? ==> s.pos <= |b| && s.text == b[i..s.pos]
  {
    if IsLetDig(At(b, i)) then
      var e := Run(IsLdh, b, i);
      Scan(if b[e - 1] == '-' then Fail(SubdomainError) else Ok, e, b[i..e])
    else
      Scan(Fail(SubdomainError), i + 1, [])
  }

  predicate EndsDomain(c: byte) { c == ':' || c == ',' || c == '>' || c == '\0' }

  function DomainFrom(b: Text, i: nat): (s: Scan)
    ensures i < s.pos <= |b| + 1 || s.pos == i + 1
    ensures s.out.Ok? ==> s.pos <= |b|
    decreases |b| - i
  {
    var s := SubdomainFrom(b, i);
    if s.out.Fail? then s
    else if At(b, s.pos) == '.' then
      var d := DomainFrom(b, s.pos + 1);
      Scan(d.out, d.pos, s.text + ['.'] + d.text)
    else
      Scan(if EndsDomain(At(b, s.pos)) then Ok else Fail(DomainError), s.pos, s.text)
  }

  function Domain(b: Text, pos: int): (s: Scan)
    requires -1 <= pos
    ensures pos < s.pos <= |b| || s.pos == pos + 1
    ensures s.out.Ok? ==> s.pos < |b|
  {
    var s := DomainFrom(b, pos + 1);
    s.(pos := s.pos - 1)
  }

  // ------------------------------------------------------------- local parts

  function Atom(b: Text, pos: int): (s: Scan)
    requires -1 <= pos
    ensures pos < s.pos <= |b| || s.pos == pos + 1
    ensures s.out.Ok? ==> pos + 1 < s.pos <= |b| && s.text == b[pos + 1..s.pos]
  {
    if IsAtext(At(b, pos + 1)) then
      var e := Run(IsAtext, b, pos + 1);
      Scan(Ok, e, b[pos + 1..e])
    else
      Scan(Fail(AtomError), pos + 1, [])
  }

  /** Leaves the cursor on the byte after the Dot-string. */
  function DotString(b: Text, pos: int): (s: Scan)
    requires -1 <= pos
    ensures pos < s.pos <= |b| || s.pos == pos + 1
    ensures s.out.Ok? ==> pos + 1 < s.pos <= |b| && IsAtext(b[s.pos - 1])
    decreases |b| - pos
  {
    var a := Atom(b, pos);
    if a.out.Fail? || At(b, a.pos) != '.' then a
    else
      var d := DotString(b, a.pos);
      Scan(d.out, d.pos, a.text + ['.'] + d.text)
  }

  /** Stops on the first byte that is no content; a backslash escapes the next byte. */
  function Qcontent(b: Text, pos: int, escaped: bool): (s: Scan)
    requires -1 <= pos
    ensures pos < s.pos <= |b| || s.pos == pos + 1
    decreases |b| - pos
  {
    var c := At(b, pos + 1);
    if escaped && !IsPrintable(c) then Scan(Fail(NotPrintable), pos + 1, [])
    else if !escaped && c == '\\' then Qcontent(b, pos + 1, true)
    else if escaped || IsQtext(c) then
      var q := Qcontent(b, pos + 1, false);
      Scan(q.out, q.pos, [c] + q.text)
    else Scan(Ok, pos + 1, [])
  }

  function QuotedString(b: Text, pos: int): (s: Scan)
    requires -1 <= pos && At(b, pos + 1) == '"'
    ensures pos < s.pos
    ensures s.pos <= |b| + 2
  {
    var q := Qcontent(b, pos + 1, false);
    if q.out.Fail? then q
    else if Held(b, q.pos) != '"' then Scan(Fail(QuoteNotClosed), q.pos, q.text)
    else Scan(Ok, q.pos + 1, q.text)
  }

  function LocalPart(b: Text, pos: int): (s: Scan)
    requires -1 <= pos
    ensures pos < s.pos
    ensures s.pos <= |b| + 2 || s.pos == pos + 1
    ensures s.out.Ok? ==> b != []
  {
    if At(b, pos + 1) == '"' then QuotedString(b, pos) else DotString(b, pos)
  }

  function LocalNeedsQuotes(b: Text, pos: int): bool
    requires -1 <= pos
  {
    At(b, pos + 1) == '"' && NeedsQuotes(LocalPart(b, pos).text)
  }

  // -------------------------------------------------------- address literals

  function Snum(b: Text, pos: int): (s: Scan)
    requires -1 <= pos
    ensures pos < s.pos <= |b| || s.pos == pos + 1
    ensures s.out.Ok? ==> pos + 1 < s.pos <= |b| && s.text == b[pos + 1..s.pos] && Every(IsDigit, s.text)
  {
    var e := Run(IsDigit, b, pos + 1);
    if e == pos + 1 then Scan(Fail(SnumError), pos + 1, [])
    else if e > pos + 4 then Scan(Fail(TooManyDigits), pos + 4, b[pos + 1..pos + 5])
    else
      var text := b[pos + 1..e];
      Scan(if FitsOctet(text) then Ok else Fail(InvalidIpv4), e, text)
  }

  /** The numbers of an IPv4 address from number i on, each taking the dot after it. */
  function Snums(b: Text, pos: int, i: nat): (s: Scan)
    requires -1 <= pos && i <= 4
    ensures i == 4 || pos < s.pos <= |b| || s.pos == pos + 1
    ensures s.out.Ok? && i < 4 ==> pos + 1 < s.pos <= |b|
    decreases 4 - i
  {
    if i == 4 then Scan(Ok, pos, [])
    else
      var s := Snum(b, pos);
      if s.out.Fail? || At(b, s.pos) != '.' then s
      else
        var r := Snums(b, s.pos, i + 1);
        Scan(r.out, r.pos, s.text + ['.'] + r.text)
  }

  datatype Literal = Literal(out: Outcome, pos: int, text: Text, ip: Option<Ip>)

  function Ipv4Literal(parseIp: IpParser, b: Text, pos: int): (l: Literal)
    requires -1 <= pos
    ensures pos < l.pos <= |b| || l.pos == pos + 1
    ensures l.out.Ok? ==> b != []
  {
    var s := Snums(b, pos, 0);
    if s.out.Fail? then Literal(s.out, s.pos, s.text, None)
    else match parseIp(s.text)
      case None => Literal(Fail(InvalidIp), s.pos, s.text, None)
      case Some(ip) => Literal(Ok, s.pos, s.text, Some(ip))
  }

  function Ipv6Literal(parseIp: IpParser, b: Text, pos: int): (l: Literal)
    requires -1 <= pos
    ensures pos < l.pos <= |b| || l.pos == pos + 1
  {
    var e := Run(IsIpv6Byte, b, pos + 1);
    match parseIp(if e == pos + 1 then [] else b[pos + 1..e])
    case None => Literal(Fail(InvalidIpv6), e, [], None)
    case Some(ip) => Literal(Ok, e, ip.text, Some(ip))
  }

  /** Five bytes, whatever they are, are skipped for the "IPv6:" tag. */
  function AddressLiteral(parseIp: IpParser, b: Text, pos: int): (l: Literal)
    requires -1 <= pos && At(b, pos + 1) == '['
    ensures pos < l.pos <= |b| + 6
  {
    var p := At(b, pos + 2);
    var l :=
      if p == 'I' || p == 'i' then Ipv6Literal(parseIp, b, pos + 6)
      else if IsDigit(p) then Ipv4Literal(parseIp, b, pos + 1)
      else Literal(Ok, pos + 1, [], None);
    if l.out.Ok? && Held(b, l.pos) != ']' then l.(out := Fail(LiteralNotClosed)) else l
  }

  // ------------------------------------------------------------------- paths

  datatype Mailbox = Mailbox(out: Outcome, pos: int, local: Text, quotes: bool, domain: Text, ip: Option<Ip>)

  /** `held` is what the accept buffer already holds; it becomes part of the local part. */
  function ScanMailbox(parseIp: IpParser, b: Text, pos: int, held: Text): (m: Mailbox)
    requires -1 <= pos
    ensures pos < m.pos
    ensures m.pos <= |b| + 6 || m.pos == pos + 1
  {
    var l := LocalPart(b, pos);
    var local := held + l.text;
    var quotes := LocalNeedsQuotes(b, pos);
    if l.out.Fail? then Mailbox(l.out, l.pos, local, quotes, [], None)
    else if Held(b, l.pos) != '@' then Mailbox(Fail(AtExpected), l.pos, local, quotes, [], None)
    else if At(b, l.pos + 1) == '[' then
      var a := AddressLiteral(parseIp, b, l.pos);
      Mailbox(a.out, a.pos, local, quotes, a.text, a.ip)
    else
      var d := Domain(b, l.pos);
      Mailbox(d.out, d.pos, local, quotes, d.text, None)
  }

  /** A source route: the domains passed, and what a failure leaves in the accept buffer. */
  datatype Route = Route(out: Outcome, pos: int, domains: seq<Text>, rest: Text)

  function AtDomain(b: Text, pos: int): (s: Scan)
    requires -1 <= pos
    ensures pos < s.pos <= |b| || s.pos == pos + 1
    ensures s.out.Ok? ==> s.pos < |b|
  {
    if At(b, pos + 1) == '@' then
      var d := Domain(b, pos + 1);
      Scan(d.out, d.pos, ['@'] + d.text)
    else Scan(Fail(SyntaxError), pos + 1, [])
  }

  function Adl(b: Text, pos: int): (r: Route)
    requires -1 <= pos
    ensures pos < r.pos <= |b| || r.pos == pos + 1
    ensures r.out.Ok? ==> r.pos < |b| && r.rest == []
    decreases |b| - pos
  {
    var a := AtDomain(b, pos);
    if a.out.Fail? then Route(a.out, a.pos, [], a.text)
    else if At(b, a.pos + 1) == ',' then
      var r := Adl(b, a.pos + 1);
      r.(domains := [a.text] + r.domains)
    else Route(Ok, a.pos, [a.text], [])
  }

  datatype Path = Path(adl: seq<Text>, mailbox: Mailbox)

  /** The first byte is passed over whatever it is; an error in a source route is dropped. */
  function ScanPath(parseIp: IpParser, b: Text, pos: int): (p: Path)
    requires -1 <= pos
    ensures pos < p.mailbox.pos && (p.mailbox.pos <= |b| + 8 || p.mailbox.pos <= pos + 2)
  {
    var p :=
      if At(b, pos + 1) == '<' && At(b, pos + 2) == '@' then
        var r := Adl(b, pos + 1);
        if r.out.Fail? then Path(r.domains, ScanMailbox(parseIp, b, r.pos, r.rest))
        else if Held(b, r.pos + 1) != ':' then
          Path(r.domains, Mailbox(Fail(SyntaxError), r.pos + 1, [], false, [], None))
        else Path(r.domains, ScanMailbox(parseIp, b, r.pos + 1, []))
      else Path([], ScanMailbox(parseIp, b, pos + 1, []));
    if p.mailbox.out.Ok? && At(b, p.mailbox.pos + 1) != '>' then
      p.(mailbox := p.mailbox.(out := Fail(MissingGt)))
    else p
  }

  // -------------------------------------------------------------- parameters

  datatype Param = Param(key: Text, value: Text)

  datatype ParamScan = ParamScan(out: Outcome, pos: int, param: Param)

  /** A keyword without a value also consumes the byte that ends it. */
  function ScanParam(b: Text, pos: int): (s: ParamScan)
    requires -1 <= pos
    ensures pos < s.pos <= |b| || s.pos == pos + 1
  {
    if !IsLetDig(At(b, pos + 1)) then ParamScan(Fail(ParamError), pos + 1, Param([], []))
    else
      var e := Run(IsLdh, b, pos + 1);
      var key := b[pos + 1..e];
      if b[e - 1] == '-' then ParamScan(Fail(ParamError), e - 1, Param([], []))
      else if At(b, e) != '=' then ParamScan(Ok, e, Param(key, []))
      else
        var v := Run(IsEsmtpValue, b, e + 1);
        if v == e + 1 then ParamScan(Fail(ParamError), e + 1, Param(key, []))
        else ParamScan(Ok, v - 1, Param(key, b[e + 1..v]))
  }

  datatype ParamsScan = ParamsScan(out: Outcome, pos: int, params: seq<Param>)

  function Params(b: Text, pos: int): (s: ParamsScan)
    requires -1 <= pos
    ensures pos < s.pos && (s.pos <= |b| + 1 || s.pos <= pos + 2)
    decreases |b| - pos
  {
    var p := ScanParam(b, pos);
    if p.out.Fail? then ParamsScan(p.out, p.pos, [p.param])
    else if At(b, p.pos + 1) == ' ' then
      var r := Params(b, p.pos + 1);
      r.(params := [p.param] + r.params)
    else ParamsScan(Ok, p.pos + 1, [p.param])
  }

  // ------------------------------------------------------------ entry points

  /** Everything a caller can read off the parser after MailFrom or RcptTo. */
  datatype Reading = Reading(
    nullPath: bool, adl: seq<Text>, local: Text, quotes: bool, domain: Text, ip: Option<Ip>, params: seq<Param>)

  datatype Command = Command(out: Outcome, reading: Reading)

  const NoReading := Reading(false, [], [], false, [], None, [])

  function OfPath(p: Path): Reading {
    var m := p.mailbox;
    Reading(false, p.adl, m.local, m.quotes, m.domain, m.ip, [])
  }

  /** What follows the path: its closing byte, and the parameters after a space. */
  function WithParams(b: Text, pos: int, r: Reading): Command
    requires -1 <= pos
  {
    if At(b, pos + 2) != ' ' then Command(Ok, r)
    else
      var s := Params(b, pos + 2);
      if s.out.Fail? then Command(Fail(ParamsError), r) else Command(Ok, r.(params := s.params))
  }

  function PathStart(b: Text): int { if At(b, 0) == ' ' then 0 else -1 }

  predicate OpensNull(b: Text) {
    At(b, PathStart(b) + 1) == '<' && At(b, PathStart(b) + 2) == '>'
  }

  function MailFrom(parseIp: IpParser, b: Text): Command {
    if OpensNull(b) then WithParams(b, PathStart(b), NoReading.(nullPath := true))
    else
      var p := ScanPath(parseIp, b, PathStart(b));
      if p.mailbox.out.Fail? then Command(p.mailbox.out, OfPath(p))
      else WithParams(b, p.mailbox.pos, OfPath(p))
  }

  const POSTMASTER: Text := "postmaster"

  predicate IsPostmaster(local: Text) { HasPrefix(Lower(local), POSTMASTER) }

  function RcptTo(parseIp: IpParser, b: Text): Command {
    var p := ScanPath(parseIp, b, PathStart(b));
    var out := p.mailbox.out;
    if out.Fail? && out.error != AtExpected then Command(out, OfPath(p))
    else if IsPostmaster(p.mailbox.local) then
      WithParams(b, p.mailbox.pos, OfPath(p).(local := POSTMASTER))
    else if out.Fail? then Command(out, OfPath(p))
    else WithParams(b, p.mailbox.pos, OfPath(p))
  }

  function Helo(b: Text): Option<Text> {
    if At(b, 0) != ' ' then None
    else
      var d := Domain(b, 0);
      if d.out.Ok? then Some(d.text) else None
  }

  /** A domain, or a literal whose text net.ParseIP takes as well. */
  function Ehlo(parseIp: IpParser, b: Text): Option<(Text, Option<Ip>)> {
    if At(b, 0) != ' ' then None
    else if At(b, 1) == '[' then
      var a := AddressLiteral(parseIp, b, 0);
      if a.out.Ok? && parseIp(a.text).Some? then Some((a.text, parseIp(a.text))) else None
    else
      var d := Domain(b, 0);
      if d.out.Ok? then Some((d.text, None)) else None
  }
}
