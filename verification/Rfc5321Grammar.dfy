/** Section 4.1.2 of RFC 5321, written as predicates on whole strings. */
module Rfc5321Grammar {
  import opened Bytes

  /** The parts with a dot between each two. */
  function Joined(parts: seq<Text>): Text {
    if parts == [] then []
    else if |parts| == 1 then parts[0]
    else parts[0] + ['.'] + Joined(parts[1..])
  }

  ghost predicate AllParts(part: Text -> bool, parts: seq<Text>) {
    parts != [] && forall k :: 0 <= k < |parts| ==> part(parts[k])
  }

  /** part *("." part) */
  ghost predicate Dotted(part: Text -> bool, s: Text) {
    exists parts :: AllParts(part, parts) && s == Joined(parts)
  }

  /** sub-domain = Let-dig [Ldh-str], where Ldh-str ends in Let-dig. */
  ghost predicate IsSubdomain(s: Text) {
    && s != [] && Every(IsLdh, s) && s[0] != '-' && s[|s| - 1] != '-'
  }

  /** Domain = sub-domain *("." sub-domain) */
  ghost predicate IsDomain(s: Text) { Dotted(IsSubdomain, s) }

  /** Atom = 1*atext */
  ghost predicate IsAtom(s: Text) { s != [] && Every(IsAtext, s) }

  /** Dot-string = Atom *("." Atom) */
  ghost predicate IsDotString(s: Text) { Dotted(IsAtom, s) }

  /** Snum = 1*3DIGIT, with a value of at most 255. */
  ghost predicate IsSnum(s: Text) { 1 <= |s| <= 3 && Every(IsDigit, s) && FitsOctet(s) }

  predicate FitsOctet(s: Text) { Decimal(s) <= 255 }

  /** The value of a digit string. */
  function Decimal(s: Text): (n: nat) {
    if s == [] then 0 else Decimal(s[..|s| - 1]) * 10 + DigitValue(s[|s| - 1])
  }

  function DigitValue(c: byte): nat { if IsDigit(c) then c as int - '0' as int else 0 }

  /** Snum 3("." Snum) */
  ghost predicate IsIpv4(s: Text) {
    exists parts :: |parts| == 4 && AllParts(IsSnum, parts) && s == Joined(parts)
  }

  /** esmtp-keyword = (ALPHA / DIGIT) *(ALPHA / DIGIT / "-") */
  ghost predicate IsKeyword(s: Text) {
    s != [] && IsLetDig(s[0]) && Every(IsLdh, s)
  }

  /** esmtp-value = 1*(%d33-60 / %d62-126) */
  ghost predicate IsValue(s: Text) { s != [] && Every(IsEsmtpValue, s) }

  /** *QcontentSMTP: q spells the content t, each byte plainly or after a backslash. */
  ghost predicate SpellsContent(q: Text, t: Text) {
    if q == [] then t == []
    else if q[0] == '\\' then
      && |q| >= 2 && t != [] && IsPrintable(q[1]) && t[0] == q[1] && SpellsContent(q[2..], t[1..])
    else
      t != [] && IsQtext(q[0]) && t[0] == q[0] && SpellsContent(q[1..], t[1..])
  }

  /** Whether a quoted local part needs its quotes: it holds a byte outside atext. */
  predicate NeedsQuotes(s: Text) { exists k :: 0 <= k < |s| && !IsAtext(s[k]) }

  /** Local-part = Dot-string / Quoted-string: `form` spells the local part `local`. */
  ghost predicate SpellsLocal(form: Text, local: Text, quotes: bool) {
    || (IsDotString(form) && local == form && !quotes)
    || exists q :: form == ['"'] + q + ['"'] && SpellsContent(q, local) && quotes == NeedsQuotes(local)
  }

  /** A parsed IP address, known by the text its String method prints. */
  datatype Ip = Ip(text: Text)

  /** net.ParseIP */
  type IpParser = Text -> Option<Ip>

  predicate IsIpv4Byte(c: byte) { IsDigit(c) || c == '.' }

  /** What the parser relies on of net.ParseIP: of digits and dots, it takes dotted quads only. */
  ghost predicate IpContract(parseIp: IpParser) {
    forall t: Text :: Every(IsIpv4Byte, t) && parseIp(t).Some? ==> IsIpv4(t)
  }

  /**
   * The inside of an address literal: a dotted quad, or a five-byte tag that begins with
   * an I followed by an IPv6 address.
   */
  ghost predicate SpellsLiteral(parseIp: IpParser, form: Text, domain: Text, ip: Ip) {
    || (IsIpv4(form) && parseIp(form) == Some(ip) && domain == form)
    || (|form| >= 5 && (form[0] == 'I' || form[0] == 'i') && Every(IsIpv6Byte, form[5..])
        && parseIp(form[5..]) == Some(ip) && domain == ip.text)
  }

  /** Domain / address-literal */
  ghost predicate SpellsDomain(parseIp: IpParser, form: Text, domain: Text, ip: Option<Ip>) {
    match ip
    case None => IsDomain(form) && domain == form
    case Some(v) => exists l :: form == ['['] + l + [']'] && SpellsLiteral(parseIp, l, domain, v)
  }
}
