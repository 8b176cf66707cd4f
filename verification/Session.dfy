/** One SMTP session: the command loop, its transaction and its authentication state. */
module Session {
  import opened Bytes
  import opened MessageIds
  import opened Rfc5321Grammar
  import S = Rfc5321Scan
  import opened Rfc5321Parser
  import opened Addresses

  const VERB_LENGTH := 16
  const MAX_UNRECOGNIZED := 5
  const LIMIT_PATH := 256
  const LIMIT_LOCAL := 128
  const LIMIT_DOMAIN := 255
  const LIMIT_RECIPIENTS := 100

  const NOBODY := Address([], [], [], [], false, false, None)

  // ------------------------------------------------------------ environment

  /** What the session reads from its configuration, and library functions it calls. */
  datatype Config = Config(
    hostname: Text, hasAuth: bool, alwaysTls: bool, startTls: bool, xclient: bool, maxSize: int,
    allowsHost: Text -> bool, parseIp: IpParser,
    fields: Text -> seq<Text>, base64: Text -> Option<Text>)

  datatype Read = Line(text: Text) | Eof | Timeout | TooLong | Broken

  datatype Verdict = Accepts(tenant: Option<Text>) | Denies | Errors

  datatype Handshake = NoTlsConfig | Upgraded | Failed

  /** Everything that can happen in one turn of the loop; a reply of None is a failed flush or read. */
  datatype World = World(
    read: Read, shutting: bool, replies: nat -> Option<Text>, verify: (Text, Text, Text) -> Verdict,
    rcptOk: bool, size: int, dataOk: bool, code: int, tls: Handshake, flushed: bool)

  // ---------------------------------------------------------------- commands

  datatype Verb =
    | HELO | EHLO | AUTH | HELP | XCLIENT | MAIL | RCPT | RSET | VRFY | NOOP | QUIT | DATA | STARTTLS | Unknown

  function UpperByte(c: byte): byte { if 'a' <= c <= 'z' then (c as int - 32) as char else c }

  function Upper(s: Text): (r: Text)
    ensures |r| == |s|
  {
    seq(|s|, i requires 0 <= i < |s| => UpperByte(s[i]))
  }

  /** The first match on the upper-cased head of the line. */
  function VerbOf(cfg: Config, line: Text): Verb {
    var cmd := Upper(line[..if |line| > VERB_LENGTH then VERB_LENGTH else |line|]);
    if HasPrefix(cmd, "HELO") then HELO
    else if HasPrefix(cmd, "EHLO") then EHLO
    else if HasPrefix(cmd, "AUTH") then AUTH
    else if HasPrefix(cmd, "HELP") then HELP
    else if cfg.xclient && HasPrefix(cmd, "XCLIENT") then XCLIENT
    else if HasPrefix(cmd, "MAIL FROM:") then MAIL
    else if HasPrefix(cmd, "RCPT TO:") then RCPT
    else if HasPrefix(cmd, "RSET") then RSET
    else if HasPrefix(cmd, "VRFY") then VRFY
    else if HasPrefix(cmd, "NOOP") then NOOP
    else if HasPrefix(cmd, "QUIT") then QUIT
    else if HasPrefix(cmd, "DATA") then DATA
    else if cfg.startTls && HasPrefix(cmd, "STARTTLS") then STARTTLS
    else Unknown
  }

  /** The first 16 bytes of a line in upper case begin with the word exactly if the line does, in any case. */
  lemma UpperPrefix(line: Text, word: Text)
    requires |word| <= VERB_LENGTH && forall k :: 0 <= k < |word| ==> !('a' <= word[k] <= 'z')
    ensures HasPrefix(Upper(line[..if |line| > VERB_LENGTH then VERB_LENGTH else |line|]), word)
        <==> BeginsAnyCase(line, word)
  {
    var cmd := Upper(line[..if |line| > VERB_LENGTH then VERB_LENGTH else |line|]);
    if HasPrefix(cmd, word) {
      forall k | 0 <= k < |word| ensures EitherCase(line[k], word[k]) {
        assert cmd[k] == word[k];
      }
    }
    if BeginsAnyCase(line, word) {
      forall k | 0 <= k < |word| ensures cmd[k] == word[k] {
        assert EitherCase(line[k], word[k]);
      }
    }
  }

  lemma HeadOf(cmd: Text, word: Text)
    requires |word| >= 4
    ensures HasPrefix(cmd, word) ==>
              |cmd| >= 4 && cmd[0] == word[0] && cmd[1] == word[1] && cmd[2] == word[2] && cmd[3] == word[3]
  {
  }

  /** Which bytes at the start of a line, in letters of any case, are which command. */
  lemma VerbTable(cfg: Config, line: Text)
    ensures VerbOf(cfg, line) == HELO <==> BeginsAnyCase(line, "HELO")
    ensures VerbOf(cfg, line) == EHLO <==> BeginsAnyCase(line, "EHLO")
    ensures VerbOf(cfg, line) == AUTH <==> BeginsAnyCase(line, "AUTH")
    ensures VerbOf(cfg, line) == HELP <==> BeginsAnyCase(line, "HELP")
    ensures VerbOf(cfg, line) == XCLIENT <==> cfg.xclient && BeginsAnyCase(line, "XCLIENT")
    ensures VerbOf(cfg, line) == MAIL <==> BeginsAnyCase(line, "MAIL FROM:")
    ensures VerbOf(cfg, line) == RCPT <==> BeginsAnyCase(line, "RCPT TO:")
    ensures VerbOf(cfg, line) == RSET <==> BeginsAnyCase(line, "RSET")
    ensures VerbOf(cfg, line) == VRFY <==> BeginsAnyCase(line, "VRFY")
    ensures VerbOf(cfg, line) == NOOP <==> BeginsAnyCase(line, "NOOP")
    ensures VerbOf(cfg, line) == QUIT <==> BeginsAnyCase(line, "QUIT")
    ensures VerbOf(cfg, line) == DATA <==> BeginsAnyCase(line, "DATA")
    ensures VerbOf(cfg, line) == STARTTLS <==> cfg.startTls && BeginsAnyCase(line, "STARTTLS")
  {
    hide Upper, BeginsAnyCase, HasPrefix;
    var cmd := Upper(line[..if |line| > VERB_LENGTH then VERB_LENGTH else |line|]);
    UpperPrefix(line, "HELO");
    HeadOf(cmd, "HELO");
    UpperPrefix(line, "EHLO");
    HeadOf(cmd, "EHLO");
    UpperPrefix(line, "AUTH");
    HeadOf(cmd, "AUTH");
    UpperPrefix(line, "HELP");
    HeadOf(cmd, "HELP");
    UpperPrefix(line, "XCLIENT");
    HeadOf(cmd, "XCLIENT");
    UpperPrefix(line, "MAIL FROM:");
    HeadOf(cmd, "MAIL FROM:");
    UpperPrefix(line, "RCPT TO:");
    HeadOf(cmd, "RCPT TO:");
    UpperPrefix(line, "RSET");
    HeadOf(cmd, "RSET");
    UpperPrefix(line, "VRFY");
    HeadOf(cmd, "VRFY");
    UpperPrefix(line, "NOOP");
    HeadOf(cmd, "NOOP");
    UpperPrefix(line, "QUIT");
    HeadOf(cmd, "QUIT");
    UpperPrefix(line, "DATA");
    HeadOf(cmd, "DATA");
    UpperPrefix(line, "STARTTLS");
    HeadOf(cmd, "STARTTLS");
  }

  function From(line: Text, k: nat): Text { if k <= |line| then line[k..] else [] }

  lemma VerbLength(cfg: Config, line: Text)
    ensures VerbOf(cfg, line) == HELO || VerbOf(cfg, line) == EHLO ==> |line| >= 4
    ensures VerbOf(cfg, line) == MAIL ==> |line| >= 10
    ensures VerbOf(cfg, line) == RCPT ==> |line| >= 8
  {
    hide Upper;
  }

  /** The address a path argument names, if it is accepted. */
  function PathAddress(arg: Text, c: S.Command): Option<Address> {
    if |arg| > LIMIT_PATH || c.out.Fail? then None
    else if c.reading.nullPath then Some(NOBODY)
    else if |c.reading.local| > LIMIT_LOCAL || |c.reading.domain| > LIMIT_DOMAIN then None
    else Some(OfReading(c.reading))
  }

  function SenderOf(cfg: Config, line: Text): Option<Address> {
    PathAddress(From(line, 10), S.MailFrom(cfg.parseIp, From(line, 10)))
  }

  /** A bare postmaster gets the host name of the server. */
  function WithDefaultHost(cfg: Config, a: Address): Address {
    if a.host == [] && a.IsPostmaster() then a.(host := cfg.hostname) else a
  }

  function RecipientOf(cfg: Config, line: Text): Option<Address> {
    var a := PathAddress(From(line, 8), S.RcptTo(cfg.parseIp, From(line, 8)));
    if a.None? then None else Some(WithDefaultHost(cfg, a.value))
  }

  predicate Allowed(cfg: Config, a: Address) {
    cfg.allowsHost(if a.ip.Some? then ['['] + a.ip.value.text + [']'] else a.host)
  }

  // --------------------------------------------- what the commands mean

  /** The address a MAIL or RCPT of a printed address is about. */
  function Named(a: Address): Address { Address(a.user, a.host, [], [], false, a.quoted, a.ip) }

  ghost predicate Fits(cfg: Config, a: Address) {
    && IpContract(cfg.parseIp) && LocalPrintable(a) && HostPrintable(cfg.parseIp, a)
    && |a.Printed()| + 2 <= 256 && |a.user| <= 128 && |a.host| <= 255
  }

  /** "MAIL FROM:" in any case, and a printed address in angle brackets: the sender is that address. */
  lemma MailLine(cfg: Config, word: Text, a: Address)
    requires |word| == 10 && BeginsAnyCase(word, "MAIL FROM:") && Fits(cfg, a)
    ensures VerbOf(cfg, word + Path(a)) == MAIL && SenderOf(cfg, word + Path(a)) == Some(Named(a))
  {
    hide LocalPrintable, HostPrintable, S.MailFrom, VerbOf, IpContract;
    var line := word + Path(a);
    VerbTable(cfg, line);
    assert line[10..] == Path(a);
    RoundTrip(cfg.parseIp, a);
  }

  /** "RCPT TO:" likewise, but for a local part that begins with "postmaster". */
  lemma RcptLine(cfg: Config, word: Text, a: Address)
    requires |word| == 8 && BeginsAnyCase(word, "RCPT TO:") && Fits(cfg, a)
    ensures VerbOf(cfg, word + Path(a)) == RCPT
    ensures RecipientOf(cfg, word + Path(a))
            == Some(if BeginsAnyCase(a.user, "postmaster") then Named(a).(user := "postmaster") else Named(a))
  {
    hide LocalPrintable, S.RcptTo, VerbOf, IpContract, SpellsDomain, BeginsAnyCase;
    var line := word + Path(a);
    BeginsLonger(word, Path(a), "RCPT TO:");
    VerbTable(cfg, line);
    assert line[8..] == Path(a);
    RcptRoundTrip(cfg.parseIp, a);
    HostSpells(cfg.parseIp, a);
  }

  lemma BeginsLonger(s: Text, t: Text, word: Text)
    requires BeginsAnyCase(s, word)
    ensures BeginsAnyCase(s + t, word)
  {
  }

  /** RCPT of the bare word, in any case, is for the postmaster of this host. */
  lemma PostmasterLine(cfg: Config, word: Text, name: Text)
    requires |word| == 8 && BeginsAnyCase(word, "RCPT TO:") && |name| == 10 && BeginsAnyCase(name, "postmaster")
    ensures RecipientOf(cfg, word + (['<'] + name + ['>']))
            == Some(Address("postmaster", cfg.hostname, [], [], false, false, None))
  {
    hide S.RcptTo, BeginsAnyCase;
    var line := word + (['<'] + name + ['>']);
    assert line[8..] == ['<'] + name + ['>'];
    BarePostmaster(cfg.parseIp, name);
  }

  /** An address is taken exactly when its path parses and nothing is longer than 256, 128 and 255 bytes. */
  lemma LimitsIff(arg: Text, c: S.Command)
    ensures PathAddress(arg, c).Some? <==>
              && |arg| <= 256 && c.out.Ok?
              && (c.reading.nullPath || (|c.reading.local| <= 128 && |c.reading.domain| <= 255))
  {
  }

  // ------------------------------------------------------------------- trace

  datatype Reply =
    | Accepted | Authenticated(user: Text, tenant: Option<Text>) | BadPath | Rejected

  /** What an observer of the session sees: replies to command lines, deliveries, TLS upgrades. */
  datatype Entry =
    | Said(line: Text, reply: Reply)
    | Delivered(sender: Address, rcpts: seq<Address>, authed: bool, tenant: Option<Text>, size: int, code: int)
    | DataFailed(readable: bool, size: int)
    | TlsStarted

  predicate Resets(cfg: Config, e: Entry) {
    match e
    case Said(line, reply) =>
      var v := VerbOf(cfg, line);
      reply == Accepted && (v == HELO || v == EHLO || v == RSET)
    case _ => true
  }

  function NextRecipients(cfg: Config, before: seq<Address>, e: Entry): seq<Address> {
    if Resets(cfg, e) then []
    else if e.Said? && e.reply == Accepted && VerbOf(cfg, e.line) == RCPT && RecipientOf(cfg, e.line).Some?
    then before + [RecipientOf(cfg, e.line).value]
    else before
  }

  /** The recipients answered 250 since the last reset; `start` are those the envelope came with. */
  function Recipients(cfg: Config, start: seq<Address>, tr: seq<Entry>): seq<Address> {
    if tr == [] then start
    else NextRecipients(cfg, Recipients(cfg, start, tr[..|tr| - 1]), tr[|tr| - 1])
  }

  function NextSender(cfg: Config, before: Address, e: Entry): Address {
    if Resets(cfg, e) then NOBODY
    else if e.Said? && VerbOf(cfg, e.line) == MAIL && e.reply == BadPath then NOBODY
    else if e.Said? && VerbOf(cfg, e.line) == MAIL && e.reply == Accepted && SenderOf(cfg, e.line).Some?
    then SenderOf(cfg, e.line).value
    else before
  }

  /** The sender of the last MAIL since the reset; a MAIL that fails to parse leaves none. */
  function Sender(cfg: Config, start: Address, tr: seq<Entry>): Address {
    if tr == [] then start else NextSender(cfg, Sender(cfg, start, tr[..|tr| - 1]), tr[|tr| - 1])
  }

  function NextLogin(before: Option<(Text, Option<Text>)>, e: Entry): Option<(Text, Option<Text>)> {
    if e == TlsStarted then None
    else if e.Said? && e.reply.Authenticated? then Some((e.reply.user, e.reply.tenant))
    else before
  }

  /** The user and tenant of the last successful AUTH since the last TLS upgrade. */
  function Login(tr: seq<Entry>): Option<(Text, Option<Text>)> {
    if tr == [] then None else NextLogin(Login(tr[..|tr| - 1]), tr[|tr| - 1])
  }

  lemma OneMore(cfg: Config, rs: seq<Address>, s: Address, tr: seq<Entry>, e: Entry)
    ensures Recipients(cfg, rs, tr + [e]) == NextRecipients(cfg, Recipients(cfg, rs, tr), e)
    ensures Sender(cfg, s, tr + [e]) == NextSender(cfg, Sender(cfg, s, tr), e)
    ensures Login(tr + [e]) == NextLogin(Login(tr), e)
    ensures Lawful(cfg, rs, s, tr) && EntryLawful(cfg, rs, s, tr, e) ==> Lawful(cfg, rs, s, tr + [e])
  {
    hide NextRecipients, NextSender, NextLogin, EntryLawful;
    assert (tr + [e])[..|tr + [e]| - 1] == tr && (tr + [e])[|tr + [e]| - 1] == e;
  }

  /** An accepted DATA: what comes next is the text of the message. */
  predicate StartsText(cfg: Config, e: Entry) { e.Said? && e.reply == Accepted && VerbOf(cfg, e.line) == DATA }

  predicate AwaitsText(cfg: Config, tr: seq<Entry>) { tr != [] && StartsText(cfg, tr[|tr| - 1]) }

  predicate Transacting(sender: Address) { sender.user != [] || sender.nullPath }

  /** What is promised of one more entry. A text follows an accepted DATA at once, and nothing else does. */
  ghost predicate EntryLawful(cfg: Config, rs: seq<Address>, s: Address, tr: seq<Entry>, e: Entry) {
    && (e.Delivered? || e.DataFailed? <==> AwaitsText(cfg, tr))
    && match e
       case Delivered(sender, rcpts, authed, tenant, size, _) =>
         && rcpts == Recipients(cfg, rs, tr)
         && 1 <= |rcpts| <= LIMIT_RECIPIENTS + 1
         && sender == Sender(cfg, s, tr)
         && authed == Login(tr).Some?
         && tenant == (if authed then Login(tr).value.1 else None)
         && size <= cfg.maxSize
         && forall a :: a in rcpts && a !in rs ==> Allowed(cfg, a) || authed
       case Said(line, reply) => SaidLawful(cfg, rs, s, tr, line, reply)
       case DataFailed(readable, size) => Recipients(cfg, rs, tr) != [] && (!readable || size > cfg.maxSize)
       case TlsStarted => true
  }

  ghost predicate SaidLawful(cfg: Config, rs: seq<Address>, s: Address, tr: seq<Entry>, line: Text, reply: Reply) {
    match VerbOf(cfg, line)
    case MAIL =>
      && !reply.Authenticated?
      && (reply == Accepted ==> SenderOf(cfg, line).Some? && !Transacting(Sender(cfg, s, tr)))
    case RCPT =>
      && !reply.Authenticated?
      && (reply == Accepted ==>
            && |Recipients(cfg, rs, tr)| <= LIMIT_RECIPIENTS
            && RecipientOf(cfg, line).Some?
            && (Allowed(cfg, RecipientOf(cfg, line).value) || Login(tr).Some?))
    case DATA => !reply.Authenticated? && (reply == Accepted ==> Recipients(cfg, rs, tr) != [])
    case AUTH =>
      reply.Authenticated? ==> cfg.hasAuth && Login(tr).None? && !Transacting(Sender(cfg, s, tr))
    case _ => !reply.Authenticated?
  }

  ghost predicate Lawful(cfg: Config, rs: seq<Address>, s: Address, tr: seq<Entry>) {
    tr == [] || (Lawful(cfg, rs, s, tr[..|tr| - 1]) && EntryLawful(cfg, rs, s, tr[..|tr| - 1], tr[|tr| - 1]))
  }

  /** Every recipient collected is one the session started with, on an allowed host, or added while logged in. */
  ghost predicate Covered(cfg: Config, rs: seq<Address>, tr: seq<Entry>) {
    forall a :: a in Recipients(cfg, rs, tr) && a !in rs ==> Allowed(cfg, a) || Login(tr).Some?
  }

  lemma {:induction false} LawfulCovers(cfg: Config, rs: seq<Address>, s: Address, tr: seq<Entry>)
    requires Lawful(cfg, rs, s, tr) && |rs| <= 101
    ensures Covered(cfg, rs, tr) && |Recipients(cfg, rs, tr)| <= 101
    decreases |tr|
  {
    hide VerbOf, RecipientOf, SenderOf, Allowed, Sender;
    if tr != [] {
      LawfulCovers(cfg, rs, s, tr[..|tr| - 1]);
    }
  }

  lemma {:induction false} DeliveryIsLawful(cfg: Config, rs: seq<Address>, s: Address, tr: seq<Entry>, i: nat)
    requires Lawful(cfg, rs, s, tr) && i < |tr|
    ensures Lawful(cfg, rs, s, tr[..i]) && EntryLawful(cfg, rs, s, tr[..i], tr[i])
    decreases |tr|
  {
    hide EntryLawful;
    if i < |tr| - 1 {
      assert tr[..|tr| - 1][..i] == tr[..i];
      DeliveryIsLawful(cfg, rs, s, tr[..|tr| - 1], i);
    }
  }

  /**
   * The recipient was answered 250 at j and nothing was reset since; it is on an allowed host, or
   * the login of that moment is still the login now.
   */
  ghost predicate AcceptedAt(cfg: Config, tr: seq<Entry>, j: nat, a: Address) {
    && j < |tr| && tr[j].Said? && tr[j].reply == Accepted
    && VerbOf(cfg, tr[j].line) == RCPT && RecipientOf(cfg, tr[j].line) == Some(a)
    && (forall k :: j < k < |tr| ==> !Resets(cfg, tr[k]))
    && (Allowed(cfg, a) || (Login(tr[..j]).Some? && Login(tr) == Login(tr[..j])))
  }

  lemma AcceptedStill(cfg: Config, rs: seq<Address>, s: Address, tr: seq<Entry>, e: Entry, j: nat, a: Address)
    requires AcceptedAt(cfg, tr, j, a) && EntryLawful(cfg, rs, s, tr, e) && !Resets(cfg, e)
    ensures AcceptedAt(cfg, tr + [e], j, a)
  {
    hide VerbOf, RecipientOf, SenderOf, Allowed, Sender, Recipients;
    var more := tr + [e];
    assert more[..j] == tr[..j] && more[..|more| - 1] == tr;
    assert forall k :: j < k < |more| ==> !Resets(cfg, more[k]);
    assert Login(more) == NextLogin(Login(tr), e);
  }

  /** Each recipient that the session did not start with was accepted since the last reset. */
  lemma {:induction false} WasAccepted(cfg: Config, rs: seq<Address>, s: Address, tr: seq<Entry>, a: Address)
    returns (j: nat)
    requires Lawful(cfg, rs, s, tr) && a in Recipients(cfg, rs, tr) && a !in rs
    ensures AcceptedAt(cfg, tr, j, a)
    decreases |tr|
  {
    hide VerbOf, RecipientOf, SenderOf, Allowed, Sender, Resets, EntryLawful, AcceptedAt;
    var front, e := tr[..|tr| - 1], tr[|tr| - 1];
    assert front + [e] == tr;
    if a in Recipients(cfg, rs, front) {
      j := WasAccepted(cfg, rs, s, front, a);
      AcceptedStill(cfg, rs, s, front, e, j, a);
    } else {
      j := |front|;
      AcceptedJustNow(cfg, rs, s, front, e, a);
    }
  }

  lemma AcceptedJustNow(cfg: Config, rs: seq<Address>, s: Address, tr: seq<Entry>, e: Entry, a: Address)
    requires EntryLawful(cfg, rs, s, tr, e) && a !in Recipients(cfg, rs, tr)
    requires a in NextRecipients(cfg, Recipients(cfg, rs, tr), e)
    ensures AcceptedAt(cfg, tr + [e], |tr|, a)
  {
    hide VerbOf, RecipientOf, SenderOf, Allowed, Sender, Recipients;
    var more := tr + [e];
    assert more[..|more| - 1] == tr;
    assert Login(more) == NextLogin(Login(tr), e);
  }

  /**
   * The main property: what a session delivers is, in order, what it answered 250 since the last
   * reset, for the sender of that transaction, and under the login of that moment. A recipient off
   * the allowed hosts was accepted under the same login.
   */
  lemma Conservation(f: Session, i: nat)
    requires f.Valid() && i < |f.trace| && f.trace[i].Delivered?
    ensures var e, before := f.trace[i], f.trace[..i];
            && e.rcpts == Recipients(f.cfg, f.rs, before) && e.sender == Sender(f.cfg, f.s, before)
            && 1 <= |e.rcpts| <= 101
            && e.authed == Login(before).Some? && (e.authed ==> e.tenant == Login(before).value.1)
            && forall a :: a in e.rcpts && a !in f.rs ==> exists j :: AcceptedAt(f.cfg, before, j, a)
  {
    hide VerbOf, RecipientOf, SenderOf, Allowed, Sender, Recipients, Login, Lawful, AcceptedAt;
    DeliveryIsLawful(f.cfg, f.rs, f.s, f.trace, i);
    var before := f.trace[..i];
    forall a | a in f.trace[i].rcpts && a !in f.rs ensures exists j :: AcceptedAt(f.cfg, before, j, a) {
      var j := WasAccepted(f.cfg, f.rs, f.s, before, a);
    }
  }

  /**
   * An envelope that comes back from the pool with recipients of an earlier session delivers to
   * them as well, until the first reset; after one, where the session started is forgotten.
   */
  lemma {:induction false} StartForgottenIff(cfg: Config, rs: seq<Address>, tr: seq<Entry>)
    requires rs != []
    ensures (exists k :: 0 <= k < |tr| && Resets(cfg, tr[k])) ==>
              Recipients(cfg, rs, tr) == Recipients(cfg, [], tr)
    ensures !(exists k :: 0 <= k < |tr| && Resets(cfg, tr[k])) ==>
              Recipients(cfg, rs, tr) == rs + Recipients(cfg, [], tr)
    decreases |tr|
  {
    hide VerbOf, RecipientOf, Resets;
    if tr == [] {
      assert rs + [] == rs;
    } else {
      var front, e := tr[..|tr| - 1], tr[|tr| - 1];
      StartForgottenIff(cfg, rs, front);
      if k :| 0 <= k < |front| && Resets(cfg, front[k]) {
        assert tr[k] == front[k];
      } else if !Resets(cfg, e) {
        assert forall k :: 0 <= k < |front| ==> tr[k] == front[k];
        Append(rs, Recipients(cfg, [], front), cfg, e);
      }
    }
  }

  lemma Append(rs: seq<Address>, more: seq<Address>, cfg: Config, e: Entry)
    ensures forall a: Address :: rs + (more + [a]) == (rs + more) + [a]
  {
  }

  /** A MAIL starts a transaction exactly when its path has a local part; "<>" and `""@host` start none. */
  lemma MailStartsIff(cfg: Config, s: Address, tr: seq<Entry>, line: Text)
    requires VerbOf(cfg, line) == MAIL && SenderOf(cfg, line).Some?
    ensures Transacting(Sender(cfg, s, tr + [Said(line, Accepted)])) <==> SenderOf(cfg, line).value.user != []
  {
    hide VerbOf, S.MailFrom;
    OneMore(cfg, [], s, tr, Said(line, Accepted));
  }

  // --------------------------------------------------------- authentication

  datatype Credentials = Credentials(identity: Text, username: Text, password: Text, killed: bool)

  const NoCredentials := Credentials([], [], [], false)

  function Trimmed64(s: Text): Text { Trim(IsSpace, s) }

  /** The credentials a PLAIN dialogue ends with; giving up or failing leaves empty ones. */
  function PlainDialogue(cfg: Config, fields: seq<Text>, replies: nat -> Option<Text>): Credentials {
    var initial := if |fields| >= 3 then fields[2] else [];
    if initial != [] && initial != "=" then PlainCredentials(cfg, initial)
    else if replies(0).None? then NoCredentials.(killed := true)
    else
      var response := Trimmed64(replies(0).value);
      if response == "*" then NoCredentials else PlainCredentials(cfg, response)
  }

  function PlainCredentials(cfg: Config, response: Text): Credentials {
    match cfg.base64(response)
    case None => NoCredentials
    case Some(decoded) =>
      match PlainParts(decoded)
      case None => NoCredentials
      case Some((identity, username, password)) => Credentials(identity, username, password, false)
  }

  /** The text cut at every NUL. */
  function SplitNul(s: Text): (parts: seq<Text>)
    ensures parts != []
  {
    if s == [] then [[]]
    else
      var front := SplitNul(s[..|s| - 1]);
      var c := s[|s| - 1];
      if c == '\0' then front + [[]] else front[..|front| - 1] + [front[|front| - 1] + [c]]
  }

  /** The last three of the parts; there must be three, and the user name must not be empty. */
  function PlainParts(decoded: Text): Option<(Text, Text, Text)> {
    var parts := SplitNul(decoded);
    var n := |parts|;
    if n < 3 || parts[n - 2] == [] then None else Some((parts[n - 3], parts[n - 2], parts[n - 1]))
  }

  lemma {:induction false} SplitLastPart(s: Text, part: Text)
    requires '\0' !in part
    ensures SplitNul(s + ['\0'] + part) == SplitNul(s) + [part]
    decreases |part|
  {
    var t := s + ['\0'] + part;
    if part == [] {
      assert t[..|t| - 1] == s;
    } else {
      var front := part[..|part| - 1];
      assert t[..|t| - 1] == s + ['\0'] + front;
      SplitLastPart(s, front);
      assert front + [part[|part| - 1]] == part;
    }
  }

  lemma {:induction false} SplitFirstPart(part: Text)
    requires '\0' !in part
    ensures SplitNul(part) == [part]
    decreases |part|
  {
    if part != [] {
      SplitFirstPart(part[..|part| - 1]);
      assert part[..|part| - 1] + [part[|part| - 1]] == part;
    }
  }

  /**
   * A decoded PLAIN response is identity, NUL, user name, NUL, password; whatever comes before the
   * identity and ends in a NUL is passed over.
   */
  lemma PlainResponse(cfg: Config, response: Text, before: Text, identity: Text, username: Text, password: Text)
    requires '\0' !in identity && '\0' !in username && '\0' !in password
    requires before == [] || before[|before| - 1] == '\0'
    requires cfg.base64(response) == Some(before + identity + ['\0'] + username + ['\0'] + password)
    ensures PlainCredentials(cfg, response)
            == if username == [] then NoCredentials else Credentials(identity, username, password, false)
  {
    hide SplitNul;
    var head := before + identity;
    SplitLastPart(head + ['\0'] + username, password);
    SplitLastPart(head, username);
    if before == [] {
      SplitFirstPart(identity);
      assert head == identity;
    } else {
      assert head == before[..|before| - 1] + ['\0'] + identity;
      SplitLastPart(before[..|before| - 1], identity);
    }
  }

  lemma {:induction false} SplitCounts(s: Text)
    ensures |SplitNul(s)| == Nuls(s) + 1
    decreases |s|
  {
    if s != [] {
      SplitCounts(s[..|s| - 1]);
    }
  }

  function Nuls(s: Text): nat {
    if s == [] then 0 else Nuls(s[..|s| - 1]) + if s[|s| - 1] == '\0' then 1 else 0
  }

  /** With fewer than two NULs, or when it is no base64, a PLAIN response leaves nothing. */
  lemma BadPlainResponse(cfg: Config, response: Text)
    requires cfg.base64(response).Some? ==> Nuls(cfg.base64(response).value) < 2
    ensures PlainCredentials(cfg, response) == NoCredentials
  {
    if cfg.base64(response).Some? {
      SplitCounts(cfg.base64(response).value);
    }
  }

  /** The same for LOGIN: a user name that was read is kept when the password fails. */
  function LoginDialogue(cfg: Config, fields: seq<Text>, replies: nat -> Option<Text>): Credentials {
    var initial := if |fields| >= 3 then fields[2] else [];
    if initial != [] then LoginPassword(cfg, initial, replies(0))
    else if replies(0).None? then NoCredentials.(killed := true)
    else
      var user := Trimmed64(replies(0).value);
      if user == "*" then NoCredentials else LoginPassword(cfg, user, replies(1))
  }

  function LoginPassword(cfg: Config, user: Text, reply: Option<Text>): Credentials {
    match cfg.base64(user)
    case None => NoCredentials
    case Some(username) =>
      if reply.None? then Credentials([], username, [], true)
      else
        var password := Trimmed64(reply.value);
        if password == "*" || cfg.base64(password).None? then Credentials([], username, [], false)
        else Credentials([], username, cfg.base64(password).value, false)
  }

  /** What the authenticator is asked: it is asked also when the dialogue was cancelled or failed. */
  function Dialogue(cfg: Config, fields: seq<Text>, replies: nat -> Option<Text>): Credentials {
    if |fields| < 2 then NoCredentials
    else if Upper(fields[1]) == "PLAIN" then PlainDialogue(cfg, fields, replies)
    else if Upper(fields[1]) == "LOGIN" then LoginDialogue(cfg, fields, replies)
    else NoCredentials
  }

  /**
   * A client that cancels an AUTH with "*", or names no known mechanism, is nevertheless judged:
   * it is then authenticated exactly when the authenticator takes the empty password.
   */
  lemma CancelledIsStillAsked(cfg: Config, fields: seq<Text>, replies: nat -> Option<Text>)
    requires |fields| == 2
    ensures var mech := Upper(fields[1]); var c := Dialogue(cfg, fields, replies);
            && (mech == "PLAIN" && replies(0).Some? && Trimmed64(replies(0).value) == "*" ==> c == NoCredentials)
            && (mech == "LOGIN" && replies(0).Some? && Trimmed64(replies(0).value) == "*" ==> c == NoCredentials)
            && (mech == "LOGIN" && replies(0).Some? && replies(1).Some? && Trimmed64(replies(1).value) == "*" ==>
                  c.identity == [] && c.password == [] && !c.killed
                  && (c.username == [] || cfg.base64(Trimmed64(replies(0).value)) == Some(c.username)))
            && (mech != "PLAIN" && mech != "LOGIN" ==> c == NoCredentials)
  {
    hide Trimmed64, Upper;
  }

  /** What PLAIN and LOGIN ask the authenticator when nothing goes wrong. */
  lemma DialogueAsks(cfg: Config, fields: seq<Text>, replies: nat -> Option<Text>)
    requires |fields| >= 2
    ensures BeginsAnyCase(fields[1], "PLAIN") && |fields[1]| == 5
            && |fields| >= 3 && fields[2] != [] && fields[2] != "=" ==>
              Dialogue(cfg, fields, replies) == PlainCredentials(cfg, fields[2])
    ensures BeginsAnyCase(fields[1], "PLAIN") && |fields[1]| == 5
            && (|fields| == 2 || fields[2] == [] || fields[2] == "=")
            && replies(0).Some? && Trimmed64(replies(0).value) != "*" ==>
              Dialogue(cfg, fields, replies) == PlainCredentials(cfg, Trimmed64(replies(0).value))
    ensures BeginsAnyCase(fields[1], "LOGIN") && |fields[1]| == 5 && (|fields| == 2 || fields[2] == [])
            && replies(0).Some? && replies(1).Some?
            && Trimmed64(replies(0).value) != "*" && Trimmed64(replies(1).value) != "*" ==>
              var user, password := cfg.base64(Trimmed64(replies(0).value)), cfg.base64(Trimmed64(replies(1).value));
              user.Some? && password.Some? ==>
                Dialogue(cfg, fields, replies) == Credentials([], user.value, password.value, false)
    ensures BeginsAnyCase(fields[1], "LOGIN") && |fields[1]| == 5 && |fields| >= 3 && fields[2] != []
            && replies(0).Some? && Trimmed64(replies(0).value) != "*" ==>
              var user, password := cfg.base64(fields[2]), cfg.base64(Trimmed64(replies(0).value));
              user.Some? && password.Some? ==>
                Dialogue(cfg, fields, replies) == Credentials([], user.value, password.value, false)
  {
    hide Trimmed64, PlainCredentials;
    MechanismName(fields[1], "PLAIN");
    MechanismName(fields[1], "LOGIN");
  }

  lemma MechanismName(mech: Text, word: Text)
    requires forall k :: 0 <= k < |word| ==> 'A' <= word[k] <= 'Z'
    ensures Upper(mech) == word <==> BeginsAnyCase(mech, word) && |mech| == |word|
  {
    if BeginsAnyCase(mech, word) && |mech| == |word| {
      forall k | 0 <= k < |word| ensures Upper(mech)[k] == word[k] {
        assert EitherCase(mech[k], word[k]);
      }
    }
    if Upper(mech) == word {
      forall k | 0 <= k < |word| ensures EitherCase(mech[k], word[k]) {
        assert Upper(mech)[k] == word[k];
      }
    }
  }

  function Asked(w: World, c: Credentials): Verdict { w.verify(c.identity, c.username, c.password) }

  // ------------------------------------------------- the effect of one entry

  /** What an entry leaves of recipients, sender and login, and that it may come. */
  ghost predicate Leaves(cfg: Config, rs: seq<Address>, s: Address, tr: seq<Entry>, e: Entry,
                         rcpts: seq<Address>, sender: Address, login: Option<(Text, Option<Text>)>) {
    && EntryLawful(cfg, rs, s, tr, e)
    && NextRecipients(cfg, Recipients(cfg, rs, tr), e) == rcpts
    && NextSender(cfg, Sender(cfg, s, tr), e) == sender
    && NextLogin(Login(tr), e) == login
  }

  lemma RefusedEntry(cfg: Config, rs: seq<Address>, s: Address, tr: seq<Entry>, line: Text)
    requires !AwaitsText(cfg, tr)
    ensures Leaves(cfg, rs, s, tr, Said(line, Rejected), Recipients(cfg, rs, tr), Sender(cfg, s, tr), Login(tr))
    ensures !StartsText(cfg, Said(line, Rejected))
  {
    hide VerbOf, Recipients, Sender, Login, AwaitsText;
  }

  /** Accepted commands that open, change or read no transaction; RSET, HELO and EHLO end one. */
  lemma PlainEntry(cfg: Config, rs: seq<Address>, s: Address, tr: seq<Entry>, line: Text)
    requires !AwaitsText(cfg, tr) && VerbOf(cfg, line) !in {MAIL, RCPT, AUTH}
    requires VerbOf(cfg, line) == DATA ==> Recipients(cfg, rs, tr) != []
    ensures var ends := VerbOf(cfg, line) in {HELO, EHLO, RSET};
            Leaves(cfg, rs, s, tr, Said(line, Accepted), if ends then [] else Recipients(cfg, rs, tr),
                   if ends then NOBODY else Sender(cfg, s, tr), Login(tr))
    ensures StartsText(cfg, Said(line, Accepted)) <==> VerbOf(cfg, line) == DATA
  {
    hide VerbOf, Recipients, Sender, Login, AwaitsText;
  }

  lemma MailEntry(cfg: Config, rs: seq<Address>, s: Address, tr: seq<Entry>, line: Text, reply: Reply)
    requires !AwaitsText(cfg, tr) && VerbOf(cfg, line) == MAIL && !Transacting(Sender(cfg, s, tr))
    requires reply == if SenderOf(cfg, line).Some? then Accepted else BadPath
    ensures Leaves(cfg, rs, s, tr, Said(line, reply), Recipients(cfg, rs, tr),
                   if SenderOf(cfg, line).Some? then SenderOf(cfg, line).value else NOBODY, Login(tr))
    ensures !StartsText(cfg, Said(line, reply))
  {
    hide VerbOf, Recipients, Sender, Login, AwaitsText, SenderOf, Transacting;
  }

  lemma RcptEntry(cfg: Config, rs: seq<Address>, s: Address, tr: seq<Entry>, line: Text)
    requires !AwaitsText(cfg, tr) && VerbOf(cfg, line) == RCPT && RecipientOf(cfg, line).Some?
    requires |Recipients(cfg, rs, tr)| <= LIMIT_RECIPIENTS
    requires Allowed(cfg, RecipientOf(cfg, line).value) || Login(tr).Some?
    ensures Leaves(cfg, rs, s, tr, Said(line, Accepted),
                   Recipients(cfg, rs, tr) + [RecipientOf(cfg, line).value], Sender(cfg, s, tr), Login(tr))
    ensures !StartsText(cfg, Said(line, Accepted))
  {
    hide VerbOf, Recipients, Sender, Login, AwaitsText, RecipientOf, Allowed;
  }

  lemma AuthEntry(cfg: Config, rs: seq<Address>, s: Address, tr: seq<Entry>, line: Text, user: Text,
                  tenant: Option<Text>)
    requires !AwaitsText(cfg, tr) && VerbOf(cfg, line) == AUTH && cfg.hasAuth && Login(tr).None?
    requires !Transacting(Sender(cfg, s, tr))
    ensures Leaves(cfg, rs, s, tr, Said(line, Authenticated(user, tenant)), Recipients(cfg, rs, tr),
                   Sender(cfg, s, tr), Some((user, tenant)))
    ensures !StartsText(cfg, Said(line, Authenticated(user, tenant)))
  {
    hide VerbOf, Recipients, Sender, Login, AwaitsText, Transacting;
  }

  lemma TextEntry(cfg: Config, rs: seq<Address>, s: Address, tr: seq<Entry>, e: Entry)
    requires AwaitsText(cfg, tr) && (e.Delivered? || e.DataFailed?) && EntryLawful(cfg, rs, s, tr, e)
    ensures Leaves(cfg, rs, s, tr, e, [], NOBODY, Login(tr)) && !StartsText(cfg, e)
  {
    hide EntryLawful, Recipients, Sender, Login, AwaitsText;
  }

  lemma TlsEntry(cfg: Config, rs: seq<Address>, s: Address, tr: seq<Entry>)
    requires !AwaitsText(cfg, tr)
    ensures Leaves(cfg, rs, s, tr, TlsStarted, [], NOBODY, None) && !StartsText(cfg, TlsStarted)
  {
    hide Recipients, Sender, Login, AwaitsText;
  }

  /** Recipients, sender and login after one more reply. */
  lemma AfterReply(cfg: Config, rs: seq<Address>, s: Address, tr: seq<Entry>, line: Text, reply: Reply)
    ensures var after, v := tr + [Said(line, reply)], VerbOf(cfg, line);
            var ends := reply == Accepted && v in {HELO, EHLO, RSET};
            && Recipients(cfg, rs, after)
               == (if ends then []
                   else if v == RCPT && reply == Accepted && RecipientOf(cfg, line).Some?
                   then Recipients(cfg, rs, tr) + [RecipientOf(cfg, line).value]
                   else Recipients(cfg, rs, tr))
            && Sender(cfg, s, after)
               == (if ends || (v == MAIL && reply == BadPath) then NOBODY
                   else if v == MAIL && reply == Accepted && SenderOf(cfg, line).Some? then SenderOf(cfg, line).value
                   else Sender(cfg, s, tr))
            && Login(after) == if reply.Authenticated? then Some((reply.user, reply.tenant)) else Login(tr)
  {
    hide VerbOf, RecipientOf, SenderOf, Recipients, Sender, Login, EntryLawful, Lawful;
    OneMore(cfg, rs, s, tr, Said(line, reply));
  }

  // ---------------------------------------------------------------- session

  datatype State = Greeting | Command | Data | StartTls | Shutdown

  function NameGiven(cfg: Config, line: Text, extended: bool): Option<Text> {
    if extended
    then var r := S.Ehlo(cfg.parseIp, From(line, 4)); if r.Some? then Some(r.value.0) else None
    else S.Helo(From(line, 4))
  }

  /** The answer to a command line of a session with these fields. */
  function ReplyTo(cfg: Config, line: Text, w: World, authed: bool, esmtp: bool, sender: Address, rcpts: seq<Address>)
    : Reply
  {
    match VerbOf(cfg, line)
    case HELO => if NameGiven(cfg, line, false).Some? then Accepted else Rejected
    case EHLO => if NameGiven(cfg, line, true).Some? then Accepted else Rejected
    case MAIL =>
      if Transacting(sender) then Rejected else if SenderOf(cfg, line).Some? then Accepted else BadPath
    case RCPT =>
      var to := RecipientOf(cfg, line);
      if |rcpts| <= LIMIT_RECIPIENTS && to.Some? && (Allowed(cfg, to.value) || authed) && w.rcptOk
      then Accepted else Rejected
    case AUTH =>
      var c := Dialogue(cfg, cfg.fields(line), w.replies);
      if MayAuth(cfg, line, authed, esmtp, sender) && Asked(w, c).Accepts?
      then Authenticated(c.username, Asked(w, c).tenant) else Rejected
    case DATA => if rcpts == [] then Rejected else Accepted
    case Unknown => Rejected
    case _ => Accepted
  }

  /** Whether an AUTH gets as far as the dialogue. */
  predicate MayAuth(cfg: Config, line: Text, authed: bool, esmtp: bool, sender: Address) {
    cfg.hasAuth && !authed && esmtp && !Transacting(sender) && |cfg.fields(line)| >= 2
  }

  /** The command that ends a session, by itself or as one too many. */
  predicate Kills(cfg: Config, line: Text, w: World, errors: nat, authed: bool, esmtp: bool, sender: Address) {
    match VerbOf(cfg, line)
    case QUIT => true
    case Unknown => errors + 1 >= MAX_UNRECOGNIZED
    case AUTH => MayAuth(cfg, line, authed, esmtp, sender) && Dialogue(cfg, cfg.fields(line), w.replies).killed
    case _ => false
  }

  lemma HelloReply(cfg: Config, line: Text, w: World, errors: nat, authed: bool, esmtp: bool, sender: Address,
                   rcpts: seq<Address>, extended: bool)
    requires VerbOf(cfg, line) == if extended then EHLO else HELO
    ensures ReplyTo(cfg, line, w, authed, esmtp, sender, rcpts)
            == if NameGiven(cfg, line, extended).Some? then Accepted else Rejected
    ensures !Kills(cfg, line, w, errors, authed, esmtp, sender)
  {
    hide VerbOf, Dialogue, NameGiven, SenderOf, RecipientOf, Transacting, Allowed, MayAuth, Asked;
  }

  lemma MailReply(cfg: Config, line: Text, w: World, errors: nat, authed: bool, esmtp: bool, sender: Address,
                  rcpts: seq<Address>)
    requires VerbOf(cfg, line) == MAIL
    ensures ReplyTo(cfg, line, w, authed, esmtp, sender, rcpts)
            == if Transacting(sender) then Rejected else if SenderOf(cfg, line).Some? then Accepted else BadPath
    ensures !Kills(cfg, line, w, errors, authed, esmtp, sender)
  {
    hide VerbOf, Dialogue, NameGiven, SenderOf, RecipientOf, Transacting, Allowed, MayAuth, Asked;
  }

  lemma RcptReply(cfg: Config, line: Text, w: World, errors: nat, authed: bool, esmtp: bool, sender: Address,
                  rcpts: seq<Address>)
    requires VerbOf(cfg, line) == RCPT
    ensures ReplyTo(cfg, line, w, authed, esmtp, sender, rcpts)
            == if |rcpts| <= 100 && RecipientOf(cfg, line).Some? && w.rcptOk
                  && (Allowed(cfg, RecipientOf(cfg, line).value) || authed)
               then Accepted else Rejected
    ensures !Kills(cfg, line, w, errors, authed, esmtp, sender)
  {
    hide VerbOf, Dialogue, NameGiven, SenderOf, RecipientOf, Transacting, Allowed, MayAuth, Asked;
  }

  lemma SimpleReply(cfg: Config, line: Text, w: World, errors: nat, authed: bool, esmtp: bool, sender: Address,
                    rcpts: seq<Address>)
    requires VerbOf(cfg, line) !in {HELO, EHLO, AUTH, MAIL, RCPT}
    ensures ReplyTo(cfg, line, w, authed, esmtp, sender, rcpts)
            == if VerbOf(cfg, line) == Unknown || (VerbOf(cfg, line) == DATA && rcpts == []) then Rejected else Accepted
    ensures Kills(cfg, line, w, errors, authed, esmtp, sender)
        <==> VerbOf(cfg, line) == QUIT || (VerbOf(cfg, line) == Unknown && errors + 1 >= 5)
  {
    hide VerbOf, Dialogue, NameGiven, SenderOf, RecipientOf, Transacting, Allowed, MayAuth, Asked;
  }

  lemma ReplyIs(cfg: Config, line: Text, w: World, authed: bool, esmtp: bool, sender: Address, rcpts: seq<Address>)
    ensures var reply, v := ReplyTo(cfg, line, w, authed, esmtp, sender, rcpts), VerbOf(cfg, line);
            && (reply == Accepted && v == RCPT ==> RecipientOf(cfg, line).Some?)
            && (reply == Accepted && v == MAIL ==> SenderOf(cfg, line).Some?)
            && (reply.Authenticated? ==> !authed)
  {
    hide VerbOf, Dialogue, NameGiven, SenderOf, RecipientOf, Transacting, Allowed, Asked;
  }

  lemma AuthReply(cfg: Config, line: Text, w: World, errors: nat, authed: bool, esmtp: bool, sender: Address,
                  rcpts: seq<Address>)
    requires VerbOf(cfg, line) == AUTH
    ensures var reply := ReplyTo(cfg, line, w, authed, esmtp, sender, rcpts);
            var kills := Kills(cfg, line, w, errors, authed, esmtp, sender);
            if !cfg.hasAuth || authed || !esmtp || Transacting(sender) || |cfg.fields(line)| < 2
            then reply == Rejected && !kills
            else
              var c := Dialogue(cfg, cfg.fields(line), w.replies);
              var v := Asked(w, c);
              reply == (if v.Accepts? then Authenticated(c.username, v.tenant) else Rejected) && kills == c.killed
  {
    hide VerbOf, Dialogue, Transacting, Asked;
  }

  class Session {
    const cfg: Config
    const parser: Parser
    /** What the pooled envelope holds when the session begins. */
    ghost const rs: seq<Address>
    ghost const s: Address

    var state: State
    var alive: bool
    var errors: nat
    var authed: bool
    var authUser: Text
    var authTenant: Option<Text>
    var esmtp: bool
    var tls: bool
    var helo: Text
    var mailFrom: Address
    var rcptTo: seq<Address>
    var messagesSent: nat
    ghost var trace: seq<Entry>

    ghost predicate Valid() reads this, parser {
      && parser.Ready() && parser.parseIp == cfg.parseIp
      && |rs| <= LIMIT_RECIPIENTS + 1
      && Lawful(cfg, rs, s, trace)
      && rcptTo == Recipients(cfg, rs, trace)
      && mailFrom == Sender(cfg, s, trace)
      && Login(trace) == (if authed then Some((authUser, authTenant)) else None)
      && (state == Data && alive <==> AwaitsText(cfg, trace))
      && (AwaitsText(cfg, trace) ==> rcptTo != [])
    }

    /** A client fresh from the pool, with TLS from the first byte when the server demands it. */
    constructor (cfg: Config, parser: Parser, mailFrom: Address, rcptTo: seq<Address>, handshake: Handshake)
      requires parser.Ready() && parser.parseIp == cfg.parseIp && |rcptTo| <= LIMIT_RECIPIENTS + 1
      ensures Valid() && rs == rcptTo && s == mailFrom && trace == [] && !authed
      ensures this.cfg == cfg && this.parser == parser
      ensures alive <==> !cfg.alwaysTls || handshake != Failed
      ensures tls <==> cfg.alwaysTls && handshake == Upgraded
    {
      this.cfg, this.parser, this.mailFrom, this.rcptTo := cfg, parser, mailFrom, rcptTo;
      this.rs, this.s, this.trace := rcptTo, mailFrom, [];
      state, errors, authed, authUser, authTenant := Greeting, 0, false, [], None;
      esmtp, helo, messagesSent := false, [], 0;
      tls := cfg.alwaysTls && handshake == Upgraded;
      alive := !(cfg.alwaysTls && handshake == Failed);
    }

    /** One more entry, which must be lawful and match the fields as they now stand. */
    ghost method Record(e: Entry)
      requires parser.Ready() && parser.parseIp == cfg.parseIp && |rs| <= LIMIT_RECIPIENTS + 1
      requires Lawful(cfg, rs, s, trace) && EntryLawful(cfg, rs, s, trace, e)
      requires rcptTo == NextRecipients(cfg, Recipients(cfg, rs, trace), e)
      requires mailFrom == NextSender(cfg, Sender(cfg, s, trace), e)
      requires (if authed then Some((authUser, authTenant)) else None) == NextLogin(Login(trace), e)
      requires (state == Data && alive <==> StartsText(cfg, e)) && (StartsText(cfg, e) ==> rcptTo != [])
      modifies `trace
      ensures Valid() && trace == old(trace) + [e]
    {
      hide Recipients, Sender, Login, EntryLawful, NextRecipients, NextSender, NextLogin, Lawful, StartsText;
      OneMore(cfg, rs, s, trace, e);
      trace := trace + [e];
    }

    /** A command that is refused, and changes nothing. */
    ghost method Reject(line: Text)
      requires Valid() && state == Command
      modifies `trace
      ensures Valid() && trace == old(trace) + [Said(line, Rejected)]
    {
      hide Recipients, Sender, Login, Lawful, EntryLawful, NextRecipients, NextSender, NextLogin, StartsText;
      RefusedEntry(cfg, rs, s, trace, line);
      Record(Said(line, Rejected));
    }

    method ResetTransaction()
      modifies `mailFrom, `rcptTo
      ensures mailFrom == NOBODY && rcptTo == []
    {
      mailFrom, rcptTo := NOBODY, [];
    }

    /** parsePath: the address of an accepted path, and the error of any other. */
    method ParsePath(arg: Text, isMail: bool) returns (a: Option<Address>)
      requires parser.Ready() && parser.parseIp == cfg.parseIp
      modifies parser
      ensures parser.Ready()
      ensures a == PathAddress(arg, if isMail then S.MailFrom(cfg.parseIp, arg) else S.RcptTo(cfg.parseIp, arg))
    {
      hide S.MailFrom, S.RcptTo;
      if |arg| > LIMIT_PATH {
        return None;
      }
      var out;
      if isMail {
        out := parser.MailFrom(arg);
      } else {
        out := parser.RcptTo(arg);
      }
      if out.Fail? {
        return None;
      }
      if parser.nullPath {
        return Some(NOBODY);
      }
      if |parser.localPart| > LIMIT_LOCAL || |parser.domain| > LIMIT_DOMAIN {
        return None;
      }
      return Some(Address(parser.localPart, parser.domain, parser.adl, parser.pathParams, parser.nullPath,
                          parser.localPartQuotes, parser.ip));
    }

    /** HELO: a new transaction and the name of the client. */
    method Hello(line: Text, extended: bool)
      requires Valid() && state == Command && VerbOf(cfg, line) == if extended then EHLO else HELO
      modifies `helo, `esmtp, `mailFrom, `rcptTo, `trace, parser
      ensures Valid()
      ensures var name := NameGiven(cfg, line, extended);
              && trace == old(trace) + [Said(line, if name.Some? then Accepted else Rejected)]
              && helo == (if name.Some? then name.value else old(helo))
              && esmtp == (old(esmtp) || (extended && name.Some?))
    {
      hide VerbOf, Recipients, Sender, Login, Lawful, EntryLawful, NextRecipients, NextSender, NextLogin, StartsText,
        AwaitsText, S.Helo, S.Ehlo;
      VerbLength(cfg, line);
      var out, name;
      if extended {
        var addr;
        out, name, addr := parser.Ehlo(line[4..]);
      } else {
        out, name := parser.Helo(line[4..]);
      }
      if out.Fail? {
        Reject(line);
        return;
      }
      helo, esmtp := name, esmtp || extended;
      PlainEntry(cfg, rs, s, trace, line);
      ResetTransaction();
      Record(Said(line, Accepted));
    }

    method Mail(line: Text)
      requires Valid() && state == Command && VerbOf(cfg, line) == MAIL
      modifies `mailFrom, `trace, parser
      ensures Valid()
      ensures trace == old(trace) + [Said(line, if Transacting(old(mailFrom)) then Rejected
                                                else if SenderOf(cfg, line).Some? then Accepted else BadPath)]
    {
      hide VerbOf, Recipients, Sender, Login, Lawful, EntryLawful, NextRecipients, NextSender, NextLogin, StartsText,
        AwaitsText, S.MailFrom, Transacting, PathAddress;
      VerbLength(cfg, line);
      if Transacting(mailFrom) {
        Reject(line);
        return;
      }
      var a := ParsePath(line[10..], true);
      MailEntry(cfg, rs, s, trace, line, if a.Some? then Accepted else BadPath);
      if a.None? {
        mailFrom := NOBODY;
        Record(Said(line, BadPath));
        return;
      }
      mailFrom := a.value;
      Record(Said(line, Accepted));
    }

    /** RCPT: the recipient stays only while the backend accepts it. */
    method Rcpt(line: Text, rcptOk: bool)
      requires Valid() && state == Command && VerbOf(cfg, line) == RCPT
      modifies `rcptTo, `trace, parser
      ensures Valid()
      ensures trace == old(trace) + [Said(line,
                if |old(rcptTo)| <= LIMIT_RECIPIENTS && RecipientOf(cfg, line).Some? && rcptOk
                   && (Allowed(cfg, RecipientOf(cfg, line).value) || authed)
                then Accepted else Rejected)]
    {
      hide VerbOf, Recipients, Sender, Login, Lawful, EntryLawful, NextRecipients, NextSender, NextLogin, StartsText,
        AwaitsText, S.RcptTo, PathAddress, WithDefaultHost, Allowed;
      VerbLength(cfg, line);
      if |rcptTo| > LIMIT_RECIPIENTS {
        Reject(line);
        return;
      }
      var parsed := ParsePath(line[8..], false);
      if parsed.None? {
        Reject(line);
        return;
      }
      var to := WithDefaultHost(cfg, parsed.value);
      if !Allowed(cfg, to) && !authed {
        Reject(line);
        return;
      }
      RcptEntry(cfg, rs, s, trace, line);
      rcptTo := rcptTo + [to];
      if !rcptOk {
        rcptTo := rcptTo[..|rcptTo| - 1];
        Reject(line);
        return;
      }
      Record(Said(line, Accepted));
    }

    /** The exchange of an AUTH; leaving it early, also by cancelling, only leaves fields empty. */
    method ReadCredentials(fields: seq<Text>, replies: nat -> Option<Text>)
      returns (identity: Text, username: Text, password: Text, killed: bool)
      requires |fields| >= 2
      ensures Credentials(identity, username, password, killed) == Dialogue(cfg, fields, replies)
    {
      identity, username, password, killed := [], [], [], false;
      var mech := Upper(fields[1]);
      var initial := if |fields| >= 3 then fields[2] else [];
      if mech == "PLAIN" {
        if initial == [] || initial == "=" {
          if replies(0).None? {
            killed := true;
            return;
          }
          initial := Trimmed64(replies(0).value);
          if initial == "*" {
            return;
          }
        }
        var decoded := cfg.base64(initial);
        var parts := if decoded.Some? then PlainParts(decoded.value) else None;
        if parts.Some? {
          identity, username, password := parts.value.0, parts.value.1, parts.value.2;
        }
      } else if mech == "LOGIN" {
        var read := 0;
        if initial == [] {
          if replies(0).None? {
            killed := true;
            return;
          }
          read := 1;
          initial := Trimmed64(replies(0).value);
          if initial == "*" {
            return;
          }
        }
        var user := cfg.base64(initial);
        if user.None? {
          return;
        }
        username := user.value;
        if replies(read).None? {
          killed := true;
          return;
        }
        var secret := Trimmed64(replies(read).value);
        if secret == "*" {
          return;
        }
        var decoded := cfg.base64(secret);
        if decoded.None? {
          return;
        }
        password := decoded.value;
      }
    }

    /** AUTH: whatever the dialogue left is put to the authenticator. */
    method Auth(line: Text, w: World)
      requires Valid() && state == Command && VerbOf(cfg, line) == AUTH && alive
      modifies `authed, `authUser, `authTenant, `alive, `trace
      ensures Valid()
      ensures if !cfg.hasAuth || old(authed) || !esmtp || Transacting(mailFrom) || |cfg.fields(line)| < 2
              then trace == old(trace) + [Said(line, Rejected)] && alive
              else
                var c := Dialogue(cfg, cfg.fields(line), w.replies);
                var v := Asked(w, c);
                && (alive <==> !c.killed)
                && trace == old(trace)
                            + [Said(line, if v.Accepts? then Authenticated(c.username, v.tenant) else Rejected)]
    {
      hide VerbOf, Recipients, Sender, Login, Lawful, EntryLawful, NextRecipients, NextSender, NextLogin, StartsText,
        AwaitsText, Dialogue, Transacting;
      var fields := cfg.fields(line);
      if !cfg.hasAuth || authed || !esmtp || Transacting(mailFrom) || |fields| < 2 {
        Reject(line);
        return;
      }
      var identity, username, password, killed := ReadCredentials(fields, w.replies);
      if killed {
        alive := false;
      }
      var verdict := w.verify(identity, username, password);
      if !verdict.Accepts? {
        Reject(line);
        return;
      }
      AuthEntry(cfg, rs, s, trace, line, username, verdict.tenant);
      authed, authUser, authTenant := true, username, verdict.tenant;
      Record(Said(line, Authenticated(username, verdict.tenant)));
    }

    /** The commands that change no more than the state of the loop. */
    method Simple(line: Text)
      requires Valid() && state == Command && alive
      requires VerbOf(cfg, line) !in {HELO, EHLO, AUTH, MAIL, RCPT}
      modifies `mailFrom, `rcptTo, `state, `alive, `errors, `trace
      ensures Valid()
      ensures var v := VerbOf(cfg, line);
              var refused := v == Unknown || (v == DATA && old(rcptTo) == []);
              && trace == old(trace) + [Said(line, if refused then Rejected else Accepted)]
              && state == (if v == DATA && old(rcptTo) != [] then Data else if v == STARTTLS then StartTls else Command)
              && errors == old(errors) + (if v == Unknown then 1 else 0)
              && (alive <==> v != QUIT && (v == Unknown ==> errors < MAX_UNRECOGNIZED))
    {
      hide VerbOf, Recipients, Sender, Login, Lawful, EntryLawful, NextRecipients, NextSender, NextLogin, StartsText,
        AwaitsText;
      var v := VerbOf(cfg, line);
      if v == Unknown || (v == DATA && rcptTo == []) {
        Reject(line);
        if v == Unknown {
          errors := errors + 1;
          if errors >= MAX_UNRECOGNIZED {
            alive := false;
          }
        }
        return;
      }
      PlainEntry(cfg, rs, s, trace, line);
      if v == RSET {
        ResetTransaction();
      } else if v == QUIT {
        alive := false;
      } else if v == DATA {
        state := Data;
      } else if v == STARTTLS {
        state := StartTls;
      }
      Record(Said(line, Accepted));
    }

    /** The message text has been read, or not; the envelope goes to the backend as it stands. */
    method ReceiveData(w: World)
      requires Valid() && state == Data && alive
      modifies `mailFrom, `rcptTo, `state, `alive, `messagesSent, `trace
      ensures Valid() && mailFrom == NOBODY && rcptTo == []
      ensures var failed := !w.dataOk || w.size > cfg.maxSize;
              var tenant := if authed then authTenant else None;
              var delivered := Delivered(old(mailFrom), old(rcptTo), authed, tenant, w.size, w.code);
              && trace == old(trace) + [if failed then DataFailed(w.dataOk, w.size) else delivered]
              && (alive <==> !failed)
              && state == (if failed then Data else if w.shutting then Shutdown else Command)
              && messagesSent == old(messagesSent) + (if !failed && w.code < 300 then 1 else 0)
    {
      hide VerbOf, Recipients, Sender, Login, Lawful, NextRecipients, NextSender, NextLogin, StartsText, AwaitsText,
        Allowed;
      LawfulCovers(cfg, rs, s, trace);
      ghost var e := if !w.dataOk || w.size > cfg.maxSize then DataFailed(w.dataOk, w.size)
                     else Delivered(mailFrom, rcptTo, authed, if authed then authTenant else None, w.size, w.code);
      TextEntry(cfg, rs, s, trace, e);
      if !w.dataOk || w.size > cfg.maxSize {
        alive := false;
      } else {
        if w.code < 300 {
          messagesSent := messagesSent + 1;
        }
        state := if w.shutting then Shutdown else Command;
      }
      ResetTransaction();
      Record(e);
    }

    method StartTlsTurn(handshake: Handshake)
      requires Valid() && state == StartTls && alive
      modifies `mailFrom, `rcptTo, `state, `alive, `tls, `esmtp, `authed, `authUser, `authTenant, `trace
      ensures Valid() && state == Command
      ensures var upgraded := !old(tls) && cfg.startTls && handshake == Upgraded;
              && trace == old(trace) + (if upgraded then [TlsStarted] else [])
              && (upgraded ==> tls && !authed && !esmtp && mailFrom == NOBODY && rcptTo == [])
              && (!upgraded ==> unchanged(`tls, `esmtp, `authed, `authUser, `authTenant, `mailFrom, `rcptTo))
              && (alive <==> old(tls) || !cfg.startTls || handshake != Failed)
    {
      hide VerbOf, Recipients, Sender, Login, Lawful, EntryLawful, NextRecipients, NextSender, NextLogin, StartsText,
        AwaitsText;
      if !tls && cfg.startTls {
        match handshake
        case NoTlsConfig =>
        case Upgraded =>
          TlsEntry(cfg, rs, s, trace);
          tls := true;
          ResetTransaction();
          authed, authUser, authTenant, esmtp := false, [], None, false;
          state := Command;
          Record(TlsStarted);
        case Failed =>
          alive := false;
      }
      state := Command;
    }

    /** A command line, or the end of the session. */
    method CommandTurn(w: World) returns (go: bool)
      requires Valid() && state == Command && alive
      modifies this, parser
      ensures Valid() && go == !(w.read.Eof? || w.read.Timeout?)
      ensures !w.read.Line? || w.shutting ==>
                && trace == old(trace) && SameButState()
                && state == (if w.read.Line? then Shutdown else Command)
                && (alive <==> !(w.read.TooLong? || w.read.Broken?))
      ensures w.read.Line? && !w.shutting ==>
                var reply := old(ReplyTo(cfg, w.read.text, w, authed, esmtp, mailFrom, rcptTo));
                trace == old(trace) + [Said(w.read.text, reply)] && Answered(w.read.text, w)
    {
      hide Answered, VerbOf, Recipients, Sender, Login, Lawful, NameGiven, ReplyTo, Kills, AwaitsText;
      match w.read
      case Eof => return false;
      case Timeout => return false;
      case TooLong =>
        EndHere();
        return true;
      case Broken =>
        EndHere();
        return true;
      case Line(line) =>
        go := true;
        if w.shutting {
          state := Shutdown;
          return;
        }
        Answer(line, w);
    }

    /** The command on a line. */
    method Answer(line: Text, w: World)
      requires Valid() && state == Command && alive
      modifies this, parser
      ensures Valid()
      ensures trace == old(trace) + [Said(line, old(ReplyTo(cfg, line, w, authed, esmtp, mailFrom, rcptTo)))]
      ensures Answered(line, w)
    {
      hide VerbOf, Recipients, Sender, Login, Lawful, NameGiven, SenderOf, RecipientOf, AwaitsText, ReplyTo, Kills,
        Session.Valid;
      ghost var before, reply := trace, ReplyTo(cfg, line, w, authed, esmtp, mailFrom, rcptTo);
      FieldsAre();
      ReplyIs(cfg, line, w, authed, esmtp, mailFrom, rcptTo);
      Dispatch(line, w);
      FieldsAre();
      AfterReply(cfg, rs, s, before, line, reply);
    }

    method Dispatch(line: Text, w: World)
      requires Valid() && state == Command && alive
      modifies this, parser
      ensures Valid() && unchanged(`tls, `messagesSent)
      ensures var v, reply := VerbOf(cfg, line), old(ReplyTo(cfg, line, w, authed, esmtp, mailFrom, rcptTo));
              && trace == old(trace) + [Said(line, reply)]
              && state == (if v == DATA && reply == Accepted then Data
                           else if v == STARTTLS then StartTls else Command)
              && errors == old(errors) + (if v == Unknown then 1 else 0)
              && (alive <==> !old(Kills(cfg, line, w, errors, authed, esmtp, mailFrom)))
              && esmtp == (old(esmtp) || (v == EHLO && reply == Accepted))
              && helo == if (v == HELO || v == EHLO) && reply == Accepted
                         then NameGiven(cfg, line, v == EHLO).value else old(helo)
    {
      hide VerbOf, Recipients, Sender, Login, Lawful, Dialogue, NameGiven, SenderOf, RecipientOf, Transacting, Allowed,
        AwaitsText, ReplyTo, Kills, MayAuth, Asked, Session.Valid;
      var v := VerbOf(cfg, line);
      if v == HELO || v == EHLO {
        HelloReply(cfg, line, w, errors, authed, esmtp, mailFrom, rcptTo, v == EHLO);
        Hello(line, v == EHLO);
      } else if v == AUTH {
        AuthReply(cfg, line, w, errors, authed, esmtp, mailFrom, rcptTo);
        Auth(line, w);
      } else if v == MAIL {
        MailReply(cfg, line, w, errors, authed, esmtp, mailFrom, rcptTo);
        Mail(line);
      } else if v == RCPT {
        RcptReply(cfg, line, w, errors, authed, esmtp, mailFrom, rcptTo);
        Rcpt(line, w.rcptOk);
      } else {
        SimpleReply(cfg, line, w, errors, authed, esmtp, mailFrom, rcptTo);
        Simple(line);
      }
    }

    /**
     * What a command leaves in the fields: HELO, EHLO and RSET end the transaction, MAIL and RCPT set
     * the sender and add a recipient, AUTH logs in, and nothing else touches them.
     */
    twostate predicate Answered(line: Text, w: World) reads this {
      var v := VerbOf(cfg, line);
      var reply := old(ReplyTo(cfg, line, w, authed, esmtp, mailFrom, rcptTo));
      var ends := reply == Accepted && v in {HELO, EHLO, RSET};
      && state == (if v == DATA && reply == Accepted then Data else if v == STARTTLS then StartTls else Command)
      && errors == old(errors) + (if v == Unknown then 1 else 0)
      && (alive <==> !old(Kills(cfg, line, w, errors, authed, esmtp, mailFrom)))
      && esmtp == (old(esmtp) || (v == EHLO && reply == Accepted))
      && helo == (if (v == HELO || v == EHLO) && reply == Accepted
                  then NameGiven(cfg, line, v == EHLO).value else old(helo))
      && rcptTo == (if ends then []
                    else if v == RCPT && reply == Accepted then old(rcptTo) + [RecipientOf(cfg, line).value]
                    else old(rcptTo))
      && mailFrom == (if ends || (v == MAIL && reply == BadPath) then NOBODY
                      else if v == MAIL && reply == Accepted then SenderOf(cfg, line).value
                      else old(mailFrom))
      && authed == (old(authed) || reply.Authenticated?)
      && (authed ==> (authUser, authTenant) == if reply.Authenticated? then (reply.user, reply.tenant)
                                               else old((authUser, authTenant)))
      && unchanged(`tls, `messagesSent)
    }

    method Greet()
      requires Valid() && state == Greeting
      modifies `state
      ensures Valid() && state == Command
    {
      hide Recipients, Sender, Login, Lawful, AwaitsText;
      state := Command;
    }

    method EndHere()
      requires Valid() && state != Data
      modifies `alive
      ensures Valid() && !alive
    {
      hide Recipients, Sender, Login, Lawful, AwaitsText;
      alive := false;
    }

    /** The fields as the trace tells them. */
    lemma FieldsAre()
      requires Valid()
      ensures rcptTo == Recipients(cfg, rs, trace) && mailFrom == Sender(cfg, s, trace)
      ensures authed == Login(trace).Some? && (authed ==> Login(trace) == Some((authUser, authTenant)))
      ensures AwaitsText(cfg, trace) <==> state == Data && alive
    {
      hide Recipients, Sender, Login, Lawful, AwaitsText;
    }

    /** One turn of the session loop; the session ends when it returns false or kills the client. */
    method Turn(w: World) returns (go: bool)
      requires Valid() && alive
      modifies this, parser
      ensures Valid()
      ensures go == (w.flushed && !(old(state) == Command && (w.read.Eof? || w.read.Timeout?)))
      ensures old(state) == Greeting ==>
                state == Command && trace == old(trace) && alive && SameButState()
      ensures old(state) == Command && (!w.read.Line? || w.shutting) ==>
                && trace == old(trace) && SameButState()
                && state == (if w.read.Line? then Shutdown else Command)
                && (alive <==> !(w.read.TooLong? || w.read.Broken?))
      ensures old(state) == Command && w.read.Line? && !w.shutting ==>
                var reply := old(ReplyTo(cfg, w.read.text, w, authed, esmtp, mailFrom, rcptTo));
                trace == old(trace) + [Said(w.read.text, reply)] && Answered(w.read.text, w)
      ensures old(state) == Data ==>
                var failed := !w.dataOk || w.size > cfg.maxSize;
                var tenant := if authed then authTenant else None;
                var delivered := Delivered(old(mailFrom), old(rcptTo), authed, tenant, w.size, w.code);
                && trace == old(trace) + [if failed then DataFailed(w.dataOk, w.size) else delivered]
                && mailFrom == NOBODY && rcptTo == []
                && (alive <==> !failed)
                && state == (if failed then Data else if w.shutting then Shutdown else Command)
                && messagesSent == old(messagesSent) + (if !failed && w.code < 300 then 1 else 0)
                && unchanged(`errors, `authed, `authUser, `authTenant, `esmtp, `tls, `helo)
      ensures old(state) == StartTls ==>
                var upgraded := !old(tls) && cfg.startTls && w.tls == Upgraded;
                && state == Command && trace == old(trace) + (if upgraded then [TlsStarted] else [])
                && (upgraded ==> tls && !authed && !esmtp && mailFrom == NOBODY && rcptTo == [])
                && (!upgraded ==> SameButState())
                && (alive <==> old(tls) || !cfg.startTls || w.tls != Failed)
      ensures old(state) == Shutdown ==> !alive && state == Shutdown && trace == old(trace) && SameButState()
      ensures Stepped(cfg, rs, s, old(trace), trace, w) && (AwaitsText(cfg, trace) ==> go == w.flushed)
    {
      hide Recipients, Sender, Login, Lawful, AwaitsText, ReplyTo, Kills, VerbOf, NameGiven, Session.Valid, Answered;
      ghost var before := trace;
      FieldsAre();
      go := true;
      match state {
        case Greeting => Greet();
        case Command => go := CommandTurn(w);
        case Data => ReceiveData(w);
        case StartTls => StartTlsTurn(w.tls);
        case Shutdown => EndHere();
      }
      if !w.flushed {
        go := false;
      }
      if trace != before {
        assert trace == before + [trace[|before|]];
      }
    }

    /** Only the state of the loop, and whether the session lives on, has changed. */
    twostate predicate SameButState() reads this {
      unchanged(`errors, `authed, `authUser, `authTenant, `esmtp, `tls, `helo, `mailFrom, `rcptTo, `messagesSent)
    }

    /**
     * A whole session, over any sequence of events; `made` are the events that the new entries come
     * from. After an accepted DATA whose reply went out, the next event decides about the text: read
     * and not too large, it is delivered once, to the recipients answered 250 since the last reset.
     */
    method Run(ws: seq<World>) returns (ghost made: seq<nat>)
      requires Valid()
      modifies this, parser
      ensures Valid() && Made(cfg, rs, s, old(trace), trace, made, ws, |ws|)
      ensures forall k :: 0 <= k < |made| && StartsText(cfg, trace[|old(trace)| + k])
                          && ws[made[k]].flushed && made[k] + 1 < |ws| ==>
                            TextFollows(cfg, rs, s, |old(trace)|, trace, made, ws, k)
    {
      hide Recipients, Sender, Login, Lawful, TextFollows, Session.Valid, Stepped, VerbOf, Made, StartsText, Answered,
        ReplyTo, Kills;
      made := [];
      ghost var start := trace;
      var i, go := 0, true;
      NothingMade(cfg, rs, s, start, ws);
      while go && alive && i < |ws|
        invariant 0 <= i <= |ws| && Valid() && Made(cfg, rs, s, start, trace, made, ws, i)
        invariant AwaitsText(cfg, trace) && |made| > 0 ==> made[|made| - 1] == i - 1 && (ws[i - 1].flushed ==> go)
        decreases |ws| - i
      {
        ghost var mid := trace;
        go := Turn(ws[i]);
        MadeNext(cfg, rs, s, start, mid, trace, made, ws, i);
        made := if trace == mid then made else made + [i];
        i := i + 1;
      }
      AwaitingIsAlive();
      MadeAll(cfg, rs, s, start, trace, made, ws, i);
    }

    lemma AwaitingIsAlive()
      requires Valid()
      ensures AwaitsText(cfg, trace) ==> alive
    {
      hide Recipients, Sender, Login, Lawful, AwaitsText;
    }
  }

  // ------------------------------------------------------------ whole sessions

  /** The event that an entry answers or records. */
  ghost predicate MadeBy(cfg: Config, w: World, e: Entry) {
    match e
    case Said(line, _) => w.read == Line(line) && !w.shutting
    case Delivered(_, _, _, _, size, code) => w.dataOk && w.size == size && size <= cfg.maxSize && w.code == code
    case DataFailed(readable, size) => w.dataOk == readable && w.size == size
    case TlsStarted => w.tls == Upgraded
  }

  /** What becomes of a message text: nothing when it cannot be read or is too large, and else its delivery. */
  function TextOf(cfg: Config, rs: seq<Address>, s: Address, tr: seq<Entry>, w: World): Entry {
    var login := Login(tr);
    if !w.dataOk || w.size > cfg.maxSize then DataFailed(w.dataOk, w.size)
    else Delivered(Sender(cfg, s, tr), Recipients(cfg, rs, tr), login.Some?,
                   if login.Some? then login.value.1 else None, w.size, w.code)
  }

  /** A turn adds one entry or none, and always what becomes of a text when that is awaited. */
  ghost predicate Stepped(cfg: Config, rs: seq<Address>, s: Address, before: seq<Entry>, after: seq<Entry>, w: World) {
    && before <= after && |after| <= |before| + 1
    && (after != before ==> MadeBy(cfg, w, after[|before|]))
    && (AwaitsText(cfg, before) ==> after == before + [TextOf(cfg, rs, s, before, w)])
  }

  /** The entry after the k-th new one is what became of the text in the next event. */
  ghost predicate TextFollows(cfg: Config, rs: seq<Address>, s: Address, n: nat, tr: seq<Entry>,
                              made: seq<nat>, ws: seq<World>, k: nat) {
    && k + 1 < |made| && made[k + 1] == made[k] + 1 < |ws| && n + k + 1 < |tr|
    && tr[n + k + 1] == TextOf(cfg, rs, s, tr[..n + k + 1], ws[made[k] + 1])
  }

  /** Each entry since `start` comes from its event, in order; a text from the event right after its DATA. */
  ghost predicate Made(cfg: Config, rs: seq<Address>, s: Address, start: seq<Entry>, tr: seq<Entry>,
                       made: seq<nat>, ws: seq<World>, i: nat) {
    && start <= tr && |made| == |tr| - |start| && i <= |ws|
    && Rising(made, i) && AllMadeBy(cfg, |start|, tr, made, ws) && AllFollow(cfg, rs, s, |start|, tr, made, ws)
  }

  ghost predicate Rising(made: seq<nat>, i: nat) {
    && (forall k :: 0 <= k < |made| ==> made[k] < i)
    && forall j, k :: 0 <= j < k < |made| ==> made[j] < made[k]
  }

  ghost predicate AllMadeBy(cfg: Config, n: nat, tr: seq<Entry>, made: seq<nat>, ws: seq<World>)
    requires |tr| == n + |made|
  {
    forall k :: 0 <= k < |made| ==> made[k] < |ws| && MadeBy(cfg, ws[made[k]], tr[n + k])
  }

  ghost predicate AllFollow(cfg: Config, rs: seq<Address>, s: Address, n: nat, tr: seq<Entry>,
                            made: seq<nat>, ws: seq<World>)
    requires |tr| == n + |made|
  {
    forall k :: 0 <= k < |made| - 1 && StartsText(cfg, tr[n + k]) ==> TextFollows(cfg, rs, s, n, tr, made, ws, k)
  }

  lemma NothingMade(cfg: Config, rs: seq<Address>, s: Address, start: seq<Entry>, ws: seq<World>)
    ensures Made(cfg, rs, s, start, start, [], ws, 0)
  {
    hide MadeBy, TextOf, StartsText, TextFollows;
  }

  lemma StillFollows(cfg: Config, rs: seq<Address>, s: Address, n: nat, tr: seq<Entry>, e: Entry,
                     made: seq<nat>, i: nat, ws: seq<World>, k: nat)
    requires TextFollows(cfg, rs, s, n, tr, made, ws, k)
    ensures TextFollows(cfg, rs, s, n, tr + [e], made + [i], ws, k)
  {
    hide TextOf;
    assert (tr + [e])[..n + k + 1] == tr[..n + k + 1];
  }

  lemma RisingNext(made: seq<nat>, i: nat)
    requires Rising(made, i)
    ensures Rising(made, i + 1) && Rising(made + [i], i + 1)
  {
  }

  lemma MadeByNext(cfg: Config, n: nat, tr: seq<Entry>, e: Entry, made: seq<nat>, ws: seq<World>, i: nat)
    requires |tr| == n + |made| && i < |ws| && AllMadeBy(cfg, n, tr, made, ws) && MadeBy(cfg, ws[i], e)
    ensures AllMadeBy(cfg, n, tr + [e], made + [i], ws)
  {
    hide MadeBy;
  }

  lemma FollowNext(cfg: Config, rs: seq<Address>, s: Address, n: nat, tr: seq<Entry>, e: Entry,
                   made: seq<nat>, ws: seq<World>, i: nat)
    requires |tr| == n + |made| && i < |ws| && AllFollow(cfg, rs, s, n, tr, made, ws)
    requires |made| > 0 && StartsText(cfg, tr[|tr| - 1]) ==>
               made[|made| - 1] == i - 1 && e == TextOf(cfg, rs, s, tr, ws[i])
    ensures AllFollow(cfg, rs, s, n, tr + [e], made + [i], ws)
  {
    hide TextOf, StartsText, TextFollows;
    var after, more := tr + [e], made + [i];
    forall k | 0 <= k < |more| - 1 && StartsText(cfg, after[n + k])
      ensures TextFollows(cfg, rs, s, n, after, more, ws, k)
    {
      assert after[n + k] == tr[n + k];
      if k < |made| - 1 {
        StillFollows(cfg, rs, s, n, tr, e, made, i, ws, k);
      } else {
        JustFollows(cfg, rs, s, n, tr, made, ws, i);
      }
    }
  }

  lemma MadeNext(cfg: Config, rs: seq<Address>, s: Address, start: seq<Entry>, tr: seq<Entry>, after: seq<Entry>,
                 made: seq<nat>, ws: seq<World>, i: nat)
    requires i < |ws| && Made(cfg, rs, s, start, tr, made, ws, i) && Stepped(cfg, rs, s, tr, after, ws[i])
    requires AwaitsText(cfg, tr) && |made| > 0 ==> made[|made| - 1] == i - 1
    ensures var more := if after == tr then made else made + [i];
            && Made(cfg, rs, s, start, after, more, ws, i + 1)
            && (AwaitsText(cfg, after) && |more| > 0 ==> more[|more| - 1] == i)
  {
    hide MadeBy, TextOf, StartsText, TextFollows, Rising, AllMadeBy, AllFollow;
    RisingNext(made, i);
    if after != tr {
      var e := after[|tr|];
      assert after == tr + [e];
      MadeByNext(cfg, |start|, tr, e, made, ws, i);
      FollowNext(cfg, rs, s, |start|, tr, e, made, ws, i);
    }
  }

  lemma JustFollows(cfg: Config, rs: seq<Address>, s: Address, n: nat, tr: seq<Entry>,
                    made: seq<nat>, ws: seq<World>, i: nat)
    requires |made| > 0 && made[|made| - 1] == i - 1 && i < |ws| && |tr| == n + |made|
    ensures TextFollows(cfg, rs, s, n, tr + [TextOf(cfg, rs, s, tr, ws[i])], made + [i], ws, |made| - 1)
  {
    hide TextOf;
    assert (tr + [TextOf(cfg, rs, s, tr, ws[i])])[..|tr|] == tr;
  }

  lemma MadeAll(cfg: Config, rs: seq<Address>, s: Address, start: seq<Entry>, tr: seq<Entry>,
                made: seq<nat>, ws: seq<World>, i: nat)
    requires Made(cfg, rs, s, start, tr, made, ws, i)
    ensures Made(cfg, rs, s, start, tr, made, ws, |ws|) && |made| == |tr| - |start|
    ensures forall k :: 0 <= k < |made| ==> made[k] < |ws|
    ensures forall k :: 0 <= k < |made| - 1 && StartsText(cfg, tr[|start| + k]) ==>
                          TextFollows(cfg, rs, s, |start|, tr, made, ws, k)
    ensures |made| > 0 ==> AwaitsText(cfg, tr) == StartsText(cfg, tr[|start| + |made| - 1])
  {
    hide MadeBy, TextOf, StartsText, TextFollows;
  }

  /** Texts and accepted DATA commands are paired: each text comes right after its DATA. */
  lemma TextsArePaired(f: Session, i: nat)
    requires f.Valid() && i < |f.trace|
    ensures f.trace[i].Delivered? || f.trace[i].DataFailed? <==> i > 0 && StartsText(f.cfg, f.trace[i - 1])
  {
    hide Recipients, Sender, Login, StartsText, SaidLawful;
    DeliveryIsLawful(f.cfg, f.rs, f.s, f.trace, i);
  }
}
