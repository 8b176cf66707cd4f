# Verification of go-guerrilla

go-guerrilla is an SMTP daemon with a mail indexer attached. This project models its most intricate parts
in Dafny and proves what they promise: the RFC 5321 path parser and the address printer, the IMAP and POP3
indexer with its SQL tables, the SMTP session, the hand-over of envelopes to backend workers, the pools of
clients and envelopes, the reload of the configuration, and the rewriting of the From header.
`dafny verify dfyconfig.toml` checks all of it.

## How the model is laid out

| file | what it holds |
|---|---|
| `Bytes.dfy` | bytes, byte strings and character classes |
| `Rfc5321Grammar.dfy` | section 4.1.2 of RFC 5321 as predicates on whole strings |
| `Rfc5321Scan.dfy` | what each production of the parser does, as a function of the input and the cursor |
| `Rfc5321Parser.dfy` | the parser as a class with its mutable cursor, held byte and accept buffer; each method is proved against its scan |
| `Rfc5321Language.dfy`, `Rfc5321Paths.dfy`, `Rfc5321Commands.dfy` | the scans against the grammar, both ways |
| `Address.dfy` | the address printer, and printing and parsing again |
| `MessageId.dfy` | Message-ID normal forms and lists |
| `AliasStore.dfy` | the SQL tables and every operation on them |
| `MessageIndex.dfy` | indexing one message; passes, interruptions and repetitions |
| `ImapClient.dfy` | the connection as an oracle with a log of the calls made, and the in-place retry filter |
| `ImapBatch.dfy` | batches of fetches, what became of each UID, and what a lawful server answers |
| `ImapCursor.dfy` | UID ranges, and histories of cursor writes with the calls they rely on |
| `ImapSync.dfy` | baseline, batches and sync of a folder |
| `ImapWatch.dfy` | what any number of syncs amount to |
| `Pop3Poll.dfy` | polling a POP3 mailbox |
| `Session.dfy` | the session loop with its trace of commands and replies |
| `Gateway.dfy`, `ClientPool.dfy` | two concurrency protocols as state machines of atomic steps |
| `HotReload.dfy`, `ReloadRuns.dfy` | change events and their handlers; timeouts in every visiting order, and runs of reloads |
| `RewriteFrom.dfy`, `RewriteMessages.dfy` | the From rewrite, and what it does to messages written out line by line |

Code that changes things step by step is a class or a method with loops, proved against a specification
function; the properties are lemmas about that function. The environment is explicit. A database statement
fails when `fails(n)` says so for its number n. A server, a socket, an authenticator or a backend is a
function from the moment of the call to the answer, over which every property is quantified. The IMAP client
logs each call with its moment and answer, and what is claimed about mail is claimed about logged calls.
`Lawful` says what RFC 3501 promises of a server; only results that name it rely on it. Map iteration order is
an arbitrary choice. The three protocols with goroutines are transition systems in which any enabled
step may come next.

## Where the code does something else than one would expect

Each of these is the code's behaviour as modelled, with a lemma about it.

* The empty reverse-path never gets ESMTP parameters (`NullPathLanguage`). A keyword without a value also takes
  the byte that ends it, so parameters are read up to the first one without a value: all of them exactly when
  no parameter but the last lacks one (`ParamsReadBack`). `SMTPUTF8 BODY=8BITMIME` loses its second parameter
  (`BodyIsDropped`).
* An IPv6 literal is printed without its tag and does not parse again; `ReparseIff` is the exact condition.
* RCPT replaces every local part that begins with "postmaster" (`RcptRoundTrip`), also one without a host
  (`HostlessRcpt`).
* A source route that is not well formed is no error: what was read of it becomes part of the local part, so that
  `MAIL FROM:<@,a@b>` has the local part `@a` (`BrokenRouteIsKept`).
* A token can have a normal form that normalizes further (`NormalizeIdempotentIff`); a header with a vertical
  tab yields one (`VerticalTabToken`). A Message-ID of `< <> >` passes the indexer and is refused by the
  store, so every sync of that folder stops there (`DoublyBracketedIdIsRefused`; `RefusedIff` is exact).
* A comment in `baselineFolder` says that mail arriving during a baseline is indexed next. That holds when
  answers hold only the UIDs asked for (`ArrivalsAreNext`). The code puts the cursor above whatever was fetched,
  so in general it holds exactly when the baseline's own fetches brought nothing as new (`ArrivalIndexedIff`); an
  unasked message 9 in the answer to a fetch of 5 makes it skip 6 to 8 (`UnaskedAnswerSkipsMail`).
* A message whose headers do not parse is dropped by the program (`backends/imap_client.go:213-220`), and the
  cursor goes past it. Every other message still in the folder is dealt with, on a lawful server (`NothingMissed`).
* The SELECT after a baseline is not checked for a new UIDVALIDITY, so that a folder recreated in between is
  taken for the old one (`RecreatedDuringBaseline`); `ResumesItsOwn` says that this is the only case.
* A baseline at UID 4294967295 makes the next range start at 0 (`TopBaselineFallsBack`,
  `RangeStartsAboveIff`).
* A pooled envelope keeps its recipients into the next session, until the first reset (`StartForgottenIff`).
* `MAIL FROM:<>` starts no transaction (`MailStartsIff`). A cancelled AUTH is put to the authenticator with an
  empty password (`CancelledIsStillAsked`).
* A processor that fails with an error text of less than three bytes makes the session itself panic
  (`AnswersAre`).
* A borrower that waits for room holds the guard that the shutdown needs, so the channel that should release
  it is never filled (`ShutdownChannelNeverUsed`).
* A reload that removes a server which was started and later disabled never returns (`EmitChangeEvents`,
  `StartAndReload`); enabling, disabling and removing a server is such a run (`EnableDisableRemove`).
* A changed timeout of one server becomes that of all, and a timeout that changes together with the enabled flag
  is not applied (`EnabledKeepsOldTimeout`). `TimeoutsFollowIff` is the exact condition under which every visiting
  order leaves each server with its configured timeout.
* Rewriting the From header twice is not rewriting once when there was no From line and the header starts
  with a blank (`BlankFirstLine`), or with an LF in a certain mix of line ends (`IdempotentIff` is exact).
  A From line put before a header of one line ends in a bare LF, also where lines end in CRLF (`NoFrom`).
  `changed` stays false when all that happened is that continuation lines were dropped (`UnchangedIff`).

## Model

| member | source | states |
|---|---|---|
| Rfc5321Parser.Parser.Reset | mail/rfc5321/parse.go:49-62 | all results, buffer and cursor are those of a new parser; only the held byte stays |
| Rfc5321Parser.Parser.Next | mail/rfc5321/parse.go:69-76 | advances the cursor and returns the byte there or NUL; past the end the held byte goes stale |
| Rfc5321Parser.Parser.Peek | mail/rfc5321/parse.go:78-83 | the byte after the cursor, or NUL, without moving |
| Rfc5321Parser.Parser.Subdomain | mail/rfc5321/parse.go:304-332 | outcome, cursor and accept buffer are those of the scan of a sub-domain |
| Rfc5321Parser.Parser.Domain | mail/rfc5321/parse.go:286-301 | the same for a Domain |
| Rfc5321Parser.Parser.Atom | mail/rfc5321/parse.go:546-566 | the same for an Atom |
| Rfc5321Parser.Parser.DotString | mail/rfc5321/parse.go:532-543 | the same for a Dot-string |
| Rfc5321Parser.Parser.QcontentSMTP | mail/rfc5321/parse.go:494-529 | the same for quoted content, escapes included |
| Rfc5321Parser.Parser.QuotedString | mail/rfc5321/parse.go:476-489 | the same for a Quoted-string |
| Rfc5321Parser.Parser.LocalPart | mail/rfc5321/parse.go:460-473 | the same for a Local-part, and whether it needs quotes |
| Rfc5321Parser.Parser.Snum | mail/rfc5321/parse.go:405-436 | the same for a number of at most 255 |
| Rfc5321Parser.Parser.Ipv4AddressLiteral | mail/rfc5321/parse.go:384-400 | the same for a dotted quad |
| Rfc5321Parser.Parser.Ipv6AddressLiteral | mail/rfc5321/parse.go:439-457 | the same for an IPv6 literal |
| Rfc5321Parser.Parser.AddressLiteral | mail/rfc5321/parse.go:359-381 | the same for an address literal with its brackets |
| Rfc5321Parser.Parser.Mailbox | mail/rfc5321/parse.go:335-354 | the same for a mailbox, with local part, quoting, domain and IP |
| Rfc5321Parser.Parser.AtDomain | mail/rfc5321/parse.go:277-283 | the same for one domain of a source route |
| Rfc5321Parser.Parser.Adl | mail/rfc5321/parse.go:261-274 | the same for a source route, and what it leaves in the buffer when it fails |
| Rfc5321Parser.Parser.Path | mail/rfc5321/parse.go:242-258 | the same for a path; a failing source route is ignored and its leftovers stay |
| Rfc5321Parser.Parser.Param | mail/rfc5321/parse.go:181-239 | the same for one ESMTP parameter |
| Rfc5321Parser.Parser.Parameters | mail/rfc5321/parse.go:156-168 | the same for the list of parameters |
| Rfc5321Parser.Parser.MailFrom | mail/rfc5321/parse.go:115-132 | on any used parser, success and every result field are a function of the input alone; the cursor ends within 12 of its length |
| Rfc5321Parser.Parser.RcptTo | mail/rfc5321/parse.go:99-153 | the same for RCPT; what is accepted and read is in `RcptRoundTrip`, `RcptLikeMail` and `HostlessRcpt` |
| Rfc5321Parser.Parser.Helo | mail/rfc5321/parse.go:648-661 | the same for HELO |
| Rfc5321Parser.Parser.Ehlo | mail/rfc5321/parse.go:618-644 | the same for EHLO |
| Rfc5321Language.HeloLanguage | mail/rfc5321/parse.go:286-332 | HELO yields d exactly on a space, a Domain d, and then the end, NUL, `:`, `,` or `>` |
| Rfc5321Paths.EhloLanguage | mail/rfc5321/parse.go:618-644 | EHLO accepts exactly what HELO accepts, and after a space a bracketed literal whose text ParseIP takes |
| Rfc5321Language.LocalPartSound | mail/rfc5321/parse.go:460-566 | a local part before an `@` is a Dot-string or a Quoted-string of the grammar, and reads as what that spells |
| Rfc5321Language.LocalPartComplete | mail/rfc5321/parse.go:460-566 | each such form before an `@` is read as the local part it spells |
| Rfc5321Paths.LiteralSound | mail/rfc5321/parse.go:359-457 | an accepted literal ends on its bracket and is a dotted quad or a tagged address that ParseIP takes |
| Rfc5321Paths.LiteralComplete | mail/rfc5321/parse.go:359-457 | each such literal is accepted with its address |
| Rfc5321Paths.PathLanguage | mail/rfc5321/parse.go:242-258 | without a source route, a path is accepted with a reading exactly when, after one byte of any kind, a mailbox with that reading and a `>` follow |
| Rfc5321Paths.RoutedPathLanguage | mail/rfc5321/parse.go:242-283 | after a well-formed source route, a path is accepted exactly when a colon, a mailbox and `>` follow, and lists the domains of the route |
| Rfc5321Commands.MailFromLanguage | mail/rfc5321/parse.go:115-132 | MAIL yields a reading exactly when such a path stands there and, if a space follows it, parameters of the grammar on bytes `ParamsAt`; the reading is theirs |
| Rfc5321Commands.RoutedMailLanguage | mail/rfc5321/parse.go:115-132 | the same for MAIL with a well-formed source route, parameters included |
| Rfc5321Commands.BrokenRouteIsKept | mail/rfc5321/parse.go:242-250 | an ill-formed route whose bytes end up in the local part |
| Rfc5321Commands.ParamsLanguage | mail/rfc5321/parse.go:156-239 | the parameters read are exactly those that stand there: keywords as long as possible and not ending in a hyphen, values not empty and as long as possible, a bare keyword taking the byte after it, a space going on |
| Rfc5321Commands.NullPathLanguage | mail/rfc5321/parse.go:85-97 | the reverse-path is empty exactly on `<>`, and then nothing else is read |
| Rfc5321Commands.MailFromSound | mail/rfc5321/parse.go:115-132 | what was accepted: the local part is a Dot-string or printable text quoted as needed, the host a Domain or an address, and `>` came next |
| Rfc5321Commands.MailFromParams | mail/rfc5321/parse.go:156-239 | every key and value that MAIL reads fits esmtp-keyword and esmtp-value |
| Rfc5321Commands.ParamsReadBack | mail/rfc5321/parse.go:156-239 | a written list of well-formed parameters is read up to the first one without a value; all of it exactly when only the last may lack one |
| Rfc5321Commands.BodyIsDropped | mail/rfc5321/parse.go:163-165 | SMTPUTF8 followed by BODY=8BITMIME is read as SMTPUTF8 alone |
| Addresses.Address.String | mail/envelope.go:57-87 | the text is the printed form of the address, with the local part escaped byte by byte |
| Addresses.RoundTrip | mail/envelope.go:57-87 | MAIL of a printed Dot-string or quoted local part at a Domain or dotted quad reads back local part, quoting, host and IP |
| Addresses.RoundTripWithParams | mail/rfc5321/parse.go:115-168 | the same with any list of parameters behind the path, which come back up to the first bare one; all of them exactly when only the last may be bare |
| Addresses.UntaggedIpv6 | mail/envelope.go:81-82 | a printed IPv6 host is always rejected |
| Addresses.ReparseIff | mail/envelope.go:57-87 | for every accepted MAIL without a source route, printing and parsing again gives the same reading exactly when the local part is not empty and the host no IPv6 literal |
| Addresses.RcptRoundTrip | mail/rfc5321/parse.go:99-112 | RCPT of a printed address reads a local part that begins with the bytes of postmaster, in any case, as postmaster, and every other one as it is |
| Addresses.RcptLikeMail | mail/rfc5321/parse.go:99-153 | on every input RCPT reads what MAIL reads up to that rewriting; it takes no empty path, and besides only paths that lack an at sign after such a local part |
| Addresses.HostlessRcpt | mail/rfc5321/parse.go:107-112 | a local part without a host is accepted exactly when it begins with postmaster in any case |
| Addresses.BarePostmaster | mail/rfc5321/parse.go:107-112 | the bare word in any case reads as postmaster |
| Addresses.WithoutAtOnlyPostmaster | mail/rfc5321/parse.go:99-153 | whatever RCPT accepts without an at sign begins with postmaster right after the opening byte, unless it is quoted |
| Addresses.HostlessRoundTrip | mail/envelope.go:57-87 | an address without a host prints as its local part, which RCPT takes back only for the postmaster |
| MessageIds.SplitMessageIdTokens | backends/email_address.go:86-123 | the tokens of a header, by a state machine over its bytes |
| MessageIds.ParseMessageIds | backends/email_address.go:65-84 | the distinct non-empty normal forms of those tokens, in order |
| MessageIds.NormalizeIdempotentIff | backends/email_address.go:49-62 | normalizing twice is normalizing once exactly when no angle bracket is left at the ends of the trimmed id |
| MessageIds.NormalForm | backends/email_address.go:49-62 | white space and angle brackets around an id do not count, its local part stays and its domain is lower-cased |
| MessageIds.CanonicalWhole | backends/email_address.go:57-61 | an id without both parts is lower-cased as a whole |
| MessageIds.TokensNormalizeOnce | backends/email_address.go:86-123 | it is, for every token of a header without vertical tab and form feed |
| MessageIds.VerticalTabToken | backends/email_address.go:86-123 | a header with a vertical tab yields a token for which it is not |
| MessageIds.ParsePrinted | backends/email_address.go:65-123 | a printed list of ids without angle brackets parses to their distinct normal forms |
| MessageIds.DistinctIsDedup | backends/email_address.go:65-84 | exactly the non-empty normal forms, each once, by first appearance |
| AliasStore.Store.UpsertThread | backends/alias_store.go:202-231 | the new row under the normalized key, or nothing; and exactly when it succeeds |
| AliasStore.Store.LookupThread | backends/alias_store.go:234-263 | the thread under the normalized key; an empty key and a missing row are no error |
| AliasStore.Store.LookupAnyThread | backends/alias_store.go:266-277 | the thread of the first id that has one |
| AliasStore.ReplyFindsThread | backends/alias_store.go:202-277 | a parsed References list finds the thread of the first listed id that has one, under the key indexing that id uses |
| AliasStore.Store.PurgeExpired | backends/alias_store.go:280-303 | at most MaxRows rows stay, none past the cutoff, kept rows unchanged, and none dropped for excess is newer than a kept one |
| AliasStore.OldestRowsExist | backends/alias_store.go:296-301 | the oldest rows of any number exist, so the deletion is defined |
| AliasStore.Store.MarkSeenMessages | backends/alias_store.go:545-588 | the rows of whole batches of 2000 up to the first failing one, and all of them on success; it succeeds exactly if no statement failed, and a failure is that of its last statement |
| AliasStore.Store.MarkUidlsKnown | backends/alias_store.go:377-420 | the same for UIDLs |
| AliasStore.Store.InsertBatch | backends/alias_store.go:562-588 | a transaction adds all rows of its batch or none, and succeeds exactly when no statement fails |
| AliasStore.Store.MarkSeenMessage | backends/alias_store.go:528-542 | adds the row of the normalized id, nothing for an empty one |
| AliasStore.Store.IsSeenMessage | backends/alias_store.go:505-525 | whether that row is there |
| AliasStore.Store.SetCursor | backends/alias_store.go:468-490 | replaces the cursor of that folder and no other |
| MessageIndex.IndexMessageFromHeaders | backends/alias_message_index.go:24-81 | which outcome it is, by the key seen before, the date compared and the addresses found; after Indexed the row has the reply address, the sender's address and the trimmed tenant in their columns; on failure a prefix of the writes is done, and it fails only by the database or a refusal |
| MessageIndex.RefusedIff | backends/alias_store.go:206-214 | exactly which messages the store refuses after the indexer accepted them |
| MessageIndex.DoublyBracketedIdIsRefused | backends/email_address.go:49-62 | a concrete Message-ID that stops every pass |
| MessageIndex.PassDecides | backends/alias_message_index.go:24-81 | after a finished pass a key has a row with these columns of the first message with that key, if it qualifies and was not seen before; all keys met are seen, all else is unchanged |
| MessageIndex.RetryIdempotent | backends/alias_message_index.go:66-79 | a pass interrupted anywhere, also between two writes of a message, and then repeated ends in the tables of one uninterrupted pass |
| MessageIndex.RetriesIdempotent | backends/alias_message_index.go:24-81 | the same after any number of interruptions |
| MessageIndex.SeenNeverPutAgain | backends/alias_message_index.go:25-34 | once a key is seen for an account, no later step of it stores a thread for the key, purges in between or not |
| MessageIndex.PutOnce | backends/alias_message_index.go:66-79 | a step that stored a thread and finished is the account's last to store one for that key |
| MessageIndex.InterruptedIsRun | backends/alias_message_index.go:24-81 | every pass, interrupted or not, is such a sequence of steps, complete but possibly for the last |
| MessageIndex.PassKeepsThreads | backends/alias_message_index.go:25-34 | no pass touches the thread of a key that the account had seen before it |
| ImapClients.Client.Refilter | backends/imap_watcher.go:720-735 | pushing pending UIDs down inside the slice being read gives what filtering a copy would give |
| ImapClients.Client.Fetch | backends/imap_client.go:159-239 | one logged call, none without UIDs; the messages of its answer that have a UID and headers that parse, in order |
| ImapClients.Client.RetryEmptyHeaderFetches | backends/imap_watcher.go:687-743 | the messages as they are when none is empty; otherwise the result of the refetches, in some order; the log grows by exactly those refetches, at most three |
| ImapClients.RoundsReplace | backends/imap_watcher.go:704-736 | the retries keep the UIDs, and replace a pending message only by one with usable headers that one of the at most three refetches made asked for and brought |
| ImapClients.RetryFilter | backends/imap_watcher.go:687-743 | with distinct UIDs: same UID set, messages with a Message-ID, a From or a To unchanged, others replaced only by what such a refetch brought |
| ImapClients.RetriesPersist | backends/imap_watcher.go:704-736 | a message that is bare to the end was asked for in all three rounds, or a refetch was answered without it, or a sleep was cut short |
| ImapClients.RetriesFailIff | backends/imap_watcher.go:708-718 | the retries fail exactly when their last refetch got no answer |
| ImapBatches.Fate | backends/imap_watcher.go:639-646 | the messages a batch hands to the indexer are exactly those that its fetch brought with readable headers, whatever the retries did |
| ImapCursors.NewMailUidRange | backends/imap_watcher.go:535-541 | a range to fetch is not empty and stays below the largest 32-bit number |
| ImapCursors.RangeIsTheNewMail | backends/imap_watcher.go:528-541 | it holds exactly the UIDs above LastUID and below UIDNEXT |
| ImapCursors.RangeStartsAboveIff | backends/imap_watcher.go:535-541 | it starts above LastUID unless that is the largest 32-bit number |
| ImapCursors.Tiles | backends/imap_watcher.go:543-601 | over every run of syncs the indexed ranges lie end to end, and are exactly the UIDs above the base up to LastUID |
| ImapCursors.NeverDecreases | backends/imap_watcher.go:364-412 | while UIDVALIDITY stays, LastUID never decreases and each sync resumes where the last one stopped |
| ImapCursors.ResumesItsOwn | backends/imap_watcher.go:376-403 | a sync resumes only over a cursor of the UIDVALIDITY it selected, or of none, or of the baseline it has just made |
| ImapCursors.RecreatedDuringBaseline | backends/imap_watcher.go:386-398 | a run in which the last of these is another UIDVALIDITY |
| ImapCursors.TopBaselineFallsBack | backends/imap_watcher.go:535-541 | a run in which LastUID falls, after a baseline at the largest UID |
| ImapCursors.NothingLost | backends/imap_watcher.go:528-601 | each UID between base and LastUID was asked for by a logged fetch, after a logged SELECT whose UIDNEXT is above it; its message is remembered, was not in that answer, or was there with headers that do not parse |
| ImapSync.FolderSync.IndexUidRange | backends/imap_watcher.go:620-669 | terminates for every batch size; the calls logged are exactly those of its batches, which ask for the range in order, none for more UIDs than the batch size; the tables are those of a pass over what the batches led to, or of an interrupted one; it fails only for an ended context, an unanswered call, a failed statement or a refused message |
| ImapSync.BatchBound | backends/imap_watcher.go:627-630 | a batch ends inside the range and is not too long, whether or not the 32-bit sum wraps around |
| ImapSync.FolderSync.BaselineFolder | backends/imap_watcher.go:434-516 | the calls logged are one SEARCH and the fetches of exactly the UIDs it found, or none beyond the limit; the cursor goes to the largest UID found or fetched; every fetched message that was there before is remembered, and exactly those ids are marked; it fails only for an ended context, an unanswered call or a failed statement |
| ImapSync.BaselineIdsIff | backends/imap_watcher.go:460-473 | those ids are the normal forms of the ids of the messages up to the largest UID found |
| ImapSync.FolderSync.SyncFolderUids | backends/imap_watcher.go:543-601 | on success nothing new is left below UIDNEXT, and either nothing was called or the batches logged cover the new range, their messages are indexed and the cursor is at UIDNEXT-1; on failure the cursor is untouched |
| ImapSync.FolderSync.SyncFolder | backends/imap_watcher.go:364-412 | exactly what it writes: a reset only of a cursor of another UIDVALIDITY, a baseline exactly when configured and needed, and the range from the cursor that is then current up to UIDNEXT; it keeps the invariant that the stored cursor is that of the history of writes, each in order and complete; it fails only for one of the four causes; keys seen before keep their threads |
| ImapSync.RecreatedStartsOver | backends/imap_watcher.go:376-403 | after a change of UIDVALIDITY a finished sync has made a baseline, or indexed from UID 1 without resuming |
| ImapSync.FirstSyncTakesAll | backends/imap_watcher.go:543-601 | without a cursor and without baselines all UIDs below UIDNEXT are in the range |
| ImapWatch.SyncsLoseNothing | backends/imap_watcher.go:364-601 | NothingLost for the folder object after any calls, on any server |
| ImapWatch.ReachesUidNext | backends/imap_watcher.go:364-601 | on a lawful server, after syncs of which the last finished, the indexed ranges are exactly the UIDs above the base and below the last UIDNEXT seen |
| ImapWatch.NothingMissed | backends/imap_watcher.go:528-601 | on a lawful server each message up to LastUID that is still in the folder is remembered, or came with headers that do not parse |
| ImapWatch.Watch | backends/imap_watcher.go:170-231 | any number of syncs, whatever becomes of each, ending in one that finishes: both of these results |
| ImapBatches.LawfulServer | backends/imap_watcher.go:528-534 | a server that keeps these laws, on which mail arrives |
| ImapWatch.ArrivalsAreNext | backends/imap_watcher.go:464-471 | when answers hold only UIDs asked for, the next range holds exactly the mail above what the baseline's search found |
| ImapWatch.ArrivalIndexedIff | backends/imap_watcher.go:446-475 | in general mail arriving during a baseline is in the next range exactly when no fetch of the baseline brought its UID or a larger one |
| ImapWatch.UnaskedAnswerSkipsMail | backends/imap_watcher.go:460-475 | a server and a baseline for which it is not |
| Pop3Poll.Poller.PollMailbox | backends/alias_indexer.go:331-427 | the TOPs made ask, in order, for exactly the listed messages whose UIDL has no row, up to the first failure; the headers answered are exactly what is indexed; a UIDL gets its row only after its message, and none of the baseline is asked for; keys seen before keep their threads; it fails only for a refused login, an unanswered UIDL or TOP, a failed statement or a refused message |
| Pop3Poll.Poller.Baseline | backends/alias_indexer.go:355-373 | all listed UIDLs become known before the baseline is recorded |
| Session.Session.constructor | client.go:170-186 | a session starts unauthenticated, with whatever its pooled envelope holds, and alive unless a required TLS handshake fails |
| Session.VerbTable | server.go:72-86 | which bytes at the start of a line, in any case, are which command |
| Session.MailLine | server.go:631-645 | MAIL FROM: and a printed address make that address the sender |
| Session.RcptLine | server.go:647-665 | RCPT TO: and a printed address name that recipient, or the postmaster |
| Session.PostmasterLine | server.go:653-658 | RCPT of the bare postmaster is for this host |
| Session.LimitsIff | client.go:221-248 | an address is taken exactly within the three length limits |
| Session.Session.ParsePath | client.go:221-248 | the address of a path within the limits, nobody for the empty path, an error otherwise |
| Session.Session.Hello | server.go:444-482 | a valid HELO or EHLO resets the transaction and is accepted; an invalid one changes nothing |
| Session.Session.Mail | server.go:631-645 | accepted exactly when no transaction is open and the path parses |
| Session.Session.Rcpt | server.go:647-682 | accepted exactly when there is room, the path parses, the host is allowed or the session authenticated, and the backend agrees; only then the recipient stays |
| Session.Session.Auth | server.go:484-607 | accepted exactly when all the guards hold and the authenticator takes the credentials the dialogue left |
| Session.Session.ReadCredentials | server.go:513-595 | those credentials, for PLAIN, LOGIN, cancelled and broken dialogues |
| Session.CancelledIsStillAsked | server.go:508-606 | a cancelled dialogue or unknown mechanism ends with an empty password, which is then judged |
| Session.PlainResponse | auth.go:151-170 | a decoded PLAIN response is identity, NUL, user name, NUL, password, with anything before that passed over |
| Session.BadPlainResponse | auth.go:151-170 | with fewer than two NULs it leaves nothing |
| Session.DialogueAsks | server.go:513-595 | what PLAIN and LOGIN put to the authenticator, with and without an initial response |
| Session.Session.Simple | server.go:684-718 | replies and next states of the other commands, and the kill at the fifth unknown one |
| Session.Session.ReceiveData | server.go:720-759 | the envelope passed on holds the collected sender and recipients; then the transaction is empty |
| Session.Session.StartTlsTurn | server.go:761-783 | a successful upgrade ends transaction, EHLO and authentication; a failed handshake kills |
| Session.Session.Turn | server.go:401-806 | for each state what a turn does to trace and fields: the reply to each command and what it leaves, the delivery or failure of a text, the upgrade, the end |
| Session.Session.Run | server.go:401-806 | over any sequence of events each entry comes from one event, in order; after an accepted DATA whose reply went out the next event is delivered, once, to the recipients collected, unless it cannot be read or is too large |
| Session.TextsArePaired | server.go:704-759 | deliveries and failed texts come right after an accepted DATA, and after each such DATA comes one |
| Session.Conservation | server.go:647-759 | every envelope a session delivers holds, in order, the recipients answered 250 since the last reset, between 1 and 101 of them; each was accepted on an allowed host, or under the same login that holds at the delivery |
| Session.WasAccepted | server.go:647-682 | each collected recipient has its accepted RCPT since the last reset, and if its host is not allowed the login of then is that of now |
| Session.LawfulCovers | server.go:647-682 | at any time the collected recipients are within the limit and covered by the allowed hosts or the login |
| Session.StartForgottenIff | mail/envelope.go:249-255 | recipients an envelope came with are added to all deliveries until the first reset, and to none after it |
| Session.MailStartsIff | client.go:134-139 | an accepted MAIL opens a transaction exactly when its local part is not empty |
| Gateway.StepInv | backends/gateway.go:130-180 | every step of sessions, workers, timeouts and panics keeps the invariant |
| Gateway.EnvelopeExclusion | mail/envelope.go:228-235 | a session gets past the envelope lock only when no save job for its envelope is queued or running |
| Gateway.ExactlyOneNotification | backends/gateway.go:422-470 | a worker has notified about each message exactly as often as it took it, but for the one it is busy with, panics included |
| Gateway.AnswerIsItsOwn | backends/gateway.go:130-170 | a session that did not time out was told what came of its own message: a worker took it for that session, processed it and notified the session of that |
| Gateway.QueuedMeansSaved | backends/gateway.go:143-146 | a session is told that its message is queued only when processing it returned OK and a queue id |
| Gateway.PanicIsFailure | backends/gateway.go:432-446 | a session whose job panics is told that storage failed |
| Gateway.AnswersAre | backends/gateway.go:142-168 | which notification makes which answer |
| Gateway.FirstComeFirstServed | backends/gateway.go:136-139 | no message is lost on the conveyor, and they are taken in the order in which they were put there |
| Gateway.LockIsReleased | backends/gateway.go:170-177 | a locked envelope can be unlocked at once, or its message is on the conveyor or with a worker |
| Gateway.NotificationIsReceived | backends/gateway.go:143-178 | whenever a worker wants to notify, the session or its timeout goroutine receives, or can at once |
| Gateway.PooledIsIdle | backends/gateway.go:121-178 | a message in the free pool is not queued and belongs to no worker, session or goroutine |
| ClientPool.StepInv | pool.go:130-180 | every step of borrowing, returning and shutting down keeps the invariant |
| ClientPool.PoolBound | pool.go:130-166 | at most poolSize clients and envelopes exist, and neither Return ever discards one |
| ClientPool.EnvelopeNeverBlocks | mail/envelope.go:445-455 | with the server's order of returning, borrowing the envelope never blocks |
| ClientPool.NeverShared | pool.go:130-166 | no two connections have the same client or the same envelope |
| ClientPool.ShutdownChannelNeverUsed | pool.go:79-93 | a waiting borrower is never released by the shutdown channel; the shutdown waits for it instead |
| ClientPool.ShutdownLeavesNoneActive | pool.go:95-104 | when the shutdown wait is over no connection is being served or let in |
| ClientPool.BorrowSucceeds | pool.go:130-156 | a connection that finds the guard free and a place is served at once, with the head of each pool or something new when it is empty; while shutting down it is refused |
| ClientPool.ServingCanFinish | pool.go:157-167 | a served connection can always give everything back, and its client and envelope go to the ends of the pools |
| ClientPool.ReturnLetsIn | pool.go:157-167 | a waiting borrower is let in by the next return |
| ClientPool.StaysShut | pool.go:79-104 | from the first half of a shutdown to the second whoever arrives is refused |
| HotReload.Daemon.GetServers | config.go:272-278 | the configured servers by interface, the last entry of each |
| HotReload.Daemon.MakeServers | guerrilla.go:139-172 | exactly the missing servers are added, the others stay |
| HotReload.Daemon.Start | guerrilla.go:457-512 | exactly the enabled servers that are new or stopped become running, in any order |
| HotReload.Daemon.Shutdown | server.go:300-313 | the server is stopped, or the call never returns, and exactly when |
| HotReload.Daemon.EmitServerChanges | config.go:400-445 | the server ends in step with its new configuration, the others keep their state; timeouts change only if the enabled flag stays and the timeout changed, and then all become the new one |
| HotReload.Daemon.ServerNew | guerrilla.go:285-304 | all configured servers then exist in step with the configuration |
| HotReload.Daemon.ServerRemove | guerrilla.go:330-336 | the server is gone, or the call hangs, and exactly when |
| HotReload.Daemon.EmitChangeEvents | config.go:217-261 | in every visiting order the servers end up exactly those of the new configuration, each running exactly if enabled; it returns exactly unless a removed server was once started and is disabled; timeouts and listeners are those of visiting the new configurations in some order |
| ReloadRuns.TimeoutsFollowIff | config.go:400-445 | from timeouts in step, every visiting order ends in step exactly when no server in both configurations changes its timeout, or all new timeouts are equal and some server changes its timeout and not its enabled flag |
| ReloadRuns.EnabledKeepsOldTimeout | config.go:418-426 | a server enabled and given a new timeout in one reload keeps the old one |
| ReloadRuns.StartAndReload | config.go:217-261 | a started daemon goes through a run of reloads, settled and with the right listeners, up to the first that removes a server enabled once, configured ever since and disabled now |
| ReloadRuns.HeardIff | guerrilla.go:306-336 | the listeners ever opened are those of servers enabled once and configured ever since |
| ReloadRuns.EnableDisableRemove | guerrilla.go:319-336 | a run of that kind |
| RewriteFrom.RewriteFromHeader | backends/p_rewrite_from.go:107-166 | text and changed flag are those of the specification, and an error exactly without an end of the header |
| RewriteFrom.RewriteKeeps | backends/p_rewrite_from.go:129-166 | the body and all lines outside From fields stay in order; every From field becomes one replacement line |
| RewriteFrom.NoneAppear | backends/p_rewrite_from.go:111-121 | rewriting brings no end of the header that was not there |
| RewriteFrom.FoundIdempotent | backends/p_rewrite_from.go:107-166 | with a From line, a second rewrite returns the same bytes and changed=false |
| RewriteFrom.IdempotentIff | backends/p_rewrite_from.go:107-166 | exactly when it does for any message |
| RewriteFrom.BlankFirstLine | backends/p_rewrite_from.go:158-161 | a concrete message for which it does not |
| RewriteFrom.UnchangedIff | backends/p_rewrite_from.go:145-154 | changed=false means the bytes are the same exactly when no From field had a continuation |
| RewriteMessages.OneFrom | backends/p_rewrite_from.go:107-166 | a message with one From field: the field, with its continuations, becomes the line `From: ` and the address, every other byte stays, and changed says whether the line is another |
| RewriteMessages.NoFrom | backends/p_rewrite_from.go:158-161 | without a From field that line comes first |
| RewriteMessages.FailsIff | backends/p_rewrite_from.go:107-121 | it fails exactly on messages without an empty line |

## Left out

- Rfc5321Commands.MailFromLanguage: for paths without a source route; those with a well-formed one are in RoutedMailLanguage, and for an ill-formed one, whose error the code drops, only the parser methods say what is read.
- Session.Conservation: the allowed hosts, the TLS settings and the presence of an authenticator are fixed for a session; a reload in the middle of one is not part of this model.
- Session.Session.Simple: the attributes that XCLIENT sets (remote address and HELO name) are not modelled, nor is their parsing.
- Gateway.EnvelopeExclusion: save jobs only; recipient validation shares the workers, but the session takes the recipient back without the envelope lock.
- Gateway.StepInv: the gateway's own state, its stopping and restarting are only modelled as workers that stop while idle and start again; that queued jobs are finished across a shutdown is not claimed.
- HotReload.Daemon.EmitChangeEvents: servers are values in the daemon's map, so that two entries could share one object is not captured; configurations are valid, interfaces distinct, and every bind succeeds; a change is any difference between two configurations; log files, TLS files, the pid file and the backend are not part of the state.
- HotReload.Daemon.Shutdown: a call that waits for ever is a result instead of a hang.
- ImapSync.FolderSync.SyncFolder: one folder at a time; other folders write other rows, and goroutines left behind by the session timeout are not modelled.
- ImapWatch.Watch: the waiting between two syncs (IDLE, the timer) and reconnecting are not steps of it, and which folders are watched and in what order is not modelled.
- ImapBatches.Fate: an answer whose headers parse but are empty is retried and then handed on as it is; a message without a Message-ID cannot be remembered.
- ImapCursors.Tiles: needs every baseline below the largest 32-bit UID; `TopBaselineFallsBack` shows why.
- AliasStore.Store.PurgeExpired: a failed statement has no effect, and seen_at columns, which nothing reads, are not kept.
- RewriteFrom.IdempotentIff: for a replacement address without CR and LF.
- Bytes are characters, and only ASCII white space, case and digits are known; bytes above 127 have no case.
- net.ParseIP, net.IP.String, base64 and bytes.Fields are functions the properties quantify over; what is relied on of the first two is `IpContract` and `IpTextContract`.
- The RFC 5322 address parser, MIME header decoding, the SQL batcher of the older backend and the sending processors are not part of this model.
- Sockets, TLS handshakes, dot-stuffing, the IMAP and POP3 wire protocols, HTTP authentication and SQLite itself appear as outcomes of a call.
- Wildcard matching of hosts, response texts, greetings, logging, statistics, timing and the reading of configuration files are out of scope: the results speak of an arbitrary set of allowed hosts, of outcomes and of parsed configurations.
