# mailProc in Dafny

A model of the core of mailProc, a small Python framework. It does four things:

- It dispatches incoming email to handler functions. Handlers are registered with route templates such as `<name>@example.com`. The dispatcher matches each message's sender address against one table of templates and its subject against another.
- It reads helper views of a message: its sender, its subject, its text body and the first JSON attachment.
- It composes outgoing messages, with an optional JSON attachment that may be base64-encoded and gzipped.
- It moves mail through transports:
  - a sender over SMTP;
  - a sender and a receiver that use a directory of `.eml` files;
  - a receiver that pulls unseen mail over IMAP;
  - an IMAP IDLE receiver that stays connected and feeds every new batch to a callback.

The modules follow the program's files:

| module | file | what it holds |
|---|---|---|
| `Base` | base.dfy | `Option`, `Result`, the exceptions the code raises or catches, bytes, `str.strip` |
| `Codecs` | codecs.dfy | JSON values; the library codecs the code calls, as a record of functions (`Lib`); the round-trip hypotheses about them |
| `Mime` | mime.dfy | a message as a tree of parts, `msg[name]`, `walk()` |
| `RoutePattern`, `RouteFacts` | route_pattern.dfy | template rewriting (`build_route_pattern`), the anchored greedy matcher of the rewritten regular expression, its soundness and completeness, facts about single-placeholder templates |
| `EmailView` | email_view.dfy | the `Email` helper methods |
| `Compose` | compose.dfy | `create_message`, and the attachment round trip with `get_json_attachment` |
| `Dispatch`, `DispatchScenarios` | mailproc.dfy | the `Mailproc` class (`route`, `serve_route`, `serve`, `run`) and the repository's dispatch tests |
| `Smtp` | smtp.dfy | the SMTP sender, against a server that accepts or refuses each command |
| `Files` | files.dfy | a directory, the file sender and receiver, and the send/receive test |
| `Imap` | imap.dfy | an IMAP server connection (imaplib's client states, tags, flags, SEARCH/FETCH/STORE/EXPUNGE), the pull receiver |
| `ImapIdle` | imap_idle.dfy | the IDLE receiver's loop |

Every state-changing part of the source is a class whose methods update its fields:

- `Mailproc.routes` is `routes_actions`. `calls` records every handler call.
- `Directory` is the file system directory.
- `SmtpSender.sent` holds the commands issued to the server.
- `Connection` holds the mailboxes, the client state, the tag counter, what was written to the socket and what the server sends unprompted.
- `IdleReceiver.steps` and `calls` record the loop's actions and the callback's arguments.

Each such method is proved against a function of the old state (`RunAll`, `ServedAll`, `Written`, `Accepted`/`Rejected`, `Hits`/`Messages`/`After`, `IdlePlan`). Lemmas then prove what the source promises about those functions.

With `idle_loop` off, the IDLE receiver does not wait for mail at all. Its docstring (mailproc/transports/imap_idle_receiver_transport.py:32) describes the flag as restarting the IDLE connection on a timeout, but the loop guard at line 69, `self.idle_loop or line.endswith(idle_finish)`, is false on entry when `idle_loop` is off, because `line` starts empty. `get_mails` therefore returns right after the first IDLE command. `ImapIdle.IdlePlan` and `ImapIdle.CallbackCount` state the code's behaviour.

`get_json_attachment` answers `False` when it finds nothing. The model writes that `False` as `Ok(None)`, and it writes a raised exception as `Err`.

## Model

| member | source | states |
|---|---|---|
| Base.StripSpec | mailproc/transports/imap_idle_receiver_transport.py:75 | `strip()` returns a contiguous slice of the line. Only whitespace is removed on either side, and the result neither begins nor ends with whitespace. |
| Base.Join | mailproc/transports/base_sender_transport.py:79-81 | `', '.join(xs)` is empty for no items, the item itself for one, and starts with the first item otherwise |
| Mime.GetHeader | mailproc/mailproc_email.py:57 | `msg[name]` is None exactly when no header has that name up to ASCII case; otherwise it is the value of the first such header |
| Mime.GetHeaderCaseInsensitive | mailproc/mailproc_email.py:57 | header lookup ignores the case of the name: names equal up to ASCII case find the same value |
| Mime.Filename | mailproc/mailproc_email.py:127 | `get_filename()` is the stripped `filename` parameter of Content-Disposition, or else the stripped `name` parameter of Content-Type, and None exactly when neither is present |
| Mime.Walk | mailproc/mailproc_email.py:120 | `walk()` yields the part itself first, then its descendants |
| Mime.WalkAllAppend | mailproc/mailproc_email.py:33-37 | walking a list of parts is walking each in turn (pre-order over siblings) |
| RoutePattern.WordRun | mailproc/mailproc.py:122 | the `\w+` run at the head of a string is maximal: every character in it is a word character and the next one is not |
| RoutePattern.PlaceholderAt | mailproc/mailproc.py:122 | a non-zero answer is a `<word>` placeholder closing at that index |
| RoutePattern.PlaceholderUnique | mailproc/mailproc.py:122 | a placeholder at the head of a template closes at exactly one place |
| RoutePattern.TokenizeRender | mailproc/mailproc.py:122 | rewriting loses nothing: rendering the tokens of a template gives the template back |
| RoutePattern.TokenizeHoles | mailproc/mailproc.py:122 | every placeholder the rewrite turns into a named group has a `\w+` name |
| RoutePattern.CheckNames | mailproc/mailproc.py:123 | when `re.compile` raises no group-name error, the group names are pairwise distinct and disjoint from those already seen |
| RoutePattern.BuildRoutePattern | mailproc/mailproc.py:114-123 | with every other metacharacter taken literally, compilation succeeds exactly when the group-name check passes: no placeholder name repeats and none starts with a digit. On success it yields the rewritten template, whose group names are distinct. |
| RoutePattern.TryHole | mailproc/mailproc.py:122 | a `(?P<name>.+)` group that matches captures a non-empty prefix of the remaining text, no longer than the bound tried |
| RoutePattern.FitsFrame | mailproc/mailproc.py:122-123 | whether a capture map fits a pattern does not depend on captures for names outside the pattern |
| RoutePattern.FitsKeys | mailproc/mailproc.py:122-123 | a capture map that fits a pattern binds every group name of the pattern |
| RoutePattern.MatchSound | mailproc/mailproc.py:122-123 | when `match` succeeds, `groupdict()` binds exactly the pattern's group names, and the path is the template with those values substituted |
| RoutePattern.TryHoleSound | mailproc/mailproc.py:122-123 | a successful greedy try of a group binds exactly the group names of the group and the rest, and the captures fit |
| RoutePattern.MatchComplete | mailproc/mailproc.py:122-123 | when any capture map fits the path, `match` succeeds: the matcher misses no match |
| RoutePattern.TryHoleFinds | mailproc/mailproc.py:122-123 | if some single-line split lets the rest match, trying the group with at least that length succeeds |
| RoutePattern.FirstHoleGreedy | mailproc/mailproc.py:122 | the first group's capture is the longest one that lets the rest match: no longer single-line split works |
| RoutePattern.FitsIffSubstitute | mailproc/mailproc.py:122-123 | a template without `.` fits a path exactly when the path is the template with the captures substituted, optionally followed by one `\n` (`$`), and every capture is non-empty and single-line |
| RouteFacts.TokenizeHoleFirst | mailproc/mailproc.py:122 | a template starting with a placeholder rewrites to that group followed by the rewrite of the rest |
| RouteFacts.PlainTokens | mailproc/mailproc.py:122 | a placeholder-free prefix rewrites character by character, with no group, independently of what follows |
| RouteFacts.PlainNoHole | mailproc/mailproc.py:122 | a placeholder-free template has as many tokens as characters and no group |
| RouteFacts.PlainPrefix | mailproc/mailproc.py:122-123 | a placeholder-free prefix fits the same text in front of any fitting path |
| RouteFacts.NoHoleLength | mailproc/mailproc.py:122-123 | a group-free pattern fits only single-line paths of its own length |
| RouteFacts.SingleHoleUnique | mailproc/mailproc.py:122-123 | a one-group pattern admits at most one capture for a single-line path |
| RouteFacts.NoHoleNames | mailproc/mailproc.py:122 | a group-free pattern has no group names |
| RouteFacts.HoleCountAppend | mailproc/mailproc.py:122 | group counts add up over concatenation |
| RouteFacts.OneHoleDistinct | mailproc/mailproc.py:123 | a pattern with at most one group has distinct group names |
| RouteFacts.CheckNamesPlain | mailproc/mailproc.py:123 | a group-free prefix does not change the group-name check |
| RouteFacts.HoleFirst | mailproc/mailproc.py:122 | `<w>` followed by text rewrites to the group `w` followed by the rewrite of the text |
| RouteFacts.OneHoleTokens | mailproc/mailproc.py:122 | `u<w>v` with a placeholder-free `u` rewrites to the tokens of `u`, the group `w` and the tokens of `v` |
| RouteFacts.PlainFits | mailproc/mailproc.py:122-123 | a placeholder-free template fits itself |
| RouteFacts.OneHoleChecks | mailproc/mailproc.py:123 | one group whose name does not start with a digit, followed by literal text, passes the group-name check |
| RouteFacts.OneHoleCompiles | mailproc/mailproc.py:114-123 | a template `u<w>v`, with no other placeholder and with a name that does not start with a digit, compiles |
| RouteFacts.OneHoleNames | mailproc/mailproc.py:123 | the rewritten `u<w>v` passes the group-name check |
| RouteFacts.OneHoleFits | mailproc/mailproc.py:122-123 | `u x v` fits `u<w>v` with `w` bound to any non-empty single-line `x` |
| RouteFacts.NoNewlineConcat | mailproc/mailproc.py:122 | literal text around a single-line value stays single-line |
| RouteFacts.SingleHoleMatch | mailproc/mailproc.py:122-123 | for a one-group pattern and a single-line path, `match` returns exactly the capture that fits |
| RouteFacts.OneHoleShape | mailproc/mailproc.py:122 | the rewritten `u<w>v` has one group, named `w` |
| RouteFacts.OneHoleMatch | mailproc/mailproc.py:114-123 | `u<w>v` compiles, and matching it against `u x v` yields `{w: x}`. This is the behaviour the route tests rely on. |
| RouteFacts.LiteralPrefixMismatch | mailproc/mailproc.py:122-123 | a pattern whose literal prefix (without `.`) does not start the path does not match |
| RouteFacts.OneHoleMismatch | mailproc/mailproc.py:122-123 | `u<w>v` does not match a path that does not start with `u` |
| RouteFacts.HoleNamesAppend | mailproc/mailproc.py:122 | group names are the union over concatenation |
| Dispatch.FirstMatchSpec | mailproc/mailproc.py:155-169 | `get_route_match` finds nothing exactly when no entry matches. Otherwise it returns the captures and handler of the first matching entry in registration order. |
| Dispatch.FirstMatchAppend | mailproc/mailproc.py:165-169 | registering a new route never changes an existing match; the new route wins only when no earlier one matches |
| Dispatch.OverlaySpec | mailproc/mailproc.py:185-186 | the handler's keyword arguments are the caller's and the captures. A capture overrides a caller keyword of the same name. |
| Dispatch.ServeSwallows | mailproc/mailproc.py:192-199 | `serve` never lets a RouteError escape |
| Dispatch.ServeEveryTarget | mailproc/mailproc.py:192-199 | with no `in_routes`, `serve` tries `from` then `subject`, calling each table's first match, and returns normally when handlers do |
| Dispatch.RunAllSnoc | mailproc/mailproc.py:220-236 | `run` over one more message is `run` over the prefix followed by that message's handling |
| Dispatch.ServedAllSnoc | mailproc/mailproc.py:195-199 | `serve` over one more target is `serve` over the prefix followed by that target, with its RouteError swallowed |
| Dispatch.RunStops | mailproc/mailproc.py:220-236 | once one message's handling raises, the remaining messages are not handled |
| Dispatch.NotMessageStops | mailproc/mailproc.py:222-224 | an item that is not a Message raises MessageInstanceError after the earlier messages' handler calls, and nothing after it runs |
| Dispatch.RunSwallows | mailproc/mailproc.py:228-236 | `run` never lets a RouteError escape |
| Dispatch.HandlerErrorPropagates | mailproc/mailproc.py:228-231 | an exception other than RouteError raised by the sender-route handler leaves `run`. That handler is the only one called. |
| Dispatch.UndecodableSubject | mailproc/mailproc.py:233-236 | a subject `decode_mime_words` cannot decode ends `run` with that exception, right after the sender route was served |
| Dispatch.Mailproc.constructor | mailproc/mailproc.py:41-46 | a new application has empty `from` and `subject` tables and has called nothing |
| Dispatch.Mailproc.Route | mailproc/mailproc.py:125-137 | `route(rule, target)(f)`: an uncompilable rule raises. An unknown target raises KeyError. Otherwise `f` is appended to that table and returned, and nothing else changes. |
| Dispatch.Mailproc.RouteFrom | mailproc/mailproc.py:139-145 | `route_from` appends to the `from` table or raises the compile error |
| Dispatch.Mailproc.RouteSubject | mailproc/mailproc.py:147-153 | `route_subject` appends to the `subject` table or raises the compile error |
| Dispatch.Mailproc.GetRouteMatch | mailproc/mailproc.py:155-169 | KeyError exactly for a target without a table; otherwise the first match in that table |
| Dispatch.Mailproc.ServeRoute | mailproc/mailproc.py:171-190 | the calls made and the outcome are those of `Served`: the match's handler is called with the overlaid keywords; no match raises RouteError |
| Dispatch.Mailproc.Serve | mailproc/mailproc.py:192-199 | the loop makes the calls of `ServedAll` over `in_routes`, or over both tables when it is empty, ending as `ServedAll` does |
| Dispatch.Mailproc.Run | mailproc/mailproc.py:213-236 | the loop makes exactly the calls of `RunAll` over the mails, in order, and ends as `RunAll` does; the tables are unchanged |
| Dispatch.Mailproc.HandleOne | mailproc/mailproc.py:220-236 | one mail: MessageInstanceError for a non-Message; otherwise the sender route, then reading the decoded subject and its route, each tolerating RouteError; an absent or undecodable subject ends the mail with its exception |
| Dispatch.RunOn | mailproc/mailproc.py:195-199 | once one target raises, `serve` does not try the remaining targets |
| DispatchScenarios.OneRouteMatches | tests/test_routes.py:15-22 | a table holding `u<w>v` sends `u x v` to its handler with `{w: x}` |
| DispatchScenarios.HandledBoth | mailproc/mailproc.py:228-236 | a message matching both tables calls the `from` handler and then the `subject` handler, each with `mail` and its captures |
| DispatchScenarios.HandledWith | mailproc/mailproc.py:228-236 | the same as HandledBoth, with the keyword maps written out |
| DispatchScenarios.RunOne | mailproc/mailproc.py:220-236 | `run([m])` is the handling of `m` |
| DispatchScenarios.RunTwo | mailproc/mailproc.py:220-236 | `run([m1, m2])` makes `m1`'s calls, then `m2`'s calls |
| DispatchScenarios.OverlayOne | mailproc/mailproc.py:185-186 | `mail=m` overlaid with one capture gives both keywords |
| DispatchScenarios.TwoRoutes | tests/test_routes.py:15-33 | registering one `from` and one `subject` template yields those two one-entry tables |
| DispatchScenarios.RoutesTest | tests/test_routes.py:8-40 | running a message whose sender and subject fit the two templates calls each handler once, with the captured name and the mail |
| DispatchScenarios.SubjectFirst | tests/test_global.py:52-64 | a subject fitting the first subject template goes to the first handler |
| DispatchScenarios.SubjectSecond | tests/test_global.py:52-64 | a subject not starting with the first template's literal prefix falls through to the second template |
| DispatchScenarios.TwoEntries | mailproc/mailproc.py:165-169 | a two-entry table answers with the first entry that matches |
| DispatchScenarios.ThreeRoutes | tests/test_global.py:45-64 | the three registrations of the global test build those tables |
| DispatchScenarios.GlobalTest | tests/test_global.py:35-70 | running the two sent mails makes four calls: the `from` handler twice, the `hello` handler once and the `this` handler once, each with its capture |
| EmailView.WithoutAlternatives | mailproc/mailproc_email.py:33-37 | `_walk_email` keeps exactly the walked parts that are not multipart/alternative |
| EmailView.WithoutAlternativesAppend | mailproc/mailproc_email.py:33-37 | the filter distributes over concatenated walks |
| EmailView.GetFromAddress | mailproc/mailproc_email.py:59-65 | the address `parseaddr` extracts from the first From header; empty when there is none |
| EmailView.GetFromName | mailproc/mailproc_email.py:67-77 | the display name `parseaddr` extracts; when asked to decode, the decoded name, or the exception decoding it raises |
| EmailView.GetSubject | mailproc/mailproc_email.py:79-89 | without decoding, the first Subject header (any case of the name), or None. With decoding, an absent subject raises TypeError; a present one fails exactly when `decode_mime_words` raises on it, with its exception, and otherwise is the decoded text. |
| EmailView.BodyTextFailure | mailproc/mailproc_email.py:98-103 | `get_body` raises exactly when some part of the wanted type fails to decode, and then with the first failing part's exception. It is `''` when no part has that type. |
| EmailView.BodyTextAppend | mailproc/mailproc_email.py:98-103 | the body of concatenated part lists is the first body followed by the second, unless the first raises |
| EmailView.PrefixedTwice | mailproc/mailproc_email.py:102 | accumulating two texts in front of a result is accumulating their concatenation |
| EmailView.GetBody | mailproc/mailproc_email.py:91-103 | the loop returns the concatenated decoded payloads of the non-alternative parts of the wanted type, in walk order, or the first decoding error |
| EmailView.FirstJsonSpec | mailproc/mailproc_email.py:120-168 | the scan answers `False` exactly when every part is skipped by the filters or by a swallowed ValueError. Otherwise the first part not skipped decides: its JSON value or the exception it raises. |
| EmailView.FirstJsonAppend | mailproc/mailproc_email.py:120-168 | scanning concatenated lists scans the second only when the first yields nothing |
| EmailView.DecodePayload | mailproc/mailproc_email.py:137-166 | the staged decoding (gunzip, base64, charset, JSON) gives `DecodeAttachment`'s verdict for the part |
| EmailView.GetJsonAttachment | mailproc/mailproc_email.py:105-168 | `False` for a non-multipart message; otherwise the loop's answer is `FirstJson` over `walk()` |
| Compose.CreateMessage | mailproc/transports/base_sender_transport.py:54-138 | the method builds `MessageFor`: the root with its headers, the body part, and the attachment when the JSON value is truthy, or the codec exception |
| Compose.CreatedHeaders | mailproc/transports/base_sender_transport.py:74-81 | the message carries Subject, From, To (joined with `, ` for a list) and Bcc only when the Bcc list is non-empty |
| Compose.ToHeaderJoins | mailproc/transports/smtp_sender_transport.py:85-86 | turning a string recipient into a one-element list leaves the To header unchanged: it is always the list joined with `, ` |
| Compose.NormalizedMessage | mailproc/transports/smtp_sender_transport.py:85-99 | the message built from the normalised recipient list is the one `create_message` builds from the caller's own value |
| Compose.CreatedSender | mailproc/mailproc_email.py:59-89 | reading a created message back, the sender address and name are what `parseaddr` makes of the From value, and the undecoded subject is the subject sent |
| Compose.HeaderValues | mailproc/transports/base_sender_transport.py:74-81 | the same header facts about the header list alone |
| Compose.CreatedShape | mailproc/transports/base_sender_transport.py:72-136 | the message is shaped as follows. The root is multipart/mixed. Its first child is text/plain, or multipart/alternative holding plain then HTML when there is HTML. A second child exists only for a truthy JSON value: an attachment with the filename, typed application/x-gzip with base64 transfer encoding when gzipped, and text/plain otherwise. |
| Compose.AttachmentRoundTrip | mailproc/transports/base_sender_transport.py:100-136 | under faithful codecs, the attachment part is built, and decoding its payload with the same base64 and gzip flags and encoding parses back to the JSON value sent |
| Compose.JsonAttachmentRoundTrip | tests/test_email.py:24-97 | `get_json_attachment` with matching flags returns the JSON value `create_message` attached, for all four flag combinations |
| Compose.AttachmentSelected | mailproc/mailproc_email.py:120-134 | the attachment passes the receiver's filters for its own filename, as `get_filename` strips it, or for no name |
| Compose.CreatedWalk | mailproc/transports/base_sender_transport.py:72-136 | walking the message visits the root, the body part's subtree, then the attachment |
| Compose.BodyWalk | mailproc/transports/base_sender_transport.py:84-98 | no part of the body subtree carries a Content-Disposition |
| Compose.LeafWalk | mailproc/mailproc_email.py:120 | walking leaves yields them unchanged |
| Compose.NoneSelected | mailproc/mailproc_email.py:120-134 | when no part passes the filters, `get_json_attachment` finds nothing |
| Compose.NoAttachmentWhenFalsy | mailproc/transports/base_sender_transport.py:100 | a falsy JSON value attaches nothing, so the receiver finds nothing |
| Compose.TextPartReads | mailproc/transports/base_sender_transport.py:89-90 | a text part built by `MIMEText` has that content type and decodes back to its text |
| Compose.BodyPartReads | mailproc/transports/base_sender_transport.py:84-98 | `get_body` of the body part gives back the plain text, and the HTML (empty when none) |
| Compose.SingleReads | mailproc/transports/base_sender_transport.py:98 | a lone plain part reads as its text for plain and as empty for HTML |
| Compose.AlternativeReads | mailproc/transports/base_sender_transport.py:84-95 | a multipart/alternative of plain and HTML reads as each text for its type |
| Compose.AlternativeLeaves | mailproc/mailproc_email.py:33-37 | `_walk_email` over the alternative yields its two leaves |
| Compose.PairReads | mailproc/mailproc_email.py:98-103 | a plain and an HTML part read as each text for its type |
| Compose.CreatedBody | mailproc/transports/base_sender_transport.py:72-136 | the following holds under faithful codecs. `get_body(html=True)` of a created message is the HTML sent. `get_body()` is the text sent when no attachment or a gzipped one is made. A plain JSON attachment is itself text/plain, so its JSON text follows the body. |
| Compose.CreatedParts | mailproc/transports/base_sender_transport.py:72-136 | the parts `_walk_email` yields are the root, the body part's parts and the attachment |
| Compose.ThreeReads | mailproc/mailproc_email.py:98-103 | the body of three concatenated part lists concatenates their bodies |
| Compose.RootReads | mailproc/mailproc_email.py:98-103 | the multipart/mixed root contributes nothing to either body |
| Compose.AttachmentReads | mailproc/transports/base_sender_transport.py:100-136 | the attachment contributes nothing to the HTML body. It contributes nothing to the plain body when absent or gzipped, and its JSON text when plain. |
| Smtp.ConnectPlan | mailproc/transports/smtp_sender_transport.py:42-57 | `connect` opens (SSL or not, with the truthy port), then does EHLO/STARTTLS/EHLO when TLS is on, then logs in when a username is set, in that order |
| Smtp.PortZeroIsDefault | mailproc/transports/smtp_sender_transport.py:47 | port 0 and no port both open the connection with smtplib's default port; any other port is passed on |
| Smtp.SmtpLogIsToHeader | mailproc/transports/smtp_sender_transport.py:90-91 | without a log value of its own, the SMTP sender logs exactly the To header of the message it sends |
| Smtp.FirstRefused | mailproc/transports/smtp_sender_transport.py:42-57 | the first command the server refuses, if any, is the first one for which it says no |
| Smtp.AcceptedBefore | mailproc/transports/smtp_sender_transport.py:42-57 | every command before the first refused one was accepted |
| Smtp.NoneRefused | mailproc/transports/smtp_sender_transport.py:42-57 | nothing is refused exactly when the server accepts every command of the plan |
| Smtp.Refused | mailproc/transports/smtp_sender_transport.py:42-57 | a command reached is accepted exactly when the refusal comes later |
| Smtp.Envelope | mailproc/transports/smtp_sender_transport.py:84-89 | the envelope recipients are the To addresses followed by the Bcc addresses, with nothing else |
| Smtp.SmtpSender.constructor | mailproc/transports/smtp_sender_transport.py:33-40 | the settings are kept and there is no connection yet |
| Smtp.SmtpSender.Issue | mailproc/transports/smtp_sender_transport.py:42-57 | one command is appended to the session and answered by the server |
| Smtp.SmtpSender.Connect | mailproc/transports/smtp_sender_transport.py:42-57 | the commands up to and including the first refused one are issued. Success, and the connection being stored, happen exactly when none is refused; a refusal raises SmtpError. |
| Smtp.SmtpSender.Step | mailproc/transports/smtp_sender_transport.py:49-55 | issuing the next command of the plan extends the session by it, and it is accepted exactly when the refusal is later |
| Smtp.SmtpSender.Close | mailproc/transports/smtp_sender_transport.py:59-63 | `close` before `connect` raises AttributeError; after a close the `quit` fails; otherwise QUIT is sent |
| Smtp.SmtpSender.SendMail | mailproc/transports/smtp_sender_transport.py:65-108 | `sendmail` is issued with the envelope only when the message is built and a connection exists. The result is true exactly when the server accepts it, and one SEND or SEND FAIL line is logged with the log value. |
| Smtp.SendOnce | mailproc/transports/smtp_sender_transport.py:42-108 | connect, send and close against an accepting server issue exactly open, send and quit, and the send succeeds |
| Files.WrittenLength | mailproc/transports/file_sender_transport.py:79-81 | writing a new file name appends one entry; rewriting an existing one keeps the count |
| Files.WrittenAt | mailproc/transports/file_sender_transport.py:79-81 | after `open(path, 'w')` every other file is unchanged and the named file holds the new content |
| Files.WrittenDistinct | mailproc/transports/file_sender_transport.py:79-81 | writing keeps file names unique |
| Files.Without | mailproc/transports/file_receiver_transport.py:57-58 | unlinking removes exactly the entries with that name |
| Files.WithoutAppend | mailproc/transports/file_receiver_transport.py:57-58 | unlinking distributes over a split listing |
| Files.Directory.constructor | mailproc/transports/file_receiver_transport.py:25-26 | a new directory is empty |
| Files.Directory.Write | mailproc/transports/file_sender_transport.py:79-81 | a write succeeds exactly when the directory is writable, and then the entries are `Written(old, name, content)` |
| Files.Directory.Unlink | mailproc/transports/file_receiver_transport.py:57-58 | an unlink succeeds exactly when the directory is writable and the file exists, and then removes it |
| Files.WithoutDistinct | mailproc/transports/file_receiver_transport.py:57-58 | unlinking keeps names unique |
| Files.LastDot | mailproc/transports/file_receiver_transport.py:49 | the index of the last `.`, or -1 when there is none |
| Files.ExtShape | mailproc/transports/file_receiver_transport.py:49 | `splitext(name)[1]` is empty, or a dot-led, dot-free suffix of the name |
| Files.ExtOfSuffix | mailproc/transports/file_sender_transport.py:78 | a stem that is not all dots followed by `.eml` has extension `.eml` |
| Files.FileReceiver.constructor | mailproc/transports/file_receiver_transport.py:25-26 | the receiver reads the given directory |
| Files.FileReceiver.GetMails | mailproc/transports/file_receiver_transport.py:34-60 | the result is the contents of the files with the wanted extension, in listing order. With `delete`, exactly those files are removed and the rest stay in order; without it the directory is unchanged. It raises OSError exactly when deleting from a read-only directory that holds at least one such file. |
| Files.FileReceiver.Discard | mailproc/transports/file_receiver_transport.py:57-58 | unlinking the current file moves it from the remaining listing to the consumed one |
| Files.RemainingDistinct | mailproc/transports/file_receiver_transport.py:45-58 | the kept files followed by the unread ones have unique names |
| Files.KeepStep | mailproc/transports/file_receiver_transport.py:48-50 | a file with another extension stays in the directory |
| Files.RemoveStep | mailproc/transports/file_receiver_transport.py:57-58 | the accepted file is present, and unlinking it leaves the kept files and the unread ones |
| Files.FailStep | mailproc/transports/file_receiver_transport.py:57-58 | when the first accepted file cannot be unlinked, the directory is untouched and some file was accepted |
| Files.ListingStep | mailproc/transports/file_receiver_transport.py:47-58 | one more listed file is accepted or kept according to its extension |
| Files.NoneAccepted | mailproc/transports/file_receiver_transport.py:47-58 | when no file has the extension, all are kept |
| Files.AcceptedGrows | mailproc/transports/file_receiver_transport.py:47-56 | a listing holding one accepted file accepts something |
| Files.UnlinkAt | mailproc/transports/file_receiver_transport.py:57-58 | unlinking a listed file removes exactly that position |
| Files.Digits | mailproc/transports/file_sender_transport.py:76 | a zero-padded field has exactly its width and only digits |
| Files.DigitsRoundTrip | mailproc/transports/file_sender_transport.py:76 | a zero-padded field reads back as its number |
| Files.Stamp | mailproc/transports/file_sender_transport.py:76 | `%Y-%m-%d_%H:%M:%S.%f` is 26 characters, starts with a digit and has exactly one `.`, at index 19, before the microseconds |
| Files.FileLogIsRecipients | mailproc/transports/file_sender_transport.py:63-66 | without a log value of its own, the file sender logs the recipients as a list, one element for a string recipient, which joined with `, ` is the To header |
| Files.FileNameExtension | mailproc/transports/file_sender_transport.py:76-78 | the generated file name has extension `.eml` and 39 characters |
| Files.FileSender.constructor | mailproc/transports/file_sender_transport.py:34-35 | the sender writes to the given directory and has logged nothing |
| Files.FileSender.SendMail | mailproc/transports/file_sender_transport.py:43-88 | the result is true exactly when the message is built and the file written. The file is named from the clock and the random suffix and holds the message, no other file changes, and one SEND or SEND FAIL line is logged. |
| Files.TwoWritten | mailproc/transports/file_sender_transport.py:79-81 | two writes under distinct names leave both files with their contents, listed in creation order (the model's listing order) |
| Files.BothAccepted | mailproc/transports/file_receiver_transport.py:47-56 | two `.eml` files are both read |
| Files.SendTwiceReceiveTwice | tests/test_global.py:11-32 | two sends leave two files, and `get_mails` returns both messages |
| Imap.HitsSpec | mailproc/transports/imap_receiver_transport.py:80-81 | SEARCH returns exactly the sequence numbers of the matching messages, increasing and in range |
| Imap.MessagesSpec | mailproc/transports/imap_receiver_transport.py:83-90 | the fetched list has one message per number, the message at that number |
| Imap.Marked | mailproc/transports/imap_receiver_transport.py:93-97 | setting flags keeps the mailbox size |
| Imap.FetchCmds | mailproc/transports/imap_receiver_transport.py:83-84 | one FETCH per hit |
| Imap.StoreCmds | mailproc/transports/imap_receiver_transport.py:93-97 | one STORE per hit, two with `delete` |
| Imap.StoreCmdsFor | mailproc/transports/imap_receiver_transport.py:94-97 | `+FLAGS \Seen`, then `+FLAGS \Deleted` with `delete` |
| Imap.Numbered | mailproc/transports/imap_idle_receiver_transport.py:92 | tagging keeps one tagged line per command |
| Imap.ProcessWire | mailproc/transports/imap_receiver_transport.py:83-99 | the fetch/store/expunge phase writes the FETCHes, then the STOREs, then EXPUNGE with `delete`, with consecutive tags |
| Imap.MarkOne | mailproc/transports/imap_receiver_transport.py:93-97 | flagging one more message extends the marked set by it |
| Imap.MarkedNone | mailproc/transports/imap_receiver_transport.py:93 | flagging no message changes nothing |
| Imap.MarkedMessages | mailproc/transports/imap_receiver_transport.py:93-97 | setting flags never changes a message's content |
| Imap.MarkedTwice | mailproc/transports/imap_receiver_transport.py:93-94 | `\Seen` set by FETCH, then set again by STORE, is the same as setting it once |
| Imap.Connection.constructor | mailproc/transports/imap_receiver_transport.py:45-47 | a fresh connection is not authenticated, has sent nothing and has read nothing |
| Imap.Connection.NewTag | mailproc/transports/imap_idle_receiver_transport.py:92 | `_new_tag` returns the counter and advances it, and changes nothing else |
| Imap.Connection.Issue | mailproc/transports/imap_receiver_transport.py:77-99 | a command takes a fresh tag and is written unless the peer is gone |
| Imap.Connection.Login | mailproc/transports/imap_receiver_transport.py:49 | LOGIN is legal only before authentication. It succeeds exactly on accepted credentials and moves to AUTH; a dropped peer aborts. |
| Imap.Connection.Select | mailproc/transports/imap_receiver_transport.py:77 | SELECT is legal in AUTH or SELECTED. An existing mailbox becomes the selected one; a missing one answers NO and leaves AUTH. |
| Imap.Connection.Search | mailproc/transports/imap_receiver_transport.py:80 | SEARCH is legal only when SELECTED and returns the hits in the selected mailbox |
| Imap.Connection.Fetch | mailproc/transports/imap_receiver_transport.py:84 | FETCH returns the message at that number and sets its `\Seen` flag; it is legal only when SELECTED |
| Imap.Connection.Store | mailproc/transports/imap_receiver_transport.py:94-97 | STORE `+FLAGS` adds the flag to that message only; it is legal only when SELECTED |
| Imap.Connection.Expunge | mailproc/transports/imap_receiver_transport.py:98-99 | EXPUNGE removes the `\Deleted` messages of the selected mailbox |
| Imap.Connection.Close | mailproc/transports/imap_receiver_transport.py:63 | CLOSE expunges and returns to AUTH; it is illegal when nothing is selected, and aborts when the peer is gone |
| Imap.Connection.Logout | mailproc/transports/imap_receiver_transport.py:64 | LOGOUT always ends the session and never raises |
| Imap.Connection.Send | mailproc/transports/imap_idle_receiver_transport.py:81 | a raw line is written, or OSError when the peer has closed |
| Imap.Connection.ReadLine | mailproc/transports/imap_idle_receiver_transport.py:75 | `readline` returns the next unprompted line and delivers its new mail; at end of stream or after a close it returns empty |
| Imap.FetchEach | mailproc/transports/imap_receiver_transport.py:83-90 | the fetch loop returns the hits' messages in order, marks them `\Seen` and writes one tagged FETCH each |
| Imap.FlagId | mailproc/transports/imap_receiver_transport.py:94-97 | one hit gets `\Seen`, and `\Deleted` with `delete` |
| Imap.FlagEach | mailproc/transports/imap_receiver_transport.py:93-97 | the post-process loop flags exactly the hits and writes their STOREs |
| Imap.Process | mailproc/transports/imap_receiver_transport.py:83-99 | fetching then flagging then expunging returns the hits' messages. The mailbox becomes `After(box, hits, delete)` and the wire gets the tagged commands of `ProcessCmds`. |
| Imap.Retrieve | mailproc/transports/imap_receiver_transport.py:80-99 | SEARCH followed by the processing. It returns the hits' messages, leaves the mailbox as `After` and writes `RetrieveCmds`; it is illegal unless SELECTED. |
| Imap.KeptWithoutDelete | mailproc/transports/imap_receiver_transport.py:93-97 | without `delete`, no message is lost or changed; the hits are only marked `\Seen` |
| Imap.DeletedRetrieval | mailproc/transports/imap_receiver_transport.py:93-99 | with `delete`, the mailbox afterwards is exactly the messages that were not hits, in order |
| Imap.NoUnseen | mailproc/transports/imap_receiver_transport.py:80 | an `(UNSEEN)` search over messages that are all seen finds nothing |
| Imap.SurvivorsFrom | mailproc/transports/imap_receiver_transport.py:98-99 | every message left after a deleting retrieval is a message that was not a hit |
| Imap.SecondRetrievalEmpty | mailproc/transports/imap_receiver_transport.py:67-104 | with an `(UNSEEN)` search, a second retrieval right after the first finds nothing, with or without `delete` |
| Imap.RetrieveTouchesHits | mailproc/transports/imap_receiver_transport.py:83-99 | FETCH and STORE address only hits. Without `delete` there is no EXPUNGE and only `\Seen` is stored. |
| Imap.ImapReceiver.constructor | mailproc/transports/imap_receiver_transport.py:30-37 | the settings are kept and there is no connection |
| Imap.ImapReceiver.Connect | mailproc/transports/imap_receiver_transport.py:39-53 | the connection is stored exactly when LOGIN succeeds, which leaves it in AUTH |
| Imap.ImapReceiver.GetMails | mailproc/transports/imap_receiver_transport.py:67-104 | it raises AttributeError before `connect`. It succeeds exactly when the mailbox exists on a live authenticated connection, returning the hits' messages and leaving the mailbox as `After`. A missing mailbox makes the SEARCH raise. |
| Imap.ImapReceiver.Close | mailproc/transports/imap_receiver_transport.py:59-65 | CLOSE then LOGOUT when a mailbox is selected; an error from CLOSE leaves LOGOUT unsent |
| ImapIdle.Stop | mailproc/transports/imap_idle_receiver_transport.py:75-78 | the loop stops within the lines available |
| ImapIdle.RetrievalCount | mailproc/transports/imap_idle_receiver_transport.py:69-84 | the looping IDLE reacts with one retrieval per EXISTS line read before the loop stops |
| ImapIdle.CallbackCount | mailproc/transports/imap_idle_receiver_transport.py:56-84 | `get_mails` first retrieves, then sends IDLE. The callback runs once, plus once per EXISTS line when looping; without the loop it runs once. |
| ImapIdle.ByeBeforeExists | mailproc/transports/imap_idle_receiver_transport.py:76-79 | a BYE line ends the loop even when it also ends with EXISTS |
| ImapIdle.ExistsNotCompletes | mailproc/transports/imap_idle_receiver_transport.py:69-79 | an EXISTS line never restarts IDLE as a completion would |
| ImapIdle.ReactionStep | mailproc/transports/imap_idle_receiver_transport.py:75-84 | a line that does not end the loop is consumed and the loop goes on with the rest |
| ImapIdle.DriveQuiet | mailproc/transports/imap_idle_receiver_transport.py:69-84 | with a callback that never raises, the loop's steps are `Reaction`, it reads `Read` lines, and the callback runs once per retrieval |
| ImapIdle.SessionQuiet | mailproc/transports/imap_idle_receiver_transport.py:56-84 | with a callback that never raises, `get_mails` follows `IdlePlan` |
| ImapIdle.RaiseEnds | mailproc/transports/imap_idle_receiver_transport.py:79-84 | an exception from the callback ends the loop at once: the last steps are DONE and the retrieval whose batch made the callback raise it, with no IDLE after |
| ImapIdle.EmptyAnnouncement | mailproc/transports/imap_idle_receiver_transport.py:79-83 | with the default `(UNSEEN)` search, an EXISTS line that delivers nothing right after a retrieval hands the callback an empty list |
| ImapIdle.IdleReceiver.constructor | mailproc/transports/imap_idle_receiver_transport.py:37-45 | no IDLE tag and nothing done yet |
| ImapIdle.IdleReceiver.StartIdle | mailproc/transports/imap_idle_receiver_transport.py:88-96 | `_start_idle` writes IDLE under a tag never used before on this connection and records it as `idle_tag` |
| ImapIdle.IdleReceiver.RetrieveMails | mailproc/transports/imap_idle_receiver_transport.py:107-136 | the callback receives exactly the hits' messages (an empty list when there are none), after the mailbox became `Kept` and the commands `RetrieveCmds` were written; what the callback raises is raised; it is illegal unless SELECTED |
| ImapIdle.IdleReceiver.GetMails | mailproc/transports/imap_idle_receiver_transport.py:47-86 | when SELECT fails it raises and nothing is retrieved. Otherwise the steps, every callback argument, the mailbox and the lines read are those of `Session`, and it raises exactly what the callback raised. |
| ImapIdle.IdleReceiver.Monitor | mailproc/transports/imap_idle_receiver_transport.py:58-86 | after SELECT: a retrieval, then, unless its callback raised, IDLE and the read loop, as `Session` says |
| ImapIdle.IdleReceiver.Listen | mailproc/transports/imap_idle_receiver_transport.py:60-84 | IDLE, then the loop's reaction to the lines when looping |
| ImapIdle.IdleReceiver.Watch | mailproc/transports/imap_idle_receiver_transport.py:66-84 | the loop does what `Drive` says of the unread lines, with each EXISTS batch taken from the mailbox as it then stands, and stops on a leaving line, the end of input or the callback's exception; without `idle_loop` it does nothing |
| ImapIdle.IdleReceiver.Hear | mailproc/transports/imap_idle_receiver_transport.py:75-84 | one pass of the loop: read and strip a line. A BYE or empty line ends it, and so does an exception from the callback; otherwise the loop goes on with the rest of the lines, as `Drive` says |
| ImapIdle.IdleReceiver.Follow | mailproc/transports/imap_idle_receiver_transport.py:79-84 | the reaction to a line that does not end the loop is the first turn of `Drive` on the lines from that one |
| ImapIdle.IdleReceiver.React | mailproc/transports/imap_idle_receiver_transport.py:70-84 | what a non-leaving line calls for, as `Turn` says: DONE, a retrieval and IDLE on EXISTS, a new IDLE (on the next pass) for a completed IDLE, nothing otherwise |
| ImapIdle.IdleReceiver.OnExists | mailproc/transports/imap_idle_receiver_transport.py:79-84 | on EXISTS the transport sends DONE, retrieves once, calls the callback once with the messages then matching, and re-arms IDLE unless the callback raised |
| ImapIdle.IdleReceiver.Close | mailproc/transports/imap_idle_receiver_transport.py:138-148 | an abort from CLOSE is ignored and LOGOUT follows. It succeeds exactly when a mailbox was selected, and an illegal CLOSE raises. |

## Left out

- Sockets, TLS and network failures are not modelled. The SMTP server's and the IMAP server's behaviour are parameters (`accepts`, `matches`, the unprompted lines).
- imaplib's response parsing is not modelled, and neither is the utf-8 decode of fetched messages: FETCH yields the stored message itself.
- MIME serialisation (`as_string`, `Generator.flatten`) and parsing (`Parser.parsestr`, `message_from_string`) are taken as exact inverses, so directory entries and mailbox entries hold the message tree.
- `to_mailproc_email` is the identity, because the model's message already offers the `Email` helpers.
- `get_from`, `decode_mime_words`, `parseaddr`, character-set codecs, `json`, `base64` and `gzip` are library functions. They are parameters (`Lib`), with round-trip hypotheses where a lemma needs them. Which exception a codec raises is the library's, so whether `gzip.decompress` failing is swallowed as a ValueError or escapes depends on that parameter.
- Regular-expression metacharacters in route templates other than `.` are taken literally. Only the `<name>` placeholders and `.` behave as in the rewritten regular expression. `^...$` anchoring, the `$` before one trailing newline and `.` not matching a newline are modelled.
- Dispatch.Mailproc.ServeRoute: returns nothing instead of the handler's return value, which `serve` and `run` discard. Handlers are identifiers whose behaviour (return or raise) is a parameter.
- The `in_routes=None` default of `serve` is the empty list, and an empty list likewise selects every table.
- The PID file, `set_proc_name`, the `atexit` hook and logging to the `logging` module are not modelled, except the SEND / SEND FAIL journal of the senders.
- The `_idle_timeout` thread, its clock and the concurrent DONE it sends are not modelled. A timed-out IDLE appears as the server's `OK Idle completed.` line among the unprompted lines.
- The file sender's clock and random suffix are parameters of `SendMail`.
- Files.Directory: `os.listdir` returns names in an arbitrary order that depends on the file system (ext4 lists them in hash order). The model lists files in the order they were created, and a rewritten file keeps its place. Files.FileReceiver.GetMails, Files.TwoWritten and Files.SendTwiceReceiveTwice state their order under that assumption; the source promises only which files are listed, not in what order.
- Files.FileSender.Connect and Files.FileSender.Close do nothing in the source and carry no contract; the file receiver's `connect` and `close` are not modelled for the same reason.
- The repository's tests use concrete addresses and subjects. The scenarios state them for every template of the same shape (`u<w>v` with placeholder-free `u`, `v`).
- The command-line program `mailproc.py` and the datastore `model.py` at the top of the repository are not part of this model.
- Python 2 branches (`sys.version_info < (3, 0)`) are not modelled.
- RoutePattern.WordRun: `\w` is ASCII letters, digits and `_`. Python 3 `str` patterns also take non-ASCII letters and digits as `\w` and as group-name characters, so a placeholder such as `<é>` is a named group in the source but literal text in the model.
- RoutePattern.BuildRoutePattern: only the group-name errors of `re.compile` are modelled. A template whose other metacharacters (`(`, `[`, `*`, `?`, ...) make the regular expression invalid, or give it other groups, is not.
- Mime.Filename: the strip removes the ASCII whitespace of `bytes.strip()`; `str.strip()` also removes `\x1c`-`\x1f` and non-ASCII spaces. RFC 2231 continuations and charset-tagged parameter values are not modelled.
- Dispatch.ServeEveryTarget and Dispatch.Mailproc.Serve fix the order `from`, then `subject`, the insertion order of `routes_actions`. Dictionaries keep that order from Python 3.6 (guaranteed from 3.7); on Python 3.4 and 3.5 the order in which `serve` visits the tables is not fixed.
- ImapIdle.IdleReceiver.GetMails: the commands written over a whole session are not stated as one sequence. Each piece is stated where it is written: the retrieval's commands by RetrieveMails, a tagged IDLE by StartIdle, and DONE, the retrieval and IDLE on an EXISTS line by OnExists.
- ImapIdle.IdleReceiver.GetMails: the callback is a function of its argument (the exception it raises, or none). A callback with its own state or side effects is not modelled.
