# A verified model of Titlani

Titlani is a client and server for the Misfin mail protocol: version C, the older version B, and GMAP
for remote access to a mailbox. The network code is thin. Underneath it are parsers and printers that
must agree with each other, and state machines whose callbacks arrive in any order. This project
models those parts in Dafny and proves what they guarantee over every input and every run.

`dafny verify dfyconfig.toml` checks all of it.

## How the model is built

Where the source computes a value, the model is a function. Where the source updates an object, the
model is a class with the same fields. Each method of such a class is proved equal to a *specification
function* of the old state, and the main theorems are lemmas about runs of those functions. Text is a
sequence of Unicode characters, wire data is a sequence of octets, and the two are joined by a full
UTF-8 codec that refuses overlong forms and surrogates (`Utf8`).

A specification function says what is done step by step. Beside it stand lemmas that say, without
naming it, exactly when it does what: which lines are accepted, whom a request is refused for, where
the attempts of a send go, what a reply lists (the names ending in `Exact`).

The clock, the certificate of the peer, random tokens, SHA-256 message IDs, encryption, the verdicts
of the middleware and of the verifier, and everything other hosts answer are parameters. The theorems
hold for every value of them.

| part of the system | files |
|---|---|
| text, UTF-8, calendar | `Wrappers`, `Text`, `Utf8`, `Calendar` |
| request and response lines | `Request`, `Response`, `HeaderLines` |
| server connection | `ServerReader`, `Connection`, `ServerProtocol`, `ConnectionSafety`, `ConnectionAnswers`, `Pipeline` |
| client connection, retries, redirects, fallback | `ClientProtocol`, `Sending`, `Itinerary`, `ClientSession` |
| gemmail messages | `Gemmail`, `GemmailC`, `GemmailB`, `GemmailReading`, `GemmailLimits`, `Preparation` |
| what becomes of a message | `Delivery`, `Cascade`, `StoredSenders`, `Verifying`, `AutoReply`, `ReplyLoops` |
| GMAP | `MessageId`, `GmapIndex`, `GmapMailbox`, `GmapRuns`, `GmapReplies` |
| sender trust | `SpkiTrust` |
| mailing lists | `Subscribers`, `Subscription`, `SubscriptionReplies` |
| from `send` to the stored message | `EndToEnd` |

## What holds only under a condition

Some properties one would expect are false of the code in general. For each of them the model keeps
the code as it is, proves the exact condition under which the property holds, and has a lemma with an
input, in the formats the system itself reads, on which it fails.

- *One request, one handler call.* The flag for an awaited body is never cleared, so bytes after the
  declared body reach the handler again. At most one call is made in all runs over a stream exactly
  when the stream has no such bytes (`ConnectionSafety.SingleHandlingExact`); one octet behind a
  printed request is enough (`Pipeline.OneOctetTooMany`). The same condition decides whether a request
  that the middleware refuses stays away from the handler (`ConnectionSafety.DeniedExact`).
- *The cut of the stream does not matter.* The header limit counts a CR whose LF has not arrived, so
  an accepted line of exactly 2048 bytes cut between the two is refused. Every cut gives the same
  decision exactly when there is neither such a line nor a surplus (`ServerReader.FragmentationExact`);
  a B line can have that length (`ServerReader.FullLineIsBoundary`). The client has the same effect at
  its own limit (`ClientProtocol.OutcomeExact`, `ClientProtocol.LongResponseIsOverlong`).
- *Printing a parsed message and parsing it again changes nothing.* `strftime` drops fractions of a
  second and a re-printed metadata line may outgrow its limit. It is unchanged exactly when neither
  occurs (`GemmailC.NormalFormExact`); both do occur (`GemmailLimits.FractionIsLost`,
  `GemmailLimits.CrowdedIsRefused`).
- *A stored message reads back as what was received, with the stamps.* The address in a certificate and
  the addresses of a B message may hold a comma, which separates addresses in C form. The message reads
  back exactly when metadata lines can hold all its addresses and the lines fit
  (`Preparation.StampingC`, `Preparation.StampingB`, `Preparation.CommaIsNotReadBack`).
- *Automatic replies are not answered automatically.* The address in a certificate is printed in front
  of a message, and its parts may hold line breaks. A common name such as `x`, three line feeds and
  `# Hi` brings in lines of its own for the recipients and the timestamps, and a heading before that of
  the reply: a reply that comes with it is answered (`ReplyLoops.ForgedReplyIsAnswered`). Over all
  texts, addresses, times, servers and their states, no reply is answered exactly when the lines of the
  certificate do not read as metadata that name a sender, or are followed by a heading with the marker
  (`ReplyLoops.RepliesExactC`); over the B form, or by no heading (`ReplyLoops.RepliesExactB`). A
  certificate without a line feed never does (`ReplyLoops.OneLineForgesNothing`).
- *A stored message names no blocked sender.* The block list is held against the address in the
  certificate and the senders of the message as it was parsed. A comma in the blurb of a certificate,
  as in `x, spam@x.org`, makes another sender of what is stored (`StoredSenders.CarriedIsDelivered`).
  Over all servers and block lists this does not happen exactly when the first line of the printed
  senders names only addresses that were checked (`StoredSenders.UnblockedExact`), for which it suffices
  that metadata lines can hold them (`StoredSenders.DeliveredIsUnblocked`).
- *Storing a message keeps its body.* The same line breaks push lines into the body. It survives exactly
  when no address line holds a line feed (`GemmailC.BodySurvivesExact`); the certificate above is an
  input for which it does not.
- *Syncing does not depend on the order of the directory, and a second sync reports no change.* Two
  files with one message ID, such as a message and its unread copy, make the index alternate between
  them. Both hold exactly when there are none (`GmapIndex.OrderExact`, `GmapIndex.SecondSyncExact`,
  `GmapIndex.UnreadCopy`).
- *Adding a subscriber appends the address.* The source appends to the last line, whatever it holds.
  The loaded list gains the address at its end exactly when what follows the last line break is blank
  (`Subscribers.AddExact`); behind an unterminated comment the address is lost
  (`Subscribers.CommentSwallows`).
- *A subscriber has confirmed its own address.* Addresses may hold line separators, at which the
  subscriber file is cut when it is read: confirming `v@w\u2028x@e.org` subscribes `v@w`, who never
  asked (`SubscriptionRuns.SeparatorSubscribesAnother`). What does hold in every run is that the
  subscriber is named by the line of a confirmed address (`SubscriptionRuns.SubscriberProvenance`). The
  subscriber is that address itself in all runs exactly when the address is well-formed or its line
  names nobody (`SubscriptionRuns.SubscriptionExact`), for which it suffices that it holds no line
  separator (`Subscribers.OneLineIsSound`).
- *Verified results for a host agree.* They do, from every stored table and over every interleaving,
  exactly under the reject policy and without cleanup and clearing of rows (`SpkiRuns.TrustExact`,
  `SpkiRuns.TwoKeysVerified`).
- *Required mode lets nothing unverified through.* A B message with a stray CR cannot be parsed, goes
  past the verifier and is stored as a plain body (`Verifying.LoneCrIsDelivered`). A verifier that
  accepts nobody stops a non-empty request exactly when it is in C form, or its B text decodes and has
  no stray CR, or it is refused for its host, its mailbox, a blocked certificate address, or by a list
  (`Verifying.RequiredModeExact`).

Two statements in the documentation are looser than the code, and the model follows the code:
docs/explanation/misfin-protocol.md:54-55 shows response statuses as two digits and always a space,
while `from_line` reads any integer and takes a missing space as an empty meta; and
docs/explanation/misfin-protocol.md:65 shows timestamps ending in `+00:00`, while the printer ends
them in `Z` and the reader accepts both.

## Model

| member | source | states |
|---|---|---|
| Utf8.DecodeEncode | src/titlani/protocol/request.py:37-45 | Decoding the encoding of any text gives the text back, so what a printer encodes every reader sees unchanged. |
| Utf8.EncodeDecode | src/titlani/protocol/request.py:84-124 | Octets that decode are the encoding of what they decode to: no second spelling of a text is accepted. |
| Utf8.AsciiTransparent | src/titlani/server/protocol.py:103-128 | An ASCII octet occurs in encoded text if and only if its character occurs in the text, so a TAB is in the raw line only if it is in the text. |
| Utf8.AsciiSplit | src/titlani/protocol/request.py:37-48 | Splitting encoded text at an ASCII octet gives the encodings of the pieces that splitting the text at its character gives: no cut falls inside another character. |
| Calendar.StampRoundTrip | src/titlani/content/gemmail.py:135-137 | A printed timestamp reads back as the same time cut to the second, for all years 1 to 9999. |
| Calendar.IsoRoundTrip | src/titlani/content/gemmail.py:166-181 | A time printed by `isoformat()`, fraction included, reads back as the same time. |
| Calendar.StampExact | src/titlani/content/gemmail.py:166-181 | An item is read as a time if and only if, with `Z` replaced, it is the text of that existing time with its fraction, in UTC. |
| Calendar.FractionExact | src/titlani/content/gemmail.py:166-181 | A fraction of any number of digits counts in whole microseconds, rounded down. |
| Calendar.TextOrderIsTimeOrder | src/titlani/verification/cache.py:63-72 | Comparing two stored `isoformat()` texts compares the instants, also when one of them omits the microseconds. |
| Calendar.UnexpiredExact | src/titlani/server/subscription.py:82-92 | The text filter on a cutoff selects exactly the rows whose age is within the time to live. |
| Request.SplitAddress | src/titlani/protocol/request.py:55-61 | An accepted address is its two non-empty parts joined by the last `@`; the hostname holds no `@`. |
| Request.HeaderRoundTrip | src/titlani/protocol/request.py:37-81 | A printed C header parses back to the mailbox, hostname and length it was printed from. |
| Request.HeaderRoundTripB | src/titlani/protocol/request.py:84-124 | A printed B line parses back to the mailbox, hostname and collapsed text, length and raw text agreeing. |
| Request.LimitsAgreeB | src/titlani/protocol/request.py:132-150 | The B printer's limit of 2050 bytes with CRLF admits exactly the lines that the parser's limit of 2048 bytes without it admits. |
| Request.CollapsedExact | src/titlani/protocol/request.py:132-150 | A B request carries what follows the three metadata lines, with single spaces between its words. |
| Request.ShortCollapsedExact | src/titlani/protocol/request.py:132-150 | A text without three lines in front is carried whole, with single spaces between its words. |
| HeaderLines.HeaderExact | src/titlani/protocol/request.py:37-81 | A line is accepted as a C header with mailbox, hostname and length `n` if and only if it has at most 1024 octets and decodes to `misfin://`, the address, a TAB and a text read as `n`, both names non-empty and without TAB, no `@` in the hostname, and `0 <= n <= 16384`. |
| HeaderLines.HeaderExactB | src/titlani/protocol/request.py:84-124 | A line is accepted as a B request if and only if it has at most 2048 octets and decodes to `misfin://`, an address without spaces, a space and a non-empty message. |
| HeaderLines.AcceptedExact | src/titlani/server/protocol.py:120-160 | The server accepts exactly the lines of the C form, and those of the B form that hold no TAB, and attaches the certificate of its peer. |
| Text.IntExact | src/titlani/protocol/request.py:63-74 | A length is read exactly when the stripped text is an optional sign and digits with single underscores between them, as their value. |
| Response.LineRoundTrip | src/titlani/protocol/response.py:14-26 | A printed response line parses back to its status and meta, for every integer status and every meta. |
| Response.LineExact | src/titlani/protocol/response.py:14-23 | A response line is read exactly when it is a number alone, with an empty meta, or a number, a space and the meta. |
| ServerReader.FragmentationIndependence | src/titlani/server/protocol.py:83-187 | However a stream without surplus and without a line at the limit is cut into non-empty chunks, the machine processes the same request, or rejects, or waits, as on the stream in one piece. |
| ServerReader.FragmentationExact | src/titlani/server/protocol.py:92-107 | Independence of all cuts holds if and only if there are no bytes beyond the declared body and no accepted header line of exactly 2048 bytes. |
| ServerReader.FullLineIsBoundary | src/titlani/protocol/request.py:84-89 | The server accepts a B line of exactly 2048 octets, so the excluded boundary does occur. |
| ServerReader.LongHeaderRejected | src/titlani/server/protocol.py:103-118 | A header line over 2048 bytes leads to exactly one decision, a rejection, under every cut. |
| HeaderLines.DecisionExact | src/titlani/server/protocol.py:103-187 | What is decided on a stream with a CRLF: rejected if the line before it is not accepted, processed if it is and its body is there, with exactly that body, and waited for otherwise. |
| HeaderLines.UnfinishedExact | src/titlani/server/protocol.py:103-118 | Without a CRLF the server waits until more than 2048 octets have come, and then rejects. |
| HeaderLines.LongMessageRejected | src/titlani/protocol/request.py:70-74 | A printed request whose message is over 16384 octets is rejected once under every cut. |
| ServerReader.TransportC | src/titlani/protocol/request.py:126-130 | The bytes printed for a well-formed C request, cut anywhere, are processed exactly once, as version C, with the same mailbox, hostname, length and message. |
| ServerReader.TransportB | src/titlani/protocol/request.py:132-150 | The bytes printed for a B request with a non-empty collapsed text and a line below the limit, cut anywhere, are processed exactly once, as version B, with that text. |
| ServerProtocol.MisfinServerProtocol.DataReceived | src/titlani/server/protocol.py:83-101 | The callback, which updates the buffer, the flags, the timer and the request step by step, has exactly the effect of feeding the bytes to the reader and acting on its decision. |
| ServerProtocol.MisfinServerProtocol.ReceiveHeader | src/titlani/server/protocol.py:103-187 | Phase one on the fields of the connection is the one-line reader followed by its error, dispatch or wait for the body. |
| ServerProtocol.MisfinServerProtocol.ProcessRequest | src/titlani/server/protocol.py:189-217 | Admission by the middleware comes before any routing; without one the request is routed at once. |
| ServerProtocol.MisfinServerProtocol.RouteRequest | src/titlani/server/protocol.py:248-278 | One handler call on the stored request, answered at once, turned into status 40, or left to a task. |
| ServerProtocol.MisfinServerProtocol.HandleMiddlewareResult | src/titlani/server/protocol.py:219-246 | Only an admission routes the request; a denial or a crash is answered with the status of its reason. |
| ServerProtocol.MisfinServerProtocol.HandleTimeout | src/titlani/server/protocol.py:320-335 | The timer closes a live connection, writing status 59 only if a byte has been received. |
| ConnectionSafety.SafeOverAllRuns | src/titlani/server/protocol.py:83-349 | Over every interleaving of data, timer, middleware, handler and loss without surplus bytes: at most one handler call, on exactly the request the whole stream denotes; at most one response; none before the first byte or after the loss; and a quiet live connection has been answered. |
| ConnectionAnswers.RunCaused | src/titlani/server/protocol.py:103-335 | In every run without surplus, each response written was caused by an event of the run: the rejection of the stream with 59, the answer or the error of the handler, the status for the reason of a denial (44, 53, 60, 61 or 40), 40 for a failed middleware, or 59 for the timer. |
| ConnectionAnswers.RunAnswered | src/titlani/server/protocol.py:219-335 | Every such event that finds the connection there has its response written. |
| ConnectionAnswers.RunCloses | src/titlani/server/protocol.py:295-318 | In every run the connection is closed right behind each response. |
| ConnectionAnswers.TimeoutCloses | src/titlani/server/protocol.py:320-335 | The timer closes an open connection, and leaves one that is closing or gone as it is. |
| ConnectionSafety.DeniedIsNeverHandled | src/titlani/server/protocol.py:219-246 | Over a stream without surplus bytes, a run in which the middleware denied the request or failed contains no handler call at all, also when the connection was lost meanwhile. |
| ConnectionSafety.DeniedExact | src/titlani/server/protocol.py:92-101 | Every run over a stream that holds a refusal has no handler call if and only if the stream has no surplus; with one, a first admission can be granted and a second refused. |
| ConnectionSafety.SurplusHandledTwice | src/titlani/server/protocol.py:92-101 | For every stream with bytes beyond the declared body there is a run in which the handler is called twice. |
| ConnectionSafety.SingleHandlingExact | src/titlani/server/protocol.py:92-101 | All runs over a stream call the handler at most once if and only if the stream has no surplus bytes. |
| Pipeline.OneRequestOneHandling | src/titlani/protocol/request.py:126-130 | From the client's printer to the handler: every run of a connection that delivers one printed request calls the handler at most once, on the request sent with the peer's certificate attached, and answers it at most once. |
| Pipeline.OneRequestOneHandlingB | src/titlani/protocol/request.py:132-150 | The same for every printed B request with a non-empty text: the handler sees the collapsed text, once at most, and one answer is owed. |
| Pipeline.SurplusAfterRequest | src/titlani/server/protocol.py:92-101 | Any bytes behind any printed request with a body are a surplus, over which the handler can be called twice. |
| Pipeline.OneOctetTooMany | src/titlani/server/protocol.py:92-101 | A concrete stream of that kind, for the parser of any connection. |
| ClientProtocol.MisfinClientProtocol.DataReceived | src/titlani/client/protocol.py:28-53 | The buffer, the flag and the future after a delivery are those of the specification; a settled future is never overwritten. |
| ClientProtocol.MisfinClientProtocol.ConnectionLost | src/titlani/client/protocol.py:58-67 | A loss fails a pending future, unless the line has been read, and leaves a settled one alone. |
| ClientProtocol.StreamExact | src/titlani/client/protocol.py:28-53 | The bytes of a whole response resolve the future to what the line before the first CRLF is read as, and fail it if that is not a response; without a line they fail it once there are more than 2048 octets. |
| ClientProtocol.OutcomeExact | src/titlani/client/protocol.py:28-53 | All cuts of the response bytes have the outcome of the whole if and only if the line is not a readable one too long for the buffer. |
| ClientProtocol.LongResponseIsOverlong | src/titlani/client/protocol.py:44-53 | A readable response line of 2048 octets exists and is one whose outcome depends on the cut. |
| ClientProtocol.ResponseTransport | src/titlani/protocol/response.py:25-26 | A response printed by the server resolves the client's future to the same response, however it is cut. |
| Sending.SendAttempts | src/titlani/client/session.py:123-215 | Against any network, with `R` retries, one send makes at most `6 * (1 + R)` C attempts and one B attempt, and each attempt carries the message it was called with. |
| Sending.SendBound | src/titlani/client/session.py:150-215 | The same from any redirect depth and after any earlier attempts: each remaining redirect costs at most one hop of `1 + R` attempts. |
| Sending.FinalAnswers | src/titlani/client/session.py:150-215 | Status 44 is returned only after `1 + R` equal attempts of the last hop were all told to slow down, or from the B attempt; a redirect only with a blank target, or from the B attempt. |
| Itinerary.SendFollows | src/titlani/client/session.py:123-272 | Read off the log and the answers alone: the first attempt goes to the two parts of the address; each other one repeats the last after 44, at most `R` times in a row, or goes to the address a 3x names, at most five times, or is the B form to the same mailbox and host after 40, 59 or 60; and where none of these is left, the outcome is the answer to the last attempt or its failure. |
| ClientSession.MisfinClient.SendRaw | src/titlani/client/session.py:123-215 | The recursive method with its retry loop makes the attempts and returns or raises the outcome of the specification. |
| ClientSession.MisfinClient.SendWithRetries | src/titlani/client/session.py:150-171 | The retry loop leaves the log of one hop and the answer to its last attempt. |
| ClientSession.MisfinClient.SendB | src/titlani/client/session.py:217-272 | One connection at most: one that cannot be made, or times out, is reported as status 40, a message too large as 59 without connecting; a connection lost after it was made raises. |
| Gemmail.CanonicalExact | src/titlani/content/gemmail.py:16-47 | Printing an address and parsing it gives the address back if and only if it is canonical (non-empty parts, no `@` in the host, no spaces in either, trimmed blurb without comma or `@`, no white space at its ends). |
| Gemmail.ParsedIsCanonical | src/titlani/content/gemmail.py:16-32 | Every address the parser accepts is canonical. |
| GemmailReading.AddressExact | src/titlani/content/gemmail.py:16-32 | A text is read as an address if and only if, stripped, it is mailbox, `@` and hostname, alone or with a space and a text that strips to the blurb, within the limits on their characters. |
| Gemmail.LineRoundTrip | src/titlani/content/gemmail.py:132-140 | A comma-separated line printed from listable items reads back item by item, in order. |
| Gemmail.ParseAddressLine | src/titlani/content/gemmail.py:153-163 | The appending loop computes the item-by-item reading: blank items skipped, the first unreadable one decides the error. |
| Gemmail.ParseTimestampLine | src/titlani/content/gemmail.py:166-181 | The same for timestamps. |
| GemmailReading.LineExact | src/titlani/content/gemmail.py:153-181 | A list line is read as `xs` if and only if its items that are not blank, stripped, are read as `xs`, one by one. |
| GemmailC.ReadMessage | src/titlani/content/gemmail.py:58-100 | The parser with its CR scan, its line-size loop and its list loops, with the errors in the source's order, computes the specification `FromBytes`. |
| GemmailReading.MessageExact | src/titlani/content/gemmail.py:58-100 | Bytes are read as a message if and only if they decode, hold no stray CR, and are three lines of at most 1024 octets, read as its senders, recipients and timestamps, and its body. |
| GemmailC.Reparse | src/titlani/content/gemmail.py:58-140 | Parsing a printed message gives the message with whole-second timestamps, or the line-size error exactly when a metadata line exceeds 1024 bytes. |
| GemmailC.MessageRoundTrip | src/titlani/content/gemmail.py:58-140 | Every well-formed message whose metadata lines fit is what its printed form parses to. |
| GemmailC.NormalFormExact | src/titlani/content/gemmail.py:58-140 | For all bytes that parse, parsing the re-printed message gives the same message if and only if its timestamps are whole seconds and its metadata lines fit. |
| GemmailC.ReadBackExact | src/titlani/content/gemmail.py:58-140 | Any message with real times prints to bytes that read back as it, up to fractions of a second, if and only if its addresses suit metadata lines, its body has no CR and its lines fit. |
| GemmailC.ReadBack | src/titlani/content/gemmail.py:58-140 | What any printed message reads back as, whatever its addresses hold: it is readable if and only if no CR is stray and the first three of its lines read as metadata, which then give its senders and recipients, and the lines that line breaks have pushed behind them come in front of the body. |
| GemmailC.BodySurvivesExact | src/titlani/content/gemmail.py:132-140 | A printed message that parses has the body it was printed with if and only if its sender and recipient lines hold no line feed. |
| GemmailC.ReparseNormalized | src/titlani/content/gemmail.py:58-100 | A printed message whose body has CRLF line ends reads back with LF line ends, or gives the line-size error. |
| GemmailC.StrayCrUnreadable | src/titlani/content/gemmail.py:64-75 | A stray CR in the body makes a printed message unreadable, whatever its metadata. |
| GemmailLimits.FractionIsLost | src/titlani/content/gemmail.py:135-137 | For every time with a fraction of a second there are bytes that parse to it and that change when printed and parsed again. |
| GemmailLimits.CrowdedIsRefused | src/titlani/content/gemmail.py:81-86 | 255 senders set without spaces parse, and their re-printed line is refused. |
| GemmailC.ParsedIsPrintable | src/titlani/content/gemmail.py:58-100 | Whatever is parsed can be printed safely: addresses without separators, existing dates, no CR in the body. |
| GemmailReading.SubjectExact | src/titlani/content/gemmail.py:143-150 | The subject is, if and only if there is one, the text behind the hashes of the first line of the body that starts, stripped, with a hash. |
| GemmailB.ParseBMetadata | src/titlani/content/gemmail.py:187-236 | The one-pass scan with its two flags finds what a reading of each line on its own assigns to senders, recipients, timestamp and body. |
| GemmailB.LinesAccountedFor | src/titlani/content/gemmail.py:187-236 | Every line goes to exactly one place: senders, body, at most one timestamp and one recipients line add up to the lines read. |
| GemmailB.BodyKeepsOrder | src/titlani/content/gemmail.py:187-236 | The body is an order-preserving selection of the lines, holding exactly those with no other place. |
| GemmailReading.PlacesExact | src/titlani/content/gemmail.py:187-236 | Which lines of a B message are senders, recipients, timestamp and body: the readable sender lines, the first recipients line, the first timestamp line if it is readable, and all others. |
| GemmailReading.SendersKeepOrder | src/titlani/content/gemmail.py:187-236 | The senders are what the readable sender lines are read as, all of them, in order. |
| GemmailReading.RecipientsExact | src/titlani/content/gemmail.py:187-236 | The recipients are the readable words of the first recipients line, and of no other. |
| GemmailReading.ReadableOne | src/titlani/content/gemmail.py:210-219 | A word of a recipients line is an address if it is read as one, and nothing otherwise. |
| GemmailReading.ReadableConcat | src/titlani/content/gemmail.py:210-219 | The addresses of the words are found word by word, in order. |
| GemmailReading.StampsExact | src/titlani/content/gemmail.py:187-236 | The timestamp is that of the first timestamp line, and of no other. |
| GemmailReading.BodyLines | src/titlani/content/gemmail.py:187-236 | The body is the lines placed in it, one to a line. |
| GemmailB.ScannedIsPrintable | src/titlani/content/gemmail.py:103-130 | A parsed B message has a body without CR and real times, and can be printed in C form if and only if none of its addresses holds a comma. |
| Preparation.StampingC | src/titlani/server/handler.py:309-344 | For every parsed C message and every certificate: the prepared message reads back as the certificate's address followed by the original senders, the original recipients and body, and the current second followed by the original timestamps, if and only if a metadata line can hold that address and the lines fit. |
| Preparation.StampingB | src/titlani/server/handler.py:309-332 | For every parsed B message: the same, with the addressed mailbox as recipient where the message named none, if and only if metadata lines can hold all its addresses and the lines fit. |
| Preparation.OwnExact | src/titlani/server/handler.py:293-307 | A certificate speaks for the address made of its parts, and for nobody without a mailbox or a host. |
| Preparation.CommaIsNotReadBack | src/titlani/content/gemmail.py:187-236 | A B sender line with a comma in the address is read as one sender, and the prepared message does not read back as that. |
| Preparation.WireMessageDecodes | src/titlani/protocol/request.py:84-124 | A B request from the wire always decodes, so the lossy decoding is never needed and only a stray CR makes its message unreadable. |
| Preparation.PlainBodyExact | src/titlani/server/handler.py:309-332 | The text of an unreadable B message is kept whole as the body, with a final newline, and nothing is read from it. |
| Preparation.SalvagedReadsBack | src/titlani/server/handler.py:309-332 | A B message with a stray CR is stored in a form that can be read if and only if the CR was stray only for want of the final newline and the lines that the certificate and the host make read as metadata; where metadata lines can hold both, it reads back with its line ends normalized. |
| Delivery.FileMailboxHandler.FindBlockedSender | src/titlani/server/handler.py:269-290 | True if and only if some sender's lower-case address is on the block list. |
| Delivery.FileMailboxHandler.PrepareMessage | src/titlani/server/handler.py:309-344 | The insertions in place produce the bytes of the stamped message, and nothing exactly for a C message that does not parse. |
| Delivery.FileMailboxHandler.HandleMessage | src/titlani/server/handler.py:74-156 | The cascade of refusals, in the source's order, decides the disposition; only a stored delivery changes a mailbox, by one file; an auto-reply is due and recorded only for a delivery. |
| Cascade.MailboxNameExact | src/titlani/server/handler.py:158-180 | Which mailbox names are valid: letters, digits, dots, underscores and hyphens, not empty, without two dots in a row. |
| Cascade.MailboxIsComponent | src/titlani/server/handler.py:158-180 | A valid mailbox name is one component of a path, and not the one that leads upwards. |
| Cascade.GuardsExact | src/titlani/server/handler.py:74-102 | A request for another host is answered 53, a probe 20 with the fingerprint of the server, an invalid mailbox name 59, an unknown mailbox 51, in this order. |
| Cascade.BlockedExact | src/titlani/server/handler.py:104-118 | Past these guards a request is refused as blocked if and only if the lower-case address of the certificate, or of a sender of the parsed message, is on the block list. |
| Cascade.FormatExact | src/titlani/server/handler.py:120-133 | Of the others, exactly the C messages that do not parse are refused for their format. |
| Cascade.PlainMailboxExact | src/titlani/server/handler.py:135-156 | A mailbox that is no active list stores every other message. |
| Cascade.ListExact | src/titlani/server/handler.py:759-800 | An active list carries out a command, refuses a message that already names it, and delivers another one if and only if the certificate or a sender of the message is a subscriber, whoever the others are; it stores it if it keeps an archive. |
| Cascade.CommandExact | src/titlani/server/handler.py:535-578 | Which bodies are which command, word by word: in any case of letters, behind an optional heading mark, with a token of six hexadecimal digits. |
| Cascade.DeliveryAnswer | src/titlani/server/handler.py:153-156 | A delivery is answered 20 with the fingerprint known for the mailbox, or with none. |
| Cascade.ReplyExact | src/titlani/server/handler.py:220-240 | A reply that is due goes to the first sender of what was stored, and is recorded for that sender alone. |
| StoredSenders.SafeSpeakersReadBack | src/titlani/server/handler.py:250-290 | When metadata lines can hold all addresses that were checked against the block list, the stored message names exactly these, in order. |
| StoredSenders.DeliveredIsUnblocked | src/titlani/server/handler.py:104-118 | Then nothing delivered reads back with a blocked sender. |
| StoredSenders.UnblockedExact | src/titlani/server/handler.py:250-344 | Over all servers and block lists, a message is never delivered so that it reads back with a blocked sender if and only if the first line of the printed senders names only addresses that were checked. |
| StoredSenders.CarriedIsDelivered | src/titlani/server/handler.py:293-307 | A message with the certificate blurb `x, spam@x.org` is stored, and reads back as sent by `spam@x.org`, although that address is blocked. |
| Delivery.StoredFilesAreRecognised | src/titlani/server/handler.py:346-389 | The name of every stored file, encrypted or not, is one that the GMAP scan recognises, under the ID the server gave it. |
| Delivery.DeliveryTimestamp | src/titlani/gmap/mailbox.py:278-288 | The index shows a delivered message with exactly the second of its delivery. |
| Verifying.VerifyingHandler.HandleMessage | src/titlani/verification/handler.py:58-127 | In every mode the decorated handler stores, answers and records replies as the specification of both handlers together. |
| Verifying.OtherModesPass | src/titlani/verification/handler.py:58-127 | Off and optional mode never change what becomes of a request, whatever the verifier says. |
| Verifying.UnparsedPass | src/titlani/verification/handler.py:58-76 | A probe, and a message that does not parse, is left to the mailbox handler in every mode. |
| Verifying.RequiredExact | src/titlani/verification/handler.py:78-127 | In required mode a message that parses is treated as without verification if and only if it names a sender and the verifier accepts the first one; otherwise it is refused with 61, for want of a sender or with the reason of the verifier. |
| Verifying.RequiredMode | src/titlani/verification/handler.py:58-127 | In required mode a non-empty C request gets past a refusal only if it parses and the verifier accepted its first sender; the parse-failure path ends in a refusal of the wrapped handler. |
| Verifying.RequiredModeExact | src/titlani/verification/handler.py:71-76 | A verifier that accepts nobody stops a non-empty request if and only if it is in C form, or its B text decodes without a stray CR, or its host, its mailbox or a blocked certificate address refuses it, or a list does. |
| Verifying.UnreadableOnList | src/titlani/server/handler.py:759-800 | When an active list refuses an unreadable B message: by the posting restriction alone while a CR is stray or the lines of the certificate and the host do not read as metadata, since the command and loop checks cannot read it; else unless it is a command and the certificate is on one line, or it does not name the list and comes from a subscriber. |
| Verifying.SafeIsAddressed | src/titlani/server/handler.py:309-332 | Where metadata lines can hold the certificate and the host, a mended message names the list and is refused as a loop unless it is a command. |
| Verifying.StampIsNoCommand | src/titlani/server/handler.py:535-578 | A body into which the timestamp line has slipped is no list command. |
| Verifying.LoneCrAccepted | src/titlani/protocol/request.py:84-124 | The server accepts the line `misfin://b@h a<CR>b`, whose message cannot be parsed. |
| Verifying.LoneCrIsDelivered | src/titlani/verification/handler.py:71-76 | That request is stored in required mode although the verifier accepts nobody, in every mailbox `b` that is no active list. |
| AutoReply.AutoResponder.ShouldAutoReply | src/titlani/server/handler.py:437-472 | A reply is due if and only if replies are enabled, the message is no auto-reply, has a sender, and the interval has passed; exactly then the time is recorded. |
| AutoReply.ReplySpacing | src/titlani/server/handler.py:456-472 | Over any sequence of arrivals, two replies to one sender are at least the interval apart, whatever the clock does in between. |
| AutoReply.ReplyDueExact | src/titlani/server/handler.py:437-472 | Over any sequence of arrivals a reply is sent if and only if replies are enabled, the subject has no marker, a sender is named, and every earlier reply to it, in any case of letters, lies the interval back. |
| ReplyLoops.MarkedExact | src/titlani/content/gemmail.py:143-150 | Any message with the marker in its subject can be answered after storage if and only if the lines of its addresses read as metadata that name a sender, with a heading without the marker behind them. |
| ReplyLoops.AnswerableC | src/titlani/server/handler.py:437-472 | For one auto-reply received over C, whatever its text: what is stored can be answered if and only if the lines of the certificate read as metadata that name a sender and the first heading behind them, the recipients of the reply included, is without the marker. |
| ReplyLoops.RepliesExactC | src/titlani/server/handler.py:437-531 | For every certificate: over all reply texts (CR-free, as `read_text` gives them), addresses on one line, times, servers and states, no auto-reply over C is answered if and only if the certificate does not forge a message of its own. |
| ReplyLoops.AnswerableB | src/titlani/protocol/request.py:132-150 | For one auto-reply received collapsed, by a mailbox of a server whose host name is one line: it can be answered if and only if the certificate brings in metadata and a heading of its own. |
| ReplyLoops.RepliesExactB | src/titlani/client/session.py:217-272 | For every certificate: over all of them again, no auto-reply over the B fallback is answered if and only if the certificate does not forge. |
| ReplyLoops.OneLineForgesNothing | src/titlani/server/handler.py:293-307 | A certificate whose printed address has no line feed forges nothing, so nobody answers the auto-replies that come with it, over C or B. |
| ReplyLoops.ForgedReplyIsAnswered | src/titlani/server/handler.py:334-344 | With the common name `x<LF><LF><LF># Hi` every auto-reply to `b@h` is answered, to the address `m@k`, by any server that sends automatic replies and has not just sent one. |
| ReplyLoops.ForgedForges | src/titlani/server/handler.py:334-344 | That certificate forges in both forms. |
| MessageId.MessageIdExact | src/titlani/content/message_id.py:40-61 | A file name carries an ID if and only if it is a well-formed ID followed by one of the four suffixes. |
| GmapIndex.SyncAgreesWithDirectory | src/titlani/gmap/mailbox.py:104-172 | After any sync the keys are exactly the IDs present in the directory, each entry names an existing file of its own message, old tags survive, and new messages get exactly the initial tags. |
| GmapIndex.SyncIgnoresOrder | src/titlani/gmap/mailbox.py:113-138 | Any two orders of listing an unambiguous directory give the same index. |
| GmapIndex.OrderExact | src/titlani/gmap/mailbox.py:113-138 | The order of the listing matters to no index if and only if no two files share a message ID. |
| GmapIndex.UnreadCopy | src/titlani/content/message_id.py:40-61 | A message beside its unread copy is a directory with two files of one ID. |
| GmapIndex.FlagExact | src/titlani/gmap/mailbox.py:104-160 | The returned flag is true if and only if the sync changed the index, for ambiguous directories too. |
| GmapIndex.SecondSyncExact | src/titlani/gmap/mailbox.py:133-138 | A second sync of an unchanged directory returns false if and only if no two files share a message ID. |
| GmapMailbox.GmapMailbox.SyncFilesystem | src/titlani/gmap/mailbox.py:104-160 | The loop over the listing, which changes the dictionary in place, computes the specified index and flag, loading first when needed. |
| GmapMailbox.GmapMailbox.RemoveStaleEntries | src/titlani/gmap/mailbox.py:162-172 | Exactly the entries whose file is gone are removed, and the result says whether there were any. |
| GmapMailbox.GmapMailbox.AddTag | src/titlani/gmap/mailbox.py:219-229 | Only a well-formed tag on an indexed message changes anything, and then only that entry's tags. |
| GmapMailbox.GmapMailbox.RemoveTag | src/titlani/gmap/mailbox.py:231-239 | Only that tag of that entry is removed. |
| GmapMailbox.GmapMailbox.DeleteMessage | src/titlani/gmap/mailbox.py:241-258 | Only a message tagged Trash is deleted: its entry and the file that entry names, and nothing else. |
| GmapHandler.HandleRequest | src/titlani/gmap/handler.py:114-134 | A request loads, syncs, saves if the sync changed something, and operates, with directory, saved index, memory and reply as specified. |
| GmapHandler.RouteRoundTrip | src/titlani/gmap/handler.py:187-245 | Every addressable operation is reached by its own path and query: no route shadows another. |
| GmapHandler.RouteExact | src/titlani/gmap/handler.py:59-64 | An operation is reached by its path and query if and only if its ID is one line, its tag is a path segment other than a line feed, and its timestamp has the required shape. |
| GmapReplies.ListAllExact | src/titlani/gmap/mailbox.py:174-178 | All messages are those in the directory that are not in Trash. |
| GmapReplies.ListTagExact | src/titlani/gmap/mailbox.py:180-200 | A tag lists exactly the messages in the directory that carry it, saved or by being new, and are not in Trash unless that is the tag. |
| GmapReplies.ListSinceExact | src/titlani/gmap/mailbox.py:180-200 | Since a time, exactly those whose IDs name an earlier time are left out; a time that cannot be read is refused with 59. |
| GmapReplies.IdTimeExact | src/titlani/gmap/mailbox.py:278-288 | An ID names the time whose digits it starts with, and none if there is no such time. |
| GmapReplies.FetchExact | src/titlani/gmap/handler.py:247-258 | Fetching a message with one file gives the content of the file, or 40 if it is an encrypted one; without a file, 51. |
| GmapReplies.TagsAfter | src/titlani/gmap/handler.py:285-315 | A request adds or removes one tag of one message, if it is well-formed, and leaves all other tags of all messages that remain. |
| GmapReplies.ChangesExact | src/titlani/gmap/handler.py:285-381 | When a tag is added (a well-formed one, the message there; else 59 or 51), removed (the message there), and a message deleted with its one file (there, and in Trash). |
| GmapReplies.ReadingWritesNothing | src/titlani/gmap/handler.py:114-134 | A request that only reads leaves the directory alone, and saves the index if and only if the sync has changed it. |
| GmapReplies.TaggedIsListed | src/titlani/gmap/handler.py:265-299 | After a tag was added, listing it shows the message, unless that is in Trash. |
| GmapReplies.UntaggedIsNotListed | src/titlani/gmap/handler.py:265-315 | After a tag was removed, listing it does not show the message. |
| GmapRuns.SavedEqualsMemory | src/titlani/gmap/handler.py:114-134 | After every request the saved index equals the one in memory. |
| GmapRuns.RunKeyed | src/titlani/gmap/mailbox.py:104-172 | Over every mix of deliveries, renames, removals and requests, each key is the message ID of its file name. |
| GmapReplies.RunTimed | src/titlani/gmap/mailbox.py:139-158 | Over every run, each entry shows the time its ID names. |
| GmapRuns.TagsPersist | src/titlani/gmap/handler.py:285-315 | A tag persists until it is removed, the message is deleted, or a sync finds its file gone. |
| GmapRuns.UnlinksOnlyTrashed | src/titlani/gmap/handler.py:363-381 | GMAP unlinks a file only on a delete request for its message, after a request that tagged it Trash, with entry and tag there ever since. |
| GmapReplies.StoredFile | src/titlani/server/handler.py:346-389 | A stored delivery adds one file to one mailbox, with the delivered bytes or their encryption, and changes nothing else. |
| GmapReplies.DeliveredIsFetched | src/titlani/gmap/handler.py:114-134 | After a delivery under a new ID, the request that syncs it and fetches it returns exactly the bytes delivered, or says that they are encrypted. |
| GmapReplies.DeliveredIsListed | src/titlani/gmap/mailbox.py:180-200 | In every run, the request that first sees a delivered message lists it under Inbox since a time if and only if the second of its delivery is not before that time. |
| SpkiTrust.SPKIVerifier.Finish | src/titlani/verification/spki_verifier.py:66-121 | After the network answers, the row changes as specified: first contact and same key pin, a changed key follows the policy, failures change nothing. |
| SpkiTrust.CommitExact | src/titlani/verification/spki_verifier.py:79-121 | After the network answers, a host is verified if and only if a key came and the host has no row, or its row holds that key, or changes are accepted; its row is then that key as of now, and no other row changes. |
| SpkiTrust.AnsweredWhileFresh | src/titlani/verification/cache.py:133-141 | The cache answers for a host exactly while its row is no older than the time to live. |
| SpkiTrust.SenderVerificationCache.Cleanup | src/titlani/verification/cache.py:114-129 | Exactly the expired rows of both tables are purged, and their number is returned. |
| SpkiTrust.PurgeExact | src/titlani/verification/cache.py:114-129 | A purge keeps exactly the rows no older than the time to live. |
| SpkiRuns.TrustOnFirstUse | src/titlani/verification/spki_verifier.py:56-121 | With the reject policy, from every stored table, over every interleaving of verifications split at the await and every clock, all verified results for a host carry one fingerprint. |
| SpkiRuns.StoredKeyDecides | src/titlani/verification/spki_verifier.py:82-100 | A host with a key stored by an earlier process is only ever verified with that key. |
| SpkiRuns.LoyalHostIsVerified | src/titlani/verification/spki_verifier.py:88-97 | A host that always presents one key is verified by every verification that gets a key, under either policy, however old its row is and whatever rows were removed, and its row is refreshed. |
| SpkiRuns.PinsNeverChange | src/titlani/verification/spki_verifier.py:102-121 | A key pinned in the stored table, or at any moment of such a run, is the one pinned at its end. |
| SpkiRuns.TrustExact | src/titlani/verification/spki_verifier.py:102-121 | All runs from all stored tables are consistent if and only if the policy is to reject and rows are neither cleaned up nor cleared. |
| SpkiRuns.TwoKeysVerified | src/titlani/verification/cache.py:114-191 | A run that verifies two keys for one host: under the accept policy, or, under either policy, with a clearing or with the cleanup of an expired row in between. |
| Subscribers.SubscribersFile.LoadSubscribers | src/titlani/server/lists.py:47-81 | The reading loop returns the addresses of the lines that name one, in order. |
| Subscribers.AddExact | src/titlani/server/lists.py:84-98 | A new valid lower-case address is appended to the loaded list if and only if what follows the last line break of the file is blank. |
| Subscribers.CommentSwallows | src/titlani/server/lists.py:84-98 | Behind the text `# note` without a line break, every added address is lost to the comment. |
| Subscribers.AddTerminated | src/titlani/server/lists.py:84-98 | Adding any address, whatever characters it holds, to a file that ends where a line ends keeps it that way and adds exactly whom the written line names when read back, unless the address is there. |
| Subscribers.AddBringsExact | src/titlani/server/lists.py:84-98 | Over all terminated files, adding an address brings in no other name if and only if it is well-formed or its line names nobody. |
| Subscribers.OneLineIsSound | src/titlani/server/lists.py:47-81 | An address without line separators never brings in another name. |
| Subscribers.RemoveLoads | src/titlani/server/lists.py:101-116 | Removing takes the address, and nothing else, out of the loaded list of any file, and keeps termination. |
| Subscribers.RemovedLines | src/titlani/server/lists.py:101-116 | The file is rewritten with the lines that do not stand for the address, and no others. |
| Subscribers.KeptOne | src/titlani/server/lists.py:109-111 | A line stands for the address if and only if, stripped and in lower case, it is the address. |
| Subscribers.CommentsSurvive | src/titlani/server/lists.py:84-116 | Adding any address to a terminated file keeps its comment lines in front of any new ones, of which a well-formed address adds none; removing any address from any file keeps them all. |
| Subscription.SubscriptionTokenStore.VerifyToken | src/titlani/server/subscription.py:82-111 | A confirmed token takes exactly the row it matches; none is found only when no live row matches. |
| Subscription.SubscriptionTokenStore.CreateToken | src/titlani/server/subscription.py:56-80 | A new token replaces the pending one of that list and address and touches no other row. |
| Subscription.MailingList.HandleConfirm | src/titlani/server/handler.py:619-657 | A matching row is consumed whatever the senders are; the file gains the address only if the senders contain it. |
| Subscription.MailingList.HandleSubscribe | src/titlani/server/handler.py:580-617 | Only an address that is not subscribed gets a token; the file is left alone. |
| Subscription.MailingList.HandleUnsubscribe | src/titlani/server/handler.py:659-687 | The first sender, and nobody else, leaves the list if subscribed. |
| SubscriptionReplies.SubscribeExact | src/titlani/server/handler.py:580-617 | Without a sender the answer is 59, for a subscriber 20 without a token, and otherwise 20 with a token for the first sender in place of an older one; no other row changes. |
| SubscriptionReplies.ConfirmExact | src/titlani/server/handler.py:619-657 | The answer to a confirmation is 20 if the row found is that of one of the senders, in any case of letters, and 59 otherwise. |
| SubscriptionReplies.TypedExact | src/titlani/server/subscription.py:82-92 | A typed token matches a row if and only if it is the issued one in any case of letters and the row is live. |
| SubscriptionReplies.PendingConfirms | src/titlani/server/handler.py:619-657 | The token that one address alone holds on a list is found if and only if it is typed within its time to live, is then used up, and subscribes the address if and only if that is among the senders. |
| SubscriptionReplies.ConfirmedIsSubscribed | src/titlani/server/lists.py:84-98 | A well-formed address that is added is a subscriber. |
| SubscriptionReplies.UnsubscribeExact | src/titlani/server/handler.py:659-687 | Unsubscribing takes the first sender, and nobody else, off the list. |
| SubscriptionReplies.CleanupExact | src/titlani/server/subscription.py:147-161 | A cleanup keeps exactly the pending rows no older than the time to live. |
| SubscriptionRuns.SubscriberProvenance | src/titlani/server/handler.py:580-687 | In every run from empty lists, with any senders, a subscriber is named by the line of an address that was confirmed by a sender set containing it, with the latest token issued to that list and address, not filtered by the cutoff; and it has not unsubscribed since. |
| SubscriptionRuns.OwnConfirmation | src/titlani/server/handler.py:580-687 | If every address that asks is well-formed or names nobody, the subscriber is the confirmed address itself, up to white space at its ends. |
| SubscriptionRuns.SubscriptionExact | src/titlani/server/handler.py:619-657 | All runs in which one address asks leave no one else subscribed if and only if that address is well-formed or its line names nobody. |
| SubscriptionRuns.SeparatorSubscribesAnother | src/titlani/server/lists.py:60-81 | A run in which an accepted sender address with U+2028 subscribes and confirms, and somebody else is subscribed. |
| SubscriptionRuns.ConfirmedInTime | src/titlani/server/subscription.py:82-111 | The confirmation that a subscriber goes back to came no later than the time to live after the issue of its token. |
| SubscriptionRuns.TokenConsumedOnce | src/titlani/server/subscription.py:82-111 | Two confirmations of one address on one list use two different issues, the second issued after the first confirmation. |
| SubscriptionRuns.RunTidy | src/titlani/server/lists.py:84-116 | Over every run each subscriber file ends where a line ends, and every pending row has a lower-case address. |
| EndToEnd.SentIsStored | src/titlani/client/session.py:81-121 | Whatever `send` composes, printed in C form and delivered in any run of a connection: each delivery of the handler goes to the mailbox addressed and reads back as the recipient, the subject as a heading and the body, the certificate's address and the seconds of delivery and sending, if and only if metadata lines can hold that address and the lines fit. |
| EndToEnd.OneKeyPerHost | src/titlani/verification/handler.py:58-127 | With the reject policy and no removal of rows, all requests of a run that name a sender of one host and get past required mode were verified with one key, the stored one if there was one. |

## Left out

- TLS, sockets and the event loop itself: callbacks are events in any order the loop allows; the branches for a missing loop are not modelled.
- tlacacoca (rate limiter, access control, client-side trust store): the middleware's results are arbitrary events.
- Certificates and cryptography: a certificate is the identity it carries; encryption is an arbitrary function on bytes; SHA-256 IDs are a parameter.
- SQLite, JSON and the file system: tables, index file and directory are maps changed by atomic operations; no partial writes, permissions, symbolic links or path resolution. The block list is the set it loads as.
- GMAP authentication and the `/list/` routes, which only read; the request line parser of src/titlani/gmap/handler.py.
- The order of listed message IDs: listings are sets.
- src/titlani/gmap/protocol.py, src/titlani/verification/combined_verifier.py and the probe verifier: simpler versions of what is modelled.
- List forwarding over the network, the confirmation mail with the token, and the metadata file beside a stored message.
- Command line, configuration, display and server start-up.
- The wording of header errors: one text per kind of error, where the source quotes parts of the input. Statuses and the other texts are the source's.
- Calendar.ParseStamp: reads `YYYY-MM-DD?HH:MM:SS`, an optional fraction, then `Z` or `+00:00`, any character standing between date and time. Other offsets, naive local times and the further ISO 8601 spellings that `fromisoformat` accepts count as unreadable.
- Calendar.Stamp: prints years with four digits, where `strftime` leaves the padding of years below 1000 to the platform.
- Text.ParseInt: decimal digits are the ASCII ones, with a sign, surrounding white space and single underscores between digits as `int()` allows; the digits of other scripts are not read.
- Text.Lower: lower case, and matching in any case, for ASCII letters only.
- Preparation.LossyDecode: puts one replacement character for each undecodable octet, where Python puts one for each maximal ill-formed prefix. B requests hold decodable text, so the branch is not reached through the wire.
- Subscribers.IsBreak: every separator of `splitlines()` except CR. A subscriber file is modelled as `read_text` returns it, with CRLF and lone CR translated; what is appended is translated the same way.
- GmapMailbox.GmapMailbox.SyncFilesystem: the four globs are one listing of all matching names in any order, without repetition being required or excluded.
- Subscription.SubscriptionTokenStore.VerifyToken: when several addresses hold the same live token, which row is taken is left open, as it is by the query.
- Subscription.MailingList.HandleSubscribe: the random token is a parameter; nothing is claimed about how hard it is to guess.
- SpkiTrust.SPKIVerifier.Begin: the asynchronous method is cut at its only await into Begin and Finish; key extraction is a parameter.
- Delivery.FileMailboxHandler.HandleMessage: a list command is returned, with the senders, to be carried out by Subscription.MailingList; which message ID hash is used is a parameter.
- Sending.SendRaw: the delay between retries, and its parsing from the meta, is not modelled; an attempt is the bytes it sends.
- ReplyLoops.RepliesExactC: takes a reply text without CR, as the text read from the auto-reply file is, and an address on one line, as one read from a stored message is.
- ReplyLoops.RepliesExactB: takes, besides, a configured host name without line breaks.
- MessageId.MessageIdExact: `\d` in the pattern of an ID matches decimal digits of every script, here the ASCII ones only; the same holds for the timestamps in GmapHandler.RouteExact.
- The table of verified fingerprints in the cache is purged but not otherwise used: the probe verifier that fills it is left out. Whether a subscription is pending is not asked; dropping a pending one is a step of SubscriptionRuns only.
- Gemmail round trips are proved for the time zone UTC only, as a consequence of the timestamps read.
