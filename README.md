# rinha-backend payment gateway: request path, dispatch and retry queue

This project models the core of a small payment gateway written in Go:

- **The gnet HTTP server** (`servers/g_net.go`).
  - For each connection it peeks at the buffered bytes and reads the request line with `readLine`.
  - It reads the header block with `readHeaders`, checks `Content-Length`, and adds up the bytes to discard.
  - A `Connection: close` header turns the server's `keepAlive` flag off.
  - It routes the request:
    - `POST /payments` is acknowledged with a fixed 200 response, and the body is handed to the payment service;
    - `GET /payments-summary?from=…&to=…` is answered with a summary;
    - everything else is answered with an error.
  - It loops until the buffer holds no complete request, or until `keepAlive` is off.
- **The payment service** (`internal/services/payment.go`). A queued payment is posted to the default processor. If that fails, it is posted to the fallback processor. If that fails too, it is queued again. A 2xx reply stores a record, and a 422 is accepted without one.
- **The retry queue** (`internal/workers/queue_worker.go`). A buffered channel of fixed capacity has a spill list for messages that found it full. A periodic tick (`main.go`) moves spilled messages back into the channel.

The Dafny modules follow that structure:

| Module | File | Contents |
|---|---|---|
| `ByteStrings` | `byte_strings.dfy` | The Go library helpers the server uses (`bytes.Index`, `bytes.Split`, `bytes.TrimSpace`, `bytes.ToLower`, `bytes.EqualFold`, `strconv.Atoi`, `%d`, `strings.TrimRight`), as functions over byte strings. |
| `HttpCodec` | `http_codec.dfy` | `readLine`, `readHeaders`, `parseQueryString` and `writeResponse`, each paired with its inverse. |
| `GNet` | `g_net.dfy` | The framing of a buffered request. Its two byte counts: OnTraffic's as written, and the exact one. Routing. One pass of OnTraffic's loop (`Step`). The loop under either count (`Traffic`). The `GNetServer` class: `Serve` makes one pass, and `OnTraffic` runs the loop with its own count on the `keepAlive` field. |
| `GNetProperties` | `g_net_properties.dfy` | What the server promises: decoding a request depends on its own bytes only, pipelined requests, error paths, routing, and the finding below. |
| `Workers` | `queue_worker.dfy` | The `QueueWorker` class, and the functions `Sent` and `Retried` that specify its steps. |
| `Payments` | `payment_service.dfy` | `execute`'s classification of replies, the dispatch policy `Dispatch`, and the `PaymentService` class. |
| `Models` | `models.dfy` | The payment records. |
| `Wrappers` | `wrappers.dfy` | `Option` and `Result`. |

## Model

| member | source | states |
|---|---|---|
| ByteStrings.IndexCRLF | servers/g_net.go:73 | the position of the first CRLF, with none before it; -1 exactly when there is no CRLF |
| ByteStrings.IndexByte | servers/g_net.go:91 | the position of the first occurrence of the byte, and -1 exactly when it does not occur |
| ByteStrings.Split | servers/g_net.go:129 | the number of pieces is one more than the number of separators |
| ByteStrings.SplitPieces | servers/g_net.go:103 | no piece of a split holds the separator |
| ByteStrings.JoinSplitJoined | servers/g_net.go:103 | joining the pieces of a split with the separator gives back the string |
| ByteStrings.SplitJoin | servers/g_net.go:103 | splitting pieces joined with a separator they do not contain gives back the pieces |
| ByteStrings.TrimSpace | servers/g_net.go:95-96 | the result has no white space at either end; a string without any is unchanged |
| ByteStrings.TrimSpaceRemovesSpace | servers/g_net.go:95-96 | the trimmed string is a run of the original, and everything removed around it is white space |
| ByteStrings.TrimLeftRemovesSpace | servers/g_net.go:95-96 | trimming the left keeps a suffix and removes only white space |
| ByteStrings.TrimRightRemovesSpace | servers/g_net.go:95-96 | trimming the right keeps a prefix and removes only white space |
| ByteStrings.TrimSpaceLeadingSpace | servers/g_net.go:96 | a space after the colon makes no difference to the stored value |
| ByteStrings.ToLower | servers/g_net.go:95 | lower-casing keeps the length |
| ByteStrings.ToLowerChanges | servers/g_net.go:95 | lower-casing leaves no upper-case letter, turns each upper-case letter into the one 32 places on ('A' into 'a'), and changes nothing else |
| ByteStrings.TrimTrailing | servers/g_net.go:216 | removes exactly the trailing run of one byte: a prefix that does not end in it, followed only by it |
| ByteStrings.Decimal | servers/g_net.go:51 | the digits written for n have the value n, with no leading zero except in "0" itself |
| ByteStrings.Itoa | servers/g_net.go:51 | a sign exactly for negatives, digits otherwise, never CR or LF |
| ByteStrings.Atoi | servers/g_net.go:146 | an accepted number is within int64 and negative only after '-' |
| ByteStrings.AtoiAccepts | servers/g_net.go:146 | a sign ("", "+" or "-") followed by one or more digits is read to their value, negated after '-', exactly when that fits in int64 |
| ByteStrings.AtoiRejectsNonDigit | servers/g_net.go:146 | any byte other than a digit, apart from a sign in front, is an error |
| ByteStrings.AtoiRejectsNoDigits | servers/g_net.go:146 | a string without digits is an error, the empty string and a lone sign included |
| ByteStrings.AtoiItoa | servers/g_net.go:146 | Atoi reads back what Itoa writes, for every int64 |
| ByteStrings.EqualFoldCloseAscii | servers/g_net.go:165 | for an ASCII value, EqualFold with "close" holds exactly when the value lower-cases to "close" |
| HttpCodec.ReadLine | servers/g_net.go:72-78 | fails exactly when there is no CRLF, keeping all the data; otherwise line + CRLF + rest is the data, cut at the first CRLF |
| HttpCodec.ReadLineOf | servers/g_net.go:72-78 | a line without CRLF, followed by CRLF, is read back exactly, whatever follows |
| HttpCodec.ReadLineRebase | servers/g_net.go:72-78 | the line read does not depend on the bytes after its CRLF |
| HttpCodec.ReadHeaders | servers/g_net.go:80-99 | a finished block leaves at least its blank line behind; a failure returns no headers |
| HttpCodec.ReadHeadersInto | servers/g_net.go:80-99 | the same for the loop with the headers read so far: a finished block leaves at least its blank line behind, and a failure returns no headers |
| HttpCodec.ReadHeadersOfLines | servers/g_net.go:80-99 | a block of header lines closed by a blank line is read to the map those lines build in order, leaving exactly the bytes after the block |
| HttpCodec.HeaderBlockLines | servers/g_net.go:80-99 | conversely, every block readHeaders accepts is such a list of header lines and a blank line |
| HttpCodec.ReadHeadersNoColon | servers/g_net.go:91-94 | a non-blank line without ':' fails the whole block |
| HttpCodec.ReadHeadersNoCRLF | servers/g_net.go:84-87 | data without CRLF fails |
| HttpCodec.ReadHeadersLaterWins | servers/g_net.go:95-97 | of two lines with the same lower-cased key, the later value is stored |
| HttpCodec.FieldLineReadsBack | servers/g_net.go:91-97 | a line "Name: value" is stored under the lower-cased name with the value |
| HttpCodec.HeaderFieldShape | servers/g_net.go:91-96 | for any line, the stored key is lower-case, key and value have no white space at either end, and a line without ':' gives an empty key and value |
| HttpCodec.ReadHeadersOfFields | servers/g_net.go:80-99 | fields written one per line and closed by a blank line are read to their field map |
| HttpCodec.ParseQueryString | servers/g_net.go:101-115 | succeeds exactly when there is one '&' and both pieces hold '=' |
| HttpCodec.AddPairs | servers/g_net.go:107-113 | the pair loop succeeds exactly when every pair holds '=' |
| HttpCodec.ParseQueryStringOf | servers/g_net.go:101-115 | "k1=v1&k2=v2" is read back to its two pairs, and the second value is kept for equal keys |
| HttpCodec.WriteResponseReadsBack | servers/g_net.go:35-59 | readLine yields the status line, and readHeaders yields the three header fields with the body after the blank line |
| HttpCodec.ResponseHeaderMap | servers/g_net.go:49-53 | a response carries exactly content-type, content-length and connection, and its Content-Length parses back to the body size |
| HttpCodec.AckPrefixIsResponse | servers/g_net.go:22 | the fixed acknowledgement is exactly writeResponse's 200, empty-body, keep-alive response |
| HttpCodec.HeaderKeyOf | servers/g_net.go:95 | the key stored for "name:..." is the lower-cased name |
| HttpCodec.HeaderValueOf | servers/g_net.go:96 | the value stored for "name: value" is the value |
| GNet.HeaderBytesRemove | servers/g_net.go:158-160 | the header sum may take any stored key first: map order does not change totalConsumed |
| GNet.HeaderBytesInsert | servers/g_net.go:158-160 | a new key adds len(key) + len(value) + 4 |
| GNet.ConsumedLength | servers/g_net.go:157-162 | the loop computes request line + 2 + the header sum + 2 + Content-Length |
| GNet.ContentLength | servers/g_net.go:143-151 | 0 without the header, otherwise the value Atoi reads; an error exactly when the value does not parse or is negative |
| GNet.Frame | servers/g_net.go:124-171 | a framed request's line, blank line and body fit in the buffer |
| GNet.FrameAfterLine | servers/g_net.go:129-171 | the same, once the request line is cut off |
| GNet.FrameRequest | servers/g_net.go:138-171 | the same, once the header block is read |
| GNet.Decode | servers/g_net.go:170-173 | the corrected count: a complete request consumes exactly its own bytes, the header block and Content-Length bytes of body, at least 4 and at most the buffered bytes |
| GNet.DecodeAsWritten | servers/g_net.go:157-162 | OnTraffic's own count (totalConsumed) is at least 4, and only for a buffer of at least 4 bytes |
| GNet.SplitQuery | servers/g_net.go:176-177 | the route before the first '?', and the query after it exactly when there is a '?' |
| GNet.SummaryReply | servers/g_net.go:179-196 | the summary route always responds, with 200 or 400 |
| GNet.SummaryOfBounds | servers/g_net.go:198-247 | the same once the bounds are read |
| GNet.RouteTable | servers/g_net.go:175-281 | only POST /payments is accepted, with its body; other POST paths get 404, other methods 405, other GET routes 400; only the summary answers 200 |
| GNet.Discard | servers/g_net.go:173 | drops n bytes from the front, or everything when fewer are buffered |
| GNet.Step | servers/g_net.go:118-281 | a pass that goes round again leaves a strictly shorter buffer |
| GNet.StepUnframed | servers/g_net.go:118-141 | unfolding of one pass: with OnTraffic's count, an empty buffer or a partial request stops the loop with nothing written, and a malformed one is answered 400 with Connection: close and closes it |
| GNet.StepFramed | servers/g_net.go:143-281 | unfolding of one pass: with OnTraffic's count, a framed request clears keepAlive on Connection: close, discards totalConsumed bytes, is routed and answered, and stops the loop exactly when keepAlive is off |
| GNet.GNetServer.constructor | servers/g_net.go:31-33 | the server starts with the given keepAlive |
| GNet.GNetServer.Serve | servers/g_net.go:118-281 | one pass of the loop: its result is Step with OnTraffic's count from the old keepAlive, and keepAlive is left as that pass leaves it |
| GNet.GNetServer.OnTraffic | servers/g_net.go:117-283 | the loop's action, responses, dispatched bodies, remaining bytes and new keepAlive are those of Traffic with OnTraffic's own count, totalConsumed, from the old keepAlive |
| GNetProperties.FrameRebase | servers/g_net.go:117-171 | a request that ends at byte p is framed the same whatever follows it |
| GNetProperties.DecodeRebase | servers/g_net.go:117-173 | a complete request decodes the same whatever follows it |
| GNetProperties.DecodeByRebase | servers/g_net.go:117-173 | either count of a complete request is the same whatever follows it |
| GNetProperties.DecodeCanonical | servers/g_net.go:124-171 | a request line, fields written "Name: value" and a blank line decode to its verb, path and field map, with the body Content-Length says |
| GNetProperties.BadRequestLineCloses | servers/g_net.go:129-133 | under either count, a request line with fewer than three parts is answered 400 "bad request" with Connection: close, and the connection is closed |
| GNetProperties.NoColonWaits | servers/g_net.go:138-141 | under either count, a header line without ':' is treated as an unfinished request: nothing written, nothing discarded |
| GNetProperties.TrafficPipelined | servers/g_net.go:117-283 | under a count that is the request's own length (the exact count always), a complete request followed by anything is answered first, its payment dispatched first, and the loop goes on with exactly the following bytes unless keepAlive is off |
| GNetProperties.TrafficPipelinedCanonical | servers/g_net.go:117-283 | OnTraffic itself, on a request written with ASCII "Name: value" fields of distinct names and a Content-Length body followed by anything: the request is answered first and the loop goes on with exactly the following bytes unless keepAlive is off |
| GNetProperties.TrafficComplete | servers/g_net.go:164-283 | unfolding of the loop by one pass: under either count, a complete request clears keepAlive on Connection: close, is routed and answered, and the loop goes on with the bytes after the count unless keepAlive is off |
| GNetProperties.CloseRequestedAscii | servers/g_net.go:164-168 | for an ASCII Connection value, keepAlive is cleared exactly when the value lower-cases to "close" |
| GNetProperties.TrafficShape | servers/g_net.go:117-283 | under either count, every call leaves a suffix of the buffer, at most one dispatched body per response, keepAlive never switched back on, nothing decodable at the front when keeping the connection, and a response before any close |
| GNetProperties.AsWrittenAgrees | servers/g_net.go:157-162 | OnTraffic's count equals the exact one for ASCII fields written "Name: value" with distinct names |
| GNetProperties.FieldBytes | servers/g_net.go:158-160 | for ASCII fields with distinct names, the header sum is the length of the lines "Name: value" and their CRLFs |
| GNetProperties.TightHeaderOvercount | servers/g_net.go:157-173 | a request with one ASCII header written "name:value" decodes under OnTraffic's count to that request, with a count one byte longer than the request |
| GNetProperties.TightHeaderExact | servers/g_net.go:170-173 | the exact count decodes the same request to exactly its own bytes |
| GNetProperties.TightHeaderLosesByte | servers/g_net.go:117-283 | OnTraffic behind such a request answers it and goes on with the next request's bytes minus their first byte |
| GNetProperties.TightHeaderKeepsNext | servers/g_net.go:117-283 | the exact count behind the same request goes on with all of the next request's bytes |
| GNetProperties.PaymentsAccepted | servers/g_net.go:260-275 | POST /payments writes the fixed 200 keep-alive acknowledgement and hands on the body unchanged |
| GNetProperties.SummaryInvalidQuery | servers/g_net.go:189-196 | a query that is not two key=value pairs is answered 400 "invalid query" |
| GNetProperties.SummaryOfQuery | servers/g_net.go:189-199 | "from=F&to=T" reaches the summary with F and T as its bounds |
| GNetProperties.SummaryBounds | servers/g_net.go:198-247 | a bad from is reported before a bad to; trailing backslashes of to are ignored; an empty bound is open; 200 exactly when the bounds parse and the summary succeeds, with its JSON as the body; a summary error is answered 400 with the error text in the body |
| Workers.Sent | internal/workers/queue_worker.go:23-32 | the message joins the channel exactly when it has room and the spill list otherwise; nothing else changes, and nothing is lost |
| Workers.Retried | internal/workers/queue_worker.go:34-50 | the longest prefix of the spill list that fits moves in order to the channel; the rest stays spilled in order; the channel is full whenever something stays |
| Workers.RetriedNothingToDo | internal/workers/queue_worker.go:34-50 | a retry with nothing spilled or a full channel changes nothing |
| Workers.RetriedIdempotent | internal/workers/queue_worker.go:34-50 | retrying twice is retrying once |
| Workers.SentThenRetried | internal/workers/queue_worker.go:23-50 | a send followed by a retry keeps every message |
| Workers.SendOvertakesSpill | internal/workers/queue_worker.go:23-50 | a message sent while the channel has room goes ahead of older spilled messages |
| Workers.QueueWorker.constructor | internal/workers/queue_worker.go:16-21 | an empty channel of the given size and an empty spill list |
| Workers.QueueWorker.Send | internal/workers/queue_worker.go:23-32 | the new state is Sent of the old one; the held messages grow by exactly msg |
| Workers.QueueWorker.RetryFallback | internal/workers/queue_worker.go:34-50 | the new state is Retried of the old one; the held messages are unchanged, in order |
| Workers.QueueWorker.CountFallback | internal/workers/queue_worker.go:112-114 | the number of spilled messages |
| Workers.QueueWorker.Receive | internal/workers/queue_worker.go:63 | a consumer takes the oldest buffered message |
| Workers.QueueWorker.Tick | main.go:42-47 | the new state is Retried of the old one, and afterwards the spill list is empty or the channel is full |
| Payments.Classify | internal/services/payment.go:106-128 | stored exactly on 2xx; accepted without a record exactly on 422; a transport error is passed on; any other status is an error naming it |
| Payments.ClassifyFails | internal/services/payment.go:109-127 | an error exactly on a transport error or a status outside 2xx and 422 |
| Payments.Dispatch | internal/services/payment.go:75-79 | the default processor is always called first; the fallback exactly when the default failed; the message is queued exactly when both failed; at most one record, from the processor that stored it |
| Payments.DefaultAnswerFinal | internal/services/payment.go:75-79 | a default reply of 2xx or 422 means one call and nothing queued |
| Payments.DispatchAccountsForPayment | internal/services/payment.go:75-128 | every payment ends in exactly one place: stored, accepted without a record, or queued again |
| Payments.PaymentService.constructor | internal/services/payment.go:30-42 | a service over the queue and the two clients, with nothing posted or stored |
| Payments.PaymentService.PostPayment | internal/services/payment.go:130-163 | the request goes to the fallback client exactly when asked, with the payment's id, amount and time |
| Payments.PaymentService.Execute | internal/services/payment.go:106-128 | one call, a record on 2xx, and the error exactly as Classify says |
| Payments.PaymentService.RunQueue | internal/services/payment.go:44-82 | a parse error is returned and changes nothing; otherwise no error, the calls and records of Dispatch, and a send to the queue exactly when Dispatch queues |

## Left out

- Concurrency.
  - gnet's event loops and the connection object are left out, and so is the `go` statement that runs RunQueue. A dispatched body is recorded in `dispatched` at the point where the goroutine starts.
  - The queue's mutex, the `Consume` worker pool and the `StartWorker` ticker are left out. Each operation is one sequential step: `Receive` is one consumer's receive, and `Tick` is one tick.
- Pooled buffers and aliasing. The `sync.Pool` buffer, AsyncWrite versus Write ordering, and the body slice that aliases gnet's buffer are left out. Responses are recorded in the order they are written, as byte strings.
- `RetryFallback` reuses the spill list's backing array (`q.fallback[:0]`). Each write lands at or before the element being read, so the result is the order-preserving filter the model states.
- `b2s` (an unsafe string view) is left out. It is the identity on the bytes.
- Logging (`println`, `fmt.Println`, `log.Printf`) is left out, including the log line for an unknown GET route.
- `time.Parse` with the RFC 3339 layout is a parameter of the summary route (`SummaryEnv.parseTime`). The same goes for `GetPaymentSummary` followed by `MarshalJSON` (`SummaryEnv.summary`), which gives either the JSON or the error's text.
- JSON is not modelled.
  - RunQueue receives the outcome of parsing its message as an input.
  - The payment request's `MarshalJSON` is not modelled, and neither is its ignored error (payment.go:138-142).
  - The amount is kept as the bits of a float64.
- The two fasthttp clients are functions from the posted request to a transport error or a status code (`Processors`). Request headers, the Host header and connection limits are left out.
- The clock (`time.Now().UTC()`) is the `now` input of RunQueue.
- The repository's asynchronous `Insert` is modelled as an append to `records`. Insertion errors and the database are left out.
- ByteStrings.TrimSpace and ByteStrings.ToLower handle ASCII only. Go also trims Unicode white space and lower-cases non-ASCII letters. `EqualFold` against "close" is modelled in full, including U+017F.
- GNetProperties.AsWrittenAgrees, FieldBytes, TrafficPipelinedCanonical, TightHeaderOvercount and TightHeaderLosesByte are stated for ASCII header fields only. Outside ASCII, Go's lower-casing and trimming can change a field's length, and the model's ASCII-only helpers do not follow that.
- Byte strings are `seq<char>`. The model does not restrict characters to 0–255.
- `NewQueueWorker` with a negative buffer panics in Go. The model's capacity is a `nat`.
- GNet.GNetServer.constructor does not hold the payment service. Its effect is the `dispatched` bodies that OnTraffic returns.
- main.go:49 calls `NewGNetServer` with three arguments, but g_net.go:31 declares two. The model follows g_net.go.
- The fixed acknowledgement always says `Connection: keep-alive`, even when the request asked to close and the connection is then closed. The model keeps this behaviour (GNetProperties.PaymentsAccepted).
- `OnOpened`'s 60-second deadline is left out.

## Findings

| source | as written | input that shows it | evidently intended | confidence | as-written member | corrected member |
|---|---|---|---|---|---|---|
| servers/g_net.go:157-173 | totalConsumed adds len(key) + len(value) + 4 per stored header. That counts each header line as if it were written "key: value". | `GET / HTTP/1.1\r\nHost:a\r\n\r\n` followed by a second pipelined request: the count is one byte too many, so the first byte of the second request is discarded | discard exactly the request's own bytes: everything up to the end of the header block, plus Content-Length | not executed | GNetProperties.TightHeaderLosesByte | GNetProperties.TrafficPipelined |

OnTraffic's count also counts a line once per stored key. A repeated header therefore undercounts, and so do padded names or values. A name or value outside ASCII miscounts too: Go's `bytes.ToLower` and `bytes.TrimSpace` (g_net.go:95-96) can change its length, for instance by lower-casing U+0130, replacing an invalid byte with U+FFFD or trimming U+00A0. Only the case in the table is proved.

GNet.DecodeAsWritten is the count as written, and `GNetServer.OnTraffic` discards it, as g_net.go:173 does. GNetProperties.AsWrittenAgrees proves that it agrees with the exact count when the headers are written canonically in ASCII, so TrafficPipelinedCanonical holds for OnTraffic itself on such requests. The corrected loop is `Traffic(Exact, …)`, which discards GNet.Decode's exact count. TrafficPipelined proves the intended property for it on every complete request, and TightHeaderKeepsNext shows it on the input in the table.
