# Verified model of the HTTP server framework

A Dafny 4.11 model of the parts of HTTPServer-AIApps that carry state or protocol: the incremental
HTTP/1.x request parser and its connection driver, the router's prefix index, the TLS pump, the
database connection pool, the base64 codec, the session store, the response serializer and the password
records.

Each imperative part of the program is a class or a method here, proved equal to a specification
function of the old state; the theorems about whole runs are then lemmas about those functions. A
`char` stands for one byte of a C++ string, and character classes are those of the "C" locale.

| file | component |
|---|---|
| Common.dfy | what several components share |
| Text.dfy | byte strings: searching, ASCII case, trimming, decimal numbers, `from_chars` |
| HttpRequest.dfy | the request object and its setters |
| HttpContext.dfy | the four-state parser as a machine and as a class |
| Chunking.dfy | the answer does not depend on how the stream is cut |
| Grammar.dfy | the accepted language stated without the machine; both directions |
| MessageFraming.dfy, RequestFraming.dfy | the body length of section 6.3 of RFC 9112, and where the parser agrees with it |
| HttpServer.dfy | `onMessage` over whole runs: conservation, order, backlog, errors |
| CloseDecision.dfy | which requests close the connection, over the lines of their messages |
| HttpServerErrors.dfy | what is handled after an error reply, and when the process aborts |
| RequestRoundTrip.dfy | print a request, parse it back |
| RoutePattern.dfy, Router.dfy | pattern conversion and matching; buckets against a plain scan |
| SslConnection.dfy | plaintext and ciphertext accounting for every behaviour of OpenSSL |
| SslProgress.dfy | what is decrypted, when the handshake ends and the queue is written |
| HttpsServer.dfy | the TLS driver: requests of the decrypted stream, answers through the pump |
| DbConnectionPool.dfy | the pool's lock and condition variable as interleaved steps |
| Base64.dfy | codec, line wrapping, the 32-bit cursor |
| Sessions.dfy | sliding expiry, lazy and eager purge, the cookie |
| PasswordHash.dfy | password records: printing, parsing, upgrade |
| HttpResponse.dfy | the serializer and a reader that follows section 6.3 of RFC 9112 |

## Results that a user of the server should know

- Pipelining. `onMessage` handles at most one request per read. `Server.CaughtUpIff` says exactly when
  that loses nothing: the read must leave at most one complete request to be handled. Otherwise the
  later requests wait, complete, until more bytes arrive (`Server.TwoInOneRead`, and
  `Server.PipelinedRequestWaits` with concrete bytes). The repository's README declares pipelining
  unsupported; nothing is lost or reordered.
- After an error. The error reply shuts down only the writing side, and later bytes are parsed in the
  state the error left. A rejected header line is dropped and the rest of its request goes on
  (`ServerErrors.HandledAfterErrorIff`): a POST answered 413 is handed to its handler when
  `Content-Length: 0` and a blank line follow (`ServerErrors.RejectedThenHandled`). A rejected request line
  is rejected again by every message, unless it names a known method; then the next message stops in
  the assertion of `setMethod` (`ServerErrors.AbortsNextIff`, `ServerErrors.BadLineAborts`).
- Body lengths. The parser gives a body to POST and PUT only, takes the last Content-Length and ignores
  Transfer-Encoding. It agrees with section 6.3 of RFC 9112 exactly under the conditions of
  `RequestFraming.FramingAgreesIff`; otherwise, for example, the declared body of a GET is handled as a
  request of its own (`RequestFraming.BodyHandledAsRequest`, `RequestFraming.GetBodyHandled`), and a POST
  without Content-Length is rejected (`RequestFraming.PostWithoutLength`).
- Routes below the root. A dynamic pattern is found through its bucket if and only if it has no `/:`,
  or starts with a slash and has its first `/:` after position 0 (`Routing.IndexedIff`). The pattern
  `/:id` matches `/7` but is never looked up (`Routing.RootParameterUnreachable`), although the
  repository's README describes the buckets as covering all dynamic routes.
- Order of TLS sends. `send` writes before it looks at `pendingPlain_`. It keeps the order of the
  plaintext for every behaviour of OpenSSL if and only if the queue or the data is empty, or all the
  bytes are equal (`Tls.SendKeepsOrderIff`; a run from the start is `Tls.SendsOvertake`). Each single
  send is always delivered in order and at most once (`Tls.SendDelivered`).
- TLS handshake. A request that arrives with the last handshake bytes is not decrypted before more
  bytes arrive (`Tls.ReadAsksIff`).
- Session cookies. `sessionId=` is searched for as text, so a cookie whose name ends in it and that comes
  first hides the session (`Sessions.EchoPresentsIdIff`, `Sessions.EarlierNameWins`).
- Destroyed sessions. A session is stored again after `destroySession` if and only if a handler sets a
  value in it (`Sessions.DestroyedIffNotSaved`).
- A pool initialised with no connections blocks every caller for good (`Pooling.EmptyPoolBlocks`,
  `Pooling.EmptyInitBlocks`). Connections that a failed `init` made stay in the pool
  (`Pooling.LeasesBounded`).
- The check thread of the pool pings connections that may have been leased since it copied the queue
  (`Pooling.OneUserIff`, `Pooling.PingerShares`).
- Password records. The iteration field is read with `stoi`, so white space, a sign, leading zeros and
  text behind the digits are accepted (`PasswordHash.StoiIff`, `PasswordHash.CountByValue`).
- Responses. A response is readable exactly when it was given an HTTP/1.x version and a status, and has
  a body only if its status allows one (`Responses.ReadsBackIff`). The framework's own 404 answer is not
  given a version (`Responses.NotFoundUnreadable`).

## Model

| member | source | states |
|---|---|---|
| Text.TrimShape | HttpServer/src/http/HttpRequest.cpp:144-157 | Trimming a header value takes white space off both ends, nothing else, and leaves none there. |
| Text.FromCharsWhole | HttpServer/src/http/HttpContext.cpp:66-70 | `from_chars` consumes the whole field without error exactly for nonempty digit strings below 2^64, and gives their value. |
| Text.LowerIff | HttpServer/src/http/HttpRequest.cpp:10-16 | Two texts have the same lower-case form iff they have the same length and at each position the same character or the two cases of one letter. |
| Text.LowerIs | HttpServer/src/http/HttpRequest.cpp:10-16 | The lower-case form is the only text that is equal up to case and has no upper-case letter. |
| Text.SpaceIff | HttpServer/src/http/HttpRequest.cpp:144-157 | The six characters that `isspace` accepts. |
| Requests.ToLowerAscii | HttpServer/src/http/HttpRequest.cpp:10-16 | The result is equal up to case and has no upper-case letter left. |
| Requests.HttpRequest.constructor | HttpServer/include/http/HttpRequest.h:31-35 | A new request has every field at its default. |
| Requests.HttpRequest.SetMethod | HttpServer/src/http/HttpRequest.cpp:24-56 | May be called once per reset; recognises exactly five methods (not HEAD) and changes only the method. |
| Requests.HttpRequest.SetQueryParameters | HttpServer/src/http/HttpRequest.cpp:90-132 | The cursor loop adds the pairs between ampersands, later pairs overriding, pairs without `=` skipped. |
| Requests.HttpRequest.AddHeader | HttpServer/src/http/HttpRequest.cpp:134-159 | Stores the trimmed value under the lower-case name and changes nothing else. |
| Requests.HttpRequest.GetHeader | HttpServer/src/http/HttpRequest.cpp:161-172 | Looks the field up under its lower-case name; a missing field gives the empty string. |
| Requests.HttpRequest.Swap | HttpServer/src/http/HttpRequest.cpp:174-185 | Exchanges every field, so that a reset leaves nothing of the old request. |
| Requests.HeaderNameCaseInsensitive | HttpServer/src/http/HttpRequest.cpp:134-172 | A field sent under a name is found under the names that are equal to it up to ASCII case, and under no other. |
| Parsing.HttpContext.constructor | HttpServer/include/http/HttpContext.h:24-25 | A new context expects a request line and holds an empty request. |
| Parsing.HttpContext.ProcessRequestLine | HttpServer/src/http/HttpContext.cpp:145-191 | Leaves in the request, and answers, what the request-line rule says, also for rejected lines. |
| Parsing.HttpContext.FinishHeaders | HttpServer/src/http/HttpContext.cpp:55-108 | The blank line's decision on method and Content-Length, independent of what is still unread. |
| Parsing.HttpContext.AssertionFails | HttpServer/src/http/HttpRequest.cpp:24-30 | Says exactly when `parseRequest` would stop in the assertion of `setMethod`. |
| Parsing.HttpContext.ParseRequest | HttpServer/src/http/HttpContext.cpp:12-142 | From any state but `kGotAll`, unless the assertion fails, the loop ends and does exactly one `Parse` of the machine: state, request, status, unread bytes, answer. |
| Parsing.HttpContext.Reset | HttpServer/include/http/HttpContext.h:33-39 | The parser is as new; no field of the last request remains. |
| Parsing.Loop | HttpServer/src/http/HttpContext.cpp:17-141 | Every step that goes on consumes input, so the loop ends, with `kGotAll` exactly when a request is complete. |
| Chunking.StepExtend | HttpServer/src/http/HttpContext.cpp:19-139 | A step that did not ask for bytes does the same with more bytes behind; one that asked changed nothing. |
| Chunking.LoopExtend | HttpServer/src/http/HttpContext.cpp:17-141 | A call on some bytes followed by a call with the rest answers like one call on all. |
| Chunking.ChunkingIndependent | HttpServer/src/http/HttpContext.cpp:12-142 | For every split of the stream: same verdict, error status, request and unread bytes as one call on the whole stream. |
| Grammar.RequestLineBuilt | HttpServer/src/http/HttpContext.cpp:145-191 | Every line method SP target SP version is accepted, with the method, path, query and version it names. |
| Grammar.RequestLineAccepted | HttpServer/src/http/HttpContext.cpp:145-191 | `processRequestLine` accepts exactly the lines of that shape. |
| Grammar.EndOfHeadersIsFraming | HttpServer/src/http/HttpContext.cpp:59-107 | Only POST and PUT have a body; their Content-Length is accepted iff it is a decimal 64-bit number within the limit, 413 iff it is one above the limit, else 400. |
| RequestFraming.FramingAgreesIff | HttpServer/src/http/HttpContext.cpp:59-107 | For a head that is accepted, the body has the length of section 6.3 of RFC 9112 iff there is no Transfer-Encoding, all Content-Lengths are one digit string, if any, and methods other than POST and PUT declare zero. |
| RequestFraming.RejectedThoughFramed | HttpServer/src/http/HttpContext.cpp:62-100 | Of the heads to which section 6.3 gives a length, exactly those of POST and PUT without a plain last Content-Length or with one too large are rejected, with 413 iff it is a 64-bit number above the limit. |
| RequestFraming.LastValueKept | HttpServer/src/http/HttpRequest.cpp:134-172 | The last field of a name is the one that is found. |
| RequestFraming.BodyHandledAsRequest | HttpServer/src/http/HttpContext.cpp:102-107 | A declared body of a method without body is handled as a request of its own. |
| RequestFraming.GetBodyHandled | HttpServer/src/http/HttpContext.cpp:102-107 | Concrete bytes: a GET that declares 18 bytes, followed by 18 bytes that are a GET. |
| RequestFraming.PostWithoutLength | HttpServer/src/http/HttpContext.cpp:95-100 | A POST or PUT without fields has an empty body by section 6.3, and is rejected. |
| Grammar.ValidParses | HttpServer/src/http/HttpContext.cpp:12-142 | Every message of the grammar is parsed to its meaning, leaving exactly what follows it. |
| Grammar.AnswerExplained | HttpServer/src/http/HttpContext.cpp:12-142 | Whatever the parser answers, the grammar explains: done means accepted, an error means rejected with that status. |
| Grammar.DoneIffAccepted | HttpServer/src/http/HttpContext.cpp:12-142 | Done with this request and these unread bytes if and only if the grammar accepts them. |
| Grammar.BadIffRejected | HttpServer/src/http/HttpContext.cpp:12-142 | An error with this status if and only if the first bad line deserves it. |
| Grammar.GrammarUnambiguous | HttpServer/src/http/HttpContext.cpp:12-142 | A stream has one reading: one request, one rest, and no rejection beside it. |
| Server.StepGood | HttpServer/src/http/HttpContext.cpp:19-139 | Invariant: a body is expected only for POST or PUT with 0 < length <= limit; a complete body has exactly that length; a reset parser has a fresh request. |
| Server.AfterMessage | HttpServer/src/http/HttpServer.cpp:144-195 | The driver's step when no handler throws: the parser is not left in `kGotAll`, and events are only added. |
| Server.OnMessageAccounts | HttpServer/src/http/HttpServer.cpp:179-195 | One message keeps the account: every byte received is unread, or in a header line that the grammar rejects where it stood, or in one handled request, in order, or in the message being read. |
| Server.ServeAccounts | HttpServer/src/http/HttpServer.cpp:144-195 | The same over any run, through errors and the messages after them. |
| Server.RunConserves | HttpServer/src/http/HttpServer.cpp:144-195 | The same for every run of a new connection. |
| Server.StreamOfMessages | HttpServer/src/http/HttpServer.cpp:179-195 | A stream of valid messages has exactly their meanings as its requests. |
| Server.RunIsStream | HttpServer/src/http/HttpServer.cpp:144-195 | For every run, messages after errors included: handled requests followed by those still to be salvaged from the buffer are exactly the requests salvaged from the received bytes, in order; without errors, the requests of the stream. |
| Server.SalvageMessage | HttpServer/src/http/HttpServer.cpp:180-195 | Of a stream that begins with a message, this one and then the rest is salvaged. |
| Server.SalvageWithoutLine | HttpServer/src/http/HttpServer.cpp:180-195 | A rejected header line of the first message is passed over. |
| Server.SalvageBadLine | HttpServer/src/http/HttpServer.cpp:180-195 | Nothing is salvaged from a rejected request line on. |
| Server.SalvageIncomplete | HttpServer/src/http/HttpServer.cpp:180-195 | Nothing is salvaged from a stream that neither begins with a message nor is rejected. |
| Server.ErrorAnswered | HttpServer/src/http/HttpServer.cpp:180-189 | An error is answered, with this status, iff the message being read deserves it. |
| Server.ErrorBytes | HttpServer/src/http/HttpServer.cpp:180-189 | The bytes of the reply: 413 iff the message deserves 413, 400 iff it deserves 400. |
| Server.LoopBadUsed | HttpServer/src/http/HttpContext.cpp:48-112 | A parser that rejects a header line stands where it would stand without that line. |
| ServerErrors.HandledAfterErrorIff | HttpServer/src/http/HttpServer.cpp:180-195 | At any time of any run: after the reply to a rejected header line the next message handles a request iff the message without that line is acceptable, and it is that request. |
| ServerErrors.NextHandledIff | HttpServer/src/http/HttpServer.cpp:180-195 | What a live connection handles next is what the grammar accepts in the message being read and the new bytes. |
| ServerErrors.FirstHandledAfterErrorIff | HttpServer/src/http/HttpServer.cpp:180-195 | The iff spelled out for the first message of a connection. |
| ServerErrors.ThrowLeavesGotAllIff | HttpServer/src/http/HttpServer.cpp:192-201 | A handler that throws leaves the parser in `kGotAll` iff one is called, on a complete request. |
| ServerErrors.RejectedThenHandled | HttpServer/src/http/HttpServer.cpp:180-195 | A POST or PUT answered 400 or 413 for its length is handed to the handler when a Content-Length of zero follows. |
| ServerErrors.PostAnsweredThenHandled | HttpServer/src/http/HttpServer.cpp:180-195 | Concrete bytes for this. |
| ServerErrors.AbortsNextIff | HttpServer/src/http/HttpRequest.cpp:24-30 | The next message stops in the assertion of `setMethod` iff a request line that names a known method was rejected. |
| ServerErrors.AbortIsFinal | HttpServer/src/http/HttpRequest.cpp:24-30 | From then on every message aborts; nothing is handled or answered. |
| ServerErrors.BadLineAborts | HttpServer/src/http/HttpServer.cpp:180-189 | Every such line is answered 400 first. |
| ServerErrors.GetWithoutVersion | HttpServer/src/http/HttpContext.cpp:145-191 | `GET /` is such a line. |
| Server.OnePerMessage | HttpServer/src/http/HttpServer.cpp:192-195 | A message handles exactly the first waiting request, if there is one. |
| Server.CaughtUpIff | HttpServer/src/http/HttpServer.cpp:192-195 | All complete requests have been handled iff the read left at most one to handle. |
| Server.TwoInOneRead | HttpServer/src/http/HttpServer.cpp:192-195 | Of any two messages in one read the second waits unparsed in the buffer. |
| Server.PipelinedRequestWaits | HttpServer/src/http/HttpServer.cpp:192-195 | Concrete bytes for which a complete request is not handled. |
| Server.Connection.constructor | HttpServer/src/http/HttpServer.cpp:133-135 | A new connection has a fresh context with the configured limit. |
| Server.Connection.OnRequest | HttpServer/src/http/HttpServer.cpp:204-209 | Hands the parsed request on with the close decision of `CloseDecision.CloseIff`. |
| CloseDecision.CloseIff | HttpServer/src/http/HttpServer.cpp:204-224 | Every handled request of every run closes iff the last Connection value of its message is `close`, or its request line says HTTP/1.0 and that value is not `Keep-Alive`. |
| CloseDecision.SecureCloseIff | HttpServer/src/http/HttpServer.cpp:204-224 | The same over TLS. |
| Server.Connection.OnMessage | HttpServer/src/http/HttpServer.cpp:179-201 | Parse, reply 413 or 400 and shut down, or handle and reset, also after an earlier error; a handler that throws gets the error reply and no reset; or stop in the assertion. |
| RequestRoundTrip.QueryRead | HttpServer/src/http/HttpRequest.cpp:90-132 | A printed query is read back as the parameters it was printed from. |
| RequestRoundTrip.FlagSkipped | HttpServer/src/http/HttpRequest.cpp:90-132 | A part of a query without `=` is skipped, wherever it stands. |
| RequestRoundTrip.FlagLine | HttpServer/src/http/HttpContext.cpp:145-191 | A GET whose query is only such a part is accepted with its path and no parameters. |
| RequestRoundTrip.FieldsRead | HttpServer/src/http/HttpRequest.cpp:134-159 | Printed header fields are read back under lower-case names. |
| RequestRoundTrip.TabBeforeValue | HttpServer/src/http/HttpRequest.cpp:134-159 | Tabs and spaces around a value do not belong to it. |
| RequestRoundTrip.SentFieldFound | HttpServer/src/http/HttpRequest.cpp:161-172 | The last field sent under a name, up to case, is found under every capitalisation of it. |
| RequestRoundTrip.PrintThenParse | HttpServer/src/http/HttpContext.cpp:12-191 | Every printable request is parsed back exactly, whatever follows it on the connection. |
| RequestRoundTrip.PipelineThenStream | HttpServer/src/http/HttpServer.cpp:179-195 | A pipeline of printed requests is read as exactly those requests. |
| RoutePatterns.TokensWholeSegments | HttpServer/src/router/Router.cpp:83-92 | In a converted pattern every capture runs to a slash or the end. |
| RoutePatterns.MatchIffDenotes | HttpServer/src/router/Router.cpp:83-101 | The matcher finds captures iff they are the one decomposition of the path that the expression denotes. |
| RoutePatterns.MatchBySegments | HttpServer/src/router/Router.cpp:83-101 | Matching is comparing segment by segment, and the captures are the segments at the parameter positions. |
| Routing.MatchStartsWithPrefix | HttpServer/src/router/Router.cpp:9-15 | A matching path starts with the pattern's static prefix and goes on after it. |
| Routing.IndexedIff | HttpServer/src/router/Router.cpp:9-35 | The bucket of a matching pattern is among those looked up iff the pattern is indexable. |
| Routing.RootParameterUnreachable | HttpServer/src/router/Router.cpp:9-35 | `/:id` matches `/7` but its bucket is not looked up. |
| Routing.PathPrefixesForLookup | HttpServer/src/router/Router.cpp:17-35 | Exactly the lookup keys of the path, in strictly decreasing size. |
| Routing.ScanFindsBest | HttpServer/src/router/Router.cpp:124-158 | The plain scan picks the fitting route with the longest static prefix, then the earliest, or none if none fits. |
| Routing.IndexedScanIff | HttpServer/src/router/Router.cpp:124-158 | Ignoring unindexable patterns changes the choice iff the choice was one of them. |
| Routing.IndexUnobservable | HttpServer/src/router/Router.cpp:103-161 | With indexable patterns only, routing equals routing without an index. |
| Routing.FirstMatchIsBest | HttpServer/src/router/Router.cpp:124-140 | The first match in the first bucket with one is the scan's choice. |
| Routing.RouteLawful | HttpServer/src/router/Router.cpp:103-161 | The specification of `Route` gives such an answer. |
| Routing.LawfulOnce | HttpServer/src/router/Router.cpp:103-161 | Two lawful answers call the same target. |
| Routing.StaticPrefixShape | HttpServer/src/router/Router.cpp:9-15 | The bucket key of a pattern is its text up to and with the slash before the first parameter. |
| Routing.Router.constructor | HttpServer/include/router/Router.h:89-94 | An empty router. |
| Routing.Router.RegisterHandler | HttpServer/src/router/Router.cpp:38-43 | The tables stay what the registrations say, the last exact handler winning. |
| Routing.Router.RegisterCallback | HttpServer/src/router/Router.cpp:45-51 | The same for exact callbacks. |
| Routing.Router.AddRegexHandler | HttpServer/src/router/Router.cpp:54-65 | The handler joins the end of the bucket of its static prefix. |
| Routing.Router.AddRegexCallback | HttpServer/src/router/Router.cpp:68-80 | The callback joins the end of its bucket. |
| Routing.Router.SearchBuckets | HttpServer/src/router/Router.cpp:124-158 | The loops over keys and buckets find the scan's choice and its captures. |
| Routing.Router.Route | HttpServer/src/router/Router.cpp:103-161 | For any registrations and request the answer is `Lawful`: an exact route is called with the request itself, the latest of its registrations, handler before callback; a dynamic one only without an exact one, the best of its kind, handlers first, with the request plus `param1` to `paramk`; not found iff nothing fits. |
| Routing.ExtractPathParameters | HttpServer/src/router/Router.cpp:95-101 | Sets `param1` to `paramk` to the captures and keeps the other parameters. |
| Routing.ParamsRebuildPath | HttpServer/src/router/Router.cpp:95-101 | The parameters put back into the pattern spell the path. |
| Tls.DrainLoopKeeps | HttpServer/src/ssl/SslConnection.cpp:126-167 | Draining moves the head of the queue to OpenSSL; it gives up only a tail, and only after a close, a fatal error or the spin limit. |
| Tls.SendLoopInterleaves | HttpServer/src/ssl/SslConnection.cpp:184-233 | A send splits its data once: a front part is accepted before the old queue, the rest goes behind it. |
| Tls.SendDelivered | HttpServer/src/ssl/SslConnection.cpp:126-233 | Over every run and behaviour of OpenSSL the bytes of one send appear at most once, from the first on and in order, and all of them while nothing was given up. |
| Tls.FifoRun | HttpServer/src/ssl/SslConnection.cpp:184-233 | If the queue is empty at every send, accepted and queued bytes are the concatenation of all sends. |
| Tls.SendKeepsOrderIff | HttpServer/src/ssl/SslConnection.cpp:197-219 | A send keeps the order for every behaviour of OpenSSL iff queue or data is empty or all bytes are equal. |
| Tls.SendsOvertake | HttpServer/src/ssl/SslConnection.cpp:184-233 | A run from the start in which the second send overtakes the first. |
| Tls.FeedAll | HttpServer/src/ssl/SslConnection.cpp:68-114 | Feeding puts everything into the read BIO in order across INT_MAX chunks, or ends in the error state. |
| Tls.FeedOkIff | HttpServer/src/ssl/SslConnection.cpp:68-114 | Feeding succeeds iff every chunk's `BIO_write` takes the whole chunk. |
| Tls.InboundAgrees | HttpServer/src/ssl/SslConnection.cpp:235-290 | Over every run nothing received is lost, and outside the error state exactly the bytes taken from TCP were fed, in order. |
| Tls.ErrorIsFinal | HttpServer/src/ssl/SslConnection.cpp:126-290 | In the error state nothing is fed, accepted or decrypted any more. |
| Tls.CiphertextSent | HttpServer/src/ssl/SslConnection.cpp:53-320 | After every event, on every path, all ciphertext OpenSSL has produced was given to the TCP connection, in order. |
| Tls.NextDecrypts | HttpServer/src/ssl/SslConnection.cpp:268-289 | Decrypted data only grows, and only by reading. |
| Tls.ReadAsksIff | HttpServer/src/ssl/SslConnection.cpp:246-284 | Data ready in OpenSSL is left there iff the handshake was not over before the read, nothing arrived, or a write was short; so what comes with the last handshake bytes waits for the next ones. |
| TlsProgress.ReadDecryptsExactly | HttpServer/src/ssl/SslConnection.cpp:268-284 | A read that asks decrypts exactly the data that `SSL_read` returns before its first other answer, in order, each byte once; any other read nothing. |
| TlsProgress.DecryptedIsData | HttpServer/src/ssl/SslConnection.cpp:268-284 | Over every run the decrypted bytes are exactly the data returned so far. |
| TlsProgress.EstablishedIff | HttpServer/src/ssl/SslConnection.cpp:292-320 | The connection becomes established exactly by a handshake step that completes; a wait or a failure does not establish, and a failure shuts down. |
| TlsProgress.WriteCompletionDrainsIff | HttpServer/src/ssl/SslConnection.cpp:126-182 | A write completion writes the whole queue iff OpenSSL accepts it within the spin limit. |
| TlsProgress.ReadDrainsIff | HttpServer/src/ssl/SslConnection.cpp:126-167 | So does a read, after decrypting. |
| TlsProgress.WillingIsIntact | HttpServer/src/ssl/SslConnection.cpp:126-233 | No run gives up plaintext while OpenSSL only accepts or waits, within the spin limit. |
| TlsProgress.WriteFatalFails | HttpServer/src/ssl/SslConnection.cpp:126-233 | A fatal answer to a write ends in the error state with nothing queued. |
| TlsProgress.CloseGivesUp | HttpServer/src/ssl/SslConnection.cpp:126-233 | After a close notification the data of a send, or the queue, is given up and the state stays. |
| TlsProgress.SpinLimitFails | HttpServer/src/ssl/SslConnection.cpp:126-167 | A queue written byte by byte is given up at the spin limit. |
| TlsProgress.ReadFatalFails | HttpServer/src/ssl/SslConnection.cpp:270-284 | A fatal answer to a read ends in the error state. |
| TlsProgress.ErrorShutsDown | HttpServer/src/ssl/SslConnection.cpp:68-290 | Every event that ends in the error state has shut the connection down. |
| Tls.ShortWriteIsError | HttpServer/src/ssl/SslConnection.cpp:235-268 | A read empties the TCP buffer iff no chunk meets a short `BIO_write`; otherwise it keeps the bytes and is in error. |
| Tls.SslConnection.constructor | HttpServer/src/ssl/SslConnection.cpp:9-42 | A connection starts in the handshake with empty queues. |
| Tls.SslConnection.StartHandshake | HttpServer/src/ssl/SslConnection.cpp:116-124 | Without an SSL object the state is error, otherwise one handshake step is made. |
| Tls.SslConnection.HandleHandshake | HttpServer/src/ssl/SslConnection.cpp:292-320 | Completion establishes, a wait changes nothing, a failure shuts down but stays in the handshake. |
| Tls.SslConnection.FlushWriteBio | HttpServer/src/ssl/SslConnection.cpp:53-65 | The 4096-byte loop ends with the write BIO empty and all its bytes given to the TCP connection in order. |
| Tls.SslConnection.DrainPendingPlain | HttpServer/src/ssl/SslConnection.cpp:126-167 | The queue is written in order until it is empty or OpenSSL refuses; a refusal keeps, drops or fails as `Drain` says, and 65536 rounds without emptying it close the connection. |
| Tls.SslConnection.Send | HttpServer/src/ssl/SslConnection.cpp:184-233 | For every script of answers: accepted bytes in order, a waiting answer queues the rest and drains, a close gives up the rest, a fatal error fails. |
| Tls.SslConnection.FeedReadBio | HttpServer/src/ssl/SslConnection.cpp:68-114 | Chunks of at most INT_MAX bytes are fed in order up to the first short write, which is an error. |
| Tls.SslConnection.ReadPlain | HttpServer/src/ssl/SslConnection.cpp:270-284 | The read loop appends all decrypted data up to the first other answer, as `TlsProgress.ReadDecryptsExactly` says. |
| Tls.SslConnection.OnRead | HttpServer/src/ssl/SslConnection.cpp:235-290 | Handshake and established branches as one event of the run. |
| Tls.SslConnection.OnWriteComplete | HttpServer/src/ssl/SslConnection.cpp:169-182 | Write completion as one event of the run. |
| SecureServer.NextAccounts | HttpServer/src/http/HttpServer.cpp:144-195 | One TLS event keeps the account of the decrypted bytes. |
| SecureServer.SecureRunIsStream | HttpServer/src/http/HttpServer.cpp:144-195 | For every cut of the ciphertext and behaviour of OpenSSL, errors included: handled requests followed by those still to be salvaged are exactly the requests salvaged from the decrypted stream, in order. |
| SecureServer.SecureStreamIsData | HttpServer/src/http/HttpServer.cpp:144-195 | The stream in question is exactly the data that OpenSSL has returned so far. |
| SecureServer.OnePerMessage | HttpServer/src/http/HttpServer.cpp:157-195 | A message handles exactly the first request waiting in the decrypted stream, if the connection is established after the read, and otherwise none. |
| SecureServer.AnswerIs | HttpServer/src/http/HttpServer.cpp:16-40 | What is sent is the handler's answer iff a request was handled, and the error reply iff there was an error. |
| SecureServer.RunIsPumped | HttpServer/src/http/HttpServer.cpp:144-202 | A run of the TLS driver is a run of the pump that is sent exactly the answers, each while established. |
| SecureServer.RunOnWire | HttpServer/src/http/HttpServer.cpp:144-195 | All ciphertext goes out in order. |
| SecureServer.AnswersInOrder | HttpServer/src/http/HttpServer.cpp:180-223 | If every answer finds the queue empty and none is given up, accepted and queued plaintext is exactly the answers in order. |
| SecureServer.SecureConnection.constructor | HttpServer/src/http/HttpServer.cpp:115-135 | With an SSL object one handshake step is made and the context is fresh; without one the connection is shut down and never parses. |
| SecureServer.SecureConnection.OnMessage | HttpServer/src/http/HttpServer.cpp:144-195 | Read through the pump, parse only when established and decrypted bytes are there, send the answer or the error reply; also after an earlier error. |
| Pooling.NextConserves | HttpServer/src/utils/db/DbConnectionPool.cpp:29-102 | Each step keeps every connection in exactly one place. |
| Pooling.NextNoLostWakeup | HttpServer/src/utils/db/DbConnectionPool.cpp:62-99 | Each step keeps: if a thread sleeps, idle connections do not outnumber woken threads. |
| Pooling.AskIff | HttpServer/src/utils/db/DbConnectionPool.cpp:60-74 | A thread that asks gets a connection iff one is idle, and sleeps iff none is and the pool is initialised. |
| Pooling.InitializedIff | HttpServer/src/utils/db/DbConnectionPool.cpp:10-37 | A pool is initialised iff some `init` made all its connections. |
| Pooling.FirstInFirstOut | HttpServer/src/utils/db/DbConnectionPool.cpp:29-102 | Over every interleaving connections leave the queue in the order in which they joined it, returned and failed ones behind the idle ones. |
| Pooling.PingsWhatItCopied | HttpServer/src/utils/db/DbConnectionPool.cpp:117-147 | The check thread pings exactly the connections that were idle when it copied the queue, in order. |
| Pooling.EveryInterleaving | HttpServer/src/utils/db/DbConnectionPool.cpp:10-102 | In every interleaving: conservation, exclusive leases, no lost wakeup. |
| Pooling.SleepersMeanAllInUse | HttpServer/src/utils/db/DbConnectionPool.cpp:62-70 | Once all woken threads have run, a sleeper means that every connection is in use. |
| Pooling.IdleIsClaimed | HttpServer/src/utils/db/DbConnectionPool.cpp:62-73 | While a thread sleeps and a connection is idle, a woken thread's next step takes it. |
| Pooling.QuietPoolHasNoSleepers | HttpServer/src/utils/db/DbConnectionPool.cpp:62-99 | When nothing is leased, validated or woken, nobody sleeps, provided the pool has a connection. |
| Pooling.EmptyPoolBlocks | HttpServer/src/utils/db/DbConnectionPool.cpp:30-70 | In an initialised pool without connections a waiting thread waits through every run. |
| Pooling.EmptyInitBlocks | HttpServer/src/utils/db/DbConnectionPool.cpp:10-70 | From a new pool: `init` with size 0, and the first caller never returns. |
| Pooling.InitializedForGood | HttpServer/src/utils/db/DbConnectionPool.cpp:19-35 | After a successful `init` the set of connections never changes. |
| Pooling.LeasesBounded | HttpServer/src/utils/db/DbConnectionPool.cpp:19-35 | After a successful `init` with n connections the pool has those and what earlier failed ones left, so at most that many leases; just n iff nothing was left. |
| Pooling.OneUserIff | HttpServer/src/utils/db/DbConnectionPool.cpp:59-147 | In every interleaving a connection is used by one thread at a time iff the one that the check thread pings is in the queue; the pool's own threads never share one. |
| Pooling.PingerShares | HttpServer/src/utils/db/DbConnectionPool.cpp:110-147 | A run in which a lease and the check thread share a connection. |
| Pooling.DbConnectionPool.constructor | HttpServer/src/utils/db/DbConnectionPool.cpp:39-43 | A new pool is empty and not initialised. |
| Pooling.DbConnectionPool.Init | HttpServer/src/utils/db/DbConnectionPool.cpp:10-37 | Only the first successful `init` counts; a connection that cannot be made leaves the earlier ones queued. |
| Pooling.DbConnectionPool.Acquire | HttpServer/src/utils/db/DbConnectionPool.cpp:60-74 | The locked part of `getConnection`: take the front, wait, or report a missing `init`. |
| Pooling.DbConnectionPool.Lease | HttpServer/src/utils/db/DbConnectionPool.cpp:79-90 | A validated connection becomes a lease. |
| Pooling.DbConnectionPool.GiveUp | HttpServer/src/utils/db/DbConnectionPool.cpp:92-101 | A failed validation returns the connection and notifies one waiter. |
| Pooling.DbConnectionPool.GiveBack | HttpServer/src/utils/db/DbConnectionPool.cpp:85-90 | The deleter returns the connection and notifies one waiter. |
| Pooling.DbConnectionPool.CopyQueue | HttpServer/src/utils/db/DbConnectionPool.cpp:117-131 | The check thread copies a queue that is not empty, in order, and leaves the queue as it is. |
| Pooling.DbConnectionPool.CheckOne | HttpServer/src/utils/db/DbConnectionPool.cpp:134-147 | One copy has been pinged. |
| Base64.PosOfCharAt | AIApps/ChatServer/src/AIUtil/base64.cpp:44-71 | `pos_of_char` inverts both alphabets, which hold neither padding nor line breaks. |
| Base64.AlphabetIs | AIApps/ChatServer/src/AIUtil/base64.cpp:44-71 | Both alphabets are those of RFC 4648. |
| Base64.PosOfIff | AIApps/ChatServer/src/AIUtil/base64.cpp:44-71 | A character has a position iff it is in one of them, at that position. |
| Base64.Encode | AIApps/ChatServer/src/AIUtil/base64.cpp:111-160 | The encoded text has exactly (n+2)/3*4 characters. |
| Base64.GroupNumber | AIApps/ChatServer/src/AIUtil/base64.cpp:133-150 | The four positions of a group are the 24 bits of its three bytes. |
| Base64.EncodePadding | AIApps/ChatServer/src/AIUtil/base64.cpp:113-150 | Two, one or no padding characters by the length of the input: `=`, or `.` in url text. |
| Base64.EncodeRound | AIApps/ChatServer/src/AIUtil/base64.cpp:133-156 | One round of the loop, with its masks and shifts, appends the characters of one group. |
| Base64.Position1 | AIApps/ChatServer/src/AIUtil/base64.cpp:137 | The mask expression is the low two bits of one byte above the high four of the next. |
| Base64.Position2 | AIApps/ChatServer/src/AIUtil/base64.cpp:140 | The same for four and two bits. |
| Base64.Base64Encode | AIApps/ChatServer/src/AIUtil/base64.cpp:111-160 | With its 32-bit cursor the loop ends below 2^32 bytes and writes the encoding. |
| Base64.CursorReachesIff | AIApps/ChatServer/src/AIUtil/base64.cpp:131-156 | The cursor reaches the end iff the input has at most 2^32-1 bytes. |
| Base64.GroupAt | AIApps/ChatServer/src/AIUtil/base64.cpp:207-235 | One round reads one group, with its exceptions. |
| Base64.DecodedNumber | AIApps/ChatServer/src/AIUtil/base64.cpp:207-235 | The three bytes of a group are the 24 bits of its four positions. |
| Base64.DecodeGroupIff | AIApps/ChatServer/src/AIUtil/base64.cpp:207-235 | Exactly which groups are decoded, and when the exception is an index out of bounds. |
| Base64.DecodeFailsIff | AIApps/ChatServer/src/AIUtil/base64.cpp:193-238 | Decoding throws iff some group does, and then what the first bad group throws. |
| Base64.FirstByte | AIApps/ChatServer/src/AIUtil/base64.cpp:212 | The mask expression puts six bits above the high two of the next position. |
| Base64.SecondByte | AIApps/ChatServer/src/AIUtil/base64.cpp:223 | The same for four and four bits. |
| Base64.ThirdByte | AIApps/ChatServer/src/AIUtil/base64.cpp:233 | The same for two and six bits. |
| Base64.Base64Decode | AIApps/ChatServer/src/AIUtil/base64.cpp:163-241 | The loop decodes group by group up to the first exception. |
| Base64.DecodeEncode | AIApps/ChatServer/src/AIUtil/base64.cpp:111-241 | Every byte string survives encoding and decoding in both alphabets. |
| Base64.DecodeConcat | AIApps/ChatServer/src/AIUtil/base64.cpp:193-238 | On whole groups decoding is a homomorphism, errors and inner padding included. |
| Base64.EncodeDecode | AIApps/ChatServer/src/AIUtil/base64.cpp:111-241 | Canonical standard text survives decoding and encoding. |
| Base64.CanonicalIff | AIApps/ChatServer/src/AIUtil/base64.cpp:111-160 | The canonical texts are exactly those the encoder writes. |
| Base64.InsertLinebreaks | AIApps/ChatServer/src/AIUtil/base64.cpp:73-89 | The in-place insertion ends and gives the wrapped text. |
| Base64.EncodeWithLineBreaks | AIApps/ChatServer/src/AIUtil/base64.cpp:91-104 | PEM and MIME text is the wrapped standard encoding. |
| Base64.EncodePem | AIApps/ChatServer/src/AIUtil/base64.cpp:96-99 | PEM text has lines of 64 characters and is decoded to the same bytes. |
| Base64.EncodeMime | AIApps/ChatServer/src/AIUtil/base64.cpp:101-104 | MIME text has lines of 76 characters and is decoded to the same bytes. |
| Base64.WrappedLines | AIApps/ChatServer/src/AIUtil/base64.cpp:73-89 | Every line but the last has exactly the line length, and the last is not empty. |
| Base64.DecodeWrapped | AIApps/ChatServer/src/AIUtil/base64.cpp:171-178 | Wrapped text decodes to the bytes that were encoded. |
| Sessions.EchoPresentsIdIff | HttpServer/src/session/SessionManager.cpp:77-108 | With anything before and after it in the header, the echoed cookie presents its id iff `sessionId=` does not occur before it, or the id already follows it there. |
| Sessions.EarlierNameWins | HttpServer/src/session/SessionManager.cpp:83-101 | A first cookie `xsessionId=0` hides the session. |
| Sessions.PurgeUnobservable | HttpServer/src/session/SessionStorage.cpp:16-58 | Taking all purges out of a run changes no answer and no session's data. |
| Sessions.VisitFindsIff | HttpServer/src/session/SessionManager.cpp:17-43 | A visit to a stored session finds it iff it comes before its expiry; otherwise it gets a new one and a cookie. |
| Sessions.RunHeld | HttpServer/src/session/Session.cpp:31-58 | Over every run a session holds under each key what was last set, or nothing if it was removed or cleared since, and otherwise what it held before; other keys and sessions are not affected. |
| Sessions.VisitShows | HttpServer/src/session/SessionManager.cpp:17-43 | Every visit in time is answered with exactly that. |
| Sessions.ValueShown | HttpServer/src/session/Session.cpp:31-34 | A value is shown from the moment it is set until its key is set, removed or cleared. |
| Sessions.NewHoldsNothing | HttpServer/src/session/SessionManager.cpp:17-43 | A new session holds nothing. |
| Sessions.VisitKeepsAlive | HttpServer/src/session/SessionManager.cpp:17-43 | A visit in time keeps the session and slides its expiry. |
| Sessions.SlidingContinuity | HttpServer/src/session/SessionManager.cpp:17-43 | A client with gaps of at most maxAge gets the same session every time and no new cookie, whatever others do. |
| Sessions.ContinuityFromCreation | HttpServer/src/session/SessionManager.cpp:17-43 | The same from the request on that created the session and set its cookie. |
| Sessions.GoneStaysGone | HttpServer/src/session/SessionStorage.cpp:9-42 | A session that is not stored stays so unless a handler sets a value in it. |
| Sessions.DestroyedIffNotSaved | HttpServer/src/session/Session.cpp:31-39 | Over any run after `destroySession` the session is stored again at some time iff some event sets a value in it. |
| Sessions.Session.constructor | HttpServer/src/session/Session.cpp:10-16 | A new session has no data and expires maxAge seconds from now. |
| Sessions.Session.Refresh | HttpServer/src/session/Session.cpp:25-28 | The expiry moves to maxAge seconds from now. |
| Sessions.MemorySessionStorage.Save | HttpServer/src/session/SessionStorage.cpp:9-13 | The session is stored under its id. |
| Sessions.MemorySessionStorage.Load | HttpServer/src/session/SessionStorage.cpp:16-35 | Returns a stored session that has not expired; removes one that has. |
| Sessions.MemorySessionStorage.Remove | HttpServer/src/session/SessionStorage.cpp:38-42 | The id is no longer stored. |
| Sessions.MemorySessionStorage.CleanExpired | HttpServer/src/session/SessionStorage.cpp:44-58 | The erasing iteration keeps exactly the sessions that have not expired. |
| Sessions.SessionManager.constructor | HttpServer/src/session/SessionManager.cpp:11-14 | A new manager has no sessions. |
| Sessions.SessionManager.GetSession | HttpServer/src/session/SessionManager.cpp:17-43 | On live objects: the session, its data, the cookie and the whole new store. |
| Sessions.SessionManager.DestroySession | HttpServer/src/session/SessionManager.cpp:59-63 | Removes the id, leaves the objects. |
| Sessions.SessionManager.CleanExpiredSessions | HttpServer/src/session/SessionManager.cpp:65-69 | Removes exactly the expired ids. |
| Sessions.SessionManager.UpdateSession | HttpServer/src/session/SessionManager.cpp:71-75 | Stores the session under its id. |
| Sessions.SessionManager.SetValue | HttpServer/src/session/Session.cpp:31-39 | Changes the session's data as `Sessions.RunHeld` says and stores the session again. |
| Sessions.SessionManager.RemoveValue | HttpServer/src/session/Session.cpp:49-52 | Changes the session's data and does not store it again. |
| Sessions.SessionManager.ClearValues | HttpServer/src/session/Session.cpp:55-58 | Empties the session's data and does not store it again. |
| PasswordHash.PrintHex | AIApps/ChatServer/src/utils/PasswordHash.cpp:17-24 | The loop prints every byte as two lower-case digits. |
| PasswordHash.DigitIs | AIApps/ChatServer/src/utils/PasswordHash.cpp:17-24 | The digits are 0 to 9 and a to f. |
| PasswordHash.HexToBytes | AIApps/ChatServer/src/utils/PasswordHash.cpp:39-53 | Reads exactly the texts of even length with digits of either case. |
| PasswordHash.FromHexIff | AIApps/ChatServer/src/utils/PasswordHash.cpp:17-53 | Text is read as some bytes iff it is what they print to, up to the case of its digits. |
| PasswordHash.StoiIff | AIApps/ChatServer/src/utils/PasswordHash.cpp:87-92 | A count is read iff the field is white space, an optional sign, digits of that value in `int` range, and a tail that does not go on with a digit. |
| PasswordHash.StoiIgnoresTail | AIApps/ChatServer/src/utils/PasswordHash.cpp:88-92 | A printed count is read back, whatever follows its digits. |
| PasswordHash.VerifyPbkdf2Iff | AIApps/ChatServer/src/utils/PasswordHash.cpp:77-118 | Accepted iff the text is a record of four fields with a count of at least 100000, a salt, and the 32-byte key that the password derives. |
| PasswordHash.VerifyLegacyIff | AIApps/ChatServer/src/utils/PasswordHash.cpp:62-75 | A legacy record is accepted iff it ends in the digest of salt and password. |
| PasswordHash.VerifyPassword | AIApps/ChatServer/src/utils/PasswordHash.cpp:141-155 | Rejected iff no record for the password; a current record is accepted as it is, a legacy one upgraded if wanted, to a current record; a failed upgrade throws. |
| PasswordHash.HashThenVerify | AIApps/ChatServer/src/utils/PasswordHash.cpp:124-139 | A new hash is a current record for exactly the passwords that derive the same key, and never a legacy one. |
| PasswordHash.UpgradeAccepted | AIApps/ChatServer/src/utils/PasswordHash.cpp:147-152 | What a legacy login is upgraded to is a current record for the same password. |
| PasswordHash.TailAfterCount | AIApps/ChatServer/src/utils/PasswordHash.cpp:87-95 | Text behind the digits of the count changes nothing. |
| PasswordHash.CountByValue | AIApps/ChatServer/src/utils/PasswordHash.cpp:87-95 | Of the iteration field only the number read from it matters. |
| Responses.KeyEqualsIgnoreCase | HttpServer/src/http/HttpResponse.cpp:8-19 | Equality up to ASCII case with a lower-case name. |
| Responses.AppendToBuffer | HttpServer/src/http/HttpResponse.cpp:22-66 | Appends the serialized response for every iteration order of the fields. |
| Responses.LengthLineWholeIff | HttpServer/src/http/HttpResponse.cpp:50-51 | The 32-byte buffer holds the Content-Length line iff the body has fewer than 10^13 bytes. |
| Responses.OneContentLength | HttpServer/src/http/HttpResponse.cpp:50-62 | A reader finds exactly one Content-Length, whatever capitalisations are stored and asked. |
| Responses.ConnectionRead | HttpServer/src/http/HttpResponse.cpp:42-48 | The first Connection value that a reader finds is `close` iff the connection is closed, else `Keep-Alive`. |
| Responses.OthersReadBack | HttpServer/src/http/HttpResponse.cpp:53-62 | All other stored fields are read back, under every capitalisation of their names. |
| Responses.EncodingIffStored | HttpServer/src/http/HttpResponse.cpp:53-62 | The transfer codings that are written are the stored ones, in any capitalisation. |
| Responses.HeadReadsBack | HttpServer/src/http/HttpResponse.cpp:22-66 | What a reader makes of the rest: a body behind a status that has none is read as the next message. |
| Responses.ReadsBackIff | HttpServer/src/http/HttpResponse.cpp:22-66 | A reader of section 6.3, chunked bodies and bodies up to the close included, recovers status, body and what follows exactly iff the response has an HTTP/1.x version and a status, no body with a status that forbids one, and otherwise no stored transfer coding, or one that is not chunked and nothing follows. |
| Responses.NotFoundUnreadable | HttpServer/src/http/HttpServer.cpp:235-241 | The framework's 404 answer has no version, and a reader rejects it. |

## Left out

- The Muduo event loop and sockets, OpenSSL itself, the MySQL driver: they are byte sequences, scripts of
  answers and steps that succeed or fail.
- A `BIO_read` that fails on a nonempty memory BIO.
- What `ping` and `reconnect` do, and that `checkConnections` sleeps with the lock held while the queue is empty.
- Process teardown, allocation failure, log output.
- Server.AfterMessage: no handler throws here; the other case is `Server.AfterThrowing`, after which a call of
  `parseRequest` would not end, which is not modelled.
- What the socket does with a reply that is sent after a shutdown.
- Routing.Router.AddRegexHandler: patterns whose literal text contains characters with a meaning in an
  ECMAScript expression are excluded, since only literal text and whole-segment captures are modelled.
- Routing.Router.AddRegexCallback: the same restriction.
- Sessions.SessionManager.GetSession: the generated id is a parameter that is not in use yet; randomness is not modelled.
- Responses.ReadsBackIff: field texts with CRLF and bodies of 10^13 bytes or more are excluded.
- Responses.AppendToBuffer: the sorted map is a map with an arbitrary iteration order.
- `Requests.HttpRequest` has no receive time, because it depends on how the stream is cut.
- `isspace` on bytes above 127 is undefined in the source where `char` is signed; here such bytes are not white space.
- PasswordHash.HashThenVerify: PBKDF2 and SHA-256 are arbitrary functions and the random salt is a parameter.
- The middleware chain, CORS, the chat handlers, the speech and image parts, RabbitMQ.
