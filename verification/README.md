# A caching HTTP proxy, modelled and proved in Dafny

The proxy parses HTTP requests and responses byte by byte, keeps responses in a bounded LRU cache,
decides from their headers whether a cached response may be sent without asking the origin server,
validates it with a conditional request when it may not, and relays CONNECT tunnels. This project
models those parts and proves what they promise, over every input, every run and every answer the
other side may give. `dafny verify dfyconfig.toml` checks all of it.

## How the files fit together

| file | content |
|---|---|
| `Bytes.dfy`, `Messages.dfy` | characters, `atoi`/`strtol`, the `Request` and `Response` records, their printer, what headers declare |
| `Parser.dfy`, `ParserObject.dfy` | the parser state machine as a function, and as an object that consumes a buffer in place |
| `Image.dfy`, `Reading.dfy`, `Reprint.dfy` | an invariant of all parser runs; how the parser reads what the printer writes; the two are inverse |
| `Chunks.dfy` | the chunked coding as an exact language, and messages in chunked mode |
| `Folds.dfy`, `Traps.dfy` | folded header lines; other input that the printer never writes |
| `Language.dfy` | the language of the two parsers: exactly the texts they complete on, and their records |
| `Options.dfy`, `Lru.dfy`, `Cache.dfy` | values that may be missing; LRU replacement on a list, and the hash map with its doubly linked list, rewired in place |
| `LruRuns.dfy` | theorems over whole cache runs |
| `Threads.dfy`, `ThreadObject.dfy` | interleavings of unlocked lookups and locked steps, on a list and on the linked nodes |
| `Headers.dfy`, `Directives.dfy`, `Freshness.dfy` | header lookup and freshening, numbers in Cache-Control text, lifetimes and ages |
| `Proxy.dfy`, `ProxyRuns.dfy`, `TwoRequests.dfy` | the GET and validation protocol, theorems over whole runs, short runs that reach what these do not rule out |
| `ProxyObject.dfy` | the protocol as an object over the cache object |
| `Relay.dfy` | `sendall` and the tunnel |
| `Url.dfy`, `UrlImage.dfy` | the stand-alone URL parser, and what it accepts |

The request and the response parser spell out the same version, header, body and chunk states. Here
these stand once; the kind of record being filled picks the rest of the start line and the guard on
the framing headers (`httprequestparser.h:290`). A C++ `char` is a Dafny `char` with its unsigned
code; codes from 128 on are neither HTTP characters nor control characters.

The parsers are characterised completely: `Language.MessageLanguage` says which byte strings they
complete on, and with which record, in both directions.

Some promises turn out to hold only under a condition, and the condition is proved exact:

* A record does not always survive printing and parsing. It does if and only if its headers frame its
  decoded content (`Reprint.ReprintIdentity`, `Reprint.ReadsBackIff`). Outside chunked mode this is
  always so. A record whose headers still say chunked never reads back
  (`Reprint.ChunkedNeverReprints`). Continuation lines can change a header that has already put the
  parser in chunked mode; such a record reads back if and only if no header says chunked any more and
  the headers declare the decoded length (`Folds.FoldedChunkedReadsBack`), which can be had for any
  body (`Folds.ChunkedCanReadBack`). A stored response stops reading back when a merged 304 brings a
  Content-Length that does not fit (`TwoRequests.LengthIsMerged`).
* "No cached entry forbids storing" is not an invariant. A 200 that answers a validation is stored
  whatever it says, and a merged 304 brings in its last Cache-Control: over all runs an entry forbids
  storing exactly when the answers say so in one of these ways (`ProxyRuns.ForbidsIff`), and both are
  reached by two requests (`TwoRequests.NoStoreIsCached`).
* A request that fails is not undone. It has changed the cache if and only if its client could not be
  written to, the answer took effect, and that was not what the URI held already
  (`ProxyRuns.FailureChangesIff`); when an answer takes effect is said in terms of what is cached, asked
  and answered (`Proxy.EffectIff`). `TwoRequests.FailedFetchIsCached` is such a request.
* Interleaved threads leave what atomic operations would leave as long as no found node is evicted
  before its move. Whether that is so is decided by the keys and the locked steps alone
  (`Threads.SafeIff`), and there are runs in which it is not (`Threads.UnsafeRun`).
* A number is read from Cache-Control text as its structure says, whatever the arguments, if and only if
  the sought name does not hide in the name of a directive before the first of that name
  (`Directives.ReadRightIff`). What is read otherwise is proved too, for structured headers
  (`Directives.ExtractIsFirstContaining`) and for any text at all (`Directives.ExtractMeaning`).

The code differs from its own comments and from RFC 7234 in places, and the model follows the code:
without an explicit lifetime the request's directives are not read at all; directive names are found
anywhere in the text (`Directives.HiddenNameIsMisread`); a `max-stale` without a number throws; the
byte after the final carriage return is checked only when no body follows.

The methods of `ParserObject.HttpParser` that `ParseBuffer` calls for each group of states are steps of
the results below and have no row of their own; so are the arithmetic of ages in `Freshness`
(`RequestShiftsTime`, `HeuristicIsNeverFresh`, `AgeIsLargest`) and `Proxy.FetchStoresIff`.

## Model

| member | source | states |
|---|---|---|
| Bytes.DecimalRoundTrip | docker-deploy/src/httpparser/httpresponseparser.h:107-153 | Accumulating the digits of a printed number gives the number back, for every number |
| Bytes.DigitMeaning | docker-deploy/src/httpparser/httpresponseparser.h:107-153 | Decimal digits are the ten characters of that row, each worth its place |
| Bytes.AtoiMeaning | docker-deploy/src/httpparser/httpresponseparser.h:296 | A length text is worth the digits after its leading white space and one optional sign, by place value, leading zeros and all, whatever follows them; without digits there it is worth 0 |
| Bytes.SpaceMeaning | docker-deploy/src/httpparser/httpresponseparser.h:296 | The white space that `atoi` and `stol` skip is that of the C locale |
| Bytes.EqualsNoCaseMeaning | docker-deploy/src/httpparser/httpresponseparser.h:294-303 | Names and values are equal without case exactly when they have the same characters up to the case of letters, letter by letter of the two alphabets |
| Bytes.Strtol16Meaning | docker-deploy/src/httpparser/httpresponseparser.h:427 | A size text is worth its leading hexadecimal digits by place value; a 0x before a digit does not count |
| Bytes.HexDigitMeaning | docker-deploy/src/httpparser/httpresponseparser.h:427 | Hexadecimal digits are those of either case, each worth its place in the row of its case |
| Bytes.SizesIgnoreCase | docker-deploy/src/httpparser/httpresponseparser.h:427 | Size texts that differ only in the case of letters have the same size |
| Bytes.HexRoundTrip | docker-deploy/src/httpparser/httpresponseparser.h:427 | Every number has a size text that reads back as it |
| Bytes.TokenCharMeaning | docker-deploy/src/httpparser/httpresponseparser.h:529-572 | The characters of methods and header names are letters, digits and the fifteen marks of section 3.2.6 of RFC 7230 |
| Bytes.ValueCharMeaning | docker-deploy/src/httpparser/httpresponseparser.h:529-572 | The characters of values and URIs are the printing ones, the space, and everything beyond ASCII |
| Messages.NamesIgnoreCase | docker-deploy/src/httpparser/httpresponseparser.h:294-303 | Content-Length, Transfer-Encoding with chunked, and Connection are recognised in every spelling that differs in case only, and in no other |
| Messages.SpellingIsFree | docker-deploy/src/httpparser/httpresponseparser.h:290-345 | A header spelled in another case frames the message and decides keepAlive as the plain spelling does |
| Messages.BadLengthMeaning | docker-deploy/src/httpparser/httpresponseparser.h:290-304 | A header list is refused exactly when some header spelled Content-Length, up to case, is negative |
| Messages.ChunkedMeaning | docker-deploy/src/httpparser/httpresponseparser.h:299-303 | The body is chunked exactly when some header spelled Transfer-Encoding has a value spelled chunked, up to case |
| Messages.DeclaredSizeMeaning | docker-deploy/src/httpparser/httpresponseparser.h:294-298 | The declared size is that of the last header spelled Content-Length up to case, or 0 without one |
| Messages.KeepAliveMeaning | docker-deploy/src/httpparser/httpresponseparser.h:325-345 | The first header spelled Connection up to case decides keepAlive; without one the version can only turn it on |
| Parser.Consume | docker-deploy/src/httpparser/httpresponseparser.h:47-527 | Every step, from every state, keeps the parser valid: the record stays of its kind and `headers.back()` exists wherever it is used |
| Parser.ParseSplit | docker-deploy/src/httpparser/httpresponseparser.h:36-54 | An incomplete first buffer and a second one act as their concatenation; after a result, appended bytes stay unread and change nothing |
| Parser.FeedIsParseJoined | docker-deploy/src/httpparser/httprequestparser.h:35-53 | However the bytes are cut into any number of buffers, the final parser, record and result are the same |
| ParserObject.Record.Inspect | docker-deploy/src/httpparser/response.h:33-47 | The printing loop over the headers produces the text `Print` specifies |
| ParserObject.HttpParser.ParseBuffer | docker-deploy/src/httpparser/httpresponseparser.h:47-527 | The loop over a buffer ends with the parser, record, result and unread bytes of the specification |
| Language.MessageLanguage | docker-deploy/src/httpparser/httprequestparser.h:46-527 | The language of both parsers: a byte string completes if and only if it is the text of a message (a bare request line, or a head with numbers written and lines folded in any way and no body, counted content or an encoded body), followed by anything; the record is the one of that message and what follows is unread |
| Language.CompletedIsNotFresh | docker-deploy/src/httpparser/httpresponseparser.h:365-373 | A parser that has completed with counted content completes again only after 2 to the power of 64 more bytes |
| Image.ParseKeepsInv | docker-deploy/src/httpparser/httpresponseparser.h:47-527 | Every run keeps the invariant on start line, headers, framing counter and content; every completed run leaves a printable record with its own keepAlive, well framed outside chunked mode |
| Reading.ReadHead | docker-deploy/src/httpparser/httpresponseparser.h:55-324 | The printed head of any record in the alphabet brings a fresh parser to the end of the headers with that start line, those headers and their framing, or is refused for a negative length |
| Reprint.ReadsBackIff | docker-deploy/src/httpparser/response.h:33-47 | A record in the alphabet is read back from its printed form, all of it and nothing after it, if and only if its headers frame its content |
| Reprint.ReprintIdentity | docker-deploy/src/httpparser/httprequestparser.h:46-527 | For every byte string a request or response parser completes on, the record reprints to itself, keepAlive included, if and only if it is well framed, which outside chunked mode it always is |
| Reprint.ImageOfParser | docker-deploy/src/httpparser/httpresponseparser.h:47-527 | The records that come out of parses outside chunked mode are exactly the printable, well-framed ones with the keepAlive of their headers and version |
| Reprint.FramingConserved | docker-deploy/src/httpparser/httpresponseparser.h:347-373 | Content received plus content missing is the declared length in every counted-body state, and on completion the content has exactly that length |
| Reprint.ChunkedNeverReprints | docker-deploy/src/httpparser/response.h:43-45 | Every printed response head that says chunked, followed by any encoded body, completes with the decoded content, and that record never reads back |
| Chunks.DecodesEveryEncoding | docker-deploy/src/httpparser/httpresponseparser.h:374-520 | Any chunk list, with any spelling of the sizes, extensions and trailers in the accepted alphabet, decodes to the concatenated data, leaving later bytes unread |
| Chunks.ChunkedMessages | docker-deploy/src/httpparser/httpresponseparser.h:325-520 | From a fresh request or response parser, a byte string completes in chunked mode if and only if it is a head that ends at a first chunk, the encoding of some body, and anything; the content is then the data of that body and what follows is unread |
| Chunks.ChunkingInvisible | docker-deploy/src/httpparser/httpresponseparser.h:424-500 | Two chunkings of the same data leave the same parser and record |
| Chunks.EveryBodyHasAnEncoding | docker-deploy/src/httpparser/httpresponseparser.h:374-520 | Any list of non-empty pieces can be sent in chunks and is received as their concatenation |
| Chunks.ChunksConserved | docker-deploy/src/httpparser/httpresponseparser.h:374-520 | Over every byte string from a fresh parser, in every state of chunked mode, content received plus what is outstanding of the current chunk is the sum of the sizes declared so far |
| Folds.ReadFold | docker-deploy/src/httpparser/httpresponseparser.h:247-324 | A folded line is glued to the value without a space, and framing headers count again with the longer value; a line of white space only changes nothing and counts nothing |
| Folds.ReadFoldedHead | docker-deploy/src/httpparser/httpresponseparser.h:215-364 | Any head, its numbers written in any way and its lines folded anywhere, is read to the end of its headers with the glued headers and the framing that its lines counted on the way, or is refused when a length was negative at any stage |
| Folds.CountLinesMeaning | docker-deploy/src/httpparser/httpresponseparser.h:290-304 | The length counted is the one the glued headers declare; chunked is counted exactly when some line ever said so, even if its header no longer does |
| Folds.FoldedChunkedReadsBack | docker-deploy/src/httpparser/httpresponseparser.h:290-304 | With any other headers and any folds, a message whose lines counted as chunked completes with the decoded content, and reads back if and only if no header says chunked any more and the declared length is the decoded one |
| Folds.ChunkedCanReadBack | docker-deploy/src/httpparser/httpresponseparser.h:290-304 | Any body can be received in chunked mode and read back: a Content-Length of the decoded length beside a Transfer-Encoding changed by a folded line |
| Traps.RequestWithoutVersion | docker-deploy/src/httpparser/httprequestparser.h:95-101 | Any method and URI followed by a carriage return complete as version 0.9 without headers, the rest unread |
| Traps.AnyByteBeforeBody | docker-deploy/src/httpparser/httpresponseparser.h:347-362 | With a counted or chunked body announced, any byte in place of the last newline leads to the same result, whatever follows |
| Traps.NewlineWithoutBody | docker-deploy/src/httpparser/httpresponseparser.h:351-357 | Without a body the parse completes exactly on a newline |
| CacheObject.Cache.constructor | docker-deploy/src/cache.hpp:40-44 | The linked sentinels stand for the empty list |
| CacheObject.Cache.AddToHead | docker-deploy/src/cache.cpp:3-8 | Four pointer writes put a node first and keep all neighbours inverse |
| CacheObject.Cache.RemoveNode | docker-deploy/src/cache.cpp:15-18 | Two pointer writes cut exactly that node out of the chain |
| CacheObject.Cache.MoveToHead | docker-deploy/src/cache.cpp:10-13 | The node moves to the front, every other node keeps its order, and list, map and size still agree |
| CacheObject.Cache.RemoveTail | docker-deploy/src/cache.cpp:20-24 | The last node before the sentinel is unlinked and returned |
| CacheObject.Cache.AddResponse | docker-deploy/src/cache.cpp:26-49 | Keeps the representation invariant and does to the list what LRU insertion does, for every capacity including 0 |
| CacheObject.Cache.GetResponse | docker-deploy/src/cache.cpp:51-63 | Returns the node of the key with its value or nothing, and does to the list what an LRU hit does |
| CacheObject.Cache.StoreThrough | docker-deploy/src/proxy.cpp:353-359 | Storing into a found response changes that entry's value and no other entry, place or key |
| LruRuns.ResidentsAreMostRecent | docker-deploy/src/cache.cpp:26-63 | After any run the resident keys are the most recently added or hit ones, in that order, up to the capacity |
| LruRuns.ResidentIff | docker-deploy/src/cache.cpp:26-63 | A key is resident exactly when it has been used and fewer than `capacity` other keys have been used since |
| LruRuns.Retained | docker-deploy/src/cache.cpp:10-24 | After an add or hit a key stays through any operations that use fewer than `capacity` other keys |
| LruRuns.EvictedIsLeastRecent | docker-deploy/src/cache.cpp:20-41 | Every evicted key was last used before every resident one |
| LruRuns.ResidentValueIsLastAdded | docker-deploy/src/cache.cpp:43-47 | A resident key carries the value last added under it |
| LruRuns.Inclusion | docker-deploy/src/cache.cpp:26-63 | On the same operations a larger cache holds everything a smaller one holds, with the same values and order |
| LruRuns.LargerCacheKeepsHits | docker-deploy/src/cache.cpp:51-63 | A larger cache never turns a hit into a miss or another value |
| Threads.InterleavingIsSerial | docker-deploy/src/cache.cpp:26-63 | Any interleaving of any number of threads in which no found node is evicted before its move leaves the list of the locked steps run as whole operations in lock order |
| Threads.StrandedIff | docker-deploy/src/cache.cpp:26-63 | Of all steps, the only one that takes a found node out of the list is an add of a new key to a full list whose last node it is; lookups and moves never do |
| Threads.SafeIff | docker-deploy/src/cache.cpp:26-63 | Whether no found node is evicted before its move is decided by keys alone: each move has to come while its key has been in the atomic cache after every locked step since its lookup; that cache is the run of the locked steps |
| Threads.UnsafeRun | docker-deploy/src/cache.cpp:36-58 | In a cache for one entry, another thread's add of a second key between a lookup and its move makes a run unsafe |
| ThreadObject.SharedCache.LookUp | docker-deploy/src/cache.cpp:51-58 | The unlocked lookup leaves the linked node with its thread, and refines the step of the list model |
| ThreadObject.SharedCache.LockedMove | docker-deploy/src/cache.cpp:58-62 | The locked move rewires the node that the thread kept, and refines the step of the list model |
| ThreadObject.SharedCache.LockedAdd | docker-deploy/src/cache.cpp:26-49 | The locked add on the linked nodes refines the step of the list model, while other threads keep their nodes |
| ThreadObject.SharedCache.RunAll | docker-deploy/src/cache.cpp:26-63 | Any safe interleaving on the linked nodes only ever moves nodes that are in the list, and leaves the list of the locked steps run as whole operations in lock order |
| Headers.GetHeaderValue | docker-deploy/src/parser_method.cpp:38-47 | The index loop returns the first value of exactly that name, or the empty string |
| Headers.UpdateResponse | docker-deploy/src/parser_method.cpp:93-104 | The index loop overwrites the first header of that name or appends one |
| Headers.FreshenHeaders | docker-deploy/src/proxy.cpp:353-359 | The loop applies one update for each header of the 304, in order |
| Headers.LookupAfterFreshen | docker-deploy/src/proxy.cpp:353-359 | Each name in the 304 looks up to its last value there and every other name as before |
| Headers.FreshenMeaning | docker-deploy/src/parser_method.cpp:93-104 | Old headers keep their places and names, only first matches change value, each new name is appended once |
| Headers.FreshenIdempotent | docker-deploy/src/proxy.cpp:353-359 | Applying the same 304 twice is applying it once |
| Headers.FramingAfterFreshen | docker-deploy/src/proxy.cpp:353-359 | A 304 without Content-Length and Transfer-Encoding, in any case, leaves the stored framing as it was |
| Directives.FindMeaning | docker-deploy/src/proxy.cpp:432-488 | `find` gives the first place where the pattern stands, or none if it stands nowhere |
| Directives.StolMeaning | docker-deploy/src/proxy.cpp:432-488 | `stol` reads the digits after leading white space and one optional sign, by place value, whatever follows them, and throws exactly when there are none |
| Directives.ExtractMeaning | docker-deploy/src/proxy.cpp:432-488 | On every text, `find`, `substr` and `stol` read it piece by piece between its commas: the first piece that contains the name decides, its number starts one byte after the name, and when nothing follows the name the rest of the text is read as the number |
| Directives.ExtractIsFirstContaining | docker-deploy/src/proxy.cpp:432-488 | On any directive list, the first directive whose name contains the sought one decides: its number is read if the sought name ends its name, otherwise, or without a number, an exception is thrown |
| Directives.FindLandsIff | docker-deploy/src/proxy.cpp:432-451 | `find` lands on a directive of the sought name exactly when no earlier directive's name contains it |
| Directives.ReadRightIff | docker-deploy/src/proxy.cpp:432-488 | Every choice of arguments and spaces is read as the structure says if and only if no directive before the first of the sought name hides it in a longer name |
| Directives.KnownDirectivesAreReadRight | docker-deploy/src/proxy.cpp:432-488 | No standard directive name hides in another, so their texts are read as their structure says |
| Directives.FlagIsPresent | docker-deploy/src/proxy.cpp:251-252 | On standard directives, finding no-cache, no-store or private in the text is having that directive |
| Directives.HiddenNameIsMisread | docker-deploy/src/proxy.cpp:442-451 | A response that only says x-max-age is taken to say max-age |
| Freshness.CalculateFreshnessLifetime | docker-deploy/src/proxy.cpp:420-491 | The method with its reassigned locals and early return computes the specified lifetime, or throws where it does |
| Freshness.LifetimeOfRendered | docker-deploy/src/proxy.cpp:432-463 | s-maxage, then max-age, then Expires minus Date, then nothing, whatever the order of the directives |
| Freshness.AllowanceOfRendered | docker-deploy/src/proxy.cpp:465-488 | min-fresh is subtracted and max-stale added, wherever they stand among the request's directives |
| Proxy.ConditionalRequestMeaning | docker-deploy/src/proxy.cpp:364-385 | For every request and cached response: the client's method, URI, version and Host, the cached Last-Modified as If-Modified-Since and the cached ETag as If-None-Match exactly where the response has them, each once, and no other header |
| Proxy.ConditionalRequestReadsBack | docker-deploy/src/proxy.cpp:364-385 | A request with these properties, for any parsed GET and any parsed response, is parsed by its receiver as itself: method, URI, version and headers |
| Proxy.ValidatesIff | docker-deploy/src/proxy.cpp:270-295 | Whatever the Cache-Control texts, an entry is validated exactly from the moment it goes stale for the request on, or when some piece of either text contains no-cache; it throws exactly when there is no such moment |
| Proxy.EffectIff | docker-deploy/src/proxy.cpp:156-346 | When a request stores or freshens, and what, from the entry found, the request and the answer: a Host header and an answer that parses; without an entry no mention of chunked and a storable response; with one a need for validation and code 200 or 304 |
| Proxy.SentIff | docker-deploy/src/proxy.cpp:88-112 | What the client is sent, from the entry found, the request and the answer: the very bytes of the origin server for a first answer that mentions chunked or parses without a lifetime exception and for any parsed answer to a validation but a 304; the cached response otherwise when it needs no validation or a 304 came; nothing in all other cases or when the client cannot be written to |
| ProxyRuns.Provenance | docker-deploy/src/proxy.cpp:88-359 | Over all runs, an entry cached under a URI has status 200 and the status line, version included, and content of an earlier 200 answer for that URI |
| ProxyRuns.HitReadsBack | docker-deploy/src/proxy.cpp:148-154 | Bytes sent from the cache, on a hit or right after a 304 was merged, carry the version, status and content of an earlier 200 for that URI, and read back exactly when the response shown is well framed, always so if it was parsed outside chunked mode and no merged 304 carried a framing header |
| ProxyRuns.StoredInThePast | docker-deploy/src/proxy.cpp:187-188 | With a clock that does not run backwards every cached response time is past |
| ProxyRuns.HeuristicAlwaysValidates | docker-deploy/src/proxy.cpp:98-104 | In every reachable cache an entry without an explicit lifetime is never sent without asking, whatever the client allows |
| ProxyRuns.SentUnaskedIff | docker-deploy/src/proxy.cpp:98-109 | In every reachable cache an entry is sent without asking if and only if it is younger than its explicit lifetime and the request's allowance together by the time since it came in, by its Date and by its Age header, neither side says no-cache, and the client can be written to |
| ProxyRuns.StaleStaysStale | docker-deploy/src/proxy.cpp:401-404 | As long as no 200 or 304 for a URI takes effect, any further requests leave the same entry under it, and once stale for a request it needs validation for that request at every later time |
| ProxyRuns.StaleForAllRequests | docker-deploy/src/proxy.cpp:465-490 | Over runs, an entry stale for a request that allows nothing needs validation for every request that allows a, from a later on |
| ProxyRuns.UnansweredLeaveAlone | docker-deploy/src/proxy.cpp:156-346 | Over all runs, only a 200 or 304 that parses and answers a request for the same URI takes effect there |
| ProxyRuns.ValidationOutcome | docker-deploy/src/proxy.cpp:325-346 | For every URI, what a validation leaves: a 304 freshens the entry, a 200 replaces it, other codes change nothing, no other URI is affected or evicted |
| ProxyRuns.FailureChangesIff | docker-deploy/src/proxy.cpp:188-195 | In every reachable cache, a request that fails has changed some entry if and only if its client could not be written to, what is cached, asked and answered makes the answer take effect, and what it brings is not there already |
| ProxyRuns.ClientsDoNotMatter | docker-deploy/src/proxy.cpp:573-579 | Over all runs, what is cached does not depend on which clients could be written to |
| ProxyRuns.ValidationForbidsIff | docker-deploy/src/proxy.cpp:325-346 | After a validation the entry forbids storing if and only if a 200 says so, or the last Cache-Control of a 304 does, or nothing overrides what it said before |
| ProxyRuns.ForbidsIff | docker-deploy/src/proxy.cpp:156-359 | Over all runs, a cached entry forbids storing exactly when the answers for its URI brought that in: a first fetch never does, a 200 to a validation does if it says so, a 304 if its last Cache-Control does or it has none and the entry did |
| TwoRequests.Outcome | docker-deploy/src/proxy.cpp:88-112 | What any two requests for one URI leave there, when the first answer is stored without a lifetime of its own, with no Age or a readable one, and the second answers its validation |
| TwoRequests.NoStoreIsCached | docker-deploy/src/proxy.cpp:325-338 | Two concrete requests, the second answered by a 200 or a 304 with no-store, leave a cached entry that forbids storing |
| TwoRequests.LengthIsMerged | docker-deploy/src/proxy.cpp:325-332 | Two concrete requests after which two bytes of content are cached, and sent, under a Content-Length of 0, and no longer read back |
| TwoRequests.FailedFetchIsCached | docker-deploy/src/proxy.cpp:188-195 | A concrete request that fails on its client and has been cached all the same |
| ProxyRuns.CacheIsLruRun | docker-deploy/src/proxy.cpp:88-197 | The resident URIs and their order are those of an LRU run of one get for each request and one add for each store |
| ProxyObject.HttpResponseParse | docker-deploy/src/parser_method.cpp:78-91 | A fresh parser object on the whole buffer gives the specified record or an error |
| ProxyObject.Server.ConstructConditionalRequest | docker-deploy/src/proxy.cpp:364-385 | Builds such a conditional request item by item: which validator stands under which name, and nothing else |
| ProxyObject.Server.GetFromServer | docker-deploy/src/proxy.cpp:156-197 | Changes the linked cache as the protocol's fetch, and sends the client exactly the origin's bytes, or fails |
| ProxyObject.Server.Validation | docker-deploy/src/proxy.cpp:309-346 | Asks the origin server with such a conditional request, changes the linked cache as the protocol's validation, and sends what a validation has to send |
| ProxyObject.Server.HttpGet | docker-deploy/src/proxy.cpp:88-112 | The linked cache goes through exactly one protocol step, and the client is sent what the entry found, the request and the answer call for |
| ProxyObject.Server.ServeAll | docker-deploy/src/proxy.cpp:88-112 | After any requests the linked cache stands for the protocol's cache, to which the theorems on runs apply |
| Relay.SendAll | docker-deploy/src/Socket_connection.cpp:3-18 | Terminates, delivers a prefix of the buffer in order, all of it unless a send failed, and for a non-empty buffer returns 0 exactly when all of it was delivered |
| Relay.ForwardMessages | docker-deploy/src/proxy.cpp:540-568 | Under any poll results, receive sizes, partial sends and failures, each side has been delivered a prefix of what the other sent, and all of it unless a send failed or poll did; while the loop goes on each side has been read in every turn in which it was ready; it ends only on an empty read, a failed send or a failed poll |
| UrlText.UrlParser.Parse | docker-deploy/src/httpparser/urlparser.h:130-347 | The loop over the characters computes the specified URL, validity and final assertion |
| UrlText.UrlRoundTrip | docker-deploy/src/httpparser/urlparser.h:130-347 | Printing any URL in its alphabet and parsing it gives every part back and satisfies the final assertion |
| UrlText.DigitsAreNoPassword | docker-deploy/src/httpparser/urlparser.h:267-291 | A password of digits only is taken for a port and rejected, with the digits left over for the final assertion |
| UrlText.PortMeaning | docker-deploy/src/httpparser/urlparser.h:130-347 | The port number is the number written, modulo 65536 |
| UrlText.BracketsAreNotRead | docker-deploy/src/httpparser/urlparser.h:130-347 | A host in brackets makes the parser abort after a user name, and is rejected without one |
| UrlImage.AcceptsOnlyParts | docker-deploy/src/httpparser/urlparser.h:130-347 | Every text that is neither rejected nor aborted on is, byte for byte, made of the parts collected, each in its alphabet and in order, and nothing else |
| UrlImage.SlashesAreOptional | docker-deploy/src/httpparser/urlparser.h:130-347 | Before a letter or digit the two slashes may be left out |
| UrlImage.QueryDropsMarks | docker-deploy/src/httpparser/urlparser.h:130-347 | A query keeps everything but further question marks |
| UrlImage.PathIsOptionalIff | docker-deploy/src/httpparser/urlparser.h:130-347 | A URL that ends with its host is parsed as with the path "/"; one that ends with a port is not, its digits are left over for the final assertion |

## Left out

- Machine arithmetic: version digits, status code, `atoi`, `strtol`, `stol` and times are unbounded integers; only the decrement of a zero counter wraps.
- A negative Content-Length or a huge size makes `reserve` throw; the negative one is a parse error here, memory exhaustion does not occur.
- Parsing a second message with a parser and record that have already completed: only `Language.CompletedIsNotFresh` is about it.
- Responses in the cache are values inside nodes: overwriting headers and time in place is one store into the node, and pointers kept by other requests are not followed.
- Threads.InterleavingIsSerial: speaks of interleavings in which no found node is evicted before its move, because moving a freed node has no defined effect; `Threads.SafeIff` says exactly which runs these are.
- Thread creation, data races inside a lookup, sockets, address lookup, logging and debug output.
- Dates: reading an HTTP date is a parameter, any function from text to time.
- The size limit of one receive (65535 bytes) is not imposed on origin answers; the theorems hold for longer ones too.
- POST forwarding, chunked relaying after the first buffer, and splitting host and port.
- The bytes of the first request to an origin server: the proxy passes on the client's buffer as it came, and the model keeps only its parsed form.
- How much of an answer a client that cannot be written to has received; the request fails.
- What an aborted URL parse leaves behind: the model records the abort and says nothing else about it.
- Relay.ForwardMessages: speaks of the first so many turns of a loop that has no end of its own, because every finite part of a run is covered that way.
