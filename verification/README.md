# soyokaze, modelled and proved

soyokaze is an HTTP and WebSocket stack. This project models the parts of it whose correctness is not
settled by reading one function, and proves what they promise for all inputs, all runs and all
interleavings.

* **WebSocket** (RFC 6455). `Frames` is the incremental frame codec, `Masking` the word-at-a-time masking
  routine, `Utf8` the well-formedness the standard library checks, `Reassembly` the fragment state
  machine, `CloseCodes` the close payload. `Connections` gives the whole connection as functions of its
  state; `WebSocket` and `FrameBuffers` are the classes that update buffers and fields in place and are
  proved equal to those functions. `Delivery` and `Closing` prove what two ends guarantee each other,
  `Assembling` what comes back as a message over any run of calls, errors included, and `Refusals` and
  `FrameErrors` what is done about a peer that breaks the rules. `Utf8Scalars` proves the well-formed octets
  to be exactly the encodings of Unicode scalar values.
* **Admission gate.** `RateHistory` is the state behind the gate's lock, changed in place; `RateLimit`
  compares the pruned history with a log that forgets nothing, whatever the order of the times; `GateRuns`
  runs any number of tasks over the atomic counter and the lock, one atomic operation at a time.
  `Admissions` says who is turned away, who gets a permit, and what is forgotten.
* **Dates.** `Calendar` proves the closed-form Gregorian arithmetic against a day-by-day calendar;
  `HttpDate` is the 29-octet printer of section 5.6.7 of RFC 9110 and the cache in front of it.
* **HSTS** (RFC 6797). `HstsPolicy` writes and reads the field, `HstsStore` is the bounded map with lazy
  expiry, and `HstsRuns` compares the map with the log of everything it was told. `HstsFields` says which
  texts mean which policy, and `HstsAnswers` what the store insists on, in terms of those alone.
* **Cookies** (RFC 6265). `SetCookies` reads and writes the field, `Cookies` holds the scoping rules,
  `CookieJar` is the bounded store, and `JarRuns`, `JarBounds`, `JarAnswers` and `JarEvictions` prove what
  holds of it over whole runs. `CookieFields` says which texts set which cookie, and `CookieScopes` which
  requests a cookie set at one URL is sent with.
* **Base64** (RFC 4648, sections 3.5 and 4), **field sections** (`Headers`), **URLs** (`Urls`) and
  **ECH configuration lists** (`Ech`, section 4 of draft-ietf-tls-esni). `UrlSpellings` says which texts are
  which URL; `UrlErrors`, `EchErrors` and `Base64Errors` what every other text is refused for.

`Octets`, `Texts`, `Parts`, `Clocks`, `Sublists` and `Wrappers` hold what the others share; `Clocks` also says
which instants are steady: those at which no lifetime that was over has come back. Code that changes state
step by step is a class or a method with a loop, proved equal to a function of the old state; the lemmas are about
those functions. Texts are sequences of characters where the code only compares and cuts at ASCII characters, and
sequences of octets (`bv8`) where it looks at octets.

## What turned out not to hold

Where a property the code or its documentation suggests is false, the code is kept as it is, an input is
given, and the exact condition is proved.

* A frame is received from every split of its octets exactly when it is at most one octet longer than the
  message limit; a longer one is received when it arrives at once and refused when its last octet arrives
  alone (`Delivery.ReceiveIsSplitProofIff`).
* A refusal does not end the message it happens in. A continuation refused as too big is spliced out: the
  next one may end the message, which is then returned without the refused octets
  (`Assembling.SpliceHappens`). Over any run of calls a returned message is some of the data frames taken
  since the last one, and all of them exactly when none of them was refused, masked the wrong way round, or
  read while lingering (`Assembling.ReturnedAfterAnyRun`); a call loses such a frame exactly when it answers
  so (`Assembling.CallLosesIff`).
* A gate reads its instant before it takes its lock, so times may go back under the lock. The pruned history
  decides as the full one, over every setup and run with the same times, exactly when no time lies above both
  an earlier and a later one (`RateLimit.DecidesAsLogIff`); the limits themselves are kept exactly when time
  never comes back nearer to a time than it has been after it (`RateLimit.KeepsLimitsIff`). With two allowed
  in ten seconds, admissions at 0, 1, 20 and 5 are all granted, three of them within five seconds
  (`RateLimit.ThreeWithinTen`).
* The gate's history is bounded, as documented, exactly when every rate limit allows at least one
  admission: an address refused by a limit of zero is remembered without the bound being applied
  (`RateLimit.NeverOutgrowsIff`).
* The HSTS store answers as its log means exactly at instants at which no lifetime that was over has come back
  (`HstsRuns.AnswersMeanTheLogIff`), and pruning the cookie jar never shows exactly at such instants
  (`JarAnswers.PruningNeverShowsIff`). Instants in order are such (`Clocks.InOrderIsSteady`).
* A ceiling of zero still leaves one HSTS entry, and one cookie of a domain whose own ceiling is zero: the
  ceilings are kept exactly when they are not zero or nothing can be stored at all
  (`HstsRuns.CeilingKeptIff`, `JarBounds.DomainCeilingKeptIff`).
* A host's normal form need not be normal: `a].` gives `a]`, and that gives `a`
  (`HstsStore.BracketBehindDot`). It is exactly when it has no outer space and no closing bracket left and is
  no address (`HstsStore.NormalizesToItselfIff`).
* An HTTP date reads back exactly below the year 10000 (`HttpDate.FormatReadsBackIff`).
* `SetCookie::build` documents that it refuses a name that is not a token, but it looks only at ASCII
  octets. A cookie that can be built is read back as itself exactly when nothing in it is changed by
  trimming, no attribute holds a semicolon, and its age is not the least 64-bit integer
  (`SetCookies.BuiltReadsBackIff`, `SetCookies.OuterSpaceIsLost`).
* A cookie stored under its default path is sent back to the target that set it exactly when that target's
  path has a slash (`Cookies.DefaultPathMatchesIff`).
* `URL` documents that its target begins with `/`. It does exactly when no `?` or `#` stands before the first
  slash behind the scheme (`Urls.TargetBeginsWithSlashIff`); `http://h?q` has the target `?q`
  (`Urls.QueryBeginsTarget`).
* `ECHKeys::encode` documents that it refuses what its length prefixes cannot describe. It checks the key
  and the name on their own; what it publishes is readable exactly when the two together also fit, and
  otherwise every client refuses the list (`Ech.PublishedIsReadIff`). `ECHConfigList::parse` does not look
  at up to three octets after the last configuration (`Ech.ParseIff`).
* Field sections whose presence bits are handed in are searched with them: such a section misses no field it
  holds exactly when the bits have every bit its well-known fields stand for (`Headers.MissesNothingIff`).

## Model

| member | source | states |
|---|---|---|
| Masking.MaskedTwice | src/websocket.rs:295-308 | masking with the same key twice gives the payload back |
| Masking.WordMasks | src/websocket.rs:295-308 | one exclusive-or of native words masks eight octets as section 5.3 of RFC 6455 says, in either byte order |
| Masking.MaskedSlice | src/websocket.rs:295-308 | a slice that begins on a multiple of four masks on its own |
| Masking.ApplyMask | src/websocket.rs:295-308 | the in-place word loop and its tail leave payload[i] xor key[i mod 4], for every length and either byte order |
| Frames.HeadFits | src/websocket.rs:187-252 | a decoded head lies within the octets it was decoded from, is legal, and its length is below 2^63 |
| Frames.DecodeStable | src/websocket.rs:187-252 | once decoding answers, with a frame or an error, further octets change nothing |
| Frames.DecodeEncoded | src/websocket.rs:318-370 | every legal frame, encoded in front of anything, decodes to itself and consumes just its own octets |
| Frames.DecodeStrictPrefix | src/websocket.rs:187-252 | every strict prefix of an encoded frame asks for more and is never an error |
| Frames.RefusedIsNoFrame | src/websocket.rs:187-252 | octets that are refused begin no stream that begins with a legal frame |
| Frames.EncodeDecoded | src/websocket.rs:318-370 | a decoded frame is legal and encodes to no more octets than it took, and to the same number only when to the same octets |
| Frames.WireHeaderIs | src/websocket.rs:318-346 | a legal frame's header on the wire, in the numbers of the standard: end bit and opcode, masking bit and length in seven bits, or in two octets or eight behind 126 or 127 |
| Frames.WireBodyIs | src/websocket.rs:318-346 | and behind it the key, and each payload octet combined with its octet of the key |
| FrameErrors.DecodeErrorIff | src/websocket.rs:187-252 | octets are refused exactly for the first thing there is to object to in them: a reserved bit, a reserved opcode, a length with its high bit, a control frame too long, or one that is fragmented |
| FrameBuffers.Cross | src/websocket.rs:318-346 | the payload as it crosses the wire: masked when there is a key |
| FrameBuffers.EncodeLength | src/websocket.rs:318-346 | appends the length field: one octet, or two or eight more behind a marker |
| FrameBuffers.EncodeInto | src/websocket.rs:318-346 | appends exactly one frame's octets and leaves what was there |
| FrameBuffers.Take | src/websocket.rs:381-395 | takes the decoded frame and leaves exactly the octets after it; leaves the buffer alone otherwise |
| Utf8.BoundaryIffValidPrefix | src/websocket.rs:1138-1147 | a cut of well-formed text is well-formed exactly when it falls on a character boundary |
| Utf8.BoundaryNearby | src/websocket.rs:1138-1147 | a boundary lies at most three octets before any place in well-formed text |
| Utf8Scalars.ValidIff | src/websocket.rs:1138-1147 | octets are well-formed exactly when they are the encoding of some Unicode scalar values |
| Reassembly.AcceptKeepsSound | src/websocket.rs:1040-1098 | after any data frame, accepted or refused, something is pending exactly when its frames are counted, and it is within the message limit |
| Reassembly.AcceptIsExact | src/websocket.rs:1040-1098 | a message comes out exactly when the frames held and this one are a whole message, and is then their concatenation under the first one's opcode; a frame is held exactly when it leaves them unfinished |
| CloseCodes.FittedIsLongest | src/websocket.rs:1138-1147 | the cut reason is the longest prefix within 123 octets that is still UTF-8, and loses at most three octets of the room |
| CloseCodes.Reason | src/websocket.rs:1138-1147 | the loop that walks back finds that cut, and ends |
| CloseCodes.ClosePayloadVerifies | src/websocket.rs:1111-1166 | every close payload built is at most 125 octets, makes a legal control frame, and passes the peer's check |
| Refusals.VerifyCloseIff | src/websocket.rs:1111-1130 | a close payload is accepted exactly when it is empty, or two octets or more, with a code from 1000 to 1003, from 1007 to 1011 or from 3000 to 4999, and a reason that is text |
| Refusals.ClosePayloadIs | src/websocket.rs:1138-1166 | a close payload built here is its code as the number it stands for, and the longest part of the reason that is text and fits |
| Connections.Receive | src/websocket.rs:965-986 | a received frame is legal, masked as the peer's role demands, shortens the backlog, and touches nothing but the reading state |
| Connections.ReceiveMessage | src/websocket.rs:1015-1100 | receiving a message consumes octets that were there to read, and so ends |
| Connections.SendKeeps | src/websocket.rs:942-957 | a frame sent is masked according to the role, and no close is sent but by closing |
| Connections.CloseKeeps | src/websocket.rs:1159-1183 | closing keeps the connection's invariant and sends a close only when none was sent |
| Connections.HandleKeeps | src/websocket.rs:1015-1100 | answering any frame keeps the connection's invariant |
| Connections.ReceiveMessageKeeps | src/websocket.rs:1015-1100 | receiving a message from any octets keeps the connection's invariant |
| Connections.RunKeeps | src/websocket.rs:1015-1183 | over any run of receiving and closing at most one close is sent, every frame sent is one the peer may accept, and pending data stays within its limit |
| Connections.OpenRunKeeps | src/websocket.rs:886-1183 | so it is for every run from a new connection, over a transport in any state |
| Delivery.ReceiveTakes | src/websocket.rs:965-986 | a frame within the limit is received from any split of the octets that carry it, leaving just what follows |
| Delivery.ReceiveIsSplitProofIff | src/websocket.rs:965-986 | reception does not depend on how the octets are split exactly for frames of at most one octet more than the message limit |
| Delivery.NextFragment | src/websocket.rs:1040-1098 | the next fragment of a sent message either keeps it open or ends it with the whole payload |
| Delivery.DeliveryMidway | src/websocket.rs:965-1100 | from any point in the middle of a delivery, what is left is delivered in order and answered in order |
| Delivery.EndToEnd | src/websocket.rs:942-1100 | messages cut into any fragments with control frames between them, under any keys and any split into reads, come out as exactly those messages in order, each ping answered by a pong of its payload and a close by its echo |
| Delivery.SendAllSends | src/websocket.rs:942-957 | frames sent one after another go out in order, each keyed by its place |
| Assembling.HandleTells | src/websocket.rs:1015-1098 | one frame of whatever kind extends, completes or leaves alone the message being assembled, or is refused and leaves what was held, or nothing, or a connection that returns no message any more |
| Assembling.ReceiveMessageAssembles | src/websocket.rs:1015-1100 | on any octets and whatever was refused before, a returned message is the data frames held and those the call takes, joined, and they are a whole one; what an error leaves is stated too |
| Assembling.WedgedReturnsNothing | src/websocket.rs:1040-1098 | once a message has spanned too many frames no call returns one again |
| Assembling.CallLosesIff | src/websocket.rs:965-1100 | a call loses a data frame exactly when it answers with a refusal or with wrong masking of one |
| Assembling.RunTells | src/websocket.rs:1015-1183 | over any run of calls, errors and all, what is held is some of the data frames since the last message, in order, and all of them while none was lost |
| Assembling.ReturnedAfterAnyRun | src/websocket.rs:1015-1183 | after any run of calls a returned message is some of the data frames since the last one, in order, joined under the first one's opcode, and whole; and it is all of them exactly when none was refused, masked wrongly or lingered over |
| Assembling.RefusedIsSplicedOut | src/websocket.rs:1040-1098 | a continuation refused as too big is missing from the message that the next one ends |
| Assembling.SpliceHappens | src/websocket.rs:1040-1098 | a connection and three frames for which that happens |
| Closing.LingerReadsTheClose | src/websocket.rs:1172-1179 | lingering reads past what was on its way, up to and with the close behind it |
| Closing.CloseIsEchoed | src/websocket.rs:1015-1032 | a close that arrives is echoed once and handed on |
| Closing.Handshake | src/websocket.rs:1015-1183 | when one end closes, the other hands the close on and echoes it, and the closer's linger ends with that echo |
| Refusals.ReceiveStops | src/websocket.rs:965-986 | the first read that decides ends a reception: octets that begin no frame, a frame and its masking, more than the limit of an unfinished one, or the end of the stream, in that order |
| Refusals.CloseSends | src/websocket.rs:1159-1183 | closing sends exactly one close, unless one went before or nothing can be written, and shuts the transport for writing either way |
| Refusals.InvalidTextCloses | src/websocket.rs:1050-1096 | a message that claims to be text and is not, in one frame or in many, fails the call with nothing left pending, one close of 1007 and "invalid utf-8" sent unless one went before, and the transport shut |
| Refusals.ObjectionsAreQuiet | src/websocket.rs:1040-1098 | any other data frame that is refused fails the call with the first objection there is, and sends nothing, closes nothing and shuts nothing |
| Refusals.BadCloseIsQuiet | src/websocket.rs:1021-1030 | a close that may not be is neither echoed nor handed on |
| Refusals.GoodCloseIsEchoed | src/websocket.rs:1021-1030 | one that may is echoed octet for octet unless this end closed first, and handed on |
| WebSocket.WebSocketConnection.constructor | src/websocket.rs:886-905 | a new connection holds what was already buffered and has sent, received and assembled nothing |
| WebSocket.WebSocketConnection.Send | src/websocket.rs:942-957 | writes the encoded frame through the scratch buffer, as the function of the state says |
| WebSocket.WebSocketConnection.ReceiveFrame | src/websocket.rs:965-986 | the read loop over the buffer does what the function of the state says |
| WebSocket.WebSocketConnection.AwaitClose | src/websocket.rs:1172-1179 | the linger reads until a close, an error, or the patience running out |
| WebSocket.WebSocketConnection.CloseConnection | src/websocket.rs:1159-1183 | closing sends at most once, lingers, and shuts the transport down either way |
| WebSocket.WebSocketConnection.AcceptFrame | src/websocket.rs:1040-1098 | updates the fragments and their count in place, as the state machine says |
| WebSocket.WebSocketConnection.HandleFrame | src/websocket.rs:1015-1100 | each kind of frame changes the connection as the function of the state says |
| WebSocket.WebSocketConnection.ReceiveWhole | src/websocket.rs:1015-1100 | the message loop returns what the function of the state returns |
| RateHistory.GateState.constructor | src/api/gate.rs:54-77 | the window is the longest period of any limit |
| RateHistory.GateState.CountRecent | src/api/gate.rs:135-140 | counts the entries within a period |
| RateHistory.GateState.PruneFront | src/api/gate.rs:132-134 | drops just the leading entries older than the window |
| RateHistory.GateState.CheckRate | src/api/gate.rs:128-146 | leaves the pruned record, with the attempt added exactly when every limit allows it |
| RateHistory.GateState.Victim | src/api/gate.rs:160-165 | the address, other than the kept one, whose record begins earliest |
| RateHistory.GateState.BoundHistory | src/api/gate.rs:156-172 | nothing goes under the cap; over it just enough goes, never the kept address, and always what connected longest ago |
| RateHistory.GateState.AdmitLocked | src/api/gate.rs:105-119 | the locked half of admitting: the tally and the history after a refusal by either ceiling and after a grant |
| RateHistory.GateState.Settle | src/api/gate.rs:178-190 | one connection of an address is given back, and an address holding none is forgotten |
| RateHistory.GateState.Sweep | src/api/gate.rs:196-206 | every record is pruned and the empty ones are dropped |
| RateLimit.StepAgrees | src/api/gate.rs:128-206 | every event, whatever its time, leaves each record all of its log but a front every entry of which was once older than the window |
| RateLimit.RunAgrees | src/api/gate.rs:128-206 | so it is after every run |
| RateLimit.SameAnswer | src/api/gate.rs:128-146 | a record that lacks only entries older than the window answers every limit as the full log does |
| RateLimit.AdmittedSpaced | src/api/gate.rs:135-140 | admitting within every limit keeps every stretch of time within every count, in whatever order the times came |
| RateLimit.DecidesAsLogIff | src/api/gate.rs:128-206 | over every setup and run with given times each attempt is decided as a limiter that keeps every admission would, exactly when no time lies above both an earlier and a later one |
| RateLimit.KeepsLimitsIff | src/api/gate.rs:128-206 | over every setup and run with given times every limit is kept in every stretch of time, exactly when time never comes back nearer to a time than it has been after it |
| RateLimit.InOrderIsUnpeaked | src/api/gate.rs:128-206 | times in order satisfy both conditions |
| RateLimit.ThreeWithinTen | src/api/gate.rs:128-146 | a run in which a limit of two in ten seconds grants three in five |
| RateLimit.RunNeverOutgrows | src/api/gate.rs:148-172 | with limits of at least one, the addresses remembered stay within the configured bound over every run |
| RateLimit.NeverOutgrowsIff | src/api/gate.rs:148-172 | the bound holds over every run exactly when every limit allows at least one admission |
| GateRuns.DecideKeeps | src/api/gate.rs:105-119 | the step under the lock keeps the tallies and the ceilings |
| GateRuns.SettleKeeps | src/api/gate.rs:178-190 | giving an address back keeps them, and the saturating subtraction never saturates |
| GateRuns.SwapKeeps | src/api/gate.rs:91-103 | the exchange, failing or not, keeps the total within its ceiling, and the addition never wraps |
| GateRuns.NextKeeps | src/api/gate.rs:88-122 | every atomic step of every task keeps the gate's invariant |
| GateRuns.CountsStayHonest | src/api/gate.rs:88-190 | under every interleaving the total is the number of claims and permits outstanding, each address's tally is what it holds, neither ceiling is passed, and with none outstanding both are empty |
| GateRuns.HistoryRuns | src/api/gate.rs:105-206 | the history an interleaved run leaves is the one its locked events leave in order |
| GateRuns.DecisionsAreNaive | src/api/gate.rs:105-119 | in any interleaving whose times under the lock have no peak, an address is granted exactly when it is under its own ceiling and the full log would grant it |
| GateRuns.LimitsAreKept | src/api/gate.rs:105-172 | in any interleaving every limit is kept while times come back no nearer, and with limits of at least one the history stays within its bound whatever the times |
| GateRuns.DropKeeps | src/api/gate.rs:220-224 | dropping a permit or refunding a claim gives back exactly one |
| Admissions.TurnedAwayIffFull | src/api/gate.rs:91-95 | in any interleaving a task is turned away exactly when there is a ceiling and as many claims and permits are outstanding as it allows |
| Admissions.AdmittedIff | src/api/gate.rs:88-122 | a task undisturbed from its arrival gets a permit exactly when there is room in all, room for its address, and fewer admissions than each limit allows within its period |
| Admissions.AdmittedWithoutAddressIff | src/api/gate.rs:88-122 | one without an address gets it exactly when there is room in all |
| Admissions.WindowIsLongest | src/api/gate.rs:54-77 | history is kept for the longest period of any limit and no longer |
| Admissions.SweptIff | src/api/gate.rs:196-206 | a sweep keeps an address exactly when an admission of it is still within the window, and then its admissions from the first such one on |
| Admissions.OldestAddressesGo | src/api/gate.rs:143-172 | an admission is remembered last under its address; of too many addresses just the surplus goes, never the one admitted, and none whose record begins later than one that stays |
| Calendar.CivilIsDate | src/finalizer.rs:48-60 | every count of days, negative ones included, gives a real date that lies that many days from the epoch |
| Calendar.TomorrowIsNext | src/finalizer.rs:48-60 | the day after a date lies one day further, over month ends, leap days and centuries |
| Calendar.CivilInverts | src/finalizer.rs:48-60 | the closed form undoes the counting of days for every date |
| Calendar.CivilIsTheCalendar | src/finalizer.rs:48-60 | day zero is 1970-01-01 and each next day is its Gregorian successor |
| Calendar.CivilKeepsOrder | src/finalizer.rs:48-60 | later days are later dates |
| HttpDate.WriteDate | src/finalizer.rs:77-93 | the first sixteen octets are the weekday and the date |
| HttpDate.WriteTime | src/finalizer.rs:94-100 | the last thirteen octets are the time of day |
| HttpDate.Write | src/finalizer.rs:77-101 | the array holds the date of the second, whole |
| HttpDate.FormatReadsBackIff | src/finalizer.rs:77-101 | the 29 octets read back as their second exactly below the year 10000 |
| HttpDate.FormatIsInjective | src/finalizer.rs:77-101 | below the year 10000 different seconds have different dates |
| HttpDate.FormatNamesTheDay | src/finalizer.rs:77-101 | the date of any second names the weekday, counted in sevens from a Thursday, and the month of its date, and has its marks in their places |
| HttpDate.LateYearsAreClamped | src/finalizer.rs:77-93 | from the year 10000 on the year is written as 9999 |
| HttpDate.DateCache.Now | src/finalizer.rs:126-140 | over any run of calls the cache answers what an uncached format would |
| Base64.EncodeText | src/helpers/base64.rs:73-94 | the loop over groups of three and its remainder encode the whole input |
| Base64.PackSextets | src/helpers/base64.rs:102-113 | packs six bits for each symbol, or stops at the first outside the alphabet |
| Base64.DecodeText | src/helpers/base64.rs:124-171 | the loop over groups of four decodes as the group-by-group definition does, errors included |
| Base64.DecodeEnd | src/helpers/base64.rs:150-170 | the last group, its padding counted and its displaced bits checked |
| Base64.SextetsOkIff | src/helpers/base64.rs:102-113 | symbols pack exactly when each is in the alphabet |
| Base64.DecodeEncoded | src/helpers/base64.rs:73-171 | decoding undoes encoding for all octets |
| Base64.EncodeDecoded | src/helpers/base64.rs:73-171 | encoding undoes decoding: an accepted text is the encoding of what it decodes to |
| Base64.AcceptedIffEncoding | src/helpers/base64.rs:124-171 | the accepted texts are exactly the encodings |
| Base64.EncodeCarriesBits | src/helpers/base64.rs:73-94 | the symbols of an encoding spell the bits of the input in order, then the zeros that fill the last symbol, and nothing else |
| Base64.EncodePads | src/helpers/base64.rs:73-94 | there is just the padding that rounds the input up to a group |
| Base64Errors.AlphabetIs | src/helpers/base64.rs:11-57 | the symbols are the capitals, the small letters, the digits, plus and slash, in that order |
| Base64Errors.LengthIsNamed | src/helpers/base64.rs:126-128 | a length that is no multiple of four is refused by its number |
| Base64Errors.BodyErrorIs | src/helpers/base64.rs:137-148 | a group before the last is refused for padding anywhere in it, and otherwise for its first symbol outside the alphabet, whatever whole groups are in front |
| Base64Errors.MisplacedPaddingIs | src/helpers/base64.rs:150-153 | padding in the last group that is not at its end, or is more than two, is refused as padding |
| Base64Errors.LastErrorIs | src/helpers/base64.rs:155-155 | in front of its padding the last group is refused for its first symbol outside the alphabet |
| Base64Errors.DisplacedBitsAre | src/helpers/base64.rs:156-160 | a padded group is refused as padding exactly when the bits its padding displaces are not zero |
| HstsPolicy.Append | src/hsts.rs:35-39 | appends as much of a part as fits and leaves the rest of the buffer |
| HstsPolicy.WriteDigits | src/hsts.rs:65-76 | the digit loop fills the end of its buffer with the decimal |
| HstsPolicy.RenderFits | src/hsts.rs:59-90 | no field needs more than 55 of the 64 octets, so nothing is ever cut off |
| HstsPolicy.Value | src/hsts.rs:59-90 | the field built on the stack is the whole field |
| HstsPolicy.SaysOnce | src/hsts.rs:98-134 | no field says two things |
| HstsPolicy.Parse | src/hsts.rs:98-134 | reading gives a policy exactly when no directive repeats and one is an age in digits, and then that age, clamped, and the flags that are named |
| HstsPolicy.RenderReadsBack | src/hsts.rs:59-134 | what is written for any 64-bit age and both flags reads back, a negative age as zero |
| HstsFields.FieldMeansIff | src/hsts.rs:98-134 | a text of parts between semicolons means a policy exactly when no directive is named twice, an age is among them, in digits, quoted or not, and the flags are there just when it says so, whatever the case, the space and the unknown directives |
| Parts.EveryTextIsAField | src/hsts.rs:98-110 | every text is made of such parts |
| HstsStore.NormalForm | src/hsts.rs:191-199 | a stored name is not empty, is in lower case, begins with no bracket and ends with no dot; when it still ends with a bracket is stated next |
| HstsStore.NormalizesToItselfIff | src/hsts.rs:191-199 | a normal form is normal exactly when it has no outer space and no closing bracket left and is no address |
| HstsStore.BracketBehindDot | src/hsts.rs:191-199 | a host whose normal form is not normal |
| HstsAnswers.NormalizeIs | src/hsts.rs:191-199 | a host is stored in lower case without the space around it, then the brackets around that, then the dots behind, unless it is then an address |
| HstsStore.ParentsAreSuffixes | src/hsts.rs:257-273 | the walk visits the name and everything behind one of its dots, and nothing else |
| HstsStore.WalkFinds | src/hsts.rs:252-274 | the walk answers whether some candidate is unexpired and applies, and drops nothing but expired entries |
| HstsStore.DroppingIsInvisible | src/hsts.rs:252-279 | dropping expired entries changes no later answer and nothing that is kept when the next policy comes |
| HstsStore.Store.FindSoonest | src/hsts.rs:233-238 | an entry that expires no later than any other |
| HstsStore.Store.Learn | src/hsts.rs:207-241 | stores, withdraws or ignores; makes room only when full and only by an entry that expires soonest |
| HstsStore.Store.Secure | src/hsts.rs:252-274 | true exactly when the host's own entry is unexpired or a parent's that covers it is |
| HstsStore.Store.Prune | src/hsts.rs:277-279 | the loop leaves nothing expired, and nothing unexpired is gone or changed |
| HstsRuns.RunBounded | src/hsts.rs:207-279 | over any run the store stays within its ceiling, or at one entry when that is zero |
| HstsRuns.CeilingKeptIff | src/hsts.rs:229-240 | every run keeps the store within the ceiling it is given exactly when that is not zero or no policy can be accepted at all |
| HstsRuns.RunAgrees | src/hsts.rs:207-279 | after any run, whatever its instants, every name not lost to an eviction is held as the log's latest policy unless that is over at every steady instant, and a lost one is not held |
| HstsRuns.AnswersMeanTheLog | src/hsts.rs:207-279 | the store never insists where the log does not, and at a steady instant insists exactly where it does for a host none of whose names was evicted |
| HstsRuns.AnswersMeanTheLogIff | src/hsts.rs:207-279 | every store over every run with given instants answers as its log at a later one, exactly when no lifetime begun at one of them was over at a later one and is not over then |
| HstsRuns.AsksAndPrunesNeverShow | src/hsts.rs:252-279 | at steady instants every run, evictions included, is matched by a run of its policies alone that evicts the same and holds the same living entries |
| HstsRuns.PolicyTakesEffect | src/hsts.rs:59-274 | a policy a server writes, received over TLS, makes the client insist on that host until just its age has passed, and on every host under it when it covers them; a policy of no age makes it forget the host |
| HstsRuns.NothingIsLost | src/hsts.rs:229-238 | a store with room for every name it is told of evicts nothing |
| HstsRuns.RoomyStoreIsItsLog | src/hsts.rs:207-279 | at a steady instant such a store answers exactly as its log means |
| HstsAnswers.LatestIsLastTold | src/hsts.rs:207-241 | what the log holds for a name is what the last field told for it said: received over TLS, meaning a policy, of an age the clock can name the end of |
| HstsAnswers.SecureIff | src/hsts.rs:207-274 | at a steady instant after any run a host must be reached over TLS exactly when the last policy told for its own name is not over, or the last told for a parent is not and covers subdomains, when none of these was evicted |
| HstsAnswers.FirstPolicyDecides | src/hsts.rs:59-274 | the one policy told to an empty store decides every later answer: for its own name until its age has passed, beneath it just when it covers subdomains, and for no other name |
| HstsAnswers.PlainIsIgnored | src/hsts.rs:207-211 | a field not received over TLS changes nothing |
| HstsAnswers.OnlyToldChanges | src/hsts.rs:207-279 | no event loses or changes an unexpired entry but by telling a policy for its name or evicting it, and one that tells nothing changes nothing |
| HstsAnswers.SoonestIsEvicted | src/hsts.rs:231-238 | an entry is evicted only for another accepted into a full store, and no unexpired one would have been over sooner |
| SetCookies.Parse | src/cookies.rs:146-175 | the loop over attributes gives the cookie the field sets, later attributes over earlier ones |
| SetCookies.ReadIsCarried | src/cookies.rs:146-192 | whatever is read is trimmed, holds no semicolon, and is never the least age |
| SetCookies.SignedReadsBack | src/cookies.rs:181-192 | every age but the least reads back from its decimal |
| SetCookies.AttributesReadBack | src/cookies.rs:146-242 | attributes written are the attributes read |
| SetCookies.BuiltReadsBackIff | src/cookies.rs:146-242 | a cookie that can be built reads back as itself exactly when all of it can be carried |
| SetCookies.OuterSpaceIsLost | src/cookies.rs:202-206 | a name that is built and does not read back |
| CookieFields.FieldSetsIff | src/cookies.rs:146-192 | a text of parts between semicolons sets a cookie exactly when its first part is a pair, which gives name and value, and of each attribute the last one, in whatever case, gives what the cookie has |
| CookieFields.BuildIs | src/cookies.rs:202-242 | a cookie is written exactly when its name holds no ASCII separator and its value no forbidden character, and then as its pair and its attributes in a fixed order |
| Cookies.DefaultPathMatchesIff | src/cookies.rs:273-346 | the default path of a target matches that target exactly when its path has a slash |
| Cookies.DomainMatchesIff | src/cookies.rs:289-299 | a host matches a domain exactly when it is the domain, or is no address and continues it at a dot |
| Cookies.ScopeIsTheHosts | src/cookies.rs:309-336 | the scope of a cookie is the host or a domain the host lies in, and never another's bare label |
| CookieScopes.DefaultPathIs | src/cookies.rs:340-346 | the default path is everything before the last slash, or a slash |
| CookieScopes.PathMatchesIff | src/cookies.rs:273-282 | a path matches another exactly when it is that or continues it at a slash, query and fragment aside |
| CookieScopes.ScopeIs | src/cookies.rs:320-336 | a cookie is refused, confined to its host or kept for the domain it asks for, by what it asks for without its dots alone |
| CookieJar.Jar.Evict | src/cookies.rs:420-430 | the domain's oldest goes when it is at its ceiling, and then as many of the oldest as make room |
| CookieJar.Jar.Learn | src/cookies.rs:458-500 | each field of a response in turn replaces, deletes, stores or is skipped |
| CookieJar.Jar.Cookie | src/cookies.rs:503-512 | the pairs of the matching cookies in the order they were stored, or none |
| CookieJar.Jar.Prune | src/cookies.rs:515-517 | the loop leaves exactly the unexpired cookies, in their order |
| JarRuns.ChangedIsSublist | src/cookies.rs:458-500 | a field keeps some of the cookies in order, none under its own key, and adds at most one at the end |
| JarRuns.LearnedIsStores | src/cookies.rs:458-500 | learning a response's fields is learning them one by one |
| JarRuns.AppliedOrderly | src/cookies.rs:458-517 | every operation keeps cookies in the order their keys were last stored |
| JarRuns.RunIsOrderly | src/cookies.rs:458-517 | over any run keys are distinct, every cookie is what the last field to touch its key made, and the order is that of last storing |
| JarRuns.HeldForItsHost | src/cookies.rs:320-336 | every cookie held was set by some host for itself or for a domain it lies in |
| JarBounds.ThinnedHasRoom | src/cookies.rs:420-425 | thinning leaves a domain room for one more |
| JarBounds.RunIsBounded | src/cookies.rs:420-500 | over any run the jar stays within its ceiling and every domain within its own, or at one cookie when that is zero |
| JarBounds.DomainCeilingKeptIff | src/cookies.rs:420-500 | every run keeps every domain within the ceiling it is given exactly when that is not zero or the jar holds nothing at all |
| JarBounds.RoomyJarIsItsLog | src/cookies.rs:458-517 | with room for every key the log names, the unexpired cookies held at a steady instant are exactly those the log leaves |
| JarAnswers.MatchingReadsTheLiving | src/cookies.rs:351-367 | expired cookies never belong on a request |
| JarAnswers.PrunesLeaveTheLiving | src/cookies.rs:458-517 | at steady instants a jar and one never pruned, evictions included, hold the same living cookies in the same order |
| JarAnswers.PruningNeverShows | src/cookies.rs:503-517 | pruning, wherever it happened, changes no Cookie field at a steady instant |
| JarAnswers.PruningNeverShowsIff | src/cookies.rs:503-517 | over every jar and run with given instants pruning changes no Cookie field at any of them, exactly when no lifetime begun at one was over at a later one and is not over at a later one still |
| JarAnswers.SetIsSentBack | src/cookies.rs:351-512 | a cookie just set is the newest held, and is the last pair of the Cookie field sent at once to the same URL, exactly when the transport may carry it and its path matches |
| JarAnswers.BuiltIsKept | src/cookies.rs:202-500 | a cookie a server builds is the one its client keeps, under the scope and path it asked for and for as long as it asked, or none when its age has passed |
| CookieScopes.ForeignIsIgnored | src/cookies.rs:466-468 | a field that asks for a domain its host may not set cookies for changes nothing |
| CookieScopes.SentElsewhereIff | src/cookies.rs:351-512 | a cookie set at one URL is the last pair of the Cookie field for any other exactly when it has not expired, may travel there, the host is the one that set it or lies in the domain it asked for, and the path lies under its own; otherwise that field is as if it were not there |
| JarEvictions.OldestAreEvicted | src/cookies.rs:420-500 | storing keeps exactly as many of the unexpired others as there is room for, in order; what goes is the oldest of a full domain and then the oldest of all |
| Headers.WellKnownNames | src/models.rs:688-715 | each well-known name is found at its own bit |
| Headers.NamesShareIff | src/models.rs:688-715 | the bits of two names meet exactly when they are one and the same well-known name |
| Headers.NamedIff | src/models.rs:752-763 | the early refusals change nothing: a stored name matches exactly when it is equal ignoring ASCII case |
| Headers.AbsentIff | src/models.rs:770-773 | the presence bits rule a name out exactly when it is well-known and a search of the fields finds none |
| Headers.MissesNothingIff | src/models.rs:909-932 | a section whose bits were handed in misses no field it holds exactly when they have every bit its well-known fields stand for |
| Headers.OthersPresence | src/models.rs:826-836 | taking a name out before it is added again loses no bit |
| Headers.OthersKeepOtherValues | src/models.rs:826-853 | taking a name out takes its values and leaves every other name's, in order |
| Headers.Section.FromFields | src/models.rs:897-907 | a decoded list becomes a section with names folded, values and order kept, and the bits right |
| Headers.Section.Contains | src/models.rs:777-779 | answers for a name in any case as a case-insensitive search does |
| Headers.Section.Get | src/models.rs:783-789 | the first value such a search finds |
| Headers.Section.GetAll | src/models.rs:793-797 | every value such a search finds, in order |
| Headers.Section.Append | src/models.rs:802-808 | adds the field, its name folded, and keeps the bits right |
| Headers.Section.AppendLowercase | src/models.rs:815-821 | adds the field as it is and keeps the bits right |
| Headers.Section.Insert | src/models.rs:826-836 | the field stands at the end in place of every field of its name, and the bits stay right |
| Headers.Section.Remove | src/models.rs:839-853 | every field of the name is gone, the rest keep their order, the bits stay right, and the answer says whether any went |
| Urls.ParsedIsNormal | src/models.rs:190-239 | whatever parsing returns has a folded scheme, a plain host or an unwrapped literal, a 16-bit port and a sendable target |
| Urls.AuthorityIsSafe | src/models.rs:132-176 | the authority of a parsed URL may be sent and holds nothing that would end it or set user information off |
| Urls.AuthorityReadsBack | src/models.rs:166-232 | an authority written from host and port reads back as that host and port, bracketed or not, default or not |
| Urls.NormalReadsBack | src/models.rs:158-239 | every URL in normal form, written out and parsed, is itself again |
| Urls.ParsedReadsBack | src/models.rs:158-239 | parsing what a parsed URL writes gives it again, user information and default ports notwithstanding |
| Urls.ParsedIffNormal | src/models.rs:190-239 | the URLs parsing can return are exactly those in normal form |
| Urls.TargetBeginsWithSlashIff | src/models.rs:194-196 | a target begins with a slash exactly when no query or fragment begins before the first slash behind the scheme |
| Urls.QueryBeginsTarget | src/models.rs:194-196 | a URL whose target does not |
| UrlSpellings.ParseIff | src/models.rs:190-239 | a text is read as a URL exactly when it is spelled of a scheme, perhaps user information, a host, perhaps bracketed, perhaps a port and perhaps a target, each as it may be, and the URL is what they mean |
| UrlSpellings.UserIsIgnored | src/models.rs:202-202 | user information, whatever it is, changes nothing about a URL |
| UrlErrors.NoSchemeIff | src/models.rs:191-191 | a text is refused for having no scheme exactly when no separator is in it |
| UrlErrors.CutIsJudged | src/models.rs:194-239 | any other is refused for its target first, and then for its address, whatever its scheme and its user information |
| UrlErrors.EveryTextIsCut | src/models.rs:191-202 | every text with a separator is cut into scheme, user information, address and target |
| UrlErrors.OpenBracketIs | src/models.rs:205-207 | an address that opens a bracket and never closes it is refused for that |
| UrlErrors.LiteralErrorIs | src/models.rs:204-220 | a bracketed address is refused for what follows it, then its port, then what it holds |
| UrlErrors.PlainErrorIs | src/models.rs:221-235 | any other for its port, then for having no host, then for its host |
| Ech.ReadContents | src/tls.rs:681-710 | the offset arithmetic reads what the layout-free definition reads, with its error for each part that runs out |
| Ech.ParseList | src/tls.rs:638-673 | the loop over the body reads the configurations in order, or fails at the first that cannot be read |
| Ech.ContentsIff | src/tls.rs:681-710 | contents are read exactly when they are laid out with fitting length prefixes, and for what the layout says |
| Ech.SpelledRecordsAreRead | src/tls.rs:647-666 | any records, of any versions, read back as the supported ones in order |
| Ech.ParseIff | src/tls.rs:638-673 | a list is read exactly when its length is its body's and the body is whole records, with at most three octets left over and one supported |
| Ech.Encode | src/tls.rs:771-797 | the configuration appended part by part is the record of its layout, or the error for a name or a key too long on its own |
| Ech.PublishedIsReadIff | src/tls.rs:771-808 | a published configuration is read back by name and padding exactly when the whole fits two octets of length, and otherwise its length is refused |
| Ech.PublishedOctets | src/tls.rs:771-797 | the octets of a published configuration, one by one |
| EchErrors.ContentsErrorIs | src/tls.rs:681-704 | how many octets there are decides which part of the contents is missing, or that none is |
| EchErrors.LengthErrorIs | src/tls.rs:638-647 | a list is refused for its length exactly when two octets are not there or do not say how long the rest is |
| EchErrors.BadRecordIs | src/tls.rs:649-663 | the first supported record whose contents cannot be read is what a list is refused for |
| EchErrors.PastTheListIs | src/tls.rs:654-657 | a record longer than what is left of the list is refused, of whatever version |
| EchErrors.NoneSupportedIs | src/tls.rs:668-670 | whole records none of which is supported are refused for that |
| Octets.BigEndianRoundTrip | src/websocket.rs:398-404 | an integer that fits a number of octets reads back from them |
| Octets.BigEndianUnique | src/websocket.rs:398-404 | octets are the only spelling of their integer at their width |
| Clocks.InOrderIsSteady | src/hsts.rs:207-279 | instants in order are steady |
| Texts.SplitJoined | src/cookies.rs:202-242 | parts joined behind semicolons split into themselves again when none holds one |
| Texts.DecimalReadsBack | src/hsts.rs:65-76 | every number reads back from its decimal |

## Left out

- Sockets, TLS and QUIC handshakes, tokio tasks and every BoringSSL call: foreign code and I/O. A transport is an arbitrary sequence of reads and a number of writes it takes before failing; a write takes a whole frame or nothing, so a partial write is not modelled.
- WebSocket.WebSocketConnection.ReceiveFrame: a read that times out part-way is not modelled.
- WebSocket.WebSocketConnection.AwaitClose: the closing linger ends after an arbitrary number of frames instead of a time, and so never inside a read.
- WebSocket.WebSocketConnection.Send: masking keys are an arbitrary function of their place, so a failure to draw one is not modelled; nor is a frame written in part.
- The Upgrade handshake and its SHA-1 are left out.
- Memory: capacities, buffer reuse and the sharing of `Bytes` and `Text`. Lengths are unbounded naturals, where the code has 64-bit `usize`.
- GateRuns.CountsStayHonest: assumes fewer than 2^32 tasks use the gate at once; with 2^32 or more claims outstanding and no ceiling the atomic counter would wrap.
- RateLimit.DecidesAsLogIff: periods and ages are reals, so the rounding of `as_secs_f64` is not modelled, and a record of 2^32 entries, whose count the code would cut to 32 bits, is not either.
- Calendar.CivilIsDate: integers are unbounded, where the code has 64 bits; its first sum would overflow within 719,468 days of the largest. No HTTP date comes near.
- HstsRuns.AnswersMeanTheLog: which of several entries that expire soonest is evicted is left open, as the order of the hash map is.
- HstsStore.Normalize: whether a text is an IP address is a parameter.
- CookieJar: the `Expires` attribute is read and kept but never consulted, as in the code. Whether a host is an IP address is a parameter.
- Base64: the alphabet is given by its ranges rather than as a table of 256 entries.
- Headers: lengths of names are counted in characters where the code counts octets; names that differ in either differ in both comparisons.
- Urls: the visibility of characters, which `scan` decides in a file that is not part of this model, is taken to be neither white space nor control in ASCII.
- Ech: public names are octets; their lossy conversion to text is left out, as is every other field of a configuration a client does not read.
- HPACK, QPACK, Huffman, HTTP/1, HTTP/2 and HTTP/3, compression and the text helpers are not part of this model.
- Message finalisation, content types, status codes, response constructors, `Cookie::parse`, client dialling, server start-up and the C interface: each is settled by reading one function.
