# Subx: a verified model of its parsers, schedules, stores and caches

Subx reads proxy subscriptions in many text formats, transforms lists of proxies, prints
them in other formats and refreshes remote subscriptions on cron schedules. This project
models the parts of it whose correctness is hard to see from any single function and
proves what those parts promise together.

Texts are Go strings: sequences of bytes, written as sequences of characters below 256.
White space is what `strings.TrimSpace` takes on UTF-8 text. Times are integers
(nanoseconds), time zones are fixed offsets, and days, months and weekdays come from a
Gregorian calendar that is itself proved to be a bijection between day numbers and dates,
with the weekdays of Zeller's congruence.
Code that walks an index or updates fields is modelled by methods and classes with the
same loops, each proved equal to a recursive function; the theorems are about those
functions.

* **Surge header fields** (`SurgeHeaders`, `SurgeFields`, `SurgeScanner`, `SurgePrinter`,
  `SurgeRoundTrip`, `SurgeExact`, `SurgeStyles`, `SurgeSegments`). Three scanners track quotes independently: the one that
  finds the end of a `headers=` value, the one that cuts the value into pairs, and the one that
  finds a pair's colon. Which printed maps are read back is decided by where commas
  stand: none may lead a value, and if some value starts with a colon, neither it nor a
  value that looks like the next pair may hold one. Headers are read in every style the
  reader takes: names and values bare or in quotes of either kind. The field splitter tiles its input,
  and it panics exactly on the lines where a quote opened inside a bracket group is never
  closed.
* **QX lines** (`QxAlpn`, `Qx`, `QxRead`). The line reader reuses that splitter and glues
  passwords with commas together again. It succeeds exactly under a stated guard on the
  password's comma-separated pieces, and a printed trojan is read all the way back to its
  proxy.
* **Cron** (`Calendar`, `Cron`, `CronText`, `CronNext`, `CronDates`, `Runner`). Parsing gives
  exactly the written progressions, unless a step is so large that the loop wraps around;
  `Next` is the least firing minute, on the dates and weekdays the schedule names; the
  four-year limit matters exactly for the schedules that leave the weekday open and name no
  day a common year has; and the refresh runner neither refreshes without a scheduled
  minute, the first time included, nor misses one.
* **URI codecs** (`Numerals`, `Base64`, `Ssr`, `QueryParam`, `EarlyData`). SSR links
  through both layers of base64, in each of its four encodings (sections 4 and 5 of RFC
  4648), query parameters through percent coding (section 2.1
  of RFC 3986), and early data between the producer's writer and the parser's reader.
* **The custom-DNS race** (`DnsRace`). A state machine over the steps of the workers, the
  two channels and the caller, with every interleaving and the sharp bound on the calls
  that run at once.
* **The resolver cache** (`DnsCache`). Lazy expiry, keys that are computed in two places,
  and exactly which questions share one.
* **The ordered store** (`Table`, `Store`). Tables with positions as plain lists, and the
  rewriting of references inside one transaction.
* **The rate limiter** (`RateLimit`), with the sharp bound for a sliding span.
* **List operators** (`Proxies`, `RegexSort`, `Duplicates`) and **xhttp values** (`Xmux`).

Where the code and its comments disagree, the model follows the code:

* The producer's safe-integer helper accepts every integer of 64 bits
  (`internal/producer/normalize.go:390-406`), so early data above 2^53 - 1 is written and
  then not read back (`QueryParam.EarlyDataRoundTrip`). The same holds for its xhttp
  ranges, which the parser bounds and the producer does not (`Xmux.SidesAgree`).
* The rewriting of references (`internal/server/subs.go:311-373`) writes a collection back
  under the name stored in its record and skips records without one, so it is complete
  exactly when the referring records are stored under their own non-empty names
  (`Store.WriteBackExactly`).
* A cache key marks a resolver list whose certificates are not checked by a prefix that a
  checked list may itself start with, so two different questions can share an answer
  (`DnsCache.KeyExactly`, `DnsCache.MarkerCollides`).
* A window opens at its first request, so the limiter's bound for a sliding span is one
  less than twice the limit (`RateLimit.SlidingBound`, `RateLimit.BoundIsMet`).

## Model

| member | source | states |
|---|---|---|
| SurgeScanner.SplitSurgeFields | internal/parser/surge.go:760-839 | The splitter's nested index loops give exactly the trimmed fields of the recursive specification, and None exactly where a slice bound passes the end of the text |
| SurgeFields.FieldsTile | internal/parser/surge.go:760-839 | The raw fields joined by single commas are the input, up to one trailing comma |
| SurgeFields.FieldStopsAtComma | internal/parser/surge.go:792-824 | A field that ends before the text does ends at a comma |
| SurgeFields.AlpnRuleIsPlain | internal/parser/surge.go:777-789 | The splitter's own rule for alpn values changes nothing: the plain scan walks over a quoted text by itself, closed or not |
| SurgeFields.BracketOverrun | internal/parser/surge.go:804-823 | A bracket group overruns the text if and only if some quote opened inside it, before any closing bracket, has no closing quote |
| SurgeFields.PlainOverrun | internal/parser/surge.go:792-824 | The scan for the comma overruns if and only if it enters such a group |
| SurgeFields.PanicsExactly | internal/parser/surge.go:760-839 | The splitter fails exactly on the lines one of whose fields meets a bracket group with an unclosed quote |
| SurgeFields.HarmlessLineSplits | internal/parser/surge.go:804-823 | A line without quotes or without an opening bracket is always split |
| SurgeFields.PanicExample | internal/parser/surge.go:816-823 | A concrete line on which the splitter passes the end of its input |
| SurgeSegments.FieldsRead | internal/parser/surge.go:760-839 | Options whose values hold commas only inside quotes of either kind or bracket groups (with quotes inside those) are cut back into themselves, trimmed |
| SurgeSegments.FieldReaches | internal/parser/surge.go:792-824 | One such option reaches up to the comma behind it, whatever follows |
| SurgeScanner.ReadSurgeQuotedHeaderKey | internal/parser/surge.go:859-874 | Finds the end of a quoted header key that is followed by a colon, or reports that there is none |
| SurgeScanner.IsSurgeHeaderKeyStart | internal/parser/surge.go:891-914 | True exactly when a header name, bare or quoted, and a colon follow |
| SurgeScanner.IsSurgeOptionStart | internal/parser/surge.go:916-932 | True exactly when an option name and an equals sign follow |
| SurgeScanner.IsSurgeHeaderValueQuoteEnd | internal/parser/surge.go:934-956 | Decides by look-ahead whether a quote closes a header value |
| SurgeScanner.ReadSurgeUnquotedHeadersEnd | internal/parser/surge.go:958-1001 | The index loop ends where the recursive scan of an unquoted headers value ends |
| SurgeScanner.ReadSurgeQuotedHeadersEnd | internal/parser/surge.go:1003-1053 | The same for a value in outer quotes |
| SurgeScanner.ReadSurgeHeadersEnd | internal/parser/surge.go:1055-1064 | Chooses between the two as the first character says |
| SurgeScanner.SplitHeadersValue | internal/parser/surge.go:1068-1107 | The loop cuts the value into the pairs of the recursive scan |
| SurgeScanner.FindSurgeHeaderSeparator | internal/parser/surge.go:1109-1128 | Finds the first colon outside quotes, or -1 |
| SurgeScanner.ParseSurgeHeaders | internal/parser/surge.go:1142-1156 | The map the pairs are entered into, in order, as `SurgeStyles.TextReads` says which |
| SurgeScanner.FormatHeaderMap | internal/producer/surge.go:487-499 | The printing loop, for the order in which the map happened to be visited |
| SurgeRoundTrip.HeaderRoundTrip | internal/producer/surge.go:479-499 | With plain names and trimmed quote-free values none of which starts with a comma, and a first visited value that does not start with a colon, the printed field is cut from any line exactly as written and read back as the same map, for both separators, whether or not the outer quotes were stripped first |
| SurgeRoundTrip.OptionReads | internal/parser/surge.go:303-311 | The value as the option loop hands it over, trimmed and unquoted, reads back as the map for every plain map and every visiting order |
| SurgeRoundTrip.QuotedOverBody | internal/parser/surge.go:1003-1053 | The scan for the end of a quoted value stops right after the outer quote of a printed map |
| SurgeRoundTrip.SplitBody | internal/parser/surge.go:1068-1107 | The pair scanner cuts a printed map into exactly its printed pairs |
| SurgeRoundTrip.EnterParts | internal/parser/surge.go:1142-1156 | Entering the printed pairs adds exactly the visited names with their values |
| SurgeRoundTrip.PrintedFieldLength | internal/parser/surge.go:760-839 | The splitter's first field is the printed field, whatever follows the comma, when the quoted reader takes the value |
| SurgeRoundTrip.LeadingCommaBreaks | internal/parser/surge.go:934-956 | A map whose first value starts with a comma is not read back |
| SurgeExact.OutsideValue | internal/parser/surge.go:958-1001 | From a value it holds to be outside quotes the unquoted scan still reaches the outer quote, provided no such value holds a comma |
| SurgeExact.ColonRoundTrip | internal/parser/surge.go:1055-1064 | A map whose first visited value starts with a colon, so that the field is taken for an unquoted value, is read back when its commas stand inside what the scan takes for quotes |
| SurgeExact.ColonCommaBreaks | internal/parser/surge.go:989-996 | A first value that starts with a colon and holds a comma is cut at the comma |
| SurgeExact.PairCommaBreaks | internal/parser/surge.go:934-956 | So is a second value that looks like the next pair, behind a first one that starts with a colon |
| SurgeExact.ReadsBackExactly | internal/parser/surge.go:303-311 | Cut by the splitter and read through the option loop, a map of plain names and trimmed quote-free values comes back in every visiting order and with every tail the printers append if and only if no value starts with a comma and, once some value starts with a colon, neither it nor a value that looks like the next pair holds a comma |
| SurgeStyles.TextReads | internal/parser/surge.go:1142-1156 | Headers whose names and values are each bare or in quotes of either kind, with blanks around them, are read as the map they spell, without those quotes and with later names winning |
| SurgeStyles.TextSplits | internal/parser/surge.go:1068-1107 | The pair scanner cuts such a text into exactly its pairs |
| SurgeStyles.PairEnters | internal/parser/surge.go:1149-1154 | One pair in any of these styles enters its name with its value, both without their quotes |
| SurgeStyles.StyledLineReads | internal/parser/surge.go:302-311 | As a field of a line, under any spelling of the option name and in front of any option, such a text is cut whole and read as that map, when the option loop leaves its quotes alone |
| SurgeStyles.WrappedLineReads | internal/parser/surge.go:1003-1053 | The same inside outer quotes of the kind the text avoids, with any tail |
| SurgeStyles.NameCharsExactly | internal/parser/surge.go:845-850 | The characters of bare header names are the visible ones that are no delimiters |
| SurgeStyles.OptionStartExactly | internal/parser/surge.go:916-932 | Behind a comma an option starts exactly with letters, digits and dashes and an equals sign |
| SurgePrinter.WrappedPrintsSame | internal/producer/surge.go:479-499 | A map whose values stand in quotes of either kind is printed like the map without them |
| SurgePrinter.BlankNamesSkipped | internal/producer/surge.go:487-499 | A blank name anywhere in the order is not printed |
| GoStrings.SpaceRunesAre | internal/parser/util.go:60-61 | The trimming behind all readers takes exactly the code points with the property White_Space, whole, at both edges |
| Qx.MergePasswordCommaFields | internal/parser/qx.go:432-449 | The merging loops give the specified list: each password field takes the following fields up to the next parameter |
| Qx.TakePassword | internal/parser/qx.go:440-446 | The inner loop joins exactly the run of fields that start no parameter |
| Qx.ReadOptions | internal/parser/qx.go:105-118 | The option loop's keys and values, in order, without the fields that hold no '=', every value but that of the tag trimmed as it is before its own rule |
| Qx.TrimmedReadsBack | internal/parser/qx.go:189-194 | A parameter with a trimmed value is read back as it is |
| QxAlpn.QxEncodeAlpn | internal/producer/qx.go:119-145 | The ALPN loop gives the length-prefixed hexadecimal digits of the trimmed non-blank protocols, or an error exactly when one is longer than 255 bytes |
| QxAlpn.DecodedOfEncoded | internal/producer/qx.go:119-145 | The length prefixes divide the digits into exactly the same protocols again |
| Qx.QxTrojan | internal/producer/qx.go:292-324 | The line printer writes the address, the password and the parameters of the proxy in this order, and refuses exactly the networks other than ws and tcp and, with TLS, an ALPN list that cannot be encoded |
| Qx.AppendTlsAlpn | internal/producer/qx.go:149-164 | A raw value wins; otherwise the encoded list is appended unless it is empty, or the append fails |
| Qx.AppendTlsBlock | internal/producer/qx.go:167-177 | Appends the TLS parameters that are present, in order, or fails exactly when the ALPN list does |
| Qx.FieldsOfTail | internal/parser/surge.go:760-839 | Simple fields behind commas are cut back into themselves |
| Qx.LineOptions | internal/parser/qx.go:90-118 | What a printed line is read as, whatever the password: the parameters in front, the password with the pieces that stay with it, and what the rest gives |
| Qx.PasswordReadExactly | internal/parser/qx.go:418-449 | The value applied for the password is the password if and only if every comma-separated piece is trimmed and none but the first starts a parameter |
| Qx.PasswordSurvivesExactly | internal/parser/qx.go:90-118 | For the comma-taking types, a printed line gives back address, password and every parameter as its own option if and only if the password meets that guard |
| Qx.PlainPasswordCarried | internal/parser/qx.go:425-430 | Trimmed pieces without '=', quotes and '[' meet the guard |
| Qx.TrojanRoundTrip | internal/producer/qx.go:292-324 | The same equivalence for the lines the trojan printer writes |
| QxRead.ParseQxLine | internal/parser/qx.go:80-118 | The line reader up to its option loop: type, address and options, or its errors |
| QxRead.ReadTrojan | internal/parser/qx.go:80-165 | The reader of trojan lines: options applied in order, refused at the first that is not supported, obfs applied last |
| QxRead.TrojanReads | internal/producer/qx.go:292-324 | A printed trojan line is read all the way back to its proxy: server, port, password, name, transport, TLS and common options each in its own place |
| QxRead.AddressReads | internal/parser/qx.go:172-187 | A server that may hold colons and a port up to 65535 are read back from the address |
| QxRead.PasswordIsCut | internal/parser/qx.go:418-424 | For vmess, vless and hysteria2 a password keeps its first comma-separated piece and the plain pieces behind it are dropped |
| Calendar.DateOfDay | internal/scheduler/cron.go:119-145 | The civil date of a day number is a date of the Gregorian calendar and has that number |
| Calendar.DayOfDate | internal/scheduler/cron.go:119-145 | The day number of a date has that civil date |
| Calendar.WeekdayOfDate | internal/scheduler/cron.go:119-145 | The weekday of every date is the one Zeller's congruence gives |
| Calendar.WeekdaysPass | internal/scheduler/cron.go:119-145 | The next day has the next weekday, and 1 January 1970 was a Thursday |
| Cron.ParseTerm | internal/scheduler/cron.go:57-105 | Reads one comma part as a start, an end and a step, or refuses it |
| Cron.ParseField | internal/scheduler/cron.go:57-105 | An error exactly when some part is malformed; otherwise the values of the field are exactly those on the written progressions |
| Cron.AddProgression | internal/scheduler/cron.go:98-100 | The filling loop, on unbounded integers, adds exactly the members of one progression |
| Cron.WrapExactly | internal/scheduler/cron.go:98-100 | On 64-bit integers the loop adds exactly the written progression if and only if start plus step does not exceed 2^63 - 1 |
| Cron.WrapExample | internal/scheduler/cron.go:98-100 | A term that does wrap around and adds a minute nobody wrote |
| Cron.Parse | internal/scheduler/cron.go:33-50 | The five fields' sets are the written ones; anything but five well-formed fields is an error |
| Cron.MeaningIsParsed | internal/scheduler/cron.go:33-50 | A well-formed expression gives nonempty sets inside the bounds of their fields |
| CronText.TermReads | internal/scheduler/cron.go:57-96 | A written value, star or range, with or without a step, is read as the term it stands for, and refused exactly when the step is zero or the span is out of order or out of bounds |
| CronText.FieldReads | internal/scheduler/cron.go:57-105 | The values of a written field are those of its comma-separated terms |
| CronText.ExpressionReads | internal/scheduler/cron.go:33-50 | A written expression means exactly its minutes 0-59, hours 0-23, days 1-31, months 1-12 and weekdays 0-6, and is refused exactly when some term is improper |
| CronNext.Next | internal/scheduler/cron.go:107-117 | The search loop returns what the specified search finds |
| CronNext.NextIsLeast | internal/scheduler/cron.go:107-145 | Next is a firing minute boundary strictly after its argument and below the limit with none between; it is zero only when there is none below the limit |
| CronNext.NextWithinAYear | internal/scheduler/cron.go:107-145 | A schedule that restricts the weekday, or allows a day every common year has, fires at most 366 days after any time |
| CronNext.CutOff | internal/scheduler/cron.go:107-117 | For every other schedule a starting time from which nothing is found |
| CronNext.HorizonExactly | internal/scheduler/cron.go:107-145 | The four-year limit never cuts a parsed schedule off if and only if the schedule fires every year |
| CronDates.MatchesExactly | internal/scheduler/cron.go:119-145 | Within a minute of the clock a schedule fires exactly when it asks for that minute: the date's month, day and weekday, the latter from Zeller's congruence, the hour and the minute |
| CronDates.NextAsks | internal/scheduler/cron.go:107-117 | Next is the first minute of the clock after its argument, below the limit, that the schedule asks for |
| CronDates.OnlyOnWeekdays | internal/scheduler/cron.go:124-135 | A schedule that only restricts the weekday is served on those days of the week only |
| CronDates.LimitIsFourYears | internal/scheduler/cron.go:107-117 | The limit is the same clock time four calendar years later, 29 February running over as the calendar says |
| Runner.RefreshRunner.Tick | internal/scheduler/runner.go:55-80 | One tick changes the last times and the records exactly as specified, subscription by subscription |
| Runner.RefreshRunner.IsDue | internal/scheduler/runner.go:83-91 | Due exactly when the next scheduled time after the last one, or after a minute ago, is not in the future |
| Runner.RefreshRunner.Refresh | internal/scheduler/runner.go:94-111 | A failed fetch records the time, a failed save records nothing, a success writes the record and the time |
| Runner.TickOnName | internal/scheduler/runner.go:55-111 | With successful saves a tick moves the last time of exactly the fetched subscriptions |
| Runner.RefreshesNeedAFiring | internal/scheduler/runner.go:55-111 | Between two consecutive refreshes of a subscription lies a scheduled minute, after the first and not after the second |
| Runner.FirstRefreshNeedsAFiring | internal/scheduler/runner.go:83-91 | The first refresh of a subscription in a run serves a scheduled minute of the minute before it |
| Runner.DueExactly | internal/scheduler/runner.go:83-91 | Due if and only if the schedule fires after the last time, or after a minute ago when there is none, and not after now, and before the search gives up |
| Runner.NothingMissed | internal/scheduler/runner.go:55-111 | With ticks at most a minute apart, every scheduled minute from the first tick on is served at the first tick at or after it |
| Runner.TickOnRecord | internal/scheduler/runner.go:55-111 | What one tick makes of a record and its last time, whatever fetch and save say and wherever it stands in the list |
| Runner.RecordAfterTick | internal/scheduler/runner.go:94-111 | A refresh stores the content and the time in milliseconds and nothing else, exactly when fetch and save succeed |
| Runner.FailedSaveIsRetried | internal/scheduler/runner.go:94-111 | After a failed save the subscription is due again at the next tick |
| Runner.FailedFetchWaits | internal/scheduler/runner.go:94-111 | After a failed fetch it waits for a firing after this tick |
| Runner.OthersAreNeverTouched | internal/scheduler/runner.go:55-80 | Over any run a record that is not remote, or has no URL or no well-formed schedule, stays as it was |
| Runner.EpochIs1970 | internal/scheduler/runner.go:94-111 | The stored milliseconds count from the start of 1970 |
| Runner.MillisecondsPass | internal/scheduler/runner.go:94-111 | They grow by one with each millisecond |
| DnsRace.StepKeeps | internal/processor/resolver.go:244-298 | Every step of a worker, a channel or the caller keeps the counting invariant: each index is dispatched once, held by one worker, buffered or received |
| DnsRace.RoomToSend | internal/processor/resolver.go:259-271 | A worker that wants to send finds room in the buffer |
| DnsRace.BufferFits | internal/processor/resolver.go:259-260 | The buffer never holds more than its capacity |
| DnsRace.StepUsesOne | internal/processor/resolver.go:244-298 | Each step uses up one of a fixed number of steps |
| DnsRace.RunKeeps | internal/processor/resolver.go:244-298 | Every interleaving keeps the invariant and is finite |
| DnsRace.StuckIsOver | internal/processor/resolver.go:244-298 | A run that cannot go on has returned a good outcome, every worker has ended, the output channel is closed and each URL was resolved exactly once |
| DnsRace.Race | internal/processor/resolver.go:244-298 | Over all interleavings a success names a URL that resolved, with its answer; an error comes only when all failed, with one entry for each URL; and the number of steps is bounded |
| DnsRace.ConcurrencyBound | internal/processor/resolver.go:244-298 | No reachable state has more calls running than the configured concurrency, at least one and at most the number of URLs |
| DnsRace.ConcurrencyReached | internal/processor/resolver.go:244-298 | And some run has exactly that many running at once |
| DnsCache.TtlCache.Get | internal/processor/resolver.go:44-56 | Answers from an unexpired entry and drops the entry it finds expired |
| DnsCache.TtlCache.Set | internal/processor/resolver.go:58-65 | Stores the value for its time to live, or one hour when that is not positive |
| DnsCache.TtlCache.CachedOrResolve | internal/processor/resolver.go:489-503 | A hit is the cached plain answer; otherwise the resolver's answer is returned and stored, and an error stores nothing |
| DnsCache.AnswerIsFresh | internal/processor/resolver.go:44-65 | Over any run of look-ups and stores the answer is the last value stored under the key if that is no older than its time to live, and nothing otherwise: lazy deletion is invisible |
| DnsCache.DefaultIsOneHour | internal/processor/resolver.go:58-65 | A value stored without a positive time to live is found for exactly one hour |
| DnsCache.ParseCustomDnsUrls | internal/processor/resolver.go:183-195 | The trimmed non-blank lines, or an error when there are none |
| DnsCache.UrlsRead | internal/processor/resolver.go:183-195 | Trimmed lines are read as just these URLs in order |
| DnsCache.NormalizeTwice | internal/processor/resolver.go:183-203 | Normalising a URL list twice is normalising it once, and the normal form names the same resolvers |
| DnsCache.KeysAgree | internal/processor/script.go:180-200 | For every provider and valid configuration the operator's key is the key the provider stores under |
| DnsCache.KeyOfAnyDomain | internal/processor/script.go:180-200 | Any two keys are equal if and only if provider, record type (where the key holds one) and domains agree and, for custom resolvers, the marked lists do too, or a colon is shared out differently between list and domain |
| DnsCache.KeyExactly | internal/processor/resolver.go:445-455 | For domains without a colon, two keys are equal if and only if the domains are and the questions are the same, or a checked list is the other, unchecked one behind the marker |
| DnsCache.MarkerCollides | internal/processor/resolver.go:451-455 | Every unchecked list shares all its keys with a checked one |
| DnsCache.CollectTasks | internal/processor/script.go:236-259 | For the first server of each key that is not passed over: the answer the cache holds at its turn, when it may be used and is of the provider's kind, becomes the result, and otherwise a task for that server is made, never both; there are no other results and tasks, and no key has two tasks |
| DnsCache.StoredIsUsed | internal/processor/script.go:202-224 | What was stored is used as long as it is live and of the kind the provider stores |
| DnsCache.RefusedExactly | internal/processor/script.go:94-145 | A configuration is refused exactly for IPv6 through IP-API and for a custom list of blank lines, and the provider refuses the same requests |
| Base64.DecodeOfEncode | internal/parser/util.go:60-73 | The lenient decoder reads back what any of the four encodings writes, standard or URL-safe, padded or not |
| Base64.QuantaOfEncode | internal/parser/util.go:60-73 | Each decoder by itself undoes its own encoding |
| Base64.DecodesExactly | internal/parser/util.go:60-73 | Trying the four decoders in turn reads a text exactly when one of them does, and then as that one does: the order does not matter |
| Base64.QuantaAgree | internal/parser/util.go:60-73 | Decoders that accept the same text give the same bytes |
| Base64.LineEndsIgnored | internal/parser/util.go:60-73 | A line end anywhere in the text changes nothing |
| Base64.EncodedLength | internal/parser/util.go:36-38 | The length of an encoding, padded and unpadded |
| Base64.TestVectors | internal/parser/util.go:36-38 | The encodings of section 10 of RFC 4648 |
| Ssr.Parse | internal/parser/uri_ssr.go:15-92 | The reader's loops and re-slicing give the fields of the specified link reader, or its error |
| Ssr.SsrUri | internal/producer/uri.go:426-439 | The builder writes the link in the style of the producer |
| Ssr.LinkReads | internal/parser/uri_ssr.go:15-92 | A link gives back every field through both layers of base64, whichever of the four encodings each layer and field uses and by whichever name the protocol parameter goes; a name falls back to the server and parameters lose their white space |
| Ssr.LinkReadsExactly | internal/parser/uri_ssr.go:15-92 | It does so if and only if protocol, cipher and obfs hold no ':' and neither they nor the server hold "/?" |
| Ssr.SsrRoundTrip | internal/producer/uri.go:426-439 | The same equivalence for printing and reading back |
| Ssr.QueryReads | internal/parser/uri_ssr.go:49-64 | Of any query a key gives its last value that is neither blank nor "(null)" |
| Ssr.PartsRead | internal/parser/uri_ssr.go:65-92 | The first of the two names of the protocol parameter counts, and a name that cannot be decoded falls back to the server |
| Ssr.StripKeepsExactly | internal/parser/uri_ssr.go:96-102 | Stripping keeps a text if and only if it holds no white space |
| QueryParam.EncodeUriComponent | internal/producer/normalize.go:16-29 | The encoding loop gives the percent encoding of the text |
| QueryParam.UnescapeOfEncode | internal/producer/normalize.go:16-29 | Percent decoding undoes percent encoding |
| QueryParam.EncodedIsSafe | internal/producer/normalize.go:16-29 | An encoded text holds no delimiter of the query |
| QueryParam.EncodedByte | internal/producer/normalize.go:16-29 | Letters, digits and -_.!~*'() stand for themselves, every other byte becomes a percent sign and two upper-case digits |
| QueryParam.PlusReads | internal/parser/uri_ss.go:508-523 | The parser reads a plus sign as a space and the producer as itself |
| QueryParam.MalformedReads | internal/parser/uri_ss.go:508-523 | A malformed escape is kept by the parser and dropped by the producer |
| QueryParam.FirstCounts | internal/producer/normalize.go:410-441 | Of several values the first that is not empty counts |
| QueryParam.ExtractPathQueryParam | internal/producer/normalize.go:410-441 | The loop over the parts gives the cleaned path and the first nonempty value |
| QueryParam.GetPathQueryParam | internal/parser/uri_ss.go:508-523 | Reads the first nonempty value without changing the path |
| QueryParam.ExtractFromClean | internal/producer/normalize.go:410-441 | Extracting from a cleaned path changes nothing and finds nothing, for the parser's and the producer's decoding |
| QueryParam.ExtractAfterSet | internal/producer/normalize.go:445-454 | Extract after set returns the cleaned path and the value |
| QueryParam.SetTwice | internal/producer/normalize.go:445-454 | Setting twice equals the last set |
| QueryParam.SetLeavesOthers | internal/producer/normalize.go:410-454 | Setting one parameter leaves the value of every other one alone |
| QueryParam.CleanParts | internal/producer/normalize.go:410-441 | The parts of a cleaned path are the kept parts in their order |
| QueryParam.ExtractEarlyDataFromPath | internal/parser/uri_ss.go:536-543 | Takes the size out of the path when it is a safe integer and leaves the path alone otherwise |
| QueryParam.EarlyDataRoundTrip | internal/producer/normalize.go:473-489 | Under the default header name the parser gets back the cleaned path and the size for every size up to 2^53 - 1, and leaves larger ones in the path |
| QueryParam.EarlyDataUndone | internal/parser/uri_ss.go:536-543 | Reading undoes setting if and only if the path was nonempty and clean |
| QueryParam.SizeNotWritten | internal/producer/normalize.go:473-489 | Without a size nothing is written; a size that is no safe integer, or goes under another header name, is taken out of the path |
| EarlyData.TransportOptions.NormalizeWebSocketEarlyDataPath | internal/producer/normalize.go:512-544 | The in-place edits of the option map give the normalised options |
| EarlyData.NormalizedTwice | internal/producer/normalize.go:512-544 | Normalising twice is normalising once |
| EarlyData.HeaderRewriteExactly | internal/producer/normalize.go:473-489 | For options that come from a link, printing the path and normalising again gives the same options if and only if the size is a safe integer and something is left of the path without it |
| EarlyData.UpgradeRewriteExactly | internal/producer/normalize.go:503-509 | The same for HTTP upgrades, where any other size turns into 2560 |
| EarlyData.UpgradeSize | internal/producer/normalize.go:491-509 | An upgrade is written with its own size when that is safe, or else with the one in its path, or else with 2560 |
| EarlyData.SizeTakenOut | internal/producer/normalize.go:529-544 | A size written into the path goes into the options under the standard header name, and what they already say about either is kept |
| EarlyData.UpgradeTakenOut | internal/producer/normalize.go:512-528 | In an upgrade it becomes the upgrade's own size, unless there is one, and nothing about a header is left |
| Table.InsertRefines | internal/store/helpers.go:152-171 | An upsert of a new name pushes it to the front or the back of the listed order |
| Table.UpdateRefines | internal/store/helpers.go:152-171 | An upsert of an existing name changes its data and never moves it |
| Table.RenameRefines | internal/store/helpers.go:175-188 | A rename changes name and data where the row stands; it fails exactly when both names exist and differ |
| Table.DeleteRefines | internal/store/helpers.go:191-194 | A delete removes the item and keeps the order of the others |
| Table.ListedSorted | internal/store/store.go:165-182 | The listing is strictly sorted by position |
| Table.RunRefines | internal/store/helpers.go:88-114 | Over any run of upserts, renames and deletes positions, keys and names stay pairwise distinct and the listing is the plain list |
| Store.Tx.RenameSub | internal/store/helpers.go:175-188 | Inside a transaction: the renamed table, a name conflict or a failure |
| Store.Tx.DeleteSub | internal/store/helpers.go:191-194 | Inside a transaction: the table without the row, or a failure |
| Store.Tx.UpsertCollection | internal/store/helpers.go:152-171 | Inside a transaction: the upserted table, or a failure |
| Store.Tx.UpdateCollectionsReferencing | internal/server/subs.go:311-340 | The loop over the listed collections writes back exactly the changed records that have a name |
| Store.Tx.RemoveSubscription | internal/server/subs.go:343-373 | The same for the dropped name |
| Store.ReplaceRefs | internal/server/subs.go:321-327 | The in-place loop replaces every occurrence of the old name and reports whether there was one |
| Store.FilterRefs | internal/server/subs.go:355-364 | The filtering loop drops every occurrence and keeps the order of the rest |
| Store.WriteBackExactly | internal/server/subs.go:311-373 | Writing the changed records back edits every collection where it stands, and adds and moves none, if and only if each record that mentions the name is stored under its own non-empty name |
| Store.EditAllListed | internal/server/subs.go:311-373 | Such an edit keeps names and order and maps each record's list pointwise, or filters it |
| Store.ApplyChanges | internal/server/subs.go:319-364 | An edit changes exactly the records that mention the name |
| Store.RenameKeepsResolved | internal/server/subs.go:172-192 | References that all resolved before a rename still resolve |
| Store.DeleteKeepsResolved | internal/server/subs.go:216-229 | References that all resolved before a delete still resolve |
| Store.Database.RenameSubscription | internal/server/subs.go:172-192 | A committed rename changes both tables together, keeping positions; an error at any statement, the commit included, leaves the store as it was; a conflict means both names existed |
| Store.Database.DeleteSubscription | internal/server/subs.go:216-229 | The same for a delete |
| Store.Database.Commit | internal/store/store.go:149-159 | Either both tables of the transaction become the store's, or nothing changes |
| RateLimit.RateLimiter.Allow | internal/server/ratelimit.go:45-60 | Opens a window when there is none or it is over, counts the request, and answers by the count; the rest of the window in whole seconds is exact |
| RateLimit.RateLimiter.Reset | internal/server/ratelimit.go:64-68 | Forgets the key |
| RateLimit.RateLimiter.Sweep | internal/server/ratelimit.go:70-83 | Deletes exactly the expired counters, in any order of visiting |
| RateLimit.SlidingBound | internal/server/ratelimit.go:45-60 | With time that never runs backwards, any closed span of one window length sees at most 2 * limit - 1 allowed requests of a key, plus one limit for each reset inside it |
| RateLimit.BudgetStep | internal/server/ratelimit.go:45-83 | Each allowed request in the span is paid for by the remaining budget; resets cost at most one limit and sweeps nothing |
| RateLimit.BoundIsMet | internal/server/ratelimit.go:45-60 | A run that meets the bound |
| RateLimit.FirstServed | internal/server/ratelimit.go:45-60 | While a window is open exactly the first requests up to the limit are allowed |
| RateLimit.FreshWindow | internal/server/ratelimit.go:45-60 | The same from a key without a live counter |
| RateLimit.SweepsInvisible | internal/server/ratelimit.go:70-83 | Sweeping at any times changes no answer |
| RegexSort.FirstMatch | internal/processor/processor.go:544-551 | The position of the first expression that matches, 0 when none does |
| RegexSort.RegexLessIsOrder | internal/processor/processor.go:517-539 | The comparator is a strict weak order |
| RegexSort.StableExactly | internal/processor/processor.go:517-541 | Under a strict weak order a stable sort has exactly one possible result |
| RegexSort.SortIsBuckets | internal/processor/processor.go:498-542 | That result is bucket 1, bucket 2, and so on, then the unmatched |
| RegexSort.RegexSortExactly | internal/processor/processor.go:498-542 | A list is a possible result of the sort if and only if it is the buckets in order, each as it stood, then the unmatched as they stood or stably sorted by name |
| RegexSort.OriginalKeeps | internal/processor/processor.go:530-535 | Under 'original' the unmatched keep their order |
| RegexSort.ResultIsOrdered | internal/processor/processor.go:517-541 | In any result the matched stand by position in front of the unmatched, whose names ascend or descend as asked |
| Proxies.BelowExactly | internal/processor/processor.go:530-535 | Names are compared lexicographically: at the first difference the smaller byte wins, and a proper prefix comes first |
| Duplicates.NumberDuplicates | internal/processor/processor.go:619-668 | The counting and renaming loops give each member of a larger group its name with the label of its rank and leave all others as they are |
| Duplicates.CountKeys | internal/processor/processor.go:619-629 | The first loop counts each key and finds the common width |
| Duplicates.BuildLabel | internal/processor/processor.go:640-661 | The digit and padding loops build the label of a rank |
| Duplicates.WrittenIsNumeral | internal/processor/processor.go:642-652 | The label's digits are the base-ten numeral of the rank in the template's words |
| Duplicates.LabelWidth | internal/processor/processor.go:653-661 | With one-character words all labels of a list have the common width |
| Duplicates.LabelWithoutWords | internal/processor/processor.go:640-661 | A template without words writes "undefined" for every digit and every place of padding |
| Duplicates.RanksGrow | internal/processor/processor.go:630-640 | The members of a group are ranked from 1 up to its size, in order |
| Duplicates.RankTaken | internal/processor/processor.go:630-640 | Every rank up to the size of the group is taken |
| Duplicates.WidthIsReached | internal/processor/processor.go:621-629 | The common width is the number of digits of some rank |
| Duplicates.LabelsDiffer | internal/processor/processor.go:640-661 | With ten distinct words of one length the labels of a group differ |
| Duplicates.NamesDiffer | internal/processor/processor.go:662-666 | So do the names of proxies that shared name and key |
| Duplicates.NamedReads | internal/processor/processor.go:662-666 | At the back the new name is the old one, the link and the label; at the front the label, the link and the old one; at no other position is anything renamed |
| Duplicates.KeyReads | internal/processor/processor.go:619-629 | The key is the fields' texts with underscores between them and a dash for a missing one |
| Duplicates.OthersStay | internal/processor/processor.go:630-668 | A proxy alone in its group, and every field but the name, stays |
| Duplicates.DropDuplicates | internal/processor/processor.go:606-617 | The delete action keeps exactly the proxies whose key no earlier one has |
| Duplicates.DropKeepsKeys | internal/processor/processor.go:606-617 | It leaves each key exactly once |
| Duplicates.DropKeepsDistinct | internal/processor/processor.go:606-617 | It changes nothing when all keys differ |
| Duplicates.DropTwice | internal/processor/processor.go:606-617 | Dropping twice changes nothing more |
| Xmux.CompactTwice | internal/parser/xhttp_utils.go:301-325 | Compaction is idempotent, and changes a value if and only if it holds a null inside an object or array or an empty object |
| Xmux.CompactObject | internal/parser/xhttp_utils.go:312-321 | The loop over an object's fields, in any order, compacts it |
| Xmux.CanonicalReads | internal/parser/xhttp_utils.go:108-116 | Canonical range text reads back as its own bounds on both sides |
| Xmux.RangeStable | internal/producer/normalize.go:738-849 | Rewriting a range the parser accepts gives text both sides read as that range |
| Xmux.SidesAgree | internal/producer/normalize.go:738-793 | The producer reads what the parser reads; the converse fails exactly above 2^53 - 1 |
| Xmux.IntRangeExactly | internal/parser/xhttp_utils.go:55-106 | An integer is a range for the parser exactly from 0 to 2^53 - 1 |
| Xmux.IntegerReads | internal/parser/xhttp_utils.go:157-195 | A written integer of either sign is read exactly within 2^53 - 1 |
| Xmux.WholeNumbersRead | internal/parser/xhttp_utils.go:157-195 | A whole number in floating point is read as that integer, within 2^53 - 1 by the parser and within 64 bits by the producer |
| Xmux.FractionsRefused | internal/producer/normalize.go:738-793 | A fraction is read as nothing on either side |
| Xmux.MapXmuxToReuseSettings | internal/parser/xhttp_utils.go:342-374 | The loop keeps exactly the supported fields, rewritten, under their other names |
| Xmux.ReuseNames | internal/parser/xhttp_utils.go:342-374 | Each reuse setting is named after its field: the capitals of the camel case become dashes and small letters |
| Xmux.SupportedFields | internal/parser/xhttp_utils.go:342-374 | Only the six fields are ever supported |
| Xmux.ReuseUnique | internal/parser/xhttp_utils.go:342-374 | The reuse settings are determined by the object |
| Xmux.CollectUnsupportedXmux | internal/parser/xhttp_utils.go:426-441 | The remainder is exactly the unsupported fields, compacted |
| Xmux.SplitExactly | internal/parser/xhttp_utils.go:342-441 | Every field lands in exactly one of reuse settings and remainder, or compacts to nothing, and neither holds anything else |
| Xmux.MapReuseSettingsToXmux | internal/producer/uri.go:878-906 | The way back field by field |
| Xmux.BackRestores | internal/producer/uri.go:878-906 | Mapping there and back restores every supported field and no other |
| Xmux.BoundsKept | internal/producer/uri.go:878-906 | A restored field has the bounds, or the integer, it had |
| Xmux.MergeExtends | internal/producer/uri.go:1036-1066 | A merge never changes what the base says |
| Xmux.MergeAddsLeaf | internal/producer/uri.go:1036-1066 | A leaf of the remainder comes through wherever the base leaves room, at any depth |
| Xmux.MergeKeepsLeaf | internal/producer/uri.go:1036-1066 | A leaf of the base stays whatever the remainder holds there |
| Xmux.SplitAndReturn | internal/producer/uri.go:1036-1066 | Splitting, mapping back and merging the remainder in gives the whole object: supported fields restored, all others compacted |
| Xmux.RoundTrip | internal/producer/uri.go:878-906 | The same for the chain of the four functions on any value |
| Xmux.JoinedTwice | internal/producer/uri.go:878-906 | A second trip changes nothing more |

## Left out

- HTTP handlers, authentication, the downloader, the DNS transports, the web front end and all logging are not part of this model.
- SQLite, JSON, YAML and Go's regular expressions: a table is a sequence of rows with a unique name, a transaction is a private copy that is committed or dropped, a JSON column holds the record itself, and an expression is known by the names it matches. A field failing to encode is one of the failing statements of `Store.Tx`.
- The handlers' checks before the transaction of `Store.Database.RenameSubscription` (the slash, the existing subscription, the free name) are not part of this model; the transaction is proved without relying on them.
- The large per-platform producers and most of `normalizeProxy` copy fields one by one and would add only easy members.
- The other QX printers write the same shape of line as `Qx.QxTrojan`; `Qx.PasswordSurvivesExactly` covers every such line. Options are applied to a proxy, and lines read all the way, for the trojan type only.
- QxRead.TrojanReads: values are trimmed and flags are true or false, as the reader needs them; a network of tcp is not written and comes back unset, and TLS options are written with TLS only.
- Qx.PasswordSurvivesExactly: passwords whose first piece holds a quote or '[', or whose later pieces look like a header option, are not covered; lines without a parameter after the password are not printed.
- SurgeStyles.StyledLineReads: bare values hold no quotes and no separator, and quoted ones no quotes; commas stand in quoted values or behind outer quotes.
- SurgeSegments.FieldsRead: options other than the two header options; their own reading is `SurgeStyles.StyledLineReads`.
- SurgeExact.ReadsBackExactly: header values that are not strings, that hold quotes or that are padded are not part of this model.
- Cron.AddProgression: adds on unbounded integers; `Cron.WrapExactly` says when the 64-bit loop does the same, and the theorems about schedules hold for such steps.
- CronNext.NextIsLeast: fixed-offset time zones only; daylight-saving shifts are not part of this model.
- Runner.NothingMissed: saves succeed and the cron expressions do not change during a run; records are those of one runner, without concurrent edits. A fetch may depend on the whole record, not only on its URL and user agent.
- DnsRace.Race: channel operations and resolver calls are atomic steps; Go's memory model is not part of this model. An outcome names its URL by index instead of joining a message.
- DnsCache.KeysAgree: keys are compared before hashing, so collisions of md5 are not part of this model. The custom provider's own use of the cache repeats `CachedOrResolve` with another kind of value. Running the tasks (the race's dispatch without its output channel) and writing addresses back to proxies is not part of this model.
- Table.RunRefines: positions are unbounded integers.
- RateLimit.RateLimiter.Allow: seconds are whole numbers of nanoseconds divided down; the rounding of floating-point seconds is not part of this model.
- RegexSort.RegexSortExactly: says which results a stable sort may give, not how the library sorts in place. Random order is not part of this model.
- Duplicates.NumberDuplicates: field values are texts, and a list holds no proxy twice by reference.
- Xmux.SplitAndReturn: floating-point numbers are reals, so a negative zero is read as zero; json.Number values, deep copies and the sibling fields of the xhttp settings are not part of this model.
- Share-token counting, random choices, address families and IP4P rewriting are not part of this model.
