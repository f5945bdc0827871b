# sensorweb collector: the status-line decoder and the command-line helpers

The collector gathers status lines from ESP8266 sensor nodes. The nodes send them over UDP
multicast. Each line reads `<host>: [<uptime>] <payload>`. The decoder turns one trimmed line
into a `NetworkMsg`, which has three parts:

- the emitting host;
- the bracketed uptime stamp;
- a `MessageContent`, which is a message kind plus a string-to-string field map.

The payload is classified by its identifier (`UP`, `NTP`, `Loop`, `NTPSyncEvent`,
`SessionUUID`, `AC`). Each kind has one field extractor. The extractors search for literal
delimiters and split the text with `splitn`.

The command-line helpers turn three options into configuration values:

- the `-v` count becomes a logging level;
- the `--port` text becomes a UDP port;
- the `--mcast` text becomes a multicast group address.

The project has six modules:

- `Wrappers`: `Option` and `Result`.
- `RustStr`: the Rust `str` operations the decoder uses, over `seq<char>`. They are `find`,
  `contains`, `splitn`, `split`, `trim` (the Unicode `White_Space` set), ASCII lower-casing and
  `replace(":", "")`.
- `Message`: the types, the decoder and the extractors.
  - Each extractor takes the field map as it is before and returns it as it is after, so
    `insert` is map update.
  - The one loop of the decoder is the token scan of the "waiting for NTP" message. It is the
    method `ScanWaitNtp`, proved equal to the fold `FoldWaitNtp`.
- `MessageLemmas`: what each extractor records, how the stamp is read, and the two aborts of
  the stamp reader.
- `MessageCases`: the seven lines of the decoder's unit test, each decoded in full.
- `Args`: `to_verbosity_level`, `to_port` (with Rust's `u16` grammar written out) and
  `to_ip_addr`.

The stamp reader can abort the process at two points. `ParseFromString` models this literally:
it returns `Result<NetworkMsg, Panic>`, with `SliceOutOfOrder` and `FloatUnwrap` as the failure
cases.

`DecodeLine` is the total decoder that is evidently intended. It reads the stamp with
`ReadStamp`: the text between the first `[` and the first `]` after it, and `Missing` (the
original's `-1.0`) when that text is not a float, as it is when a bracket is missing
(`src/message.rs:50-55`). `DecodeLineAgrees` proves that the two
decoders agree on every line that does not abort.

The stamp slice (`src/message.rs:37-58`) takes the first `[` and the first `]` of the whole
text after the colon (`src/message.rs:39-41`), not the first `]` after the `[`.
`ParseFromString` follows the code as written, and the difference is the first finding below.

Whether a text is an `f32` literal is the parameter `isF32`. The IPv4 and IPv6 address grammars
are the parameters `parseV4` and `parseV6`.

## Model

| member | source | states |
|---|---|---|
| RustStr.Splitn | src/message.rs:34 | `splitn(n, d)` yields between 1 and n pieces. No piece but the last contains `d`, and the last does not either when fewer than n pieces come out. So the first piece always exists, and the `empty_rv` fallback can never be returned. |
| RustStr.SplitnJoin | src/message.rs:61 | Joining the pieces of `splitn` with the delimiter gives back the input. |
| RustStr.Split | src/message.rs:259 | `split(d)` yields at least one piece, and no piece holds the delimiter. |
| RustStr.SplitJoin | src/message.rs:259 | Joining the pieces of `split` with the delimiter gives back the input. |
| RustStr.SplitnTwo | src/message.rs:34-38 | The first piece of `splitn(2, d)` is the text before the first `d`. A second piece exists exactly when `d` occurs, and it is the text after the first `d`. |
| RustStr.Find | src/message.rs:39-41 | `find` returns an occurrence, and no occurrence stands to its left. `None` means the pattern occurs nowhere. |
| RustStr.Trim | src/message.rs:113 | The result starts and ends with a non-whitespace character (or is empty). It is the input with a whitespace-only prefix and suffix removed. |
| RustStr.TrimIdempotent | src/message.rs:113 | Trimming twice is trimming once. |
| RustStr.AsciiLower | src/message.rs:86 | Lower-casing keeps the length, maps each character on its own, and leaves no upper-case ASCII letter. |
| RustStr.RemoveCharKeeps | src/message.rs:225 | `replace(":", "")` removes every `:` and keeps every other character, with its count. |
| RustStr.RemoveCharConcat | src/message.rs:225 | `replace(":", "")` keeps the order of the characters: removing from a concatenation is concatenating the removals. |
| RustStr.RemoveCharOne | src/message.rs:225 | A single character is dropped exactly when it is the removed one, and kept otherwise. |
| RustStr.SplitnStep | src/message.rs:61 | With room for two or more pieces, `splitn` cuts at the first delimiter and splits the rest into one piece less. Without a delimiter it yields the whole text. |
| Message.ParseFromString | src/message.rs:27-76 | When it does not abort, the host is the text before the first `:` and holds no `:`. The content is `ParseMsgContent` of the payload (the last piece of `splitn(3, " ")`) on every line, with or without a bracket. The field map only uses the keys its kind may set. |
| MessageLemmas.TimeField | src/message.rs:34-58 | The stamp is `Missing` when the line has no `:` or the text after it lacks `[` or `]`. It aborts with a slice error when the first `]` comes before the first `[`. Otherwise it is the text strictly between them when that text is a float, and the decoder aborts when it is not. |
| MessageLemmas.StampOf | src/message.rs:38-58 | The same case analysis for the stamp reader on the text after the host's colon. |
| Message.ParseTime | src/message.rs:37-59 | No text after a colon gives `Missing`. A stamp it returns is a float with no `]`. It fails only when both brackets occur. |
| MessageLemmas.StampAfterHost | src/message.rs:34-59 | For a host without `:`, the decoder's stamp, or its abort, is exactly the stamp reader's verdict on the text after `host:`. |
| MessageLemmas.EmptyLine | src/message.rs:302-309 | The empty line decodes to host `""`, stamp `Missing`, kind `UnknownMessage` and an empty map. |
| Message.Payload | src/message.rs:61-66 | The payload is a suffix of the line. It is the whole line when the line has no space, the text after the only space when there is one, and the text after the second space otherwise. |
| MessageLemmas.PayloadAfterTwoSpaces | src/message.rs:61-66 | When the first two words hold no space, the payload is everything after the second space, spaces included. |
| MessageLemmas.WireFormat | src/message.rs:27-76 | A line `host: [stamp] payload` decodes to that host and that stamp, with the payload classified as a whole. The host must have no `:` or space, and the stamp must be a float with no bracket or space. |
| Message.ParseMsgContent | src/message.rs:78-109 | The kind is the one named by the lower-cased text before the payload's first `:`. With no `:`, or an unknown kind, the map is empty. With a `:`, the map is the dispatcher `ParseToHashmap` of that kind applied to the text after the first `:`. The keys are always among the fields of the kind. |
| MessageLemmas.ContentOf | src/message.rs:78-109 | A payload `<id>:<rest>` whose identifier has no `:` is classified by the lower-cased `id`, and its map is the dispatcher's result for that kind on `rest`. |
| MessageLemmas.KindTable | src/message.rs:86-94 | Exactly the six identifiers `up`, `ntp`, `loop`, `ntpsyncevent`, `sessionuuid` and `ac` select a known kind. Each kind is selected by exactly one of them. |
| Message.ParseToHashmap | src/message.rs:111-127 | The dispatch records only the fields of the given kind, and nothing for `UnknownMessage`. |
| Message.ParseNodeUp | src/message.rs:129-158 | The extractor changes only `version`, `builddate` and `ip_addr`. It always sets `version`, and it sets the other two together or not at all. |
| MessageLemmas.NodeUpFields | src/message.rs:129-158 | `version` is the text before the first `:`. `builddate` and `ip_addr` are recorded exactly when a `:` exists. `builddate` is the text up to the first `@` and never contains `@`. `ip_addr` is `N/A` without an `@`, and otherwise the three values and their delimiters rebuild the input. |
| Message.ParseAirCasting | src/message.rs:160-181 | The extractor changes only `command` and `http_code`, always records `command`, and `command` has no upper-case ASCII letter. |
| MessageLemmas.AirCastingFields | src/message.rs:160-181 | `command` is the trimmed, lower-cased text before the first `:`. `http_code` is recorded exactly when the command is `push` and a `:` exists. Its value is the text after the first space of the trimmed rest, or all of that rest when it has no space. |
| Message.ParseNtp | src/message.rs:183-219 | The extractor changes only the four NTP fields. It changes nothing without `PM2.5`, and always records `datetime` with it. |
| MessageLemmas.NtpFields | src/message.rs:183-219 | Without `PM2.5` the map is empty. With it, `datetime` is the trimmed first space piece and `pm2.5` is the third piece when one exists. `UUID` and `sent` are recorded exactly when the fourth and fifth pieces hold a `:`, and each is the text after that colon. |
| Message.TextAfterColon | src/message.rs:201-217 | The key is set to the text after the first `:` of the piece when there is one, and the map is unchanged otherwise. |
| Message.LoopAction | src/message.rs:223-226 | The action word never contains `:`. |
| MessageLemmas.LoopActionIs | src/message.rs:223-226 | For every remainder, the action word is the text before its first space, trimmed, lower-cased and with every `:` removed. |
| MessageLemmas.LoopActionOfWord | src/message.rs:223-226 | For a first word without whitespace, the action word is that word lower-cased with every `:` removed, whatever follows the first space. A word alone is its own action word. |
| Message.ParseLoop | src/message.rs:221-283 | The extractor changes only the loop fields. `action` becomes `deepsleep` for the `deepsleep` word and `waitntp` for the `no` word. Any other word changes nothing. |
| MessageLemmas.LoopFields | src/message.rs:221-283 | `action` is recorded exactly for the words `deepsleep` and `no`. Each arm sets only its own fields, and any other word gives an empty map. `deepsleepduration` never contains `)`. |
| MessageLemmas.DeepSleepFields | src/message.rs:228-256 | In the `deepsleep` arm, `slowdownfactor` is recorded exactly when there is a third `;` part, and its value is the text after that part's first `=`, or the whole part when it has no `=`. `deepsleepduration` is recorded exactly when there is a fourth part, and its value is the text between its first `(` and the next `)`. |
| Message.ParseDeepSleep | src/message.rs:229-252 | The deep-sleep reader changes only its two fields. With at least four `;` parts it records a duration, whatever the map held before, and that duration has no `)`. |
| Message.TokenKey | src/message.rs:261-267 | A token names `sleepwakecycles` exactly when it contains the case-sensitive `sleepWakeCycles=`. It names `ntperrors` exactly when it contains `ntpErrors=` but not `sleepWakeCycles=`. It names nothing when it contains neither. |
| MessageLemmas.TokenValueOf | src/message.rs:262-263 | The value of a token is the text after its first `=`, or the whole token when it has no `=`. |
| Message.WaitNtpStep | src/message.rs:260-274 | A token that names a counter sets it to the text after the token's first `=`. Any other token changes nothing. |
| Message.FoldWaitNtp | src/message.rs:259-274 | Scanning the tokens changes only the two counter fields. |
| Message.ScanWaitNtp | src/message.rs:259-274 | The loop over the tokens computes exactly the left fold of the single-token step. |
| MessageLemmas.FoldLastWins | src/message.rs:260-274 | When several tokens name a counter, the last of them gives its value. |
| MessageLemmas.FoldUntouched | src/message.rs:260-274 | A counter that no token names keeps its previous value, or stays absent. |
| MessageLemmas.WaitNtpFields | src/message.rs:257-279 | In the `no` arm, a counter that no token of the trimmed rest names is absent. Otherwise the last token naming it gives its value. |
| Message.ParseNtpSync | src/message.rs:285-292 | The extractor changes only `ntpdate`. The field is present exactly when it was present before or the text has neither ` -- ` nor ` => `. |
| MessageLemmas.NtpSyncFields | src/message.rs:285-292 | `ntpdate` is recorded exactly when the trimmed rest has neither ` -- ` nor ` => `, and its value is that rest verbatim. |
| Message.ParseSession | src/message.rs:294-300 | The extractor changes only `UUID`. The field is present exactly when it was present before or the text holds a `-`. |
| MessageLemmas.SessionFields | src/message.rs:294-300 | The session `UUID` is recorded exactly when the trimmed rest holds a `-`, and its value is that rest verbatim. |
| Message.ReadStamp | src/message.rs:37-59 | With a `[` in the text after the colon and a `]` after it, the corrected stamp is the text between the first `[` and the first `]` after it when that text is a float, and `Missing` when it is not. Without a colon, a `[`, or a `]` after the `[`, it is `Missing`. A stamp it returns has no `]` and occurs bracketed in the text. |
| Message.DecodeLine | src/message.rs:27-76 | The total decoder gives the same host guarantees and the same key guarantees as `ParseFromString`, and its content is `ParseMsgContent` of the payload on every line. A stamp it returns is a float with no `]`. |
| MessageLemmas.StampAgrees | src/message.rs:37-59 | Wherever the original stamp reader succeeds, the corrected one returns the same stamp. Where the original aborts on a non-float body, the corrected one gives `Missing`. |
| MessageLemmas.DecodeLineAgrees | src/message.rs:27-76 | The corrected decoder returns the original's message on every line where the original does not abort. |
| MessageLemmas.CloseBeforeOpenAborts | src/message.rs:41-45 | A line whose first `]` after the colon stands before its first `[` aborts with a backwards slice. The corrected decoder reads the stamp bracketed after the `[`. |
| MessageLemmas.EmptyStampAborts | src/message.rs:45-46 | A line whose stamp is the empty `[]` aborts on the float unwrap. The corrected decoder gives `Missing`. |
| MessageCases.NodeUpLine | src/message.rs:311-318 | The `UP` test line decodes to its host, its stamp, `NodeUp` and exactly the version, build date and address it carries. |
| MessageCases.AirCastingLine | src/message.rs:320-326 | The `AC:push` test line decodes to `AirCasting` with exactly `command = push` and `http_code = 200`. |
| MessageCases.NtpLine | src/message.rs:328-336 | The `NTP` test line decodes to `Ntp` with exactly its date, PM2.5 value, UUID and sent count. |
| MessageCases.DeepSleepLine | src/message.rs:338-345 | The deep-sleep test line decodes to `Loop` with exactly `action = deepsleep`, the slow-down factor and the duration. |
| MessageCases.NtpSyncLine | src/message.rs:347-352 | The `NTPSyncEvent` test line decodes to `NtpSync` with exactly the date after the identifier. |
| MessageCases.SessionLine | src/message.rs:354-359 | The `SessionUUID` test line decodes to `Session` with exactly the UUID. |
| MessageCases.WaitNtpLine | src/message.rs:361-368 | The "waiting for NTP" test line decodes to `Loop` with exactly `action = waitntp`, `sleepwakecycles = 1` and `ntperrors = 2`. |
| Args.Discriminant | src/args.rs:9-15 | The enum's explicit discriminants run from 0 to 3. |
| Args.DiscriminantInjective | src/args.rs:9-15 | Distinct levels have distinct discriminants. |
| Args.ToVerbosityLevel | src/args.rs:65-73 | The discriminant of the level is max(0, 3 − count). |
| Args.VerbosityTable | src/args.rs:65-73 | The counts 0, 1 and 2 give ERROR, WARN and INFO. Every count from 3 on gives DEBUG. |
| Args.MoreFlagsMoreVerbose | src/args.rs:65-73 | More `-v` flags never give a less verbose level. |
| Args.ToDecimal | src/args.rs:59 | The default port's `to_string`: the shortest decimal text of the number, all digits, with no leading zero, whose decimal value is the number. |
| Args.ParseU16Meaning | src/args.rs:59 | A text parses as a `u16` exactly when it is one optional `+` followed by one or more ASCII digits whose decimal value is below 65536. The result is that value. |
| Args.AccumulateIsDecimal | src/args.rs:59 | The digit-by-digit accumulation with an overflow check at each step succeeds exactly when the full decimal value fits, and it then yields that value. |
| Args.ToPort | src/args.rs:57-63 | An absent or unparsable port text gives 8899. A parsable one gives its own value. |
| Args.ToPortRoundTrip | src/args.rs:57-63 | Every port written in decimal is read back as itself. |
| Args.PortRoundTrip | src/args.rs:59 | Decimal rendering and the `u16` parse are inverse, with or without a leading `+`. |
| Args.ToPortFallback | src/args.rs:59-61 | Empty text, a non-digit, and a value above 65535 all fall back to 8899. |
| Args.PortExamples | src/args.rs:135-140 | `xxx` gives 8899, `8899` gives 8899, `1234` gives 1234, and no argument gives 8899. |
| Args.ToIpAddr | src/args.rs:41-55 | No argument gives 239.0.0.1. A valid IPv6 text gives that address, which is tried first. A valid IPv4 text that is not IPv6 gives that address. Anything else gives 239.0.0.1. |
| Args.IpAddrOrigin | src/args.rs:41-55 | An IPv6 result always comes from the IPv6 grammar. An IPv4 result other than the default comes from the IPv4 grammar, and only after the IPv6 grammar rejected the text. |
| Args.DefaultGroupIsMulticast | src/args.rs:42 | The default group 239.0.0.1 is an IPv4 multicast address. |

## Left out

- The multicast receiver, the thread wiring, the message manager, the HTTP server and the websocket server (`src/mcast.rs`, `src/main.rs`, `src/message_manager.rs`, `src/http.rs`, `src/ws.rs`): network and file I/O and threads. The decoder receives an already-trimmed line.
- The `debug!` logging calls: they have no effect on the result.
- The `f32` conversion of the stamp: floating-point parsing. The grammar of accepted texts is the parameter `isF32`, and the stamp keeps its text (`Bracketed(body)`) instead of a float. Two stamps that denote the same float, such as `2.89900` and `2.899`, are therefore different in the model.
- Full Unicode `to_lowercase` (`src/message.rs:86`, `:164`, `:225`) is modelled as ASCII lower-casing. For the identifier this changes nothing, since a non-ASCII identifier matches none of the six ASCII ones either way. A non-ASCII AirCasting command, however, is stored with only its ASCII letters lowered.
- Byte offsets: Rust's `find` returns byte offsets and slices by bytes. The model indexes by characters. The two agree on the ASCII delimiters searched for, and `Panic.SliceOutOfOrder` carries character positions.
- `empty_rv` (`src/message.rs:28-32`), the `""` fallback of `src/message.rs:64-65` and the `0.0.0` and `N/A` fallbacks of `src/message.rs:135` and `:145` are unreachable because `splitn` always yields a first piece. `Splitn`'s contract proves this, and the model omits these branches.
- `ArgsParser::from_cli` and its test `test_args` (`src/args.rs:75-123`, `:152-159`): they call into the `clap` argument parser. The `Into<simplelog::LogLevelFilter>` conversion (`src/args.rs:17-26`) is a foreign library type.
- The IPv4 and IPv6 text grammars are the standard library's. They are the parameters `parseV4` and `parseV6`, so the address tests at `src/args.rs:125-133` are not restated literally; `IpAddrOrigin` and `ToIpAddr` state the fallback order they exercise.

## Findings

| source | as written | input that shows it | evidently intended | confidence | as-written member | corrected member |
|---|---|---|---|---|---|---|
| src/message.rs:41-45 | `]` is searched in the whole text after the colon. When it precedes `[`, the slice `start+1..stop` runs backwards and the process aborts. | `h:]x[1.0]` (first `]` at 0, first `[` at 2) | the first `]` after the `[`, or `-1.0` | not executed | MessageLemmas.CloseBeforeOpenAborts | MessageLemmas.DecodeLineAgrees |
| src/message.rs:46 | A bracket body that is not an `f32` literal is unwrapped, and the process aborts. | `h: [] x` (empty body) | `-1.0`, as for a missing bracket | not executed | MessageLemmas.EmptyStampAborts | Message.DecodeLine |
