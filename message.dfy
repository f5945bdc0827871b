/**
 * The line decoder of the sensor-node collector: one trimmed multicast status
 * line becomes a `NetworkMsg` made of the emitting host, the bracketed uptime
 * stamp and a `MessageContent` (a message kind and a string-to-string field map).
 *
 * Each field extractor of the original receives the caller's map by mutable
 * reference and calls `insert` on it; here it takes the map as it is before and
 * returns it as it is after, `insert` being map update (a later insert of the
 * same key overwrites). The one loop of the decoder, the token scan of the
 * "waiting for NTP" loop message, is the method `ScanWaitNtp`, proved equal to
 * the left fold `FoldWaitNtp` that the functions use.
 */
module Message {
  import opened Wrappers
  import opened RustStr

  datatype MessageType = UnknownMessage | NodeUp | Ntp | Loop | NtpSync | Session | AirCasting

  type FieldMap = map<string, string>

  datatype MessageContent = MessageContent(mtype: MessageType, mvals: FieldMap)

  /**
   * The uptime stamp. `Missing` is the original's `-1.0`; `Bracketed(body)` is
   * the number whose text stood between the brackets (its conversion to `f32`
   * is not modelled, the text is kept).
   */
  datatype Time = Missing | Bracketed(body: string)

  datatype NetworkMsg = NetworkMsg(host: string, time: Time, msg: MessageContent)

  /**
   * The two ways the original decoder aborts: slicing the bracket body when the
   * first `]` stands before the first `[`, and unwrapping the `f32` parse of a
   * body that is not a float literal.
   */
  datatype Panic = SliceOutOfOrder(start: nat, stop: nat) | FloatUnwrap(body: string)

  /** The fields each kind's extractor may set: the keys its `insert` calls name. */
  function Fields(kind: MessageType): set<string> {
    match kind
    case UnknownMessage => {}
    case NodeUp => {"version", "builddate", "ip_addr"}
    case Ntp => {"datetime", "pm2.5", "UUID", "sent"}
    case Loop => {"action", "slowdownfactor", "deepsleepduration", "sleepwakecycles", "ntperrors"}
    case NtpSync => {"ntpdate"}
    case Session => {"UUID"}
    case AirCasting => {"command", "http_code"}
  }

  /** `r` is `h` with only keys of `keys` added or replaced. */
  ghost predicate OnlyTouches(h: FieldMap, r: FieldMap, keys: set<string>) {
    && r.Keys <= h.Keys + keys
    && forall k :: k in h && k !in keys ==> k in r && r[k] == h[k]
  }

  /** Two steps that each touch only `keys` together touch only `keys`. */
  lemma TouchTrans(h: FieldMap, m: FieldMap, r: FieldMap, keys: set<string>)
    requires OnlyTouches(h, m, keys) && OnlyTouches(m, r, keys)
    ensures OnlyTouches(h, r, keys)
  {
  }

  /**
   * Decodes one line. `isF32` says which texts Rust's `str::parse::<f32>`
   * accepts; that grammar is the standard library's and is taken as given.
   */
  function ParseFromString(s: string, isF32: string -> bool): (r: Result<NetworkMsg, Panic>)
    ensures r.Success? ==> r.value.host == Before(s, ":")
    ensures r.Success? ==> ':' !in r.value.host
    ensures r.Success? ==> r.value.msg == ParseMsgContent(Payload(s))
    ensures r.Success? ==> r.value.msg.mvals.Keys <= Fields(r.value.msg.mtype)
  {
    var elements := Splitn(s, 2, ":");
    SplitnTwo(s, ":");
    ContainsChar(elements[0], ':');
    // `splitn` always yields a first piece, so the original's fallback value
    // (host "", time 0.0) is never returned.
    var rest := if |elements| == 2 then Some(elements[1]) else None;
    match ParseTime(rest, isF32)
    case Failure(p) => Failure(p)
    case Success(t) => Success(NetworkMsg(elements[0], t, ParseMsgContent(Payload(s))))
  }

  /**
   * The stamp in the text after the host's colon: the first `[` and the first
   * `]` of that whole text delimit it.
   */
  function ParseTime(rest: Option<string>, isF32: string -> bool): (r: Result<Time, Panic>)
    ensures rest.None? ==> r == Success(Missing)
    ensures r.Success? && r.value.Bracketed? ==> isF32(r.value.body) && !Contains(r.value.body, "]")
    ensures r.Failure? ==> rest.Some? && Contains(rest.value, "[") && Contains(rest.value, "]")
  {
    match rest
    case None => Success(Missing)
    case Some(after) =>
      match (Find(after, "["), Find(after, "]"))
      case (Some(start), Some(stop)) =>
        if stop < start + 1 then Failure(SliceOutOfOrder(start, stop))
        else
          var body := after[start + 1..stop];
          SliceHasNone(after, "]", start + 1, stop);
          if isF32(body) then Success(Bracketed(body)) else Failure(FloatUnwrap(body))
      case _ => Success(Missing)
  }

  /**
   * The decoder with a total stamp reader: the same host and content as
   * `ParseFromString`, with the stamp read by `ReadStamp`, so that no line aborts.
   */
  function DecodeLine(s: string, isF32: string -> bool): (r: NetworkMsg)
    ensures r.host == Before(s, ":") && ':' !in r.host
    ensures r.msg == ParseMsgContent(Payload(s))
    ensures r.msg.mvals.Keys <= Fields(r.msg.mtype)
    ensures r.time.Bracketed? ==> isF32(r.time.body) && !Contains(r.time.body, "]")
  {
    var elements := Splitn(s, 2, ":");
    SplitnTwo(s, ":");
    ContainsChar(elements[0], ':');
    var rest := if |elements| == 2 then Some(elements[1]) else None;
    NetworkMsg(elements[0], ReadStamp(rest, isF32), ParseMsgContent(Payload(s)))
  }

  /**
   * The stamp as the original evidently means it: the text between the first
   * `[` and the first `]` after it, when that text is a float; `Missing`
   * (the original's `-1.0`) in every other case.
   */
  function ReadStamp(rest: Option<string>, isF32: string -> bool): (t: Time)
    ensures t.Bracketed? ==> isF32(t.body) && !Contains(t.body, "]")
    ensures t.Bracketed? ==> rest.Some? && Contains(rest.value, "[" + t.body + "]")
    ensures (|| rest.None?
             || !Contains(rest.value, "[")
             || !Contains(rest.value[Find(rest.value, "[").value + 1..], "]")) ==> t == Missing
    ensures rest.Some? && Contains(rest.value, "[") ==>
      var tail := rest.value[Find(rest.value, "[").value + 1..];
      Contains(tail, "]") ==>
        var body := tail[..Find(tail, "]").value];
        t == if isF32(body) then Bracketed(body) else Missing
  {
    match rest
    case None => Missing
    case Some(after) =>
      match Find(after, "[")
      case None => Missing
      case Some(start) =>
        var tail := after[start + 1..];
        match Find(tail, "]")
        case None => Missing
        case Some(len) =>
          var body := tail[..len];
          SliceHasNone(tail, "]", 0, len);
          Bracketed3(after, start, len);
          ContainsIff(after, "[" + body + "]", start);
          if isF32(body) then Bracketed(body) else Missing
  }

  /** An opening bracket at `start` and a closing one `len` places into the text after it enclose that text. */
  lemma Bracketed3(after: string, start: nat, len: nat)
    requires OccursAt(after, "[", start) && OccursAt(after[start + 1..], "]", len)
    ensures after[start..start + len + 2] == "[" + after[start + 1..][..len] + "]"
  {
    var tail := after[start + 1..];
    assert after[start] == '[' by { assert after[start..start + 1][0] == after[start]; }
    assert tail[len] == ']' by { assert tail[len..len + 1][0] == tail[len]; }
    var w := after[start..start + len + 2];
    var v := "[" + tail[..len] + "]";
    assert |w| == |v|;
    forall k | 0 <= k < |w| ensures w[k] == v[k] {
      if 0 < k < len + 1 {
        assert w[k] == tail[k - 1];
      }
    }
  }

  /** The payload: the last piece of splitting the whole line into at most three on spaces. */
  function Payload(s: string): (p: string)
    ensures |p| <= |s| && p == s[|s| - |p|..]
    ensures !Contains(s, " ") ==> p == s
    ensures Contains(s, " ") && !Contains(After(s, " "), " ") ==> p == After(s, " ")
    ensures Contains(s, " ") && Contains(After(s, " "), " ") ==> p == After(After(s, " "), " ")
  {
    var pieces := Splitn(s, 3, " ");
    SplitnJoin(s, 3, " ");
    JoinSuffix(pieces, " ");
    SplitnStep(s, 3, " ");
    if Contains(s, " ") then
      SplitnStep(After(s, " "), 2, " ");
      Last(pieces)
    else Last(pieces)
  }

  /** The last piece is a suffix of the joined text. */
  lemma {:induction false} JoinSuffix(ps: seq<string>, d: string)
    requires |ps| >= 1
    ensures |Last(ps)| <= |Join(ps, d)|
    ensures Last(ps) == Join(ps, d)[|Join(ps, d)| - |Last(ps)|..]
  {
    if |ps| > 1 {
      JoinSuffix(ps[1..], d);
      assert Last(ps[1..]) == Last(ps);
    }
  }

  /** The kind named by a lower-cased identifier. */
  function KindOf(id: string): MessageType
  {
    if id == "up" then NodeUp
    else if id == "ntp" then Ntp
    else if id == "loop" then Loop
    else if id == "ntpsyncevent" then NtpSync
    else if id == "sessionuuid" then Session
    else if id == "ac" then AirCasting
    else UnknownMessage
  }

  /** The identifier that selects each known kind. */
  function Trigger(k: MessageType): string
    requires k != UnknownMessage
  {
    match k
    case NodeUp => "up"
    case Ntp => "ntp"
    case Loop => "loop"
    case NtpSync => "ntpsyncevent"
    case Session => "sessionuuid"
    case AirCasting => "ac"
  }

  /**
   * Classifies a payload by the lower-cased text before its first `:` and
   * extracts the fields of the text after it.
   */
  function ParseMsgContent(p: string): (c: MessageContent)
    ensures c.mtype == KindOf(AsciiLower(Before(p, ":")))
    ensures !Contains(p, ":") || c.mtype == UnknownMessage ==> c.mvals == map[]
    ensures Contains(p, ":") ==> c.mvals == ParseToHashmap(c.mtype, After(p, ":"))
    ensures c.mvals.Keys <= Fields(c.mtype)
  {
    var elements := Splitn(p, 2, ":");
    SplitnTwo(p, ":");
    var kind := KindOf(AsciiLower(elements[0]));
    var mvals := if |elements| == 2 then ParseToHashmap(kind, elements[1]) else map[];
    MessageContent(kind, mvals)
  }

  /** Trims the text after the identifier and runs the extractor of `kind` on an empty map. */
  function ParseToHashmap(kind: MessageType, e: string): (r: FieldMap)
    ensures r.Keys <= Fields(kind)
    ensures kind == UnknownMessage ==> r == map[]
  {
    var c := Trim(e);
    match kind
    case NodeUp => ParseNodeUp(c, map[])
    case Ntp => ParseNtp(c, map[])
    case Loop => ParseLoop(c, map[])
    case NtpSync => ParseNtpSync(c, map[])
    case Session => ParseSession(c, map[])
    case AirCasting => ParseAirCasting(c, map[])
    case UnknownMessage => map[]
  }

  /** `<version>:<builddate>@<ip>`; `ip_addr` is "N/A" when the `@` is missing. */
  function ParseNodeUp(s: string, h: FieldMap): (r: FieldMap)
    ensures OnlyTouches(h, r, Fields(NodeUp))
    ensures "version" in r
    ensures ("builddate" in r && "ip_addr" in r) || (h.Keys * {"builddate", "ip_addr"} == r.Keys * {"builddate", "ip_addr"})
  {
    var elts := Splitn(s, 2, ":");
    var h1 := h["version" := elts[0]];
    if |elts| == 2 then
      var elts2 := Splitn(elts[1], 2, "@");
      var builddate := elts2[0];
      var ipAddr := if |elts2| == 2 then elts2[1] else "N/A";
      h1["builddate" := builddate]["ip_addr" := ipAddr]
    else h1
  }

  /** `<command>: <text> <code>`; the code is kept only for the `push` command. */
  function ParseAirCasting(s: string, h: FieldMap): (r: FieldMap)
    ensures OnlyTouches(h, r, Fields(AirCasting))
    ensures "command" in r && !exists k :: 0 <= k < |r["command"]| && IsAsciiUpper(r["command"][k])
  {
    var split := Splitn(s, 2, ":");
    var cmd := AsciiLower(Trim(split[0]));
    var h1 := h["command" := cmd];
    if cmd == "push" && |split| == 2 then h1["http_code" := PushCode(split[1])]
    else h1
  }

  /** The code of a `push`: the text after the first space of the trimmed rest, or all of it. */
  function PushCode(rest: string): string {
    Last(Splitn(Trim(rest), 2, " "))
  }

  /** `<datetime> PM2.5: <value> UUID:<uuid> sent:<n>`, read only when `PM2.5` occurs. */
  function ParseNtp(s: string, h: FieldMap): (r: FieldMap)
    ensures OnlyTouches(h, r, Fields(Ntp))
    ensures !Contains(s, "PM2.5") ==> r == h
    ensures Contains(s, "PM2.5") ==> "datetime" in r
  {
    if Contains(s, "PM2.5") then NtpParts(Splitn(s, 5, " "), h) else h
  }

  /** The NTP fields read from the (at most five) space pieces of the line. */
  function NtpParts(parts: seq<string>, h: FieldMap): (r: FieldMap)
    requires |parts| >= 1
    ensures OnlyTouches(h, r, Fields(Ntp))
    ensures "datetime" in r
  {
    var h1 := h["datetime" := Trim(parts[0])];
    var h2 := if |parts| >= 3 then h1["pm2.5" := parts[2]] else h1;
    var h3 := if |parts| >= 4 then TextAfterColon(h2, "UUID", parts[3]) else h2;
    var r := if |parts| >= 5 then TextAfterColon(h3, "sent", parts[4]) else h3;
    TouchTrans(h, h1, h2, Fields(Ntp));
    TouchTrans(h, h2, h3, Fields(Ntp));
    TouchTrans(h, h3, r, Fields(Ntp));
    r
  }

  /** Sets `key` to the text after the first `:` of `piece`, if it has one. */
  function TextAfterColon(h: FieldMap, key: string, piece: string): (r: FieldMap)
    ensures Contains(piece, ":") ==> r == h[key := After(piece, ":")]
    ensures !Contains(piece, ":") ==> r == h
  {
    var all := Splitn(piece, 2, ":");
    SplitnTwo(piece, ":");
    if |all| == 2 then h[key := all[1]] else h
  }

  /** The first space token, trimmed, lower-cased and with every `:` removed. */
  function LoopAction(s: string): (a: string)
    ensures ':' !in a
  {
    RemoveChar(AsciiLower(Trim(Splitn(s, 2, " ")[0])), ':')
  }

  /**
   * `deepSleep: ...; ...; slowDownFactor=<f>; deepSleep(<d>)` or
   * `no NTP ... sleepWakeCycles=<n> ntpErrors=<m>`; any other first token sets nothing.
   */
  function ParseLoop(s: string, h: FieldMap): (r: FieldMap)
    ensures OnlyTouches(h, r, Fields(Loop))
    ensures LoopAction(s) != "deepsleep" && LoopAction(s) != "no" ==> r == h
    ensures LoopAction(s) == "deepsleep" ==> "action" in r && r["action"] == "deepsleep"
    ensures LoopAction(s) == "no" ==> "action" in r && r["action"] == "waitntp"
  {
    var action := LoopAction(s);
    if action == "deepsleep" then DeepSleepArm(s, h)
    else if action == "no" then WaitNtpArm(s, h)
    else h
  }

  /** The `deepsleep` arm: the deep-sleep state after the first space, then `action`. */
  function DeepSleepArm(s: string, h: FieldMap): (r: FieldMap)
    ensures OnlyTouches(h, r, Fields(Loop))
    ensures "action" in r && r["action"] == "deepsleep"
  {
    var split := Splitn(s, 2, " ");
    var h1 := if |split| == 2 then ParseDeepSleep(Trim(split[1]), h) else h;
    h1["action" := "deepsleep"]
  }

  /** The `no` arm: the token scan of the text after the first space, then `action`. */
  function WaitNtpArm(s: string, h: FieldMap): (r: FieldMap)
    ensures OnlyTouches(h, r, Fields(Loop))
    ensures "action" in r && r["action"] == "waitntp"
  {
    var split := Splitn(s, 2, " ");
    var h1 := if |split| == 2 then FoldWaitNtp(h, Split(Trim(split[1]), " ")) else h;
    h1["action" := "waitntp"]
  }

  /** The third `;` part gives the slow-down factor, the fourth the sleep duration between `(` and `)`. */
  function ParseDeepSleep(t: string, h: FieldMap): (r: FieldMap)
    ensures OnlyTouches(h, r, {"slowdownfactor", "deepsleepduration"})
    ensures "deepsleepduration" in r && "deepsleepduration" !in h ==> !Contains(r["deepsleepduration"], ")")
    ensures |Splitn(t, 5, ";")| >= 4 ==> "deepsleepduration" in r && !Contains(r["deepsleepduration"], ")")
  {
    var state := Splitn(t, 5, ";");
    var h1 := if |state| >= 3 then h["slowdownfactor" := Last(Splitn(state[2], 2, "="))] else h;
    if |state| >= 4 then
      var left := Last(Splitn(state[3], 2, "("));
      h1["deepsleepduration" := Splitn(left, 2, ")")[0]]
    else h1
  }

  /** The field a token of the "waiting for NTP" message sets, if any. */
  function TokenKey(e: string): (k: Option<string>)
    ensures k.Some? ==> k.value in {"sleepwakecycles", "ntperrors"}
    ensures k == Some("sleepwakecycles") <==> Contains(e, "sleepWakeCycles=")
    ensures k == Some("ntperrors") <==> !Contains(e, "sleepWakeCycles=") && Contains(e, "ntpErrors=")
    ensures k.None? <==> !Contains(e, "sleepWakeCycles=") && !Contains(e, "ntpErrors=")
  {
    if Contains(e, "sleepWakeCycles=") then Some("sleepwakecycles")
    else if Contains(e, "ntpErrors=") then Some("ntperrors")
    else None
  }

  /** The value of a token: everything after its first `=`, or the whole token without one. */
  function TokenValue(e: string): string {
    Last(Splitn(e, 2, "="))
  }

  /** One step of the token scan. */
  function WaitNtpStep(h: FieldMap, e: string): (r: FieldMap)
    ensures TokenKey(e).None? ==> r == h
    ensures TokenKey(e).Some? ==> r == h[TokenKey(e).value := TokenValue(e)]
  {
    if Contains(e, "sleepWakeCycles=") then h["sleepwakecycles" := TokenValue(e)]
    else if Contains(e, "ntpErrors=") then h["ntperrors" := TokenValue(e)]
    else h
  }

  /** The scan of all tokens, left to right, as a fold. */
  function FoldWaitNtp(h: FieldMap, toks: seq<string>): (r: FieldMap)
    ensures OnlyTouches(h, r, {"sleepwakecycles", "ntperrors"})
    decreases |toks|
  {
    if toks == [] then h else FoldWaitNtp(WaitNtpStep(h, toks[0]), toks[1..])
  }

  /** The token loop of the "waiting for NTP" case, updating the map token by token. */
  method ScanWaitNtp(h: FieldMap, toks: seq<string>) returns (r: FieldMap)
    ensures r == FoldWaitNtp(h, toks)
  {
    r := h;
    for i := 0 to |toks|
      invariant FoldWaitNtp(r, toks[i..]) == FoldWaitNtp(h, toks)
    {
      var e := toks[i];
      assert toks[i..][1..] == toks[i + 1..];
      if Contains(e, "sleepWakeCycles=") {
        r := r["sleepwakecycles" := Last(Splitn(e, 2, "="))];
      } else if Contains(e, "ntpErrors=") {
        r := r["ntperrors" := Last(Splitn(e, 2, "="))];
      }
    }
  }

  /** The whole remainder becomes `ntpdate`, unless it holds ` -- ` or ` => `. */
  function ParseNtpSync(s: string, h: FieldMap): (r: FieldMap)
    ensures OnlyTouches(h, r, Fields(NtpSync))
    ensures "ntpdate" in r <==> "ntpdate" in h || (!Contains(s, " -- ") && !Contains(s, " => "))
  {
    if !Contains(s, " -- ") && !Contains(s, " => ") then h["ntpdate" := Trim(s)] else h
  }

  /** The whole remainder becomes the session `UUID`, if it holds a `-`. */
  function ParseSession(s: string, h: FieldMap): (r: FieldMap)
    ensures OnlyTouches(h, r, Fields(Session))
    ensures "UUID" in r <==> "UUID" in h || Contains(s, "-")
  {
    if Contains(s, "-") then h["UUID" := Trim(s)] else h
  }
}
