/**
 * What the decoder guarantees, stated against `find`, the text before and after
 * a delimiter, and `trim`, rather than against the splitting code itself: which
 * fields each kind records, under which conditions, and which substring each
 * value is.
 */
module MessageLemmas {
  import opened Wrappers
  import opened RustStr
  import opened Message

  /** The empty line decodes to host "", no stamp, an unknown kind and no fields. */
  lemma EmptyLine(isF32: string -> bool)
    ensures ParseFromString("", isF32)
         == Success(NetworkMsg("", Missing, MessageContent(UnknownMessage, map[])))
  {
    assert !OccursAt("", ":", 0);
    assert !OccursAt("", " ", 0);
    assert Splitn("", 2, ":") == [""];
    assert Splitn("", 3, " ") == [""];
    assert ParseMsgContent("").mtype == KindOf("") == UnknownMessage;
  }

  /**
   * The stamp: missing without a colon or without both brackets after it, the
   * text strictly between the first `[` and the first `]` otherwise; a `]`
   * before the `[` or a body that is no float aborts.
   */
  lemma TimeField(s: string, isF32: string -> bool)
    ensures var r := ParseFromString(s, isF32);
      && (!Contains(s, ":") ==> r.Success? && r.value.time == Missing)
      && (Contains(s, ":") ==>
            var after := After(s, ":");
            && (!Contains(after, "[") || !Contains(after, "]") ==> r.Success? && r.value.time == Missing)
            && (Contains(after, "[") && Contains(after, "]") ==>
                  var start, stop := Find(after, "[").value, Find(after, "]").value;
                  && (stop < start ==> r == Failure(SliceOutOfOrder(start, stop)))
                  && (start < stop ==>
                        var body := after[start + 1..stop];
                        && (isF32(body) ==> r.Success? && r.value.time == Bracketed(body))
                        && (!isF32(body) ==> r == Failure(FloatUnwrap(body))))))
  {
    TimeOf(s, isF32);
    if Contains(s, ":") {
      StampOf(After(s, ":"), isF32);
    }
  }

  /** The decoder succeeds exactly when the stamp reader does, with its stamp or its panic. */
  lemma TimeOf(s: string, isF32: string -> bool)
    ensures var r, t := ParseFromString(s, isF32), ParseTime(if Contains(s, ":") then Some(After(s, ":")) else None, isF32);
      && (r.Success? <==> t.Success?)
      && (r.Success? ==> r.value.time == t.value)
      && (r.Failure? ==> r.error == t.error)
  {
    var elements := Splitn(s, 2, ":");
    SplitnTwo(s, ":");
    var rest := if |elements| == 2 then Some(elements[1]) else None;
    assert rest == if Contains(s, ":") then Some(After(s, ":")) else None;
  }

  /** The stamp read from the text after the host's colon. */
  lemma StampOf(after: string, isF32: string -> bool)
    ensures var t := ParseTime(Some(after), isF32);
      && (!Contains(after, "[") || !Contains(after, "]") ==> t == Success(Missing))
      && (Contains(after, "[") && Contains(after, "]") ==>
            var start, stop := Find(after, "[").value, Find(after, "]").value;
            && (stop < start ==> t == Failure(SliceOutOfOrder(start, stop)))
            && (start < stop ==>
                  var body := after[start + 1..stop];
                  t == if isF32(body) then Success(Bracketed(body)) else Failure(FloatUnwrap(body))))
  {
    if Contains(after, "[") && Contains(after, "]") {
      BracketsApart(after);
    }
  }

  /** The first `[` and the first `]` of a text are at different places. */
  lemma BracketsApart(after: string)
    requires Find(after, "[").Some? && Find(after, "]").Some?
    ensures Find(after, "[").value != Find(after, "]").value
  {
    var start, stop := Find(after, "[").value, Find(after, "]").value;
    assert after[start..start + 1] == "[";
    assert after[stop..stop + 1] == "]";
  }

  /** With no space in the first two words, the payload is everything after the second space. */
  lemma PayloadAfterTwoSpaces(a: string, b: string, p: string)
    requires ' ' !in a && ' ' !in b
    ensures Payload(a + " " + b + " " + p) == p
  {
    var t := b + " " + p;
    assert " " == [' '];
    assert a + " " + b + " " + p == a + [' '] + t;
    SplitnCut(a, ' ', t, 3);
    SplitnCut(b, ' ', p, 2);
    assert Splitn(a + " " + b + " " + p, 3, " ") == [a] + ([b] + [p]);
  }

  /**
   * A line of the documented wire format `<host>: [<stamp>] <payload>` decodes
   * to that host, that stamp and the content of that payload.
   */
  lemma WireFormat(host: string, stamp: string, payload: string, isF32: string -> bool)
    requires ':' !in host && ' ' !in host
    requires '[' !in stamp && ']' !in stamp && ' ' !in stamp
    requires isF32(stamp)
    ensures ParseFromString(host + ": [" + stamp + "] " + payload, isF32)
         == Success(NetworkMsg(host, Bracketed(stamp), ParseMsgContent(payload)))
  {
    var after := " [" + stamp + "] " + payload;
    var s := host + ": [" + stamp + "] " + payload;
    assert s == host + [':'] + after;
    FindFirstChar(host, ':', after);
    assert s[..|host|] == host && s[|host| + 1..] == after;
    assert Splitn(s, 2, ":") == [host, after];
    assert after == " [" + stamp + "]" + (" " + payload);
    StampInBrackets(stamp, " " + payload, isF32);
    assert ParseTime(Some(after), isF32) == Success(Bracketed(stamp));
    LineShape(host, stamp, payload);
    NoSpaceInHeader(host, stamp);
    PayloadAfterTwoSpaces(host + ":", "[" + stamp + "]", payload);
  }

  lemma NoSpaceInHeader(host: string, stamp: string)
    requires ' ' !in host && ' ' !in stamp
    ensures ' ' !in host + ":" && ' ' !in "[" + stamp + "]"
  {
  }

  lemma LineShape(host: string, stamp: string, payload: string)
    ensures host + ": [" + stamp + "] " + payload == (host + ":") + " " + ("[" + stamp + "]") + " " + payload
  {
    var l := host + ": [" + stamp + "] " + payload;
    var m := (host + ":") + " " + ("[" + stamp + "]") + " " + payload;
    assert |l| == |m|;
    forall i | 0 <= i < |l| ensures l[i] == m[i] {
      if i < |host| + 3 + |stamp| + 2 {
      }
    }
  }

  /** A ` [<stamp>]` prefix yields that stamp. */
  lemma StampInBrackets(stamp: string, tail: string, isF32: string -> bool)
    requires '[' !in stamp && ']' !in stamp
    requires isF32(stamp)
    ensures ParseTime(Some(" [" + stamp + "]" + tail), isF32) == Success(Bracketed(stamp))
  {
    var after := " [" + stamp + "]" + tail;
    assert after == " " + ['['] + (stamp + "]" + tail);
    FindFirstChar(" ", '[', stamp + "]" + tail);
    assert after == " [" + stamp + [']'] + tail;
    FindFirstChar(" [" + stamp, ']', tail);
    assert after[2..2 + |stamp|] == stamp;
  }

  /** A payload `<id>:<rest>` whose identifier has no colon: the kind of `id`, the fields of `rest`. */
  lemma ContentOf(id: string, rest: string)
    requires ':' !in id
    ensures ParseMsgContent(id + ":" + rest)
         == MessageContent(KindOf(AsciiLower(id)), ParseToHashmap(KindOf(AsciiLower(id)), rest))
  {
    CutAtFirst(id, ':', rest);
    SplitnTwo(id + ":" + rest, ":");
  }

  /** The identifier table read both ways: each known kind has exactly one trigger. */
  lemma KindTable(id: string)
    ensures KindOf(id) != UnknownMessage <==> id in {"up", "ntp", "loop", "ntpsyncevent", "sessionuuid", "ac"}
    ensures KindOf(id) != UnknownMessage ==> Trigger(KindOf(id)) == id
    ensures forall k :: k != UnknownMessage ==> KindOf(Trigger(k)) == k
  {
  }

  /** The field names of a kind are distinct. */
  lemma KeyNames()
    ensures "version" != "builddate" && "version" != "ip_addr" && "builddate" != "ip_addr"
    ensures "command" != "http_code"
    ensures "datetime" != "pm2.5" && "datetime" != "UUID" && "datetime" != "sent"
    ensures "pm2.5" != "UUID" && "pm2.5" != "sent" && "UUID" != "sent"
    ensures "action" != "slowdownfactor" && "action" != "deepsleepduration"
    ensures "slowdownfactor" != "deepsleepduration"
    ensures "action" != "sleepwakecycles" && "action" != "ntperrors" && "sleepwakecycles" != "ntperrors"
  {
  }

  /**
   * Node start-up: `version` always, `builddate` and `ip_addr` exactly when a
   * colon follows the version; the build date never holds `@`, the address is
   * "N/A" without one, and the three give back the text.
   */
  lemma NodeUpFields(e: string)
    ensures var r, c := ParseToHashmap(NodeUp, e), Trim(e);
      && "version" in r && r["version"] == Before(c, ":")
      && ("builddate" in r <==> Contains(c, ":"))
      && ("ip_addr" in r <==> Contains(c, ":"))
      && (Contains(c, ":") ==>
            var rest := After(c, ":");
            && r["builddate"] == Before(rest, "@")
            && '@' !in r["builddate"]
            && (!Contains(rest, "@") ==> r["ip_addr"] == "N/A")
            && (Contains(rest, "@") ==>
                  r["ip_addr"] == After(rest, "@")
                  && c == r["version"] + ":" + r["builddate"] + "@" + r["ip_addr"]))
  {
    var c := Trim(e);
    NodeUpOfTrim(e);
    if Contains(c, ":") {
      var rest := After(c, ":");
      NodeUpColon(c);
      ContainsChar(Before(rest, "@"), '@');
      if Contains(rest, "@") {
        SplitnTwo(c, ":");
        SplitnTwo(rest, "@");
        Glue(c, Before(c, ":"), ":", rest, Before(rest, "@"), "@", After(rest, "@"));
      }
    } else {
      NodeUpNoColon(c);
    }
  }

  lemma NodeUpOfTrim(e: string)
    ensures ParseToHashmap(NodeUp, e) == ParseNodeUp(Trim(e), map[])
  {
  }

  /** Without a colon only the version is read: the whole text. */
  lemma NodeUpNoColon(c: string)
    requires !Contains(c, ":")
    ensures ParseNodeUp(c, map[]) == map["version" := Before(c, ":")]
  {
    SplitnTwo(c, ":");
  }

  /** With a colon all three fields are read, around the first `:` and the first `@` after it. */
  lemma NodeUpColon(c: string)
    requires Contains(c, ":")
    ensures var r, rest := ParseNodeUp(c, map[]), After(c, ":");
      && "version" in r && r["version"] == Before(c, ":")
      && "builddate" in r && r["builddate"] == Before(rest, "@")
      && "ip_addr" in r && r["ip_addr"] == (if Contains(rest, "@") then After(rest, "@") else "N/A")
  {
    SplitnTwo(c, ":");
    SplitnTwo(After(c, ":"), "@");
  }

  lemma Glue(c: string, a: string, d1: string, rest: string, b: string, d2: string, z: string)
    requires c == a + d1 + rest && rest == b + d2 + z
    ensures c == a + d1 + b + d2 + z
  {
  }

  /**
   * AirCasting: `command` is the trimmed, lower-cased text before the first
   * colon; `http_code` is there exactly for `push` with a colon, and is the text
   * after the first space of the trimmed rest, or all of it without a space.
   */
  lemma AirCastingFields(e: string)
    ensures var r, c := ParseToHashmap(AirCasting, e), Trim(e);
      var cmd := AsciiLower(Trim(Before(c, ":")));
      && "command" in r && r["command"] == cmd
      && ("http_code" in r <==> cmd == "push" && Contains(c, ":"))
      && ("http_code" in r ==>
            var t := Trim(After(c, ":"));
            r["http_code"] == if Contains(t, " ") then After(t, " ") else t)
  {
    var c := Trim(e);
    SplitnTwo(c, ":");
    if Contains(c, ":") {
      PushCodeOf(After(c, ":"));
    }
  }

  /** The `push` code in terms of the first space of the trimmed rest. */
  lemma PushCodeOf(rest: string)
    ensures var t := Trim(rest);
      PushCode(rest) == if Contains(t, " ") then After(t, " ") else t
  {
    SplitnTwo(Trim(rest), " ");
  }

  /**
   * NTP: nothing unless `PM2.5` occurs; then `datetime` is the first space piece,
   * `pm2.5` the third, and `UUID` and `sent` the text after the colon of the
   * fourth and fifth piece of a five-way split, when those have one.
   */
  lemma NtpFields(e: string)
    ensures var r, c := ParseToHashmap(Ntp, e), Trim(e);
      var parts := Splitn(c, 5, " ");
      && (!Contains(c, "PM2.5") ==> r == map[])
      && (Contains(c, "PM2.5") ==> "datetime" in r && r["datetime"] == Trim(Before(c, " ")))
      && ("pm2.5" in r <==> Contains(c, "PM2.5") && |parts| >= 3)
      && ("pm2.5" in r ==> r["pm2.5"] == parts[2])
      && ("UUID" in r <==> Contains(c, "PM2.5") && |parts| >= 4 && Contains(parts[3], ":"))
      && ("UUID" in r ==> r["UUID"] == After(parts[3], ":"))
      && ("sent" in r <==> Contains(c, "PM2.5") && |parts| >= 5 && Contains(parts[4], ":"))
      && ("sent" in r ==> r["sent"] == After(parts[4], ":"))
  {
    var c := Trim(e);
    if Contains(c, "PM2.5") {
      NtpPresent(c);
    }
  }

  lemma NtpPresent(c: string)
    requires Contains(c, "PM2.5")
    ensures var r, parts := ParseNtp(c, map[]), Splitn(c, 5, " ");
      && "datetime" in r && r["datetime"] == Trim(Before(c, " "))
      && ("pm2.5" in r <==> |parts| >= 3)
      && ("pm2.5" in r ==> r["pm2.5"] == parts[2])
      && ("UUID" in r <==> |parts| >= 4 && Contains(parts[3], ":"))
      && ("UUID" in r ==> r["UUID"] == After(parts[3], ":"))
      && ("sent" in r <==> |parts| >= 5 && Contains(parts[4], ":"))
      && ("sent" in r ==> r["sent"] == After(parts[4], ":"))
  {
    var parts := Splitn(c, 5, " ");
    SplitnFirst(c, 5, " ");
    assert ParseNtp(c, map[]) == NtpParts(parts, map[]);
    NtpPartsFields(parts);
  }

  /** The fields read from the space pieces, one piece per field. */
  lemma NtpPartsFields(parts: seq<string>)
    requires 1 <= |parts| <= 5
    ensures var r := NtpParts(parts, map[]);
      && "datetime" in r && r["datetime"] == Trim(parts[0])
      && ("pm2.5" in r <==> |parts| >= 3)
      && ("pm2.5" in r ==> r["pm2.5"] == parts[2])
      && ("UUID" in r <==> |parts| >= 4 && Contains(parts[3], ":"))
      && ("UUID" in r ==> r["UUID"] == After(parts[3], ":"))
      && ("sent" in r <==> |parts| >= 5 && Contains(parts[4], ":"))
      && ("sent" in r ==> r["sent"] == After(parts[4], ":"))
  {
    NtpDateAt(parts);
    NtpPmAt(parts);
    NtpUuidAt(parts);
    NtpSentAt(parts);
  }

  lemma NtpDateAt(parts: seq<string>)
    requires 1 <= |parts| <= 5
    ensures var r := NtpParts(parts, map[]); "datetime" in r && r["datetime"] == Trim(parts[0])
  {
    var h1: FieldMap := map["datetime" := Trim(parts[0])];
    var h2 := if |parts| >= 3 then h1["pm2.5" := parts[2]] else h1;
    var h3 := if |parts| >= 4 then TextAfterColon(h2, "UUID", parts[3]) else h2;
    var r := if |parts| >= 5 then TextAfterColon(h3, "sent", parts[4]) else h3;
    assert NtpParts(parts, map[]) == r;
  }

  lemma NtpPmAt(parts: seq<string>)
    requires 1 <= |parts| <= 5
    ensures var r := NtpParts(parts, map[]); ("pm2.5" in r <==> |parts| >= 3) && ("pm2.5" in r ==> r["pm2.5"] == parts[2])
  {
    var h1: FieldMap := map["datetime" := Trim(parts[0])];
    var h2 := if |parts| >= 3 then h1["pm2.5" := parts[2]] else h1;
    var h3 := if |parts| >= 4 then TextAfterColon(h2, "UUID", parts[3]) else h2;
    var r := if |parts| >= 5 then TextAfterColon(h3, "sent", parts[4]) else h3;
    assert NtpParts(parts, map[]) == r;
  }

  lemma NtpUuidAt(parts: seq<string>)
    requires 1 <= |parts| <= 5
    ensures var r := NtpParts(parts, map[]);
      && ("UUID" in r <==> |parts| >= 4 && Contains(parts[3], ":"))
      && ("UUID" in r ==> r["UUID"] == After(parts[3], ":"))
  {
    var h1: FieldMap := map["datetime" := Trim(parts[0])];
    var h2 := if |parts| >= 3 then h1["pm2.5" := parts[2]] else h1;
    var h3 := if |parts| >= 4 then TextAfterColon(h2, "UUID", parts[3]) else h2;
    var r := if |parts| >= 5 then TextAfterColon(h3, "sent", parts[4]) else h3;
    assert NtpParts(parts, map[]) == r;
  }

  lemma NtpSentAt(parts: seq<string>)
    requires 1 <= |parts| <= 5
    ensures var r := NtpParts(parts, map[]);
      && ("sent" in r <==> |parts| >= 5 && Contains(parts[4], ":"))
      && ("sent" in r ==> r["sent"] == After(parts[4], ":"))
  {
    var h1: FieldMap := map["datetime" := Trim(parts[0])];
    var h2 := if |parts| >= 3 then h1["pm2.5" := parts[2]] else h1;
    var h3 := if |parts| >= 4 then TextAfterColon(h2, "UUID", parts[3]) else h2;
    var r := if |parts| >= 5 then TextAfterColon(h3, "sent", parts[4]) else h3;
    assert NtpParts(parts, map[]) == r;
  }

  /** The first piece of `splitn` is the text before the first delimiter. */
  lemma SplitnFirst(s: string, n: nat, d: string)
    requires n >= 2 && d != []
    ensures Splitn(s, n, d)[0] == Before(s, d)
  {
  }

  /** The value of a token is the text after its first `=`, or the whole token without one. */
  lemma TokenValueOf(e: string)
    ensures Contains(e, "=") ==> TokenValue(e) == After(e, "=")
    ensures !Contains(e, "=") ==> TokenValue(e) == e
  {
    SplitnTwo(e, "=");
  }

  /**
   * The action word of a loop remainder is its first space-separated word,
   * trimmed, lower-cased and with every `:` removed.
   */
  lemma LoopActionIs(s: string)
    ensures LoopAction(s) == RemoveChar(AsciiLower(Trim(Before(s, " "))), ':')
  {
    SplitnTwo(s, " ");
  }

  /**
   * The action word of a loop remainder is its first word, lower-cased with
   * every `:` removed, and a word alone is its own action word.
   */
  lemma LoopActionOfWord(w: string, rest: string)
    requires forall k :: 0 <= k < |w| ==> !IsWhitespace(w[k])
    ensures LoopAction(w + " " + rest) == RemoveChar(AsciiLower(w), ':')
    ensures LoopAction(w) == RemoveChar(AsciiLower(w), ':')
  {
    SpaceIsWhitespace();
    assert ' ' !in w;
    CutAtFirst(w, ' ', rest);
    SplitnTwo(w + " " + rest, " ");
    NoCut(w, ' ', 2);
    TrimOfTrimmed(w);
  }

  lemma SpaceIsWhitespace()
    ensures IsWhitespace(' ')
  {
  }

  /**
   * Loop: `action` is recorded exactly for the first tokens "deepsleep" and "no"
   * (the latter as "waitntp"), any other token records nothing, and each case
   * sets only its own fields.
   */
  lemma LoopFields(e: string)
    ensures var r, c := ParseToHashmap(Loop, e), Trim(e);
      var a := LoopAction(c);
      && ("action" in r <==> a == "deepsleep" || a == "no")
      && (a == "deepsleep" ==>
            r["action"] == "deepsleep" && r.Keys <= {"action", "slowdownfactor", "deepsleepduration"})
      && (a == "no" ==>
            r["action"] == "waitntp" && r.Keys <= {"action", "sleepwakecycles", "ntperrors"})
      && (a != "deepsleep" && a != "no" ==> r == map[])
      && ("deepsleepduration" in r ==> ')' !in r["deepsleepduration"])
  {
    LoopCases(Trim(e));
  }

  lemma LoopCases(c: string)
    ensures var r, a := ParseLoop(c, map[]), LoopAction(c);
      && ("action" in r <==> a == "deepsleep" || a == "no")
      && (a == "deepsleep" ==>
            r["action"] == "deepsleep" && r.Keys <= {"action", "slowdownfactor", "deepsleepduration"})
      && (a == "no" ==>
            r["action"] == "waitntp" && r.Keys <= {"action", "sleepwakecycles", "ntperrors"})
      && (a != "deepsleep" && a != "no" ==> r == map[])
      && ("deepsleepduration" in r ==> ')' !in r["deepsleepduration"])
  {
    var a := LoopAction(c);
    if a == "deepsleep" {
      DeepSleepCase(c);
    } else if a == "no" {
      WaitNtpCase(c);
    } else {
      OtherCase(c);
    }
  }

  lemma OtherCase(c: string)
    requires LoopAction(c) != "deepsleep" && LoopAction(c) != "no"
    ensures ParseLoop(c, map[]) == map[]
  {
  }

  lemma DeepSleepCase(c: string)
    requires LoopAction(c) == "deepsleep"
    ensures var r := ParseLoop(c, map[]);
      && "action" in r && r["action"] == "deepsleep"
      && r.Keys <= {"action", "slowdownfactor", "deepsleepduration"}
      && ("deepsleepduration" in r ==> ')' !in r["deepsleepduration"])
  {
    DeepSleepIsArm(c);
    DeepSleepArmKeys(c);
  }

  lemma DeepSleepIsArm(c: string)
    requires LoopAction(c) == "deepsleep"
    ensures ParseLoop(c, map[]) == DeepSleepArm(c, map[])
  {
  }

  /** The `deepsleep` arm on an empty map sets `action` and at most the two sleep fields, the duration free of `)`. */
  lemma DeepSleepArmKeys(c: string)
    ensures var r := DeepSleepArm(c, map[]);
      && r.Keys <= {"action", "slowdownfactor", "deepsleepduration"}
      && ("deepsleepduration" in r ==> ')' !in r["deepsleepduration"])
  {
    var r := DeepSleepArm(c, map[]);
    var split := Splitn(c, 2, " ");
    var h1: FieldMap := if |split| == 2 then ParseDeepSleep(Trim(split[1]), map[]) else map[];
    assert r == h1["action" := "deepsleep"];
    assert "deepsleepduration" in h1 ==> !Contains(h1["deepsleepduration"], ")");
    if "deepsleepduration" in r {
      ContainsChar(r["deepsleepduration"], ')');
    }
  }

  lemma WaitNtpCase(c: string)
    requires LoopAction(c) == "no"
    ensures var r := ParseLoop(c, map[]);
      && "action" in r && r["action"] == "waitntp"
      && r.Keys <= {"action", "sleepwakecycles", "ntperrors"}
      && "deepsleepduration" !in r
  {
    WaitNtpIsArm(c);
    WaitNtpArmKeys(c);
    WaitNtpKeys(WaitNtpArm(c, map[]));
  }

  lemma WaitNtpIsArm(c: string)
    requires LoopAction(c) == "no"
    ensures ParseLoop(c, map[]) == WaitNtpArm(c, map[])
  {
  }

  /** The `no` arm on an empty map sets `action` and at most the two counters. */
  lemma WaitNtpArmKeys(c: string)
    ensures WaitNtpArm(c, map[]).Keys <= {"action", "sleepwakecycles", "ntperrors"}
  {
    var split := Splitn(c, 2, " ");
    var h1: FieldMap := if |split| == 2 then FoldWaitNtp(map[], Split(Trim(split[1]), " ")) else map[];
    assert h1.Keys <= {"sleepwakecycles", "ntperrors"};
    assert WaitNtpArm(c, map[]) == h1["action" := "waitntp"];
  }

  lemma WaitNtpKeys(r: FieldMap)
    requires r.Keys <= {"action", "sleepwakecycles", "ntperrors"}
    ensures "deepsleepduration" !in r
  {
  }

  /**
   * Deep sleep: the third `;` part gives `slowdownfactor` (after its first `=`),
   * the fourth gives `deepsleepduration` (between its first `(` and the next `)`).
   */
  lemma DeepSleepFields(e: string)
    requires LoopAction(Trim(e)) == "deepsleep"
    ensures var r, c := ParseToHashmap(Loop, e), Trim(e);
      DeepSleepRead(r, if Contains(c, " ") then Splitn(Trim(After(c, " ")), 5, ";") else [])
  {
    var c := Trim(e);
    DeepSleepUnfold(c);
    if Contains(c, " ") {
      var t := Trim(After(c, " "));
      DeepSleepState(t);
      KeepsDeepSleepRead(ParseDeepSleep(t, map[]), Splitn(t, 5, ";"), "deepsleep");
    } else {
      KeepsDeepSleepRead(map[], [], "deepsleep");
    }
  }

  /**
   * `r` holds what the deep-sleep extractor reads from the `;` parts `state`:
   * the slow-down factor exactly when there is a third part, the duration exactly
   * when there is a fourth.
   */
  ghost predicate DeepSleepRead(r: FieldMap, state: seq<string>) {
    && ("slowdownfactor" in r <==> |state| >= 3)
    && ("slowdownfactor" in r ==> r["slowdownfactor"] == TokenValue(state[2]))
    && ("deepsleepduration" in r <==> |state| >= 4)
    && ("deepsleepduration" in r ==>
          var inner := if Contains(state[3], "(") then After(state[3], "(") else state[3];
          r["deepsleepduration"] == Before(inner, ")"))
  }

  /** Recording the action does not disturb the deep-sleep fields. */
  lemma KeepsDeepSleepRead(f: FieldMap, state: seq<string>, a: string)
    requires DeepSleepRead(f, state)
    ensures DeepSleepRead(f["action" := a], state)
  {
    var r := f["action" := a];
    assert "action" != "slowdownfactor" && "action" != "deepsleepduration";
    assert ("slowdownfactor" in r <==> "slowdownfactor" in f) && ("deepsleepduration" in r <==> "deepsleepduration" in f);
  }

  /** With a `deepsleep` action, the loop extractor is the deep-sleep one on the rest, plus `action`. */
  lemma DeepSleepUnfold(c: string)
    requires LoopAction(c) == "deepsleep"
    ensures ParseLoop(c, map[]) ==
      (if Contains(c, " ") then ParseDeepSleep(Trim(After(c, " ")), map[]) else map[])["action" := "deepsleep"]
  {
    assert ParseLoop(c, map[]) == DeepSleepArm(c, map[]);
    SplitnTwo(c, " ");
  }

  /** The fields the deep-sleep extractor sets, in terms of the `;` parts of its input. */
  lemma DeepSleepState(t: string)
    ensures DeepSleepRead(ParseDeepSleep(t, map[]), Splitn(t, 5, ";"))
  {
    var state := Splitn(t, 5, ";");
    if |state| >= 4 {
      SplitnTwo(state[3], "(");
      var inner := Last(Splitn(state[3], 2, "("));
      SplitnTwo(inner, ")");
    }
  }

  /** Scanning sets a key from the last token that names it. */
  lemma {:induction false} FoldLastWins(h: FieldMap, toks: seq<string>, key: string, k: nat)
    requires k < |toks| && TokenKey(toks[k]) == Some(key)
    requires forall j :: k < j < |toks| ==> TokenKey(toks[j]) != Some(key)
    ensures var r := FoldWaitNtp(h, toks); key in r && r[key] == TokenValue(toks[k])
    decreases |toks|
  {
    var h1 := WaitNtpStep(h, toks[0]);
    if k == 0 {
      FoldUntouched(h1, toks[1..], key);
    } else {
      FoldLastWins(h1, toks[1..], key, k - 1);
    }
  }

  /** Scanning tokens that never name a key leaves that key as it was. */
  lemma {:induction false} FoldUntouched(h: FieldMap, toks: seq<string>, key: string)
    requires forall j :: 0 <= j < |toks| ==> TokenKey(toks[j]) != Some(key)
    ensures var r := FoldWaitNtp(h, toks);
      (key in r <==> key in h) && (key in h ==> r[key] == h[key])
    decreases |toks|
  {
    if toks != [] {
      FoldUntouched(WaitNtpStep(h, toks[0]), toks[1..], key);
    }
  }

  /**
   * Waiting for NTP: among the space tokens after "no", the last one naming
   * `sleepWakeCycles=` (or, failing that on the same token, `ntpErrors=`) gives
   * its field; a field no token names stays absent.
   */
  lemma WaitNtpFields(e: string, key: string)
    requires LoopAction(Trim(e)) == "no"
    requires key == "sleepwakecycles" || key == "ntperrors"
    ensures var r, c := ParseToHashmap(Loop, e), Trim(e);
      var toks := if Contains(c, " ") then Split(Trim(After(c, " ")), " ") else [];
      && (NoneNames(toks, key) ==> key !in r)
      && (forall k :: LastNames(toks, key, k) ==> key in r && r[key] == TokenValue(toks[k]))
  {
    var c := Trim(e);
    var toks := if Contains(c, " ") then Split(Trim(After(c, " ")), " ") else [];
    WaitNtpUnfold(c);
    FoldFields(toks, key);
    LoopOfTrim(e);
    CounterNotAction(key);
    KeepsCounter(FoldWaitNtp(map[], toks), toks, key, "waitntp");
  }

  lemma LoopOfTrim(e: string)
    ensures ParseToHashmap(Loop, e) == ParseLoop(Trim(e), map[])
  {
  }

  lemma CounterNotAction(key: string)
    requires key == "sleepwakecycles" || key == "ntperrors"
    ensures key != "action"
  {
  }

  /** Setting `action` leaves what the scan read for a counter as it was. */
  lemma KeepsCounter(f: FieldMap, toks: seq<string>, key: string, a: string)
    requires key != "action"
    requires NoneNames(toks, key) ==> key !in f
    requires forall k :: LastNames(toks, key, k) ==> key in f && f[key] == TokenValue(toks[k])
    ensures NoneNames(toks, key) ==> key !in f["action" := a]
    ensures forall k :: LastNames(toks, key, k) ==> key in f["action" := a] && f["action" := a][key] == TokenValue(toks[k])
  {
  }

  /** No token names `key`. */
  ghost predicate NoneNames(toks: seq<string>, key: string) {
    forall j :: 0 <= j < |toks| ==> TokenKey(toks[j]) != Some(key)
  }

  /** Token `k` is the last one naming `key`. */
  ghost predicate LastNames(toks: seq<string>, key: string, k: int) {
    && 0 <= k < |toks| && TokenKey(toks[k]) == Some(key)
    && forall j :: k < j < |toks| ==> TokenKey(toks[j]) != Some(key)
  }

  /** The scan from an empty map: a key no token names is absent, and the last naming token wins. */
  lemma FoldFields(toks: seq<string>, key: string)
    ensures var r := FoldWaitNtp(map[], toks);
      && (NoneNames(toks, key) ==> key !in r)
      && (forall k :: LastNames(toks, key, k) ==> key in r && r[key] == TokenValue(toks[k]))
  {
    if NoneNames(toks, key) {
      FoldUntouched(map[], toks, key);
    }
    forall k | LastNames(toks, key, k)
      ensures var r := FoldWaitNtp(map[], toks); key in r && r[key] == TokenValue(toks[k])
    {
      FoldLastWins(map[], toks, key, k);
    }
  }

  /** With a `no` action, the loop extractor is the token scan of the rest, plus `action`. */
  lemma WaitNtpUnfold(c: string)
    requires LoopAction(c) == "no"
    ensures ParseLoop(c, map[]) ==
      FoldWaitNtp(map[], if Contains(c, " ") then Split(Trim(After(c, " ")), " ") else [])["action" := "waitntp"]
  {
    var split := Splitn(c, 2, " ");
    WaitNtpBranch(c);
    SplitnTwo(c, " ");
    if |split| == 2 {
      assert split[1] == After(c, " ");
    }
  }

  /** The `no` branch of the loop extractor, in terms of the two-way space split. */
  lemma WaitNtpBranch(c: string)
    requires LoopAction(c) == "no"
    ensures var split := Splitn(c, 2, " ");
      ParseLoop(c, map[]) ==
        (if |split| == 2 then FoldWaitNtp(map[], Split(Trim(split[1]), " ")) else map[])["action" := "waitntp"]
  {
    assert ParseLoop(c, map[]) == WaitNtpArm(c, map[]);
  }

  /** NTP sync: `ntpdate` is the trimmed remainder, exactly when it holds neither ` -- ` nor ` => `. */
  lemma NtpSyncFields(e: string)
    ensures var r, c := ParseToHashmap(NtpSync, e), Trim(e);
      && ("ntpdate" in r <==> !Contains(c, " -- ") && !Contains(c, " => "))
      && ("ntpdate" in r ==> r["ntpdate"] == c)
  {
    TrimIdempotent(e);
  }

  /** Session: `UUID` is the trimmed remainder, exactly when it holds a `-`. */
  lemma SessionFields(e: string)
    ensures var r, c := ParseToHashmap(Session, e), Trim(e);
      && ("UUID" in r <==> '-' in c)
      && ("UUID" in r ==> r["UUID"] == c)
  {
    TrimIdempotent(e);
    ContainsChar(Trim(e), '-');
  }

  /**
   * The total stamp reader agrees with the original wherever the original does
   * not abort, and gives `Missing` where the original aborts on a non-float body.
   */
  lemma StampAgrees(rest: Option<string>, isF32: string -> bool)
    ensures var t := ParseTime(rest, isF32);
      && (t.Success? ==> ReadStamp(rest, isF32) == t.value)
      && (t.Failure? && t.error.FloatUnwrap? ==> ReadStamp(rest, isF32) == Missing)
  {
    if rest.Some? {
      StampAgreesOn(rest.value, isF32);
    }
  }

  lemma StampAgreesOn(after: string, isF32: string -> bool)
    ensures var t := ParseTime(Some(after), isF32);
      && (t.Success? ==> ReadStamp(Some(after), isF32) == t.value)
      && (t.Failure? && t.error.FloatUnwrap? ==> ReadStamp(Some(after), isF32) == Missing)
  {
    var start, stop := Find(after, "["), Find(after, "]");
    if start.None? {
      assert ParseTime(Some(after), isF32) == Success(Missing);
    } else if stop.None? {
      NoCloseAfterOpen(after, isF32);
    } else {
      BracketsApart(after);
      if stop.value < start.value {
        SliceBackwards(after, isF32);
      } else {
        OpenThenClose(after, isF32);
      }
    }
  }

  /** With a `[` but no `]`, both readers find no stamp. */
  lemma NoCloseAfterOpen(after: string, isF32: string -> bool)
    requires Find(after, "[").Some? && Find(after, "]").None?
    ensures ParseTime(Some(after), isF32) == Success(Missing) && ReadStamp(Some(after), isF32) == Missing
  {
    FindInSuffix(after, "]", Find(after, "[").value + 1);
  }

  /** With the first `[` before the first `]`, both readers take the text between them. */
  lemma OpenThenClose(after: string, isF32: string -> bool)
    requires Find(after, "[").Some? && Find(after, "]").Some?
    requires Find(after, "[").value < Find(after, "]").value
    ensures var body := after[Find(after, "[").value + 1..Find(after, "]").value];
      && ParseTime(Some(after), isF32) == (if isF32(body) then Success(Bracketed(body)) else Failure(FloatUnwrap(body)))
      && ReadStamp(Some(after), isF32) == (if isF32(body) then Bracketed(body) else Missing)
  {
    ReadInOrder(after, isF32);
  }

  lemma ReadInOrder(after: string, isF32: string -> bool)
    requires Find(after, "[").Some? && Find(after, "]").Some?
    requires Find(after, "[").value < Find(after, "]").value
    ensures var body := after[Find(after, "[").value + 1..Find(after, "]").value];
      ReadStamp(Some(after), isF32) == (if isF32(body) then Bracketed(body) else Missing)
  {
    var start, stop := Find(after, "[").value, Find(after, "]").value;
    var y := after[start + 1..];
    FindInSuffix(after, "]", start + 1);
    assert Find(y, "]") == Some(stop - (start + 1));
    StampAfterOpen(after, y, isF32);
    TailPrefix(after, start + 1, stop);
  }

  /** Cutting `s[a..]` at `b - a` is cutting `s` between `a` and `b`. */
  lemma TailPrefix(s: string, a: nat, b: nat)
    requires a <= b <= |s|
    ensures s[a..][..b - a] == s[a..b]
  {
  }

  /** The total decoder agrees with the original on every line the original decodes. */
  lemma DecodeLineAgrees(s: string, isF32: string -> bool)
    ensures ParseFromString(s, isF32).Success? ==> DecodeLine(s, isF32) == ParseFromString(s, isF32).value
  {
    var elements := Splitn(s, 2, ":");
    StampAgrees(if |elements| == 2 then Some(elements[1]) else None, isF32);
  }

  /** A line whose host is free of `:` reads its stamp from the text after the first colon. */
  lemma StampAfterHost(host: string, after: string, isF32: string -> bool)
    requires ':' !in host
    ensures var r, t := ParseFromString(host + ":" + after, isF32), ParseTime(Some(after), isF32);
      && (t.Failure? ==> r == Failure(t.error))
      && (t.Success? ==> r.Success? && r.value.time == t.value)
    ensures DecodeLine(host + ":" + after, isF32).time == ReadStamp(Some(after), isF32)
  {
    var s := host + ":" + after;
    FindFirstChar(host, ':', after);
    assert s[..|host|] == host && s[|host| + 1..] == after;
    assert Splitn(s, 2, ":") == [host, after];
  }

  /**
   * A `]` in front of the first `[` (as in `h: a]b[1]`) makes the original slice
   * backwards and abort; the total decoder reads the stamp that follows the `[`.
   */
  lemma CloseBeforeOpenAborts(host: string, a: string, b: string, stamp: string, tail: string,
                              isF32: string -> bool)
    requires ':' !in host && '[' !in a && ']' !in a && '[' !in b && ']' !in stamp
    ensures var start, stop := |a| + 1 + |b|, |a|;
      ParseFromString(host + ":" + a + "]" + b + "[" + stamp + "]" + tail, isF32)
        == Failure(SliceOutOfOrder(start, stop))
    ensures DecodeLine(host + ":" + a + "]" + b + "[" + stamp + "]" + tail, isF32).time
        == if isF32(stamp) then Bracketed(stamp) else Missing
  {
    var after := a + "]" + b + "[" + stamp + "]" + tail;
    assert host + ":" + a + "]" + b + "[" + stamp + "]" + tail == host + ":" + after;
    StampAfterHost(host, after, isF32);
    CloseBeforeOpen(a, b, stamp, tail, isF32);
  }

  /** The stamp text of a line whose first `]` stands before its first `[`. */
  lemma CloseBeforeOpen(a: string, b: string, stamp: string, tail: string, isF32: string -> bool)
    requires '[' !in a && ']' !in a && '[' !in b && ']' !in stamp
    ensures var after := a + "]" + b + "[" + stamp + "]" + tail;
      && ParseTime(Some(after), isF32) == Failure(SliceOutOfOrder(|a| + 1 + |b|, |a|))
      && ReadStamp(Some(after), isF32) == if isF32(stamp) then Bracketed(stamp) else Missing
  {
    var after := a + "]" + b + "[" + stamp + "]" + tail;
    var y := stamp + "]" + tail;
    assert after == a + "]" + b + "[" + y;
    OpenAfterClose(a, b, y);
    SliceBackwards(after, isF32);
    StampBeforeClose(after, stamp, tail, isF32);
  }

  /** The first `[` and the first `]` of `a]b[y`, and the text after that `[`, when `a` and `b` have no `[`. */
  lemma OpenAfterClose(a: string, b: string, y: string)
    requires '[' !in a && '[' !in b && ']' !in a
    ensures var after := a + "]" + b + "[" + y;
      && Find(after, "[") == Some(|a| + 1 + |b|) && after[|a| + 1 + |b| + 1..] == y
      && Find(after, "]") == Some(|a|)
  {
    var x := a + "]" + b;
    var after := x + ['['] + y;
    assert a + "]" + b + "[" + y == after;
    FindFirstChar(x, '[', y);
    assert after[..|a|] == a && after[|a|] == ']';
    FirstAt(after, ']', |a|);
  }

  /** The total reader takes `stamp` when the text after the first `[` is `stamp]tail`. */
  lemma StampBeforeClose(after: string, stamp: string, tail: string, isF32: string -> bool)
    requires ']' !in stamp
    requires Find(after, "[").Some? && after[Find(after, "[").value + 1..] == stamp + "]" + tail
    ensures ReadStamp(Some(after), isF32) == if isF32(stamp) then Bracketed(stamp) else Missing
  {
    var y := stamp + "]" + tail;
    FirstClose(stamp, tail, y);
    StampAfterOpen(after, y, isF32);
    assert y[..|stamp|] == stamp;
  }

  /** The original aborts when the first `]` stands before the first `[`. */
  lemma SliceBackwards(after: string, isF32: string -> bool)
    requires Find(after, "[").Some? && Find(after, "]").Some?
    requires Find(after, "]").value < Find(after, "[").value
    ensures ParseTime(Some(after), isF32)
         == Failure(SliceOutOfOrder(Find(after, "[").value, Find(after, "]").value))
  {
  }

  /** The total reader takes the stamp from the first `]` after the first `[`. */
  lemma StampAfterOpen(after: string, y: string, isF32: string -> bool)
    requires Find(after, "[").Some? && y == after[Find(after, "[").value + 1..]
    requires Find(y, "]").Some?
    ensures var body := y[..Find(y, "]").value];
      ReadStamp(Some(after), isF32) == if isF32(body) then Bracketed(body) else Missing
  {
  }

  /** The first `]` of `a + "]" + rest` when `a` has none. */
  lemma FirstClose(a: string, rest: string, s: string)
    requires ']' !in a && s == a + "]" + rest
    ensures Find(s, "]") == Some(|a|)
  {
    assert s == a + [']'] + rest;
    FindFirstChar(a, ']', rest);
  }

  /**
   * Empty brackets (as in `h: [] x`) give an empty body, which is no float: the
   * original aborts on the unwrap; the total decoder reports no stamp.
   */
  lemma EmptyStampAborts(host: string, a: string, tail: string, isF32: string -> bool)
    requires ':' !in host && '[' !in a && ']' !in a
    requires !isF32("")
    ensures ParseFromString(host + ":" + a + "[]" + tail, isF32) == Failure(FloatUnwrap(""))
    ensures DecodeLine(host + ":" + a + "[]" + tail, isF32).time == Missing
  {
    var after := a + "[]" + tail;
    assert host + ":" + a + "[]" + tail == host + ":" + after;
    StampAfterHost(host, after, isF32);
    EmptyStamp(a, tail, isF32);
  }

  /** The stamp text of a line whose first brackets are empty. */
  lemma EmptyStamp(a: string, tail: string, isF32: string -> bool)
    requires '[' !in a && ']' !in a
    requires !isF32("")
    ensures ParseTime(Some(a + "[]" + tail), isF32) == Failure(FloatUnwrap(""))
    ensures ReadStamp(Some(a + "[]" + tail), isF32) == Missing
  {
    var after := a + "[]" + tail;
    var i := |a|;
    assert after[..i] == a && after[i] == '[';
    FirstAt(after, '[', i);
    assert after[..i + 1] == a + "[" && after[i + 1] == ']';
    CloseNotAfter(a);
    FirstAt(after, ']', i + 1);
    OpenThenClose(after, isF32);
    assert after[i + 1..i + 1] == "";
  }

  lemma CloseNotAfter(a: string)
    requires ']' !in a
    ensures ']' !in a + "["
  {
  }
}
