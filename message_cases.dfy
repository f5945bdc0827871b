/**
 * The example lines of the decoder's unit tests (src/message.rs), derived from
 * the general lemmas: each is split into its literal facts (which characters
 * occur where), a structural lemma over arbitrary texts of the same shape, and
 * the combination. The uptime stamp keeps its text; its `f32` value is the
 * parameter `isF32`'s business.
 */
module MessageCases {
  import opened Wrappers
  import opened RustStr
  import opened Message
  import opened MessageLemmas

  /** A text with no whitespace at either end is what `trim` leaves of it after one leading space. */
  lemma TrimLeadingSpace(x: string)
    requires x != [] && !IsWhitespace(x[0]) && !IsWhitespace(x[|x| - 1])
    ensures Trim(" " + x) == x
  {
    assert (" " + x)[1..] == x;
    assert TrimStart(" " + x) == x;
  }

  /** The line `<host>: [<stamp>] <payload>` as the decoder reads it, given the payload's content. */
  lemma LineOf(host: string, stamp: string, payload: string, content: MessageContent, isF32: string -> bool)
    requires ':' !in host && ' ' !in host
    requires '[' !in stamp && ']' !in stamp && ' ' !in stamp
    requires isF32(stamp)
    requires ParseMsgContent(payload) == content
    ensures ParseFromString(host + ": [" + stamp + "] " + payload, isF32)
         == Success(NetworkMsg(host, Bracketed(stamp), content))
  {
    WireFormat(host, stamp, payload, isF32);
  }

  /** A map with exactly three given entries is their map display. */
  lemma SameMap3(r: FieldMap, k1: string, v1: string, k2: string, v2: string, k3: string, v3: string)
    requires r.Keys <= {k1, k2, k3}
    requires k1 in r && r[k1] == v1 && k2 in r && r[k2] == v2 && k3 in r && r[k3] == v3
    requires k1 != k2 && k1 != k3 && k2 != k3
    ensures r == map[k1 := v1, k2 := v2, k3 := v3]
  {
  }

  /** A map with exactly two given entries is their map display. */
  lemma SameMap2(r: FieldMap, k1: string, v1: string, k2: string, v2: string)
    requires r.Keys <= {k1, k2}
    requires k1 in r && r[k1] == v1 && k2 in r && r[k2] == v2
    requires k1 != k2
    ensures r == map[k1 := v1, k2 := v2]
  {
  }

  /** A map with exactly four given entries is their map display. */
  lemma SameMap4(r: FieldMap, k1: string, v1: string, k2: string, v2: string,
                 k3: string, v3: string, k4: string, v4: string)
    requires r.Keys <= {k1, k2, k3, k4}
    requires k1 in r && r[k1] == v1 && k2 in r && r[k2] == v2
    requires k3 in r && r[k3] == v3 && k4 in r && r[k4] == v4
    requires k1 != k2 && k1 != k3 && k1 != k4 && k2 != k3 && k2 != k4 && k3 != k4
    ensures r == map[k1 := v1, k2 := v2, k3 := v3, k4 := v4]
  {
  }

  /** Adding a third key to a two-entry map gives the three-entry display. */
  lemma PutFirst(k1: string, v1: string, k2: string, v2: string, k3: string, v3: string)
    requires k1 != k2 && k1 != k3 && k2 != k3
    ensures map[k2 := v2, k3 := v3][k1 := v1] == map[k1 := v1, k2 := v2, k3 := v3]
  {
  }

  /** The host and the stamps of the example lines. */
  lemma HeaderText(host: string, stamp: string)
    requires host == "ESP_D427A9"
    requires stamp in {"2.89900", "11.06000", "11.06500", "11.15300", "7.97900", "8.14600", "4.07500"}
    ensures ':' !in host && ' ' !in host
    ensures '[' !in stamp && ']' !in stamp && ' ' !in stamp
  {
  }

  // ------------------------------------------------------------ SessionUUID

  /** A session remainder: one space, then a trimmed text holding a `-`. */
  lemma SessionOf(u: string)
    requires u != [] && !IsWhitespace(u[0]) && !IsWhitespace(u[|u| - 1]) && '-' in u
    ensures ParseToHashmap(Session, " " + u) == map["UUID" := u]
  {
    TrimLeadingSpace(u);
    SessionFields(" " + u);
    var r := ParseToHashmap(Session, " " + u);
    assert r.Keys <= {"UUID"};
  }

  lemma SessionText(id: string, u: string)
    requires id == "SessionUUID" && u == "d687fe3f-2d30-352d-0c21-ff3f2cea2040"
    ensures ':' !in id && KindOf(AsciiLower(id)) == Session
    ensures u != [] && '-' in u && !IsWhitespace(u[0]) && !IsWhitespace(u[|u| - 1])
    ensures id + ": " + u == id + ":" + (" " + u)
  {
    SessionId(id);
    SessionUuid(u);
    ColonSpace(id, u);
  }

  lemma SessionId(id: string)
    requires id == "SessionUUID"
    ensures ':' !in id && KindOf(AsciiLower(id)) == Session
  {
    assert AsciiLower(id) == "sessionuuid";
  }

  lemma SessionUuid(u: string)
    requires u == "d687fe3f-2d30-352d-0c21-ff3f2cea2040"
    ensures u != [] && '-' in u && !IsWhitespace(u[0]) && !IsWhitespace(u[|u| - 1])
  {
    assert u[8] == '-';
  }

  /** `<id>: <rest>` is the id, its colon, and the rest after one space. */
  lemma ColonSpace(id: string, rest: string)
    ensures id + ": " + rest == id + ":" + (" " + rest)
  {
  }

  /** `<host>: [8.14600] SessionUUID: d687fe3f-2d30-352d-0c21-ff3f2cea2040` */
  lemma SessionLine(host: string, stamp: string, id: string, u: string, isF32: string -> bool)
    requires host == "ESP_D427A9" && stamp == "8.14600" && isF32(stamp)
    requires id == "SessionUUID" && u == "d687fe3f-2d30-352d-0c21-ff3f2cea2040"
    ensures ParseFromString(host + ": [" + stamp + "] " + (id + ": " + u), isF32)
         == Success(NetworkMsg(host, Bracketed(stamp), MessageContent(Session, map["UUID" := u])))
  {
    HeaderText(host, stamp);
    SessionText(id, u);
    SessionOf(u);
    ContentOf(id, " " + u);
    LineOf(host, stamp, id + ": " + u, MessageContent(Session, map["UUID" := u]), isF32);
  }

  // ------------------------------------------------------------ NTPSyncEvent

  /** An NTP-sync remainder: one space, then a trimmed text with no `-` and no `=`. */
  lemma NtpSyncOf(d: string)
    requires d != [] && !IsWhitespace(d[0]) && !IsWhitespace(d[|d| - 1]) && '-' !in d && '=' !in d
    ensures ParseToHashmap(NtpSync, " " + d) == map["ntpdate" := d]
  {
    TrimLeadingSpace(d);
    MissingChar(d, " -- ", 1);
    MissingChar(d, " => ", 1);
    NtpSyncFields(" " + d);
    var r := ParseToHashmap(NtpSync, " " + d);
    assert r.Keys <= {"ntpdate"};
  }

  lemma NtpSyncText(id: string, d: string)
    requires id == "NTPSyncEvent" && d == "16:24:59 30/05/2017"
    ensures ':' !in id && KindOf(AsciiLower(id)) == NtpSync
    ensures d != [] && !IsWhitespace(d[0]) && !IsWhitespace(d[|d| - 1]) && '-' !in d && '=' !in d
    ensures id + ": " + d == id + ":" + (" " + d)
  {
    NtpSyncId(id);
    NtpSyncDate(d);
    ColonSpace(id, d);
  }

  lemma NtpSyncId(id: string)
    requires id == "NTPSyncEvent"
    ensures ':' !in id && KindOf(AsciiLower(id)) == NtpSync
  {
    assert AsciiLower(id) == "ntpsyncevent";
  }

  lemma NtpSyncDate(d: string)
    requires d == "16:24:59 30/05/2017"
    ensures d != [] && !IsWhitespace(d[0]) && !IsWhitespace(d[|d| - 1]) && '-' !in d && '=' !in d
  {
  }

  /** `<host>: [7.97900] NTPSyncEvent: 16:24:59 30/05/2017` */
  lemma NtpSyncLine(host: string, stamp: string, id: string, d: string, isF32: string -> bool)
    requires host == "ESP_D427A9" && stamp == "7.97900" && isF32(stamp)
    requires id == "NTPSyncEvent" && d == "16:24:59 30/05/2017"
    ensures ParseFromString(host + ": [" + stamp + "] " + (id + ": " + d), isF32)
         == Success(NetworkMsg(host, Bracketed(stamp), MessageContent(NtpSync, map["ntpdate" := d])))
  {
    HeaderText(host, stamp);
    NtpSyncText(id, d);
    NtpSyncOf(d);
    ContentOf(id, " " + d);
    LineOf(host, stamp, id + ": " + d, MessageContent(NtpSync, map["ntpdate" := d]), isF32);
  }

  // ------------------------------------------------------------ UP

  /** A start-up remainder `<version>:<build date>@<address>` after one space. */
  lemma NodeUpOf(v: string, d: string, ip: string)
    requires ':' !in v && '@' !in d
    requires v != [] && !IsWhitespace(v[0]) && ip != [] && !IsWhitespace(ip[|ip| - 1])
    ensures ParseToHashmap(NodeUp, " " + (v + ":" + d + "@" + ip))
         == map["version" := v, "builddate" := d, "ip_addr" := ip]
  {
    var z := d + "@" + ip;
    var c := v + ":" + d + "@" + ip;
    assert c == v + ":" + z;
    assert c[0] == v[0] && c[|c| - 1] == ip[|ip| - 1];
    TrimLeadingSpace(c);
    CutAtFirst(v, ':', z);
    CutAtFirst(d, '@', ip);
    assert Before(c, ":") == v && After(c, ":") == z;
    NodeUpFields(" " + c);
    var r := ParseToHashmap(NodeUp, " " + c);
    assert r["version"] == v && r["builddate"] == d && r["ip_addr"] == ip;
    assert r.Keys <= {"version", "builddate", "ip_addr"};
    KeyNames();
    SameMap3(r, "version", v, "builddate", d, "ip_addr", ip);
  }

  lemma NodeUpText(id: string, v: string, d: string, ip: string)
    requires id == "UP" && v == "1.0" && d == "May 14 2017 01:34:24" && ip == "192.168.1.29"
    ensures ':' !in id && KindOf(AsciiLower(id)) == NodeUp
    ensures ':' !in v && '@' !in d
    ensures v != [] && !IsWhitespace(v[0]) && ip != [] && !IsWhitespace(ip[|ip| - 1])
    ensures id + ": " + v + ":" + d + "@" + ip == id + ":" + (" " + (v + ":" + d + "@" + ip))
  {
    assert AsciiLower(id) == "up";
  }

  /** `<host>: [2.89900] UP: 1.0:May 14 2017 01:34:24@192.168.1.29` */
  lemma NodeUpLine(host: string, stamp: string, id: string, v: string, d: string, ip: string,
                   isF32: string -> bool)
    requires host == "ESP_D427A9" && stamp == "2.89900" && isF32(stamp)
    requires id == "UP" && v == "1.0" && d == "May 14 2017 01:34:24" && ip == "192.168.1.29"
    ensures ParseFromString(host + ": [" + stamp + "] " + (id + ": " + v + ":" + d + "@" + ip), isF32)
         == Success(NetworkMsg(host, Bracketed(stamp),
              MessageContent(NodeUp, map["version" := v, "builddate" := d, "ip_addr" := ip])))
  {
    HeaderText(host, stamp);
    NodeUpText(id, v, d, ip);
    NodeUpOf(v, d, ip);
    ContentOf(id, " " + (v + ":" + d + "@" + ip));
    LineOf(host, stamp, id + ": " + v + ":" + d + "@" + ip,
      MessageContent(NodeUp, map["version" := v, "builddate" := d, "ip_addr" := ip]), isF32);
  }

  // ------------------------------------------------------------ AC

  /** An AirCasting remainder `<cmd>: <word> <code>` whose command reads as `push`. */
  lemma AirCastingOf(cmd: string, w: string, code: string)
    requires ':' !in cmd && cmd != [] && !IsWhitespace(cmd[0]) && !IsWhitespace(cmd[|cmd| - 1])
    requires AsciiLower(cmd) == "push"
    requires ' ' !in w && w != [] && !IsWhitespace(w[0])
    requires code != [] && !IsWhitespace(code[|code| - 1])
    ensures ParseToHashmap(AirCasting, cmd + ": " + w + " " + code)
         == map["command" := "push", "http_code" := code]
  {
    var after := " " + w + " " + code;
    AirCastingPieces(cmd, w, code);
    TrimOfTrimmed(cmd);
    CutAtFirst(cmd, ':', after);
    CutAtFirst(w, ' ', code);
    AirCastingMap(cmd + ":" + after, w + " " + code, code);
  }

  /** The AirCasting remainder is already trimmed; the text after its colon trims to `<word> <code>`. */
  lemma AirCastingPieces(cmd: string, w: string, code: string)
    requires cmd != [] && !IsWhitespace(cmd[0])
    requires w != [] && !IsWhitespace(w[0]) && code != [] && !IsWhitespace(code[|code| - 1])
    ensures var c := cmd + ": " + w + " " + code;
      c == cmd + ":" + (" " + w + " " + code) && Trim(c) == c
    ensures Trim(" " + w + " " + code) == w + " " + code
  {
    var c := cmd + ": " + w + " " + code;
    var t := w + " " + code;
    assert c == cmd + ":" + (" " + w + " " + code) && " " + w + " " + code == " " + t;
    assert c[0] == cmd[0] && c[|c| - 1] == code[|code| - 1];
    TrimOfTrimmed(c);
    assert t[0] == w[0] && t[|t| - 1] == code[|code| - 1];
    TrimLeadingSpace(t);
  }

  /** The two AirCasting fields read from a trimmed `push` remainder. */
  lemma AirCastingMap(c: string, t: string, code: string)
    requires Trim(c) == c && Contains(c, ":") && AsciiLower(Trim(Before(c, ":"))) == "push"
    requires Trim(After(c, ":")) == t && Contains(t, " ") && After(t, " ") == code
    ensures ParseToHashmap(AirCasting, c) == map["command" := "push", "http_code" := code]
  {
    AirCastingFields(c);
    var r := ParseToHashmap(AirCasting, c);
    assert r["command"] == "push" && r["http_code"] == code;
    assert r.Keys <= {"command", "http_code"};
    KeyNames();
    SameMap2(r, "command", "push", "http_code", code);
  }

  lemma AirCastingText(id: string, cmd: string, w: string, code: string)
    requires id == "AC" && cmd == "push" && w == "Code" && code == "200"
    ensures ':' !in id && KindOf(AsciiLower(id)) == AirCasting
    ensures ':' !in cmd && cmd != [] && !IsWhitespace(cmd[0]) && !IsWhitespace(cmd[|cmd| - 1])
    ensures AsciiLower(cmd) == "push"
    ensures ' ' !in w && w != [] && !IsWhitespace(w[0])
    ensures code != [] && !IsWhitespace(code[|code| - 1])
    ensures id + ":" + cmd + ": " + w + " " + code == id + ":" + (cmd + ": " + w + " " + code)
  {
    assert AsciiLower(id) == "ac";
  }

  /** `<host>: [11.06000] AC:push: Code 200` */
  lemma AirCastingLine(host: string, stamp: string, id: string, cmd: string, w: string, code: string,
                       isF32: string -> bool)
    requires host == "ESP_D427A9" && stamp == "11.06000" && isF32(stamp)
    requires id == "AC" && cmd == "push" && w == "Code" && code == "200"
    ensures ParseFromString(host + ": [" + stamp + "] " + (id + ":" + cmd + ": " + w + " " + code), isF32)
         == Success(NetworkMsg(host, Bracketed(stamp),
              MessageContent(AirCasting, map["command" := "push", "http_code" := code])))
  {
    HeaderText(host, stamp);
    AirCastingText(id, cmd, w, code);
    AirCastingOf(cmd, w, code);
    ContentOf(id, cmd + ": " + w + " " + code);
    LineOf(host, stamp, id + ":" + cmd + ": " + w + " " + code,
      MessageContent(AirCasting, map["command" := "push", "http_code" := code]), isF32);
  }

  // ------------------------------------------------------------ NTP

  /** The five space pieces of an NTP remainder. */
  lemma NtpLineParts(date: string, head: string, pm: string, uuid: string, sent: string)
    requires ' ' !in date && ' ' !in head && ' ' !in pm && ' ' !in uuid
    ensures Splitn(date + " " + (head + " " + (pm + " " + (uuid + " " + sent))), 5, " ")
         == [date, head, pm, uuid, sent]
  {
    var z3 := uuid + " " + sent;
    var z2 := pm + " " + z3;
    var z1 := head + " " + z2;
    assert " " == [' '];
    SplitnCut(date, ' ', z1, 5);
    assert Splitn(date + " " + z1, 5, " ") == [date] + Splitn(z1, 4, " ");
    SplitnCut(head, ' ', z2, 4);
    assert Splitn(z1, 4, " ") == [head] + Splitn(z2, 3, " ");
    SplitnCut(pm, ' ', z3, 3);
    assert Splitn(z2, 3, " ") == [pm] + Splitn(z3, 2, " ");
    SplitnCut(uuid, ' ', sent, 2);
    assert Splitn(z3, 2, " ") == [uuid] + Splitn(sent, 1, " ");
    assert Splitn(sent, 1, " ") == [sent];
    Five(date, head, pm, uuid, sent);
  }

  /** A character absent from three texts is absent from their concatenation. */
  lemma Absent(c: char, x: string, y: string, z: string)
    requires c !in x && c !in y && c !in z
    ensures c !in x + y + z
  {
  }

  lemma NoSpaceInColon()
    ensures ' ' !in ":"
  {
  }

  lemma SpaceJoin(a: string, b: string, z: string)
    ensures a + " " + (b + " " + z) == (a + " ") + b + (" " + z)
  {
  }

  lemma Five(a: string, b: string, c: string, d: string, e: string)
    ensures [a] + ([b] + ([c] + ([d] + [e]))) == [a, b, c, d, e]
  {
  }

  /**
   * An NTP remainder `<date> <head> <pm> <uk>:<uv> <sk>:<sv>` after one space,
   * whose head holds `PM2.5`.
   */
  lemma NtpOf(date: string, head: string, pm: string, uk: string, uv: string, sk: string, sv: string)
    requires date != [] && !IsWhitespace(date[0]) && !IsWhitespace(date[|date| - 1]) && ' ' !in date
    requires ' ' !in head && Contains(head, "PM2.5")
    requires ' ' !in pm && ' ' !in uk && ' ' !in uv && ':' !in uk && ':' !in sk
    requires sv != [] && !IsWhitespace(sv[|sv| - 1])
    ensures ParseToHashmap(Ntp, " " + (date + " " + (head + " " + (pm + " " + (uk + ":" + uv + " " + (sk + ":" + sv))))))
         == map["datetime" := date, "pm2.5" := pm, "UUID" := uv, "sent" := sv]
  {
    var uuid, sent := uk + ":" + uv, sk + ":" + sv;
    assert sent[|sent| - 1] == sv[|sv| - 1];
    NtpTrimmed(date, head, pm, uuid, sent);
    NoSpaceInColon();
    Absent(' ', uk, ":", uv);
    NtpLineParts(date, head, pm, uuid, sent);
    CutAtFirst(date, ' ', head + " " + (pm + " " + (uuid + " " + sent)));
    TrimOfTrimmed(date);
    CutAtFirst(uk, ':', uv);
    CutAtFirst(sk, ':', sv);
    NtpMap(date + " " + (head + " " + (pm + " " + (uuid + " " + sent))), date, head, pm, uuid, sent, uv, sv);
  }

  /** The NTP remainder is already trimmed and holds `PM2.5`. */
  lemma NtpTrimmed(date: string, head: string, pm: string, uuid: string, sent: string)
    requires date != [] && !IsWhitespace(date[0]) && sent != [] && !IsWhitespace(sent[|sent| - 1])
    requires Contains(head, "PM2.5")
    ensures var c := date + " " + (head + " " + (pm + " " + (uuid + " " + sent)));
      Trim(" " + c) == c && Contains(c, "PM2.5")
  {
    var c := date + " " + (head + " " + (pm + " " + (uuid + " " + sent)));
    assert c[0] == date[0] && c[|c| - 1] == sent[|sent| - 1];
    TrimLeadingSpace(c);
    ContainsWithin(date + " ", head, " " + (pm + " " + (uuid + " " + sent)), "PM2.5");
    SpaceJoin(date, head, pm + " " + (uuid + " " + sent));
  }

  /** The four NTP fields read from a trimmed remainder, given its five pieces. */
  lemma NtpMap(c: string, date: string, head: string, pm: string, uuid: string, sent: string,
               uv: string, sv: string)
    requires Trim(" " + c) == c && Contains(c, "PM2.5")
    requires Splitn(c, 5, " ") == [date, head, pm, uuid, sent]
    requires Before(c, " ") == date && Trim(date) == date
    requires Contains(uuid, ":") && After(uuid, ":") == uv && Contains(sent, ":") && After(sent, ":") == sv
    ensures ParseToHashmap(Ntp, " " + c) == map["datetime" := date, "pm2.5" := pm, "UUID" := uv, "sent" := sv]
  {
    NtpFields(" " + c);
    var r := ParseToHashmap(Ntp, " " + c);
    assert "datetime" in r && r["datetime"] == date;
    assert "pm2.5" in r && r["pm2.5"] == pm;
    assert "UUID" in r && r["UUID"] == uv;
    assert "sent" in r && r["sent"] == sv;
    assert r.Keys <= {"datetime", "pm2.5", "UUID", "sent"};
    KeyNames();
    SameMap4(r, "datetime", date, "pm2.5", pm, "UUID", uv, "sent", sv);
  }

  lemma NtpText(id: string, date: string, head: string, pm: string, uk: string, uv: string,
                sk: string, sv: string)
    requires id == "NTP" && date == "2017-05-26T15:27:53.000+01:00" && head == "PM2.5:" && pm == "12"
    requires uk == "UUID" && uv == "d687fe3f-2d30-352d-0c21-ff3f2cea2040" && sk == "sent" && sv == "1"
    ensures ':' !in id && KindOf(AsciiLower(id)) == Ntp
    ensures date != [] && !IsWhitespace(date[0]) && !IsWhitespace(date[|date| - 1]) && ' ' !in date
    ensures ' ' !in head && Contains(head, "PM2.5")
    ensures ' ' !in pm && ' ' !in uk && ' ' !in uv && ':' !in uk && ':' !in sk
    ensures sv != [] && !IsWhitespace(sv[|sv| - 1])
  {
    assert AsciiLower(id) == "ntp";
    NtpDate(date);
    NtpHead(head);
    NtpIds(pm, uk, uv, sk);
  }

  lemma NtpDate(date: string)
    requires date == "2017-05-26T15:27:53.000+01:00"
    ensures date != [] && !IsWhitespace(date[0]) && !IsWhitespace(date[|date| - 1]) && ' ' !in date
  {
  }

  lemma NtpHead(head: string)
    requires head == "PM2.5:"
    ensures ' ' !in head && Contains(head, "PM2.5")
  {
    assert head == "" + "PM2.5" + ":";
    ContainsInfix("", "PM2.5", ":");
  }

  lemma NtpIds(pm: string, uk: string, uv: string, sk: string)
    requires pm == "12" && uk == "UUID" && uv == "d687fe3f-2d30-352d-0c21-ff3f2cea2040" && sk == "sent"
    ensures ' ' !in pm && ' ' !in uk && ' ' !in uv && ':' !in uk && ':' !in sk
  {
  }

  lemma NtpShape(id: string, date: string, head: string, pm: string, uk: string, uv: string,
                 sk: string, sv: string)
    ensures id + ": " + date + " " + head + " " + pm + " " + uk + ":" + uv + " " + sk + ":" + sv
         == id + ":" + (" " + (date + " " + (head + " " + (pm + " " + (uk + ":" + uv + " " + (sk + ":" + sv))))))
  {
  }

  /** `<host>: [11.06500] NTP: 2017-05-26T15:27:53.000+01:00 PM2.5: 12 UUID:d687fe3f-2d30-352d-0c21-ff3f2cea2040 sent:1` */
  lemma NtpLine(host: string, stamp: string, id: string, date: string, head: string, pm: string,
                uk: string, uv: string, sk: string, sv: string, isF32: string -> bool)
    requires host == "ESP_D427A9" && stamp == "11.06500" && isF32(stamp)
    requires id == "NTP" && date == "2017-05-26T15:27:53.000+01:00" && head == "PM2.5:" && pm == "12"
    requires uk == "UUID" && uv == "d687fe3f-2d30-352d-0c21-ff3f2cea2040" && sk == "sent" && sv == "1"
    ensures ParseFromString(host + ": [" + stamp + "] "
              + (id + ": " + date + " " + head + " " + pm + " " + uk + ":" + uv + " " + sk + ":" + sv), isF32)
         == Success(NetworkMsg(host, Bracketed(stamp),
              MessageContent(Ntp, map["datetime" := date, "pm2.5" := pm, "UUID" := uv, "sent" := sv])))
  {
    HeaderText(host, stamp);
    NtpText(id, date, head, pm, uk, uv, sk, sv);
    NtpShape(id, date, head, pm, uk, uv, sk, sv);
    NtpOf(date, head, pm, uk, uv, sk, sv);
    ContentOf(id, " " + (date + " " + (head + " " + (pm + " " + (uk + ":" + uv + " " + (sk + ":" + sv))))));
    LineOf(host, stamp, id + ": " + date + " " + head + " " + pm + " " + uk + ":" + uv + " " + sk + ":" + sv,
      MessageContent(Ntp, map["datetime" := date, "pm2.5" := pm, "UUID" := uv, "sent" := sv]), isF32);
  }

  // ------------------------------------------------------------ Loop: deepSleep

  /** The first space token decides the loop action, whatever follows it. */
  lemma LoopActionOf(tok: string, t: string)
    requires ' ' !in tok
    ensures LoopAction(tok + " " + t) == LoopAction(tok)
  {
    SplitnCut(tok, ' ', t, 2);
    NoCut(tok, ' ', 2);
  }

  /** A loop remainder `<tok> <t>` after the colon: its action is that of `tok`, its rest is `t`. */
  lemma LoopRemainder(tok: string, t: string)
    requires ' ' !in tok && tok != [] && !IsWhitespace(tok[0])
    requires t != [] && !IsWhitespace(t[0]) && !IsWhitespace(t[|t| - 1])
    ensures var c := tok + " " + t;
      && Trim(" " + c) == c && LoopAction(c) == LoopAction(tok)
      && Contains(c, " ") && Trim(After(c, " ")) == t
  {
    var c := tok + " " + t;
    assert c[0] == tok[0] && c[|c| - 1] == t[|t| - 1];
    TrimLeadingSpace(c);
    TrimOfTrimmed(t);
    LoopActionOf(tok, t);
    CutAtFirst(tok, ' ', t);
  }

  /** The `;` parts of a deep-sleep state with four parts. */
  lemma FourParts(p1: string, p2: string, p3: string, p4: string)
    requires ';' !in p1 && ';' !in p2 && ';' !in p3 && ';' !in p4
    ensures Splitn(p1 + ";" + (p2 + ";" + (p3 + ";" + p4)), 5, ";") == [p1, p2, p3, p4]
  {
    var z2 := p3 + ";" + p4;
    var z1 := p2 + ";" + z2;
    assert ";" == [';'];
    SplitnCut(p1, ';', z1, 5);
    assert Splitn(p1 + ";" + z1, 5, ";") == [p1] + Splitn(z1, 4, ";");
    SplitnCut(p2, ';', z2, 4);
    assert Splitn(z1, 4, ";") == [p2] + Splitn(z2, 3, ";");
    SplitnCut(p3, ';', p4, 3);
    assert Splitn(z2, 3, ";") == [p3] + Splitn(p4, 2, ";");
    NoCut(p4, ';', 2);
    Four(p1, p2, p3, p4);
  }

  lemma Four(a: string, b: string, c: string, d: string)
    ensures [a] + ([b] + ([c] + [d])) == [a, b, c, d]
  {
  }

  /**
   * The deep-sleep state `<p1>;<p2>;<k3>=<v3>;<k4>(<dur>)`: the slow-down factor
   * is `v3` and the sleep duration `dur`.
   */
  lemma DeepSleepStateOf(p1: string, p2: string, k3: string, v3: string, k4: string, dur: string)
    requires ';' !in p1 && ';' !in p2 && ';' !in k3 && ';' !in v3 && ';' !in k4 && ';' !in dur
    requires '=' !in k3 && '(' !in k4 && ')' !in dur
    ensures ParseDeepSleep(p1 + ";" + (p2 + ";" + (k3 + "=" + v3 + ";" + (k4 + "(" + dur + ")"))), map[])
         == map["slowdownfactor" := v3, "deepsleepduration" := dur]
  {
    var p3, p4 := k3 + "=" + v3, k4 + "(" + dur + ")";
    var t := p1 + ";" + (p2 + ";" + (p3 + ";" + p4));
    DeepSleepPieces(k3, v3, k4, dur);
    FourParts(p1, p2, p3, p4);
    DeepSleepState(t);
    var r := ParseDeepSleep(t, map[]);
    assert "slowdownfactor" in r && r["slowdownfactor"] == v3;
    assert "deepsleepduration" in r && r["deepsleepduration"] == dur;
    KeyNames();
    SameMap2(r, "slowdownfactor", v3, "deepsleepduration", dur);
  }

  /** The slow-down part gives its value after `=`, the sleep part its duration between `(` and `)`. */
  lemma DeepSleepPieces(k3: string, v3: string, k4: string, dur: string)
    requires ';' !in k3 && ';' !in v3 && ';' !in k4 && ';' !in dur
    requires '=' !in k3 && '(' !in k4 && ')' !in dur
    ensures var p3, p4 := k3 + "=" + v3, k4 + "(" + dur + ")";
      && ';' !in p3 && ';' !in p4 && TokenValue(p3) == v3
      && Contains(p4, "(") && Before(After(p4, "("), ")") == dur
  {
    var p3, p4 := k3 + "=" + v3, k4 + "(" + dur + ")";
    assert ';' !in p3 && ';' !in p4;
    ValueOf(k3, v3);
    assert p4 == k4 + "(" + (dur + ")");
    CutAtFirst(k4, '(', dur + ")");
    assert dur + ")" == dur + ")" + "";
    CutAtFirst(dur, ')', "");
  }

  /** A deep-sleep loop remainder: its action token, one space, and a four-part state. */
  lemma DeepSleepOf(tok: string, p1: string, p2: string, p3: string, p4: string, v3: string, dur: string)
    requires ' ' !in tok && tok != [] && !IsWhitespace(tok[0]) && LoopAction(tok) == "deepsleep"
    requires p1 != [] && !IsWhitespace(p1[0]) && p4 != [] && !IsWhitespace(p4[|p4| - 1])
    requires ParseDeepSleep(p1 + ";" + (p2 + ";" + (p3 + ";" + p4)), map[])
          == map["slowdownfactor" := v3, "deepsleepduration" := dur]
    ensures ParseToHashmap(Loop, " " + (tok + " " + (p1 + ";" + (p2 + ";" + (p3 + ";" + p4)))))
         == map["action" := "deepsleep", "slowdownfactor" := v3, "deepsleepduration" := dur]
  {
    var t := p1 + ";" + (p2 + ";" + (p3 + ";" + p4));
    var c := tok + " " + t;
    assert t[0] == p1[0] && t[|t| - 1] == p4[|p4| - 1];
    LoopRemainder(tok, t);
    DeepSleepUnfold(c);
    var r := ParseToHashmap(Loop, " " + c);
    assert r == map["slowdownfactor" := v3, "deepsleepduration" := dur]["action" := "deepsleep"];
    KeyNames();
    PutFirst("action", "deepsleep", "slowdownfactor", v3, "deepsleepduration", dur);
  }

  /** The sleep part `<k4>(<dur>)` ends in its closing parenthesis. */
  lemma ClosingParen(k4: string, dur: string)
    ensures var p4 := k4 + "(" + dur + ")"; p4 != [] && !IsWhitespace(p4[|p4| - 1])
  {
    var p4 := k4 + "(" + dur + ")";
    assert p4[|p4| - 1] == ')';
  }

  /** A one-word first token whose lower-case form is `w:` names the action `w`. */
  lemma ActionOfToken(tok: string, w: string)
    requires ' ' !in tok && tok != [] && !IsWhitespace(tok[0]) && !IsWhitespace(tok[|tok| - 1])
    requires ':' !in w && AsciiLower(tok) == w + [':']
    ensures LoopAction(tok) == w
  {
    NoCut(tok, ' ', 2);
    TrimOfTrimmed(tok);
    RemoveCharLast(w, ':');
  }

  /** `deepSleep:` names the deep-sleep action. */
  lemma DeepSleepToken(tok: string)
    requires tok == "deepSleep:"
    ensures ' ' !in tok && tok != [] && !IsWhitespace(tok[0]) && LoopAction(tok) == "deepsleep"
  {
    DeepSleepLower(tok);
    ActionOfToken(tok, "deepsleep");
  }

  lemma DeepSleepLower(tok: string)
    requires tok == "deepSleep:"
    ensures AsciiLower(tok) == "deepsleep" + [':']
  {
    var low := AsciiLower(tok);
    assert IsAsciiUpper(tok[4]) && low[4] == 's';
    assert forall k :: 0 <= k < |tok| && k != 4 ==> !IsAsciiUpper(tok[k]) && low[k] == tok[k];
  }

  lemma DeepSleepText(id: string, p1: string, p2: string, k3: string, v3: string, k4: string, dur: string)
    requires id == "Loop"
    requires p1 == "nextInterval=288.93" && p2 == " executionTime=11.07 "
    requires k3 == " slowDownFactor" && v3 == "1.04365" && k4 == " deepSleep" && dur == "301.54"
    ensures ':' !in id && KindOf(AsciiLower(id)) == Loop
    ensures p1 != [] && !IsWhitespace(p1[0])
    ensures ';' !in p1 && ';' !in p2 && ';' !in k3 && ';' !in v3 && ';' !in k4 && ';' !in dur
    ensures '=' !in k3 && '(' !in k4 && ')' !in dur
  {
    assert AsciiLower(id) == "loop";
  }

  lemma DeepSleepShape(id: string, tok: string, p1: string, p2: string, k3: string, v3: string,
                       k4: string, dur: string)
    ensures id + ": " + tok + " " + p1 + ";" + p2 + ";" + k3 + "=" + v3 + ";" + k4 + "(" + dur + ")"
         == id + ":" + (" " + (tok + " " + (p1 + ";" + (p2 + ";" + (k3 + "=" + v3 + ";" + (k4 + "(" + dur + ")"))))))
  {
  }

  /** `<host>: [11.15300] Loop: deepSleep: nextInterval=288.93; executionTime=11.07 ; slowDownFactor=1.04365; deepSleep(301.54)` */
  lemma DeepSleepLine(host: string, stamp: string, id: string, tok: string, p1: string, p2: string,
                      k3: string, v3: string, k4: string, dur: string, isF32: string -> bool)
    requires host == "ESP_D427A9" && stamp == "11.15300" && isF32(stamp)
    requires id == "Loop" && tok == "deepSleep:"
    requires p1 == "nextInterval=288.93" && p2 == " executionTime=11.07 "
    requires k3 == " slowDownFactor" && v3 == "1.04365" && k4 == " deepSleep" && dur == "301.54"
    ensures ParseFromString(host + ": [" + stamp + "] "
              + (id + ": " + tok + " " + p1 + ";" + p2 + ";" + k3 + "=" + v3 + ";" + k4 + "(" + dur + ")"), isF32)
         == Success(NetworkMsg(host, Bracketed(stamp),
              MessageContent(Loop, map["action" := "deepsleep", "slowdownfactor" := v3, "deepsleepduration" := dur])))
  {
    HeaderText(host, stamp);
    DeepSleepText(id, p1, p2, k3, v3, k4, dur);
    DeepSleepToken(tok);
    DeepSleepShape(id, tok, p1, p2, k3, v3, k4, dur);
    DeepSleepStateOf(p1, p2, k3, v3, k4, dur);
    ClosingParen(k4, dur);
    DeepSleepOf(tok, p1, p2, k3 + "=" + v3, k4 + "(" + dur + ")", v3, dur);
    ContentOf(id, " " + (tok + " " + (p1 + ";" + (p2 + ";" + (k3 + "=" + v3 + ";" + (k4 + "(" + dur + ")"))))));
    LineOf(host, stamp, id + ": " + tok + " " + p1 + ";" + p2 + ";" + k3 + "=" + v3 + ";" + k4 + "(" + dur + ")",
      MessageContent(Loop, map["action" := "deepsleep", "slowdownfactor" := v3, "deepsleepduration" := dur]), isF32);
  }

  // ------------------------------------------------------------ Loop: no NTP

  /** A one-word first token without `:` whose lower-case form is `w` names the action `w`. */
  lemma ActionOfPlainToken(tok: string, w: string)
    requires ' ' !in tok && tok != [] && !IsWhitespace(tok[0]) && !IsWhitespace(tok[|tok| - 1])
    requires ':' !in w && AsciiLower(tok) == w
    ensures LoopAction(tok) == w
  {
    NoCut(tok, ' ', 2);
    TrimOfTrimmed(tok);
    RemoveCharAbsent(w, ':');
  }

  /** A word without `=` names no field of the "waiting for NTP" message. */
  lemma NoKey(w: string)
    requires '=' !in w
    ensures TokenKey(w).None?
  {
    MissingChar(w, "sleepWakeCycles=", 15);
    MissingChar(w, "ntpErrors=", 9);
  }

  /** The value of `<k>=<v>` is `v` when `k` has no `=`. */
  lemma ValueOf(k: string, v: string)
    requires '=' !in k
    ensures TokenValue(k + "=" + v) == v
  {
    SplitnCut(k, '=', v, 2);
  }

  /** Tokens that name no field leave the scan untouched. */
  lemma {:induction false} FoldSkip(h: FieldMap, ws: seq<string>, rest: seq<string>)
    requires forall j :: 0 <= j < |ws| ==> TokenKey(ws[j]).None?
    ensures FoldWaitNtp(h, ws + rest) == FoldWaitNtp(h, rest)
    decreases |ws|
  {
    if ws != [] {
      assert (ws + rest)[0] == ws[0] && (ws + rest)[1..] == ws[1..] + rest;
      assert WaitNtpStep(h, ws[0]) == h;
      FoldSkip(h, ws[1..], rest);
    } else {
      assert ws + rest == rest;
    }
  }

  /** Seven space-free words joined by single spaces split back into the seven words. */
  lemma SevenWords(w1: string, w2: string, w3: string, w4: string, w5: string, w6: string, w7: string)
    requires ' ' !in w1 && ' ' !in w2 && ' ' !in w3 && ' ' !in w4 && ' ' !in w5 && ' ' !in w6 && ' ' !in w7
    ensures Split(w1 + " " + (w2 + " " + (w3 + " " + (w4 + " " + (w5 + " " + (w6 + " " + w7))))), " ")
         == [w1, w2, w3, w4, w5, w6, w7]
  {
    var z6 := w6 + " " + w7;
    var z5 := w5 + " " + z6;
    var z4 := w4 + " " + z5;
    var z3 := w3 + " " + z4;
    var z2 := w2 + " " + z3;
    NoCut(w7, ' ', 1);
    assert " " == [' '];
    var r6 := [w6] + [w7];
    var r5 := [w5] + r6;
    var r4 := [w4] + r5;
    var r3 := [w3] + r4;
    var r2 := [w2] + r3;
    SplitStep(w6, w7, [w7]);
    SplitStep(w5, z6, r6);
    SplitStep(w4, z5, r5);
    SplitStep(w3, z4, r4);
    SplitStep(w2, z3, r3);
    SplitStep(w1, z2, r2);
    Seven(w1, w2, w3, w4, w5, w6, w7);
  }

  lemma Seven(a: string, b: string, c: string, d: string, e: string, f: string, g: string)
    ensures [a] + ([b] + ([c] + ([d] + ([e] + ([f] + [g]))))) == [a, b, c, d, e, f, g]
  {
  }

  /** A space-free word and a space in front of a text add that word in front of its pieces. */
  lemma SplitStep(a: string, z: string, rest: seq<string>)
    requires ' ' !in a && Split(z, " ") == rest
    ensures Split(a + " " + z, " ") == [a] + rest
  {
    assert " " == [' '];
    CutAtFirst(a, ' ', z);
  }

  /**
   * A "waiting for NTP" loop remainder: the action token, five words that name no
   * field, then a sleep/wake token and an error-count token.
   */
  lemma WaitNtpOf(tok: string, w1: string, w2: string, w3: string, w4: string, w5: string,
                  s: string, e: string)
    requires ' ' !in tok && tok != [] && !IsWhitespace(tok[0]) && LoopAction(tok) == "no"
    requires ' ' !in w1 && ' ' !in w2 && ' ' !in w3 && ' ' !in w4 && ' ' !in w5 && ' ' !in s && ' ' !in e
    requires '=' !in w1 && '=' !in w2 && '=' !in w3 && '=' !in w4 && '=' !in w5
    requires w1 != [] && !IsWhitespace(w1[0]) && e != [] && !IsWhitespace(e[|e| - 1])
    requires TokenKey(s) == Some("sleepwakecycles") && TokenKey(e) == Some("ntperrors")
    ensures ParseToHashmap(Loop, " " + (tok + " " + (w1 + " " + (w2 + " " + (w3 + " " + (w4 + " " + (w5 + " " + (s + " " + e))))))))
         == map["action" := "waitntp", "sleepwakecycles" := TokenValue(s), "ntperrors" := TokenValue(e)]
  {
    var t := w1 + " " + (w2 + " " + (w3 + " " + (w4 + " " + (w5 + " " + (s + " " + e)))));
    WaitNtpEnds(w1, w2, w3, w4, w5, s, e);
    SevenWords(w1, w2, w3, w4, w5, s, e);
    WaitNtpScan(tok, t, [w1, w2, w3, w4, w5, s, e]);
    FoldWords(w1, w2, w3, w4, w5, s, e);
    CounterNames();
    PutFirst("action", "waitntp", "sleepwakecycles", TokenValue(s), "ntperrors", TokenValue(e));
  }

  /** The words joined by spaces start with the first word and end with the last. */
  lemma WaitNtpEnds(w1: string, w2: string, w3: string, w4: string, w5: string, s: string, e: string)
    requires w1 != [] && e != []
    ensures var t := w1 + " " + (w2 + " " + (w3 + " " + (w4 + " " + (w5 + " " + (s + " " + e)))));
      t != [] && t[0] == w1[0] && t[|t| - 1] == e[|e| - 1]
  {
  }

  /** A "waiting for NTP" remainder `<tok> <t>`: the scan of the words of `t`, then the action. */
  lemma WaitNtpScan(tok: string, t: string, toks: seq<string>)
    requires ' ' !in tok && tok != [] && !IsWhitespace(tok[0]) && LoopAction(tok) == "no"
    requires t != [] && !IsWhitespace(t[0]) && !IsWhitespace(t[|t| - 1])
    requires Split(t, " ") == toks
    ensures ParseToHashmap(Loop, " " + (tok + " " + t)) == FoldWaitNtp(map[], toks)["action" := "waitntp"]
  {
    LoopRemainder(tok, t);
    LoopOfTrim(" " + (tok + " " + t));
    WaitNtpUnfold(tok + " " + t);
  }

  lemma CounterNames()
    ensures "action" != "sleepwakecycles" && "action" != "ntperrors" && "sleepwakecycles" != "ntperrors"
  {
  }

  /** Five words that name no field, then the two counters: the scan keeps the two counters. */
  lemma FoldWords(w1: string, w2: string, w3: string, w4: string, w5: string, s: string, e: string)
    requires '=' !in w1 && '=' !in w2 && '=' !in w3 && '=' !in w4 && '=' !in w5
    requires TokenKey(s) == Some("sleepwakecycles") && TokenKey(e) == Some("ntperrors")
    ensures FoldWaitNtp(map[], [w1, w2, w3, w4, w5, s, e])
         == map["sleepwakecycles" := TokenValue(s), "ntperrors" := TokenValue(e)]
  {
    NoKey(w1); NoKey(w2); NoKey(w3); NoKey(w4); NoKey(w5);
    var ws := [w1, w2, w3, w4, w5];
    assert ws + [s, e] == [w1, w2, w3, w4, w5, s, e];
    FoldSkip(map[], ws, [s, e]);
    var m1: FieldMap := map["sleepwakecycles" := TokenValue(s)];
    assert WaitNtpStep(map[], s) == m1;
    assert [s, e][0] == s && [s, e][1..] == [e];
    assert FoldWaitNtp(map[], [s, e]) == FoldWaitNtp(m1, [e]);
    assert [e][0] == e && [e][1..] == [];
    assert FoldWaitNtp(m1, [e]) == FoldWaitNtp(m1["ntperrors" := TokenValue(e)], []);
  }

  /** `no` names the "waiting for NTP" action. */
  lemma NoToken(tok: string)
    requires tok == "no"
    ensures ' ' !in tok && tok != [] && !IsWhitespace(tok[0]) && LoopAction(tok) == "no"
  {
    assert AsciiLower(tok) == "no";
    ActionOfPlainToken(tok, "no");
  }

  /** `sleepWakeCycles=<v>` sets the sleep/wake count to `v`. */
  lemma SleepWakeOf(v: string)
    requires ' ' !in v
    ensures var s := "sleepWakeCycles=" + v; ' ' !in s && TokenKey(s) == Some("sleepwakecycles") && TokenValue(s) == v
  {
    var pat := "sleepWakeCycles=";
    var s := pat + v;
    SleepWakePat(pat);
    ContainsInfix("", pat, v);
    assert "" + pat + v == s;
    ValueOf("sleepWakeCycles", v);
  }

  lemma SleepWakePat(pat: string)
    requires pat == "sleepWakeCycles="
    ensures ' ' !in pat && '=' !in "sleepWakeCycles" && pat == "sleepWakeCycles" + "="
  {
  }

  /** `sleepWakeCycles=1` sets the sleep/wake count to `1`. */
  lemma SleepWakeToken(s: string)
    requires s == "sleepWakeCycles=1"
    ensures ' ' !in s && TokenKey(s) == Some("sleepwakecycles") && TokenValue(s) == "1"
  {
    assert s == "sleepWakeCycles=" + "1";
    SleepWakeOf("1");
  }

  /** `ntpErrors=<v>` sets the error count to `v`. */
  lemma NtpErrorsOf(v: string)
    requires ' ' !in v && 'W' !in v && v != [] && !IsWhitespace(v[|v| - 1])
    ensures var e := "ntpErrors=" + v; ' ' !in e && e != [] && !IsWhitespace(e[|e| - 1])
    ensures var e := "ntpErrors=" + v; TokenKey(e) == Some("ntperrors") && TokenValue(e) == v
  {
    var pat := "ntpErrors=";
    var e := pat + v;
    NtpErrorsPat(pat);
    assert e[|e| - 1] == v[|v| - 1];
    MissingChar(e, "sleepWakeCycles=", 5);
    ContainsInfix("", pat, v);
    assert "" + pat + v == e;
    ValueOf("ntpErrors", v);
  }

  lemma NtpErrorsPat(pat: string)
    requires pat == "ntpErrors="
    ensures ' ' !in pat && 'W' !in pat && "sleepWakeCycles="[5] == 'W'
    ensures '=' !in "ntpErrors" && pat == "ntpErrors" + "="
  {
  }

  /** `ntpErrors=2` sets the error count to `2`. */
  lemma NtpErrorsToken(e: string)
    requires e == "ntpErrors=2"
    ensures ' ' !in e && e != [] && !IsWhitespace(e[|e| - 1])
    ensures TokenKey(e) == Some("ntperrors") && TokenValue(e) == "2"
  {
    assert e == "ntpErrors=" + "2";
    NtpErrorsOf("2");
  }

  lemma WaitNtpText(id: string, w1: string, w2: string, w3: string, w4: string, w5: string)
    requires id == "Loop" && w1 == "NTP" && w2 == "initial" && w3 == "sync," && w4 == "waiting" && w5 == "..."
    ensures ':' !in id && KindOf(AsciiLower(id)) == Loop
    ensures ' ' !in w1 && ' ' !in w2 && ' ' !in w3 && ' ' !in w4 && ' ' !in w5
    ensures '=' !in w1 && '=' !in w2 && '=' !in w3 && '=' !in w4 && '=' !in w5
    ensures w1 != [] && !IsWhitespace(w1[0])
  {
    assert AsciiLower(id) == "loop";
  }

  lemma WaitNtpShape(id: string, tok: string, w1: string, w2: string, w3: string, w4: string, w5: string,
                     s: string, e: string)
    ensures id + ": " + tok + " " + w1 + " " + w2 + " " + w3 + " " + w4 + " " + w5 + " " + s + " " + e
         == id + ":" + (" " + (tok + " " + (w1 + " " + (w2 + " " + (w3 + " " + (w4 + " " + (w5 + " " + (s + " " + e))))))))
  {
  }

  /** `<host>: [4.07500] Loop: no NTP initial sync, waiting ... sleepWakeCycles=1 ntpErrors=2` */
  lemma WaitNtpLine(host: string, stamp: string, id: string, tok: string, w1: string, w2: string, w3: string,
                    w4: string, w5: string, s: string, e: string, isF32: string -> bool)
    requires host == "ESP_D427A9" && stamp == "4.07500" && isF32(stamp)
    requires id == "Loop" && tok == "no"
    requires w1 == "NTP" && w2 == "initial" && w3 == "sync," && w4 == "waiting" && w5 == "..."
    requires s == "sleepWakeCycles=1" && e == "ntpErrors=2"
    ensures ParseFromString(host + ": [" + stamp + "] "
              + (id + ": " + tok + " " + w1 + " " + w2 + " " + w3 + " " + w4 + " " + w5 + " " + s + " " + e), isF32)
         == Success(NetworkMsg(host, Bracketed(stamp),
              MessageContent(Loop, map["action" := "waitntp", "sleepwakecycles" := "1", "ntperrors" := "2"])))
  {
    HeaderText(host, stamp);
    WaitNtpText(id, w1, w2, w3, w4, w5);
    NoToken(tok);
    SleepWakeToken(s);
    NtpErrorsToken(e);
    WaitNtpShape(id, tok, w1, w2, w3, w4, w5, s, e);
    WaitNtpOf(tok, w1, w2, w3, w4, w5, s, e);
    ContentOf(id, " " + (tok + " " + (w1 + " " + (w2 + " " + (w3 + " " + (w4 + " " + (w5 + " " + (s + " " + e))))))));
    LineOf(host, stamp, id + ": " + tok + " " + w1 + " " + w2 + " " + w3 + " " + w4 + " " + w5 + " " + s + " " + e,
      MessageContent(Loop, map["action" := "waitntp", "sleepwakecycles" := "1", "ntperrors" := "2"]), isF32);
  }
}
