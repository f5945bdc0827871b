/**
 * The command-line helpers of the collector: the `-v` count becomes a logging
 * level, the `--port` text a UDP port (8899 when absent or unreadable), and the
 * `--mcast` text a multicast group address (239.0.0.1 when absent or unreadable).
 *
 * The port text is read as Rust's `str::parse::<u16>` reads it: an optional
 * leading `+`, then one or more ASCII digits, accumulated left to right with an
 * overflow check at every step. The IPv4 and IPv6 address grammars are the
 * standard library's and are taken as parameters.
 */
module Args {
  import opened Wrappers

  newtype u8 = x: int | 0 <= x < 0x100
  newtype u16 = x: int | 0 <= x < 0x1_0000
  newtype u64 = x: int | 0 <= x < 0x1_0000_0000_0000_0000

  /** The logging levels, most verbose first. */
  datatype VerbosityLevel = DEBUG | INFO | WARN | ERROR

  /** The explicit discriminants of the enum: DEBUG = 0 up to ERROR = 3. */
  function Discriminant(l: VerbosityLevel): (d: nat)
    ensures d <= 3
  {
    match l
    case DEBUG => 0
    case INFO => 1
    case WARN => 2
    case ERROR => 3
  }

  /** Distinct levels have distinct discriminants. */
  lemma DiscriminantInjective(l: VerbosityLevel, m: VerbosityLevel)
    ensures Discriminant(l) == Discriminant(m) ==> l == m
  {
  }

  /** Each `-v` makes the level one step more verbose, down to DEBUG. */
  function ToVerbosityLevel(occ: u64): (l: VerbosityLevel)
    ensures Discriminant(l) == if occ >= 3 then 0 else 3 - occ as int
  {
    match occ
    case 0 => ERROR
    case 1 => WARN
    case 2 => INFO
    case 3 => DEBUG
    case _ => DEBUG
  }

  /** More `-v` flags never give a less verbose level. */
  lemma MoreFlagsMoreVerbose(a: u64, b: u64)
    requires a <= b
    ensures Discriminant(ToVerbosityLevel(b)) <= Discriminant(ToVerbosityLevel(a))
  {
  }

  /** The level of `n` flags: ERROR, WARN, INFO for 0, 1, 2 and DEBUG from 3 on. */
  lemma VerbosityTable(occ: u64)
    ensures occ == 0 ==> ToVerbosityLevel(occ) == ERROR
    ensures occ == 1 ==> ToVerbosityLevel(occ) == WARN
    ensures occ == 2 ==> ToVerbosityLevel(occ) == INFO
    ensures occ >= 3 ==> ToVerbosityLevel(occ) == DEBUG
  {
    DiscriminantInjective(ToVerbosityLevel(occ), DEBUG);
    DiscriminantInjective(ToVerbosityLevel(occ), INFO);
    DiscriminantInjective(ToVerbosityLevel(occ), WARN);
    DiscriminantInjective(ToVerbosityLevel(occ), ERROR);
  }

  // ---------------------------------------------------------------- ports

  const DEFAULT_PORT: u16 := 8899

  predicate IsDigit(c: char) {
    '0' <= c <= '9'
  }

  function DigitValue(c: char): (v: nat)
    requires IsDigit(c)
    ensures v <= 9
  {
    c as int - '0' as int
  }

  /** Every character of `ds` is an ASCII digit. */
  predicate AllDigits(ds: string) {
    forall i :: 0 <= i < |ds| ==> IsDigit(ds[i])
  }

  /** The number a digit string denotes, read as a mathematical integer. */
  function DecimalValue(ds: string): nat
    requires AllDigits(ds)
  {
    if ds == [] then 0
    else DecimalValue(ds[..|ds| - 1]) * 10 + DigitValue(ds[|ds| - 1])
  }

  /** Ten to the `n`. */
  function Pow10(n: nat): (p: nat)
    ensures p >= 1
  {
    if n == 0 then 1 else 10 * Pow10(n - 1)
  }

  /**
   * The digit loop of `u16::from_str`: `acc * 10 + digit` for each character,
   * giving up on a non-digit or as soon as a step leaves the `u16` range.
   */
  function AccumulateDigits(ds: string, acc: u16): (r: Option<u16>)
    decreases |ds|
  {
    if ds == [] then Some(acc)
    else if !IsDigit(ds[0]) then None
    else
      var next := acc as int * 10 + DigitValue(ds[0]);
      if next < 0x1_0000 then AccumulateDigits(ds[1..], next as u16) else None
  }

  /**
   * Rust's `str::parse::<u16>`: the empty text, a lone `+`, and anything else
   * that is not an optional `+` followed by digits of a value below 65536 is an
   * error.
   */
  function ParseU16(s: string): (r: Option<u16>)
    ensures r.Some? ==> s != [] && s != "+"
  {
    if s == [] then None
    else
      var digits := if s[0] == '+' then s[1..] else s;
      if digits == [] then None else AccumulateDigits(digits, 0)
  }

  /** Prefixing digits scales the value: `prefix ++ ds` is `prefix * 10^|ds| + ds`. */
  lemma {:induction false} DecimalAppend(prefix: string, ds: string)
    requires AllDigits(prefix) && AllDigits(ds)
    ensures AllDigits(prefix + ds)
    ensures DecimalValue(prefix + ds) == DecimalValue(prefix) * Pow10(|ds|) + DecimalValue(ds)
    decreases |ds|
  {
    DigitsAppend(prefix, ds);
    if ds != [] {
      var init := ds[..|ds| - 1];
      DecimalAppend(prefix, init);
      assert (prefix + ds)[..|prefix + ds| - 1] == prefix + init;
      assert (prefix + ds)[|prefix + ds| - 1] == ds[|ds| - 1];
      var p, q, v, d := DecimalValue(prefix), Pow10(|init|), DecimalValue(init), DigitValue(ds[|ds| - 1]);
      assert DecimalValue(prefix + ds) == (p * q + v) * 10 + d;
      assert DecimalValue(ds) == v * 10 + d;
      assert Pow10(|ds|) == q * 10;
      Regroup(p, q, v, d);
    } else {
      assert prefix + ds == prefix;
    }
  }

  lemma DigitsAppend(prefix: string, ds: string)
    requires AllDigits(prefix) && AllDigits(ds)
    ensures AllDigits(prefix + ds)
  {
    var s := prefix + ds;
    forall i | 0 <= i < |s| ensures IsDigit(s[i]) {
      if i >= |prefix| {
        assert s[i] == ds[i - |prefix|];
      }
    }
  }

  lemma Regroup(p: int, q: int, v: int, d: int)
    ensures (p * q + v) * 10 + d == p * (q * 10) + (v * 10 + d)
  {
  }

  /** The value of a leading digit and the rest. */
  lemma DecimalCons(ds: string)
    requires ds != [] && AllDigits(ds)
    ensures DecimalValue(ds) == DigitValue(ds[0]) * Pow10(|ds| - 1) + DecimalValue(ds[1..])
  {
    var head, rest := [ds[0]], ds[1..];
    assert ds == head + rest;
    assert head[..0] == [];
    assert DecimalValue(head) == DigitValue(ds[0]);
    DecimalAppend(head, rest);
  }

  /** Leading digit `d` in front of `acc`, scaled: the arithmetic step of the digit loop. */
  lemma ShiftDigit(acc: int, d: int, p: int, v: int)
    ensures acc * (10 * p) + (d * p + v) == (acc * 10 + d) * p + v
  {
  }

  /** Scaling by a positive power keeps a non-negative number at least as large. */
  lemma ScaleUp(n: int, p: int, v: int)
    requires n >= 0 && p >= 1 && v >= 0
    ensures n * p + v >= n
  {
  }

  /**
   * The digit loop succeeds exactly on digit strings whose value, with `acc` in
   * front, fits in a `u16`, and then yields that value: checking at every step
   * rejects the same texts as checking at the end.
   */
  lemma {:induction false} AccumulateIsDecimal(ds: string, acc: u16)
    ensures AccumulateDigits(ds, acc).Some?
        <==> AllDigits(ds) && acc as int * Pow10(|ds|) + DecimalValue(ds) < 0x1_0000
    ensures AccumulateDigits(ds, acc).Some?
        ==> AccumulateDigits(ds, acc).value as int == acc as int * Pow10(|ds|) + DecimalValue(ds)
    decreases |ds|
  {
    if ds != [] && IsDigit(ds[0]) {
      var d := DigitValue(ds[0]);
      var next := acc as int * 10 + d;
      var rest := ds[1..];
      var p := Pow10(|rest|);
      assert Pow10(|ds|) == 10 * p;
      assert AllDigits(ds) <==> AllDigits(rest) by {
        assert forall i :: 1 <= i < |ds| ==> ds[i] == rest[i - 1];
      }
      if AllDigits(ds) {
        DecimalCons(ds);
        ShiftDigit(acc as int, d, p, DecimalValue(rest));
        assert acc as int * Pow10(|ds|) + DecimalValue(ds) == next * p + DecimalValue(rest);
      }
      if next < 0x1_0000 {
        assert AccumulateDigits(ds, acc) == AccumulateDigits(rest, next as u16);
        AccumulateIsDecimal(rest, next as u16);
      } else {
        assert AccumulateDigits(ds, acc) == None;
        if AllDigits(ds) {
          ScaleUp(next, p, DecimalValue(rest));
        }
      }
    } else if ds != [] {
      assert !AllDigits(ds);
    }
  }

  /** `parse::<u16>` in terms of the number the text denotes. */
  lemma ParseU16Meaning(s: string)
    ensures var digits := if s != [] && s[0] == '+' then s[1..] else s;
      && (ParseU16(s).Some? <==> digits != [] && AllDigits(digits) && DecimalValue(digits) < 0x1_0000)
      && (ParseU16(s).Some? ==> ParseU16(s).value as int == DecimalValue(digits))
  {
    var digits := if s != [] && s[0] == '+' then s[1..] else s;
    AccumulateIsDecimal(digits, 0);
  }

  /** The shortest decimal text of `n`: no leading zero, "0" for zero. */
  function ToDecimal(n: nat): (ds: string)
    ensures ds != [] && AllDigits(ds)
    ensures DecimalValue(ds) == n
    ensures |ds| > 1 ==> ds[0] != '0'
  {
    var last := ['0' + (n % 10) as char];
    if n < 10 then last
    else
      var init := ToDecimal(n / 10);
      DecimalAppend(init, last);
      assert (init + last)[0] == init[0];
      init + last
  }

  /**
   * `to_port`: the text, or "8899" when there is none, parsed as a `u16`, and
   * 8899 when that fails; equivalently the parsed text when it parses and 8899
   * otherwise.
   */
  function ToPort(o: Option<string>): (p: u16)
    ensures o.Some? && ParseU16(o.value).Some? ==> p == ParseU16(o.value).value
    ensures o.None? || ParseU16(o.value).None? ==> p == DEFAULT_PORT
  {
    ParseDefaultPort();
    match ParseU16(o.GetOr(ToDecimal(DEFAULT_PORT as nat)))
    case Some(rv) => rv
    case None => DEFAULT_PORT
  }

  /** The default text "8899" reads back as 8899. */
  lemma ParseDefaultPort()
    ensures ToDecimal(DEFAULT_PORT as nat) == "8899"
    ensures ParseU16(ToDecimal(DEFAULT_PORT as nat)) == Some(DEFAULT_PORT)
  {
    PortRoundTrip(DEFAULT_PORT);
  }

  /** Every port, written in decimal (with or without a leading `+`), reads back as itself. */
  lemma PortRoundTrip(v: u16)
    ensures ParseU16(ToDecimal(v as nat)) == Some(v)
    ensures ParseU16("+" + ToDecimal(v as nat)) == Some(v)
  {
    var ds := ToDecimal(v as nat);
    ParseU16Meaning(ds);
    ParseU16Meaning("+" + ds);
    assert ("+" + ds)[1..] == ds;
  }

  /** `to_port` of a port written in decimal is that port. */
  lemma ToPortRoundTrip(v: u16)
    ensures ToPort(Some(ToDecimal(v as nat))) == v
  {
    PortRoundTrip(v);
  }

  /**
   * `to_port` falls back to 8899 on the empty text, on a lone `+`, on a text
   * with a character that is neither a digit nor the one leading `+`, and on a
   * value of 65536 or more.
   */
  lemma ToPortFallback(s: string)
    requires var digits := if s != [] && s[0] == '+' then s[1..] else s;
      digits == [] || !AllDigits(digits) || DecimalValue(digits) >= 0x1_0000
    ensures ToPort(Some(s)) == DEFAULT_PORT
  {
    ParseU16Meaning(s);
  }

  /** The port examples: "xxx" falls back to 8899, "8899" and "1234" read as themselves. */
  lemma PortExamples()
    ensures ToPort(Some("xxx")) == 8899
    ensures ToPort(Some("8899")) == 8899
    ensures ToPort(Some("1234")) == 1234
    ensures ToPort(None) == 8899
  {
    assert !IsDigit("xxx"[0]);
    ToPortFallback("xxx");
    ParseDefaultPort();
    ToPortRoundTrip(1234);
  }

  // ---------------------------------------------------------------- addresses

  datatype Ipv4Addr = Ipv4Addr(a: u8, b: u8, c: u8, d: u8)

  /** The eight 16-bit segments of an IPv6 address. */
  type Ipv6Addr = s: seq<u16> | |s| == 8 witness [0, 0, 0, 0, 0, 0, 0, 0]

  datatype IpAddr = V4(v4: Ipv4Addr) | V6(v6: Ipv6Addr)

  /** The multicast group joined when none is given: 239.0.0.1. */
  const DEFAULT_GROUP: IpAddr := V4(Ipv4Addr(239, 0, 0, 1))

  /** An IPv4 multicast address: first octet 224 to 239 (224.0.0.0/4). */
  predicate IsIpv4Multicast(a: Ipv4Addr) {
    224 <= a.a <= 239
  }

  /** The default group is an IPv4 multicast address, in the organisation-local 239/8 range. */
  lemma DefaultGroupIsMulticast()
    ensures DEFAULT_GROUP.V4? && IsIpv4Multicast(DEFAULT_GROUP.v4) && DEFAULT_GROUP.v4.a == 239
  {
  }

  /**
   * `to_ip_addr`: the text read as IPv6 if it is one, else as IPv4 if it is
   * one, else the default group; the default group also when there is no text.
   * `parseV6` and `parseV4` stand for `Ipv6Addr::from_str` and `Ipv4Addr::from_str`.
   */
  function ToIpAddr(o: Option<string>, parseV6: string -> Option<Ipv6Addr>,
                    parseV4: string -> Option<Ipv4Addr>): (r: IpAddr)
    ensures o.None? ==> r == DEFAULT_GROUP
    ensures o.Some? && parseV6(o.value).Some? ==> r == V6(parseV6(o.value).value)
    ensures o.Some? && parseV6(o.value).None? && parseV4(o.value).Some?
         ==> r == V4(parseV4(o.value).value)
    ensures o.Some? && parseV6(o.value).None? && parseV4(o.value).None? ==> r == DEFAULT_GROUP
  {
    match o
    case Some(ipStr) =>
      if parseV6(ipStr).Some? then V6(parseV6(ipStr).value)
      else if parseV4(ipStr).Some? then V4(parseV4(ipStr).value)
      else DEFAULT_GROUP
    case None => DEFAULT_GROUP
  }

  /**
   * Whatever the text, the result is the default group or an address the text
   * itself denotes; an IPv6 result only from a text that reads as IPv6, an IPv4
   * result other than the default only from a text that reads as IPv4 and not as IPv6.
   */
  lemma IpAddrOrigin(o: Option<string>, parseV6: string -> Option<Ipv6Addr>,
                     parseV4: string -> Option<Ipv4Addr>)
    ensures var r := ToIpAddr(o, parseV6, parseV4);
      && (r.V6? ==> o.Some? && parseV6(o.value) == Some(r.v6))
      && (r.V4? && r != DEFAULT_GROUP ==> o.Some? && parseV6(o.value).None? && parseV4(o.value) == Some(r.v4))
  {
  }
}
