/**
 * The few `str` operations of Rust's standard library that the decoder is built
 * from, over `seq<char>`: `find`, `contains`, `splitn`, `split`, `trim`, ASCII
 * lower-casing and `replace(c, "")`. Indices are character positions; every
 * delimiter the decoder searches for is ASCII, so they agree with Rust's byte
 * offsets wherever the decoder slices.
 */
module RustStr {
  import opened Wrappers

  /** `pat` occurs in `s` starting at position `i`. */
  predicate OccursAt(s: string, pat: string, i: nat) {
    i + |pat| <= |s| && s[i..i + |pat|] == pat
  }

  /** Rust's `s.find(pat)`: the position of the leftmost occurrence of `pat`. */
  function Find(s: string, pat: string): (r: Option<nat>)
    ensures r.Some? ==> OccursAt(s, pat, r.value)
    ensures r.Some? ==> forall j :: 0 <= j < r.value ==> !OccursAt(s, pat, j)
    ensures r.None? ==> forall j :: 0 <= j <= |s| ==> !OccursAt(s, pat, j)
    decreases |s|
  {
    if |pat| <= |s| && s[..|pat|] == pat then Some(0)
    else if s == [] then None
    else
      ShiftOccurs(s, pat);
      match Find(s[1..], pat)
      case None => None
      case Some(i) => Some(i + 1)
  }

  /** An occurrence past the first character of `s` is one in `s[1..]`, one place earlier. */
  lemma ShiftOccurs(s: string, pat: string)
    requires s != []
    ensures forall j :: 1 <= j <= |s| ==> OccursAt(s, pat, j) == OccursAt(s[1..], pat, j - 1)
  {
    forall j | 1 <= j <= |s| ensures OccursAt(s, pat, j) == OccursAt(s[1..], pat, j - 1) {
      if j + |pat| <= |s| {
        SameSlice(s, 1, j - 1, |pat|);
      }
    }
  }

  /** A slice of a suffix is the slice of the whole text, shifted by where the suffix starts. */
  lemma SameSlice(s: string, a: nat, j: nat, n: nat)
    requires a + j + n <= |s|
    ensures s[a..][j..j + n] == s[a + j..a + j + n]
  {
    var u, v := s[a..][j..j + n], s[a + j..a + j + n];
    forall k | 0 <= k < n ensures u[k] == v[k] {
      assert s[a..][j + k] == s[a + j + k];
    }
  }

  /** Rust's `s.contains(pat)`, i.e. `s.find(pat).is_some()`. */
  predicate Contains(s: string, pat: string) {
    Find(s, pat).Some?
  }

  /** Containment is the existence of an occurrence, wherever it is. */
  lemma ContainsIff(s: string, pat: string, i: nat)
    requires OccursAt(s, pat, i)
    ensures Contains(s, pat) && Find(s, pat).value <= i
  {
  }

  /** For a one-character pattern, `contains` is sequence membership. */
  lemma {:induction false} ContainsChar(s: string, c: char)
    ensures Contains(s, [c]) <==> c in s
  {
    if c in s {
      var i :| 0 <= i < |s| && s[i] == c;
      assert s[i..i + 1] == [c];
      ContainsIff(s, [c], i);
    }
    if Contains(s, [c]) {
      var i := Find(s, [c]).value;
      assert s[i..i + 1] == [c];
      assert s[i] == c;
    }
  }

  /** No occurrence in front of position `i` means none inside the prefix `s[..i]`. */
  lemma PrefixHasNone(s: string, pat: string, i: nat)
    requires i <= |s|
    requires forall j :: 0 <= j < i ==> !OccursAt(s, pat, j)
    requires pat != []
    ensures !Contains(s[..i], pat)
  {
    if Contains(s[..i], pat) {
      var j := Find(s[..i], pat).value;
      assert s[..i][j..j + |pat|] == s[j..j + |pat|];
      assert OccursAt(s, pat, j);
    }
  }

  /** No occurrence that starts in front of position `b` means none inside `s[a..b]`. */
  lemma SliceHasNone(s: string, pat: string, a: nat, b: nat)
    requires a <= b <= |s|
    requires forall j :: 0 <= j < b ==> !OccursAt(s, pat, j)
    requires pat != []
    ensures !Contains(s[a..b], pat)
  {
    if Contains(s[a..b], pat) {
      var j := Find(s[a..b], pat).value;
      SliceOccurs(s, pat, a, b, j);
    }
  }

  /** An occurrence inside `s[a..b]` is one in `s`, shifted by `a`, that starts before `b`. */
  lemma SliceOccurs(s: string, pat: string, a: nat, b: nat, j: nat)
    requires a <= b <= |s| && pat != []
    ensures OccursAt(s[a..b], pat, j) ==> OccursAt(s, pat, a + j) && a + j < b
  {
    if OccursAt(s[a..b], pat, j) {
      SameSlice(s[..b], a, j, |pat|);
      assert s[..b][a..] == s[a..b];
      SameSlice(s, 0, a + j, |pat|);
      assert s[..b][a + j..a + j + |pat|] == s[a + j..a + j + |pat|];
    }
  }

  /** Searching a suffix that starts at or before the first occurrence finds that same occurrence. */
  lemma FindInSuffix(s: string, pat: string, a: nat)
    requires a <= |s|
    requires Find(s, pat).Some? ==> a <= Find(s, pat).value
    ensures Find(s[a..], pat).Some? <==> Find(s, pat).Some?
    ensures Find(s, pat).Some? ==> Find(s[a..], pat).value == Find(s, pat).value - a
  {
    if Find(s, pat).Some? {
      FoundInSuffix(s, pat, a);
    } else {
      MissingInSuffix(s, pat, a);
    }
  }

  lemma FoundInSuffix(s: string, pat: string, a: nat)
    requires a <= |s| && Find(s, pat).Some? && a <= Find(s, pat).value
    ensures Find(s[a..], pat).Some? && Find(s[a..], pat).value == Find(s, pat).value - a
  {
    var i := Find(s, pat).value;
    SuffixOccurs(s, pat, a, i - a);
    ContainsIff(s[a..], pat, i - a);
    var j := Find(s[a..], pat).value;
    SuffixOccurs(s, pat, a, j);
    ContainsIff(s, pat, a + j);
  }

  lemma MissingInSuffix(s: string, pat: string, a: nat)
    requires a <= |s| && Find(s, pat).None?
    ensures Find(s[a..], pat).None?
  {
    if Find(s[a..], pat).Some? {
      var j := Find(s[a..], pat).value;
      SuffixOccurs(s, pat, a, j);
      ContainsIff(s, pat, a + j);
    }
  }

  /** An occurrence in a suffix is one in the whole text, shifted by where the suffix starts. */
  lemma SuffixOccurs(s: string, pat: string, a: nat, j: nat)
    requires a <= |s|
    ensures OccursAt(s[a..], pat, j) == OccursAt(s, pat, a + j)
  {
    if a + j + |pat| <= |s| {
      SameSlice(s, a, j, |pat|);
    }
  }

  /** The first occurrence of a one-character pattern, when the text in front of it is free of it. */
  lemma FindFirstChar(a: string, c: char, rest: string)
    requires c !in a
    ensures Find(a + [c] + rest, [c]) == Some(|a|)
  {
    var s := a + [c] + rest;
    assert s[|a|..|a| + 1] == [c];
    forall j | 0 <= j < |a| ensures !OccursAt(s, [c], j) {
      assert s[j] == a[j];
    }
    ContainsIff(s, [c], |a|);
  }

  /** The first `c` of `s` is at `i` when `s[i]` is `c` and nothing before it is. */
  lemma FirstAt(s: string, c: char, i: nat)
    requires i < |s| && s[i] == c && c !in s[..i]
    ensures Find(s, [c]) == Some(i)
  {
    assert s == s[..i] + [c] + s[i + 1..];
    FindFirstChar(s[..i], c, s[i + 1..]);
  }

  /** Rust's `s.splitn(n, d)` for a non-empty delimiter and `n >= 1`, collected into a sequence. */
  function Splitn(s: string, n: nat, d: string): (r: seq<string>)
    requires n >= 1 && d != []
    ensures 1 <= |r| <= n
    ensures forall k :: 0 <= k < |r| - 1 ==> !Contains(r[k], d)
    ensures |r| < n ==> !Contains(r[|r| - 1], d)
    decreases n
  {
    if n == 1 then [s]
    else
      match Find(s, d)
      case None => [s]
      case Some(i) =>
        PrefixHasNone(s, d, i);
        [s[..i]] + Splitn(s[i + |d|..], n - 1, d)
  }

  /** Rust's `s.split(d)` for a non-empty delimiter: every piece, none of which holds `d`. */
  function Split(s: string, d: string): (r: seq<string>)
    requires d != []
    ensures |r| >= 1
    ensures forall k :: 0 <= k < |r| ==> !Contains(r[k], d)
    decreases |s|
  {
    match Find(s, d)
    case None => [s]
    case Some(i) =>
      PrefixHasNone(s, d, i);
      [s[..i]] + Split(s[i + |d|..], d)
  }

  /** Cutting `a + [c] + z` at its first `c`, when `a` holds none. */
  lemma CutAtFirst(a: string, c: char, z: string)
    requires c !in a
    ensures Contains(a + [c] + z, [c])
    ensures Before(a + [c] + z, [c]) == a && After(a + [c] + z, [c]) == z
    ensures Split(a + [c] + z, [c]) == [a] + Split(z, [c])
  {
    var s := a + [c] + z;
    FindFirstChar(a, c, z);
    assert s[..|a|] == a && s[|a| + 1..] == z;
  }

  /** `splitn` of `a + [c] + z` with `a` free of `c`: `a`, then the split of `z` into one piece fewer. */
  lemma SplitnCut(a: string, c: char, z: string, n: nat)
    requires c !in a && n >= 2
    ensures Splitn(a + [c] + z, n, [c]) == [a] + Splitn(z, n - 1, [c])
  {
    var s := a + [c] + z;
    FindFirstChar(a, c, z);
    assert s[..|a|] == a && s[|a| + 1..] == z;
  }

  /** `splitn` with room for two or more pieces cuts at the first delimiter and splits the rest with one piece less. */
  lemma SplitnStep(s: string, n: nat, d: string)
    requires n >= 2 && d != []
    ensures Contains(s, d) ==> Splitn(s, n, d) == [Before(s, d)] + Splitn(After(s, d), n - 1, d)
    ensures !Contains(s, d) ==> Splitn(s, n, d) == [s]
  {
  }

  /** A text free of `c` is a single piece. */
  lemma NoCut(s: string, c: char, n: nat)
    requires c !in s && n >= 1
    ensures Splitn(s, n, [c]) == [s] && Split(s, [c]) == [s]
  {
    ContainsChar(s, c);
  }

  /** A pattern with a character the text lacks does not occur in it. */
  lemma MissingChar(s: string, pat: string, i: nat)
    requires i < |pat| && pat[i] !in s
    ensures !Contains(s, pat)
  {
  }

  /** A pattern occurs in any text that has it as an infix. */
  lemma ContainsInfix(x: string, pat: string, y: string)
    ensures Contains(x + pat + y, pat)
  {
    var s := x + pat + y;
    assert s[|x|..|x| + |pat|] == pat;
    ContainsIff(s, pat, |x|);
  }

  /** A pattern found in a middle part is found in the whole. */
  lemma ContainsWithin(x: string, mid: string, y: string, pat: string)
    requires Contains(mid, pat)
    ensures Contains(x + mid + y, pat)
  {
    var j := Find(mid, pat).value;
    var s := x + mid + y;
    assert s[|x| + j..|x| + j + |pat|] == mid[j..j + |pat|];
    ContainsIff(s, pat, |x| + j);
  }

  /** The pieces glued back together with the delimiter between them. */
  function Join(ps: seq<string>, d: string): string {
    if |ps| == 0 then []
    else if |ps| == 1 then ps[0]
    else ps[0] + d + Join(ps[1..], d)
  }

  /** Joining the pieces of `splitn` with its delimiter gives back the input. */
  lemma {:induction false} SplitnJoin(s: string, n: nat, d: string)
    requires n >= 1 && d != []
    ensures Join(Splitn(s, n, d), d) == s
    decreases n
  {
    var f := Find(s, d);
    var parts := Splitn(s, n, d);
    if n > 1 && f.Some? {
      var i := f.value;
      var rest := Splitn(s[i + |d|..], n - 1, d);
      assert parts == [s[..i]] + rest;
      SplitnJoin(s[i + |d|..], n - 1, d);
      assert Join(rest, d) == s[i + |d|..];
      JoinCons(s[..i], rest, d);
      assert Join(parts, d) == s[..i] + d + s[i + |d|..];
      CutAround(s, d, i);
    } else {
      assert parts == [s];
    }
  }

  /** Joining the pieces of `split` with its delimiter gives back the input. */
  lemma {:induction false} SplitJoin(s: string, d: string)
    requires d != []
    ensures Join(Split(s, d), d) == s
    decreases |s|
  {
    match Find(s, d)
    case None =>
    case Some(i) =>
      SplitJoin(s[i + |d|..], d);
      JoinCons(s[..i], Split(s[i + |d|..], d), d);
      CutAround(s, d, i);
  }

  lemma JoinCons(x: string, rest: seq<string>, d: string)
    requires |rest| >= 1
    ensures Join([x] + rest, d) == x + d + Join(rest, d)
  {
    assert ([x] + rest)[1..] == rest;
  }

  /** Cutting out an occurrence of `d` and putting it back gives the input. */
  lemma CutAround(s: string, d: string, i: nat)
    requires OccursAt(s, d, i)
    ensures s[..i] + d + s[i + |d|..] == s
  {
    assert s == s[..i] + s[i..i + |d|] + s[i + |d|..];
  }

  /** The last element of a non-empty sequence (Rust's `Iterator::last` on a fresh `splitn`). */
  function Last<T>(ps: seq<T>): T
    requires |ps| >= 1
  {
    ps[|ps| - 1]
  }

  /** The text before the first occurrence of `d`, or all of `s` when there is none. */
  function Before(s: string, d: string): (r: string)
    ensures |r| <= |s| && r == s[..|r|]
    ensures d != [] ==> !Contains(r, d)
  {
    match Find(s, d)
    case None => s
    case Some(i) =>
      if d != [] then PrefixHasNone(s, d, i); s[..i]
      else s[..i]
  }

  /** The text after the first occurrence of `d`. */
  function After(s: string, d: string): (r: string)
    requires Contains(s, d)
    ensures s == Before(s, d) + d + r
  {
    var i := Find(s, d).value;
    assert Before(s, d) == s[..i];
    assert s[i..i + |d|] == d;
    assert s == s[..i] + s[i..i + |d|] + s[i + |d|..];
    s[i + |d|..]
  }

  /** With at most two pieces, `splitn` is the text before and after the first delimiter. */
  lemma SplitnTwo(s: string, d: string)
    requires d != []
    ensures Splitn(s, 2, d)[0] == Before(s, d)
    ensures |Splitn(s, 2, d)| == 2 <==> Contains(s, d)
    ensures Contains(s, d) ==> Splitn(s, 2, d)[1] == After(s, d)
  {
  }

  /** The characters Rust's `char::is_whitespace` accepts (Unicode property White_Space). */
  predicate IsWhitespace(c: char) {
    var n := c as int;
    (0x09 <= n <= 0x0D) || n == 0x20 || n == 0x85 || n == 0xA0 || n == 0x1680
    || (0x2000 <= n <= 0x200A) || n == 0x2028 || n == 0x2029 || n == 0x202F
    || n == 0x205F || n == 0x3000
  }

  /** Rust's `trim_start`: `s` without its maximal whitespace prefix. */
  function TrimStart(s: string): (r: string)
    ensures |r| <= |s| && r == s[|s| - |r|..]
    ensures forall k :: 0 <= k < |s| - |r| ==> IsWhitespace(s[k])
    ensures r == [] || !IsWhitespace(r[0])
    decreases |s|
  {
    if s != [] && IsWhitespace(s[0]) then TrimStart(s[1..]) else s
  }

  /** Rust's `trim_end`: `s` without its maximal whitespace suffix. */
  function TrimEnd(s: string): (r: string)
    ensures |r| <= |s| && r == s[..|r|]
    ensures forall k :: |r| <= k < |s| ==> IsWhitespace(s[k])
    ensures r == [] || !IsWhitespace(r[|r| - 1])
    decreases |s|
  {
    if s != [] && IsWhitespace(s[|s| - 1]) then TrimEnd(s[..|s| - 1]) else s
  }

  /** `r` is `s` with `i` whitespace characters cut from the front and only whitespace cut from the back. */
  ghost predicate TrimmedAt(s: string, r: string, i: nat) {
    && i + |r| <= |s|
    && r == s[i..i + |r|]
    && (forall k :: 0 <= k < i ==> IsWhitespace(s[k]))
    && (forall k :: i + |r| <= k < |s| ==> IsWhitespace(s[k]))
  }

  /** Rust's `trim`: no whitespace at either end, and only whitespace was removed. */
  function Trim(s: string): (r: string)
    ensures r == [] || (!IsWhitespace(r[0]) && !IsWhitespace(r[|r| - 1]))
    ensures exists i :: TrimmedAt(s, r, i)
  {
    var t := TrimStart(s);
    var r := TrimEnd(t);
    assert TrimmedAt(s, r, |s| - |t|) by {
      assert t[..|r|] == s[|s| - |t|..|s| - |t| + |r|];
      forall k | |s| - |t| + |r| <= k < |s| ensures IsWhitespace(s[k]) {
        assert s[k] == t[k - (|s| - |t|)];
      }
    }
    r
  }

  /** A string with no whitespace at either end is its own trim. */
  lemma TrimOfTrimmed(s: string)
    requires s == [] || (!IsWhitespace(s[0]) && !IsWhitespace(s[|s| - 1]))
    ensures Trim(s) == s
  {
  }

  /** Trimming twice is trimming once. */
  lemma TrimIdempotent(s: string)
    ensures Trim(Trim(s)) == Trim(s)
  {
    TrimOfTrimmed(Trim(s));
  }

  predicate IsAsciiUpper(c: char) {
    'A' <= c <= 'Z'
  }

  /** ASCII lower-casing of one character. */
  function LowerChar(c: char): (r: char)
    ensures !IsAsciiUpper(r)
    ensures r == c || (IsAsciiUpper(c) && r as int == c as int + 32)
  {
    if IsAsciiUpper(c) then (c as int + 32) as char else c
  }

  /** `to_lowercase`, restricted to ASCII letters: same length, no upper-case ASCII left. */
  function AsciiLower(s: string): (r: string)
    ensures |r| == |s|
    ensures forall k :: 0 <= k < |s| ==> r[k] == LowerChar(s[k])
    ensures forall k :: 0 <= k < |r| ==> !IsAsciiUpper(r[k])
  {
    seq(|s|, k requires 0 <= k < |s| => LowerChar(s[k]))
  }

  /** Rust's `s.replace(c, "")` for a one-character `c`: every `c` removed, all else kept in order. */
  function RemoveChar(s: string, c: char): (r: string)
    ensures c !in r
    ensures |r| <= |s|
  {
    if s == [] then []
    else if s[0] == c then RemoveChar(s[1..], c)
    else [s[0]] + RemoveChar(s[1..], c)
  }

  /** `replace` keeps every other character, as often as it occurred. */
  lemma {:induction false} RemoveCharKeeps(s: string, c: char)
    ensures multiset(RemoveChar(s, c)) == multiset(s)[c := 0]
  {
    if s != [] {
      RemoveCharKeeps(s[1..], c);
      var m, t := multiset(s[1..]), RemoveChar(s[1..], c);
      assert s == [s[0]] + s[1..];
      assert multiset(s) == m + multiset{s[0]};
      DropAdded(m, s[0], c);
      if s[0] != c {
        assert RemoveChar(s, c) == [s[0]] + t;
        assert multiset(RemoveChar(s, c)) == multiset(t) + multiset{s[0]};
      } else {
        assert RemoveChar(s, c) == t;
      }
    }
  }

  /**
   * `replace` works character by character and keeps the order: removing from a
   * concatenation is concatenating the removals, and a single character is
   * dropped exactly when it is `c`.
   */
  lemma {:induction false} RemoveCharConcat(a: string, b: string, c: char)
    ensures RemoveChar(a + b, c) == RemoveChar(a, c) + RemoveChar(b, c)
  {
    if a == [] {
      assert a + b == b;
    } else {
      RemoveCharConcat(a[1..], b, c);
      ConsSplit(a, b);
      RemoveCharStep(a[0], a[1..], b, c);
    }
  }

  /** One step of the induction: the first character of `[x] + t` joins or leaves both sides alike. */
  lemma RemoveCharStep(x: char, t: string, b: string, c: char)
    requires RemoveChar(t + b, c) == RemoveChar(t, c) + RemoveChar(b, c)
    ensures RemoveChar([x] + (t + b), c) == RemoveChar([x] + t, c) + RemoveChar(b, c)
  {
    var rt, rb := RemoveChar(t, c), RemoveChar(b, c);
    if x == c {
      RemoveCharDrop(x, t, c);
      RemoveCharDrop(x, t + b, c);
    } else {
      RemoveCharKeep(x, t, c);
      RemoveCharKeep(x, t + b, c);
      assert [x] + (rt + rb) == ([x] + rt) + rb;
    }
  }

  lemma RemoveCharDrop(x: char, s: string, c: char)
    requires x == c
    ensures RemoveChar([x] + s, c) == RemoveChar(s, c)
  {
    RemoveCharCons(x, s, c);
  }

  lemma RemoveCharKeep(x: char, s: string, c: char)
    requires x != c
    ensures RemoveChar([x] + s, c) == [x] + RemoveChar(s, c)
  {
    RemoveCharCons(x, s, c);
  }

  /** Removing from a text with a first character `x`: `x` stays in front unless it is `c`. */
  lemma RemoveCharCons(x: char, s: string, c: char)
    ensures RemoveChar([x] + s, c) == if x == c then RemoveChar(s, c) else [x] + RemoveChar(s, c)
  {
    assert ([x] + s)[0] == x && ([x] + s)[1..] == s;
  }

  lemma ConsSplit(a: string, b: string)
    requires a != []
    ensures a == [a[0]] + a[1..] && a + b == [a[0]] + (a[1..] + b)
  {
  }

  lemma RemoveCharOne(x: char, c: char)
    ensures RemoveChar([x], c) == if x == c then [] else [x]
  {
    assert [x][1..] == [];
  }

  /** Dropping every `c` after adding one `x`: `x` survives unless it is `c`. */
  lemma DropAdded(m: multiset<char>, x: char, c: char)
    ensures (m + multiset{x})[c := 0] == if x == c then m[c := 0] else m[c := 0] + multiset{x}
  {
    var l, r := (m + multiset{x})[c := 0], if x == c then m[c := 0] else m[c := 0] + multiset{x};
    forall y ensures l[y] == r[y] {
    }
  }

  /** Removing a character that ends the text, and occurs nowhere before, leaves the rest untouched. */
  lemma {:induction false} RemoveCharLast(a: string, c: char)
    requires c !in a
    ensures RemoveChar(a + [c], c) == a
  {
    if a == [] {
      assert RemoveChar([c], c) == RemoveChar([], c);
    } else {
      RemoveCharLast(a[1..], c);
      assert (a + [c])[1..] == a[1..] + [c];
      assert a == [a[0]] + a[1..];
    }
  }

  /** Removing a character that does not occur changes nothing. */
  lemma {:induction false} RemoveCharAbsent(s: string, c: char)
    requires c !in s
    ensures RemoveChar(s, c) == s
  {
    if s != [] {
      RemoveCharAbsent(s[1..], c);
      assert s == [s[0]] + s[1..];
    }
  }
}
