/**
 * The parts of Go's `strings`, `path/filepath` and `fmt` packages the packer relies on,
 * over `string` (one character per byte of the Go string).
 */
module Text {

  /** A Go `[]string`, for the places where the source tells a nil slice from an empty one. */
  datatype StringSlice = Nil | Slice(elems: seq<string>) {
    /** The elements; a nil slice has none (Go's `len(nil) == 0`). */
    function Items(): seq<string> {
      if Nil? then [] else elems
    }
  }

  predicate NoDuplicates<T(==)>(s: seq<T>) {
    forall i, j :: 0 <= i < j < |s| ==> s[i] != s[j]
  }

  // ---------------------------------------------------------------- prefixes and suffixes

  /** strings.HasPrefix */
  predicate HasPrefix(s: string, prefix: string) {
    |prefix| <= |s| && s[..|prefix|] == prefix
  }

  /** A string is a prefix of itself followed by anything. */
  lemma PrefixOfAppend(a: string, b: string)
    ensures HasPrefix(a + b, a)
  {
    assert (a + b)[..|a|] == a;
  }

  lemma PrefixTransitive(a: string, b: string, c: string)
    requires HasPrefix(b, a) && HasPrefix(c, b)
    ensures HasPrefix(c, a)
  {
    assert c[..|a|] == c[..|b|][..|a|];
  }

  /** strings.HasSuffix */
  predicate HasSuffix(s: string, suffix: string) {
    |suffix| <= |s| && s[|s| - |suffix|..] == suffix
  }

  /** strings.Contains: `sub` occurs at some position of `s`. */
  predicate Contains(s: string, sub: string)
    decreases |s|
  {
    HasPrefix(s, sub) || (s != [] && Contains(s[1..], sub))
  }

  /** strings.TrimPrefix */
  function TrimPrefix(s: string, prefix: string): (r: string)
    ensures HasPrefix(s, prefix) ==> s == prefix + r
    ensures !HasPrefix(s, prefix) ==> r == s
  {
    if HasPrefix(s, prefix) then s[|prefix|..] else s
  }

  lemma {:induction false} ContainsAt(s: string, sub: string, i: nat)
    requires i + |sub| <= |s| && s[i..i + |sub|] == sub
    ensures Contains(s, sub)
    decreases i
  {
    if i > 0 {
      assert s[1..][i - 1..i - 1 + |sub|] == s[i..i + |sub|];
      ContainsAt(s[1..], sub, i - 1);
    }
  }

  /** Every character of a contained string occurs in the containing one. */
  lemma {:induction false} ContainedCharsOccur(s: string, sub: string, i: nat)
    requires Contains(s, sub) && i < |sub|
    ensures sub[i] in s
    decreases |s|
  {
    if HasPrefix(s, sub) {
      assert s[i] == sub[i];
    } else {
      ContainedCharsOccur(s[1..], sub, i);
      assert s[1..] == s[1..|s|];
    }
  }

  lemma {:induction false} SuffixContained(s: string, sub: string)
    requires HasSuffix(s, sub)
    ensures Contains(s, sub)
  {
    ContainsAt(s, sub, |s| - |sub|);
  }

  // ---------------------------------------------------------------- case

  predicate IsUpper(c: char) {
    'A' <= c <= 'Z'
  }

  /** ASCII lower-casing of one character. */
  function LowerChar(c: char): (r: char)
    ensures !IsUpper(r)
    ensures !IsUpper(c) ==> r == c
    ensures IsUpper(c) ==> r as int == c as int + 32
  {
    if IsUpper(c) then (c as int + 32) as char else c
  }

  predicate IsLowerCase(s: string) {
    forall i :: 0 <= i < |s| ==> !IsUpper(s[i])
  }

  /** strings.ToLower, restricted to ASCII letters. */
  function ToLower(s: string): (r: string)
    ensures |r| == |s| && IsLowerCase(r)
    ensures forall i :: 0 <= i < |s| ==> r[i] == LowerChar(s[i])
  {
    seq(|s|, i requires 0 <= i < |s| => LowerChar(s[i]))
  }

  // ---------------------------------------------------------------- white space

  /**
   * The bytes strings.Fields and strings.TrimSpace treat as white space: tab, line feed,
   * vertical tab, form feed, carriage return and space.
   */
  predicate IsSpace(c: char) {
    var n := c as int;
    (9 <= n <= 13) || n == 32
  }

  predicate NoSpace(s: string) {
    forall i :: 0 <= i < |s| ==> !IsSpace(s[i])
  }

  /** Length of the longest prefix of `s` without white space. */
  function NonSpaceRun(s: string): (n: nat)
    ensures n <= |s|
    ensures NoSpace(s[..n])
    ensures n < |s| ==> IsSpace(s[n])
  {
    if s == [] || IsSpace(s[0]) then 0
    else
      var m := NonSpaceRun(s[1..]);
      assert s[..m + 1] == [s[0]] + s[1..][..m];
      m + 1
  }

  /** strings.Fields: the maximal runs of non-space characters, in order. */
  function Fields(s: string): (r: seq<string>)
    ensures forall i :: 0 <= i < |r| ==> r[i] != [] && NoSpace(r[i])
    decreases |s|
  {
    if s == [] then []
    else if IsSpace(s[0]) then Fields(s[1..])
    else
      var n := NonSpaceRun(s);
      [s[..n]] + Fields(s[n..])
  }

  /** strings.TrimLeft(s, white space) */
  function TrimLeftSpace(s: string): (r: string)
    ensures |r| <= |s| && r == s[|s| - |r|..]
    ensures r == [] || !IsSpace(r[0])
    ensures forall i :: 0 <= i < |s| - |r| ==> IsSpace(s[i])
  {
    if s != [] && IsSpace(s[0]) then TrimLeftSpace(s[1..]) else s
  }

  /** strings.TrimRight(s, white space) */
  function TrimRightSpace(s: string): (r: string)
    ensures |r| <= |s| && r == s[..|r|]
    ensures r == [] || !IsSpace(r[|r| - 1])
    ensures forall i :: |r| <= i < |s| ==> IsSpace(s[i])
  {
    if s != [] && IsSpace(s[|s| - 1]) then TrimRightSpace(s[..|s| - 1]) else s
  }

  /** strings.TrimSpace */
  function TrimSpace(s: string): string {
    TrimRightSpace(TrimLeftSpace(s))
  }

  predicate AllSpace(s: string) {
    forall i :: 0 <= i < |s| ==> IsSpace(s[i])
  }

  lemma {:induction false} TrimLeftSpaceLead(lead: string, rest: string)
    requires AllSpace(lead) && rest != [] && !IsSpace(rest[0])
    ensures TrimLeftSpace(lead + rest) == rest
    decreases |lead|
  {
    if lead != [] {
      assert (lead + rest)[0] == lead[0];
      assert (lead + rest)[1..] == lead[1..] + rest;
      TrimLeftSpaceLead(lead[1..], rest);
    } else {
      assert lead + rest == rest;
    }
  }

  lemma {:induction false} TrimRightSpaceTrail(rest: string, trail: string)
    requires AllSpace(trail) && rest != [] && !IsSpace(rest[|rest| - 1])
    ensures TrimRightSpace(rest + trail) == rest
    decreases |trail|
  {
    if trail != [] {
      var t := trail[..|trail| - 1];
      assert (rest + trail)[|rest + trail| - 1] == trail[|trail| - 1];
      assert (rest + trail)[..|rest + trail| - 1] == rest + t;
      TrimRightSpaceTrail(rest, t);
    } else {
      assert rest + trail == rest;
    }
  }

  /** TrimSpace removes exactly the white space around a core that starts and ends with none. */
  lemma TrimSpaceAround(lead: string, core: string, trail: string)
    requires AllSpace(lead) && AllSpace(trail)
    requires core != [] && !IsSpace(core[0]) && !IsSpace(core[|core| - 1])
    ensures TrimSpace(lead + core + trail) == core
  {
    assert lead + core + trail == lead + (core + trail);
    TrimLeftSpaceLead(lead, core + trail);
    TrimRightSpaceTrail(core, trail);
  }

  // ---------------------------------------------------------------- join and replace

  /** strings.Join */
  function Join(parts: seq<string>, sep: string): string {
    if parts == [] then ""
    else if |parts| == 1 then parts[0]
    else parts[0] + sep + Join(parts[1..], sep)
  }

  /** strings.ReplaceAll for a non-empty pattern: a leftmost, non-overlapping scan. */
  function ReplaceAll(s: string, pat: string, repl: string): string
    requires pat != []
    decreases |s|
  {
    if |s| < |pat| then s
    else if s[..|pat|] == pat then repl + ReplaceAll(s[|pat|..], pat, repl)
    else [s[0]] + ReplaceAll(s[1..], pat, repl)
  }

  /** A replacement never longer than its pattern never lengthens the text. */
  lemma {:induction false} ReplaceAllNoLonger(s: string, pat: string, repl: string)
    requires pat != [] && |repl| <= |pat|
    ensures |ReplaceAll(s, pat, repl)| <= |s|
    decreases |s|
  {
    if |s| < |pat| {
    } else if s[..|pat|] == pat {
      ReplaceAllNoLonger(s[|pat|..], pat, repl);
    } else {
      ReplaceAllNoLonger(s[1..], pat, repl);
    }
  }

  /** A replacement of the pattern's own length keeps the length. */
  lemma {:induction false} ReplaceAllSameLength(s: string, pat: string, repl: string)
    requires pat != [] && |repl| == |pat|
    ensures |ReplaceAll(s, pat, repl)| == |s|
    decreases |s|
  {
    if |s| < |pat| {
    } else if s[..|pat|] == pat {
      ReplaceAllSameLength(s[|pat|..], pat, repl);
    } else {
      ReplaceAllSameLength(s[1..], pat, repl);
    }
  }

  /** Text in which the pattern does not occur is left as it is. */
  lemma {:induction false} ReplaceAllAbsent(s: string, pat: string, repl: string)
    requires pat != [] && !Contains(s, pat)
    ensures ReplaceAll(s, pat, repl) == s
    decreases |s|
  {
    if |s| >= |pat| {
      assert !HasPrefix(s, pat);
      ReplaceAllAbsent(s[1..], pat, repl);
    }
  }

  /** A first character that does not occur in the pattern stays first. */
  lemma {:induction false} ReplaceAllKeepsFirst(s: string, pat: string, repl: string)
    requires pat != [] && s != [] && s[0] !in pat
    ensures var r := ReplaceAll(s, pat, repl); r != [] && r[0] == s[0]
  {
    if |s| >= |pat| {
      assert s[..|pat|][0] == s[0];
    }
  }

  /** A last character that does not occur in the pattern stays last. */
  lemma {:induction false} ReplaceAllKeepsLast(s: string, pat: string, repl: string)
    requires pat != [] && s != [] && s[|s| - 1] !in pat
    ensures var r := ReplaceAll(s, pat, repl); r != [] && r[|r| - 1] == s[|s| - 1]
    decreases |s|
  {
    if |s| < |pat| {
    } else if s[..|pat|] == pat {
      var t := s[|pat|..];
      assert t[|t| - 1] == s[|s| - 1];
      ReplaceAllKeepsLast(t, pat, repl);
    } else if |s| > 1 {
      assert s[1..][|s| - 2] == s[|s| - 1];
      ReplaceAllKeepsLast(s[1..], pat, repl);
    }
  }

  /** No occurrence of a pattern of two or more characters starts just before a stranger to it. */
  lemma {:induction false} ReplaceAllBeforeStranger(m: char, y: string, pat: string, repl: string)
    requires |pat| >= 2 && y != [] && y[0] !in pat
    ensures ReplaceAll([m] + y, pat, repl) == [m] + ReplaceAll(y, pat, repl)
  {
    var u := [m] + y;
    if |u| >= |pat| {
      assert u[..|pat|][1] == y[0];
      assert u[1..] == y;
    }
  }

  lemma AppendAssoc<T>(a: seq<T>, b: seq<T>, c: seq<T>)
    ensures (a + b) + c == a + (b + c)
  {
  }

  /** A head followed by seven pieces, regrouped as the head followed by their concatenation. */
  lemma AppendTail<T>(h: seq<T>, a: seq<T>, b: seq<T>, c: seq<T>, d: seq<T>, e: seq<T>, f: seq<T>, g: seq<T>)
    ensures h + a + b + c + d + e + f + g == h + (a + b + c + d + e + f + g)
  {
    AppendAssoc(h, a, b);
    AppendAssoc(h, a + b, c);
    AppendAssoc(h, a + b + c, d);
    AppendAssoc(h, a + b + c + d, e);
    AppendAssoc(h, a + b + c + d + e, f);
    AppendAssoc(h, a + b + c + d + e + f, g);
  }

  /** An occurrence at the front that misses the last character of `x` lies inside `x`. */
  lemma {:induction false} MatchInside(x: string, rest: string, pat: string)
    requires x != [] && x[|x| - 1] !in pat
    requires |pat| <= |x + rest| && (x + rest)[..|pat|] == pat
    ensures |pat| < |x| && x[..|pat|] == pat
    ensures (x + rest)[|pat|..] == x[|pat|..] + rest
  {
    var last := |x| - 1;
    assert (x + rest)[last] == x[last];
    assert forall i :: 0 <= i < |pat| ==> pat[i] == (x + rest)[i] && pat[i] in pat;
    assert x[..|pat|] == (x + rest)[..|pat|];
  }

  lemma {:induction false} ReplaceAllMatch(s: string, pat: string, repl: string)
    requires pat != [] && |pat| <= |s| && s[..|pat|] == pat
    ensures ReplaceAll(s, pat, repl) == repl + ReplaceAll(s[|pat|..], pat, repl)
  {
  }

  lemma {:induction false} ReplaceAllCopy(s: string, pat: string, repl: string)
    requires pat != [] && s != [] && (|s| < |pat| || s[..|pat|] != pat)
    ensures ReplaceAll(s, pat, repl) == [s[0]] + ReplaceAll(s[1..], pat, repl)
  {
    if |s| < |pat| {
      assert s == [s[0]] + s[1..];
    }
  }

  /**
   * A character whose neighbours do not occur in a pattern of two or more characters lies
   * in no occurrence of it, so the replacement works on either side of it separately.
   */
  lemma {:induction false} ReplaceAllAround(x: string, m: char, y: string, pat: string, repl: string)
    requires |pat| >= 2 && x != [] && y != []
    requires x[|x| - 1] !in pat && y[0] !in pat
    ensures ReplaceAll(x + ([m] + y), pat, repl) == ReplaceAll(x, pat, repl) + ([m] + ReplaceAll(y, pat, repl))
    decreases |x|
  {
    var rest := [m] + y;
    var s := x + rest;
    var tail := [m] + ReplaceAll(y, pat, repl);
    if |s| >= |pat| && s[..|pat|] == pat {
      MatchInside(x, rest, pat);
      var t := x[|pat|..];
      assert t[|t| - 1] == x[|x| - 1];
      calc {
        ReplaceAll(s, pat, repl);
        { ReplaceAllMatch(s, pat, repl); }
        repl + ReplaceAll(t + rest, pat, repl);
        { ReplaceAllAround(t, m, y, pat, repl); }
        repl + (ReplaceAll(t, pat, repl) + tail);
        (repl + ReplaceAll(t, pat, repl)) + tail;
        { ReplaceAllMatch(x, pat, repl); }
        ReplaceAll(x, pat, repl) + tail;
      }
    } else if |x| >= 2 {
      var t := x[1..];
      assert s[1..] == t + rest && s[0] == x[0];
      assert t[|t| - 1] == x[|x| - 1];
      calc {
        ReplaceAll(s, pat, repl);
        { ReplaceAllCopy(s, pat, repl); }
        [x[0]] + ReplaceAll(t + rest, pat, repl);
        { ReplaceAllAround(t, m, y, pat, repl); }
        [x[0]] + (ReplaceAll(t, pat, repl) + tail);
        ([x[0]] + ReplaceAll(t, pat, repl)) + tail;
        { if |x| >= |pat| { assert x[..|pat|] == s[..|pat|]; }
          ReplaceAllCopy(x, pat, repl); }
        ReplaceAll(x, pat, repl) + tail;
      }
    } else {
      assert s[1..] == rest && s[0] == x[0];
      calc {
        ReplaceAll(s, pat, repl);
        { ReplaceAllCopy(s, pat, repl); }
        [x[0]] + ReplaceAll(rest, pat, repl);
        { ReplaceAllBeforeStranger(m, y, pat, repl); }
        [x[0]] + tail;
        { assert x == [x[0]]; }
        ReplaceAll(x, pat, repl) + tail;
      }
    }
  }

  // ---------------------------------------------------------------- file paths

  predicate NoSlash(s: string) {
    forall i :: 0 <= i < |s| ==> s[i] != '/'
  }

  /** The part of `p` after its last '/', or all of `p` when it has none. */
  function AfterLastSlash(p: string): (r: string)
    ensures HasSuffix(p, r) && NoSlash(r)
    ensures |r| < |p| ==> p[|p| - |r| - 1] == '/'
  {
    if p == [] || p[|p| - 1] == '/' then []
    else
      var r := AfterLastSlash(p[..|p| - 1]) + [p[|p| - 1]];
      assert p[|p| - |r|..] == p[..|p| - 1][|p| - |r|..] + [p[|p| - 1]];
      r
  }

  function TrimTrailingSlashes(p: string): (r: string)
    ensures HasPrefix(p, r) && (r == [] || r[|r| - 1] != '/')
  {
    if p != [] && p[|p| - 1] == '/' then TrimTrailingSlashes(p[..|p| - 1]) else p
  }

  /** filepath.Base: the last element of a path; "." for the empty path. */
  function Base(path: string): (r: string)
    ensures r != []
    ensures path != [] && path[|path| - 1] != '/' ==> HasSuffix(path, r) && NoSlash(r)
  {
    if path == [] then "."
    else
      var p := TrimTrailingSlashes(path);
      if p == [] then "/" else AfterLastSlash(p)
  }

  /** The base name of dir/name, for a name without '/', is the name. */
  lemma BaseOfChild(dir: string, name: string)
    requires name != [] && NoSlash(name)
    ensures Base(dir + "/" + name) == name
  {
    var path := dir + "/" + name;
    assert path[|path| - 1] == name[|name| - 1];
    assert TrimTrailingSlashes(path) == path;
    assert path[|path| - |name| - 1] == '/';
    var r := AfterLastSlash(path);
    assert |r| == |name|;
  }

  /** filepath.Ext: the suffix of the last element that starts at its final '.', or "". */
  function Ext(path: string): (r: string)
    ensures r == [] || (r[0] == '.' && HasSuffix(path, r))
    ensures forall i :: 0 < i < |r| ==> r[i] != '.' && r[i] != '/'
    ensures r == [] ==> '.' !in AfterLastSlash(path)
  {
    if path == [] || path[|path| - 1] == '/' then ""
    else if path[|path| - 1] == '.' then "."
    else
      var e := Ext(path[..|path| - 1]);
      if e == [] then ""
      else
        assert path[|path| - |e| - 1..] == path[..|path| - 1][|path| - 1 - |e|..] + [path[|path| - 1]];
        e + [path[|path| - 1]]
  }

  // ---------------------------------------------------------------- decimal numbers

  predicate IsDigit(c: char) {
    '0' <= c <= '9'
  }

  predicate AllDigits(s: string) {
    forall i :: 0 <= i < |s| ==> IsDigit(s[i])
  }

  function DigitChar(d: nat): (c: char)
    requires d < 10
    ensures IsDigit(c) && c as int - '0' as int == d
  {
    ('0' as int + d) as char
  }

  /** fmt's %d of a non-negative integer. */
  function Decimal(n: nat): (r: string)
    ensures r != [] && AllDigits(r)
    ensures r[0] == '0' ==> r == "0"
  {
    if n < 10 then [DigitChar(n)] else Decimal(n / 10) + [DigitChar(n % 10)]
  }

  /** The value of a string of decimal digits. */
  function DigitsValue(s: string): nat
    requires AllDigits(s)
  {
    if s == [] then 0
    else
      assert IsDigit(s[|s| - 1]);
      DigitsValue(s[..|s| - 1]) * 10 + (s[|s| - 1] as int - '0' as int)
  }

  /** Reading back what Decimal writes gives the number. */
  lemma {:induction false} DecimalRoundTrip(n: nat)
    ensures DigitsValue(Decimal(n)) == n
  {
    if n >= 10 {
      var r := Decimal(n);
      assert r[..|r| - 1] == Decimal(n / 10);
      DecimalRoundTrip(n / 10);
    }
  }
}
