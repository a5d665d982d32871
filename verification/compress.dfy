/**
 * compressContent and removeComments of the packer: comment removal, white-space
 * collapsing, squeezing spaces around punctuation, gluing a word to the number after
 * it, and the (inert) removal of file markers.
 */
module Compress {
  import opened Wrappers
  import opened Text

  // ---------------------------------------------------------------- shapes of text

  /** No `a` is immediately followed by `b`. */
  predicate NoPair(s: string, a: char, b: char) {
    forall i :: 0 <= i < |s| - 1 ==> !(s[i] == a && s[i + 1] == b)
  }

  /** The only white space is the plain space. */
  predicate PlainSpaces(s: string) {
    forall i :: 0 <= i < |s| ==> IsSpace(s[i]) ==> s[i] == ' '
  }

  /** Words separated by single spaces: what joining strings.Fields with " " yields. */
  predicate Collapsed(s: string) {
    PlainSpaces(s) && NoPair(s, ' ', ' ') && (s == [] || (s[0] != ' ' && s[|s| - 1] != ' '))
  }

  lemma NoPairConcat(x: string, y: string, a: char, b: char)
    requires NoPair(x, a, b) && NoPair(y, a, b)
    requires x == [] || y == [] || !(x[|x| - 1] == a && y[0] == b)
    ensures NoPair(x + y, a, b)
  {
    var s := x + y;
    forall i | 0 <= i < |s| - 1 ensures !(s[i] == a && s[i + 1] == b) {
      if i + 1 < |x| {
        assert s[i] == x[i] && s[i + 1] == x[i + 1];
      } else if i >= |x| {
        assert s[i] == y[i - |x|] && s[i + 1] == y[i - |x| + 1];
      }
    }
  }

  // ---------------------------------------------------------------- deleting white space

  /** `t` is `s` with some of its white-space characters deleted. */
  predicate Thinned(s: string, t: string)
    decreases |s|
  {
    if s == [] then t == []
    else
      (t != [] && t[0] == s[0] && Thinned(s[1..], t[1..]))
      || (IsSpace(s[0]) && Thinned(s[1..], t))
  }

  lemma {:induction false} ThinnedReflexive(s: string)
    ensures Thinned(s, s)
    decreases |s|
  {
    if s != [] {
      ThinnedReflexive(s[1..]);
    }
  }

  lemma {:induction false} ThinnedSpaces(s: string)
    requires forall i :: 0 <= i < |s| ==> IsSpace(s[i])
    ensures Thinned(s, [])
    decreases |s|
  {
    if s != [] {
      ThinnedSpaces(s[1..]);
    }
  }

  lemma {:induction false} ThinnedConcat(a: string, b: string, c: string, d: string)
    requires Thinned(a, b) && Thinned(c, d)
    ensures Thinned(a + c, b + d)
    decreases |a|
  {
    if a == [] {
      assert a + c == c && b + d == d;
    } else {
      assert (a + c)[1..] == a[1..] + c;
      if b != [] && b[0] == a[0] && Thinned(a[1..], b[1..]) {
        ThinnedConcat(a[1..], b[1..], c, d);
        assert (b + d)[1..] == b[1..] + d;
      } else {
        ThinnedConcat(a[1..], b, c, d);
      }
    }
  }

  lemma {:induction false} ThinnedTransitive(s: string, t: string, u: string)
    requires Thinned(s, t) && Thinned(t, u)
    ensures Thinned(s, u)
    decreases |s|
  {
    if s != [] {
      if t != [] && t[0] == s[0] && Thinned(s[1..], t[1..]) {
        if u != [] && u[0] == t[0] && Thinned(t[1..], u[1..]) {
          ThinnedTransitive(s[1..], t[1..], u[1..]);
        } else {
          ThinnedTransitive(s[1..], t[1..], u);
        }
      } else {
        ThinnedTransitive(s[1..], t, u);
      }
    }
  }

  lemma {:induction false} ThinnedLength(s: string, t: string)
    requires Thinned(s, t)
    ensures |t| <= |s|
    decreases |s|
  {
    if s != [] {
      if t != [] && t[0] == s[0] && Thinned(s[1..], t[1..]) {
        ThinnedLength(s[1..], t[1..]);
      } else {
        ThinnedLength(s[1..], t);
      }
    }
  }

  lemma {:induction false} ThinnedPlain(s: string, t: string)
    requires Thinned(s, t) && PlainSpaces(s)
    ensures PlainSpaces(t)
    decreases |s|
  {
    if s != [] {
      if t != [] && t[0] == s[0] && Thinned(s[1..], t[1..]) {
        ThinnedPlain(s[1..], t[1..]);
        assert t == [t[0]] + t[1..];
      } else {
        ThinnedPlain(s[1..], t);
      }
    }
  }

  /** In text without adjacent white space, the first character kept is s[0] or s[1]. */
  lemma ThinnedHead(s: string, t: string)
    requires Thinned(s, t) && t != [] && NoPair(s, ' ', ' ') && PlainSpaces(s)
    ensures s != []
    ensures t[0] == s[0] || (s[0] == ' ' && |s| > 1 && t[0] == s[1] && s[1] != ' ')
  {
    if !(t[0] == s[0] && Thinned(s[1..], t[1..])) {
      assert IsSpace(s[0]) && Thinned(s[1..], t);
      assert s[1..] != [];
      assert !IsSpace(s[1]);
    }
  }

  lemma {:induction false} ThinnedLast(s: string, t: string)
    requires Thinned(s, t) && s != [] && !IsSpace(s[|s| - 1])
    ensures t != [] && t[|t| - 1] == s[|s| - 1]
    decreases |s|
  {
    if t != [] && t[0] == s[0] && Thinned(s[1..], t[1..]) {
      if |s| > 1 {
        ThinnedLast(s[1..], t[1..]);
      }
    } else {
      ThinnedLast(s[1..], t);
    }
  }

  /**
   * Deleting spaces from text whose spaces stand alone creates no new neighbour of a
   * space: a pair involving white space that was absent stays absent.
   */
  lemma {:induction false} ThinnedNoPair(s: string, t: string, a: char, b: char)
    requires Thinned(s, t) && NoPair(s, ' ', ' ') && PlainSpaces(s)
    requires IsSpace(a) || IsSpace(b)
    requires NoPair(s, a, b)
    ensures NoPair(t, a, b)
    decreases |s|
  {
    if s != [] {
      if t != [] && t[0] == s[0] && Thinned(s[1..], t[1..]) {
        ThinnedNoPair(s[1..], t[1..], a, b);
        if |t| > 1 {
          ThinnedHead(s[1..], t[1..]);
          if t[1] != s[1] {
            assert !IsSpace(s[2]) && !IsSpace(s[0]);
          }
        }
        NoPairConcat([t[0]], t[1..], a, b);
        assert t == [t[0]] + t[1..];
      } else {
        ThinnedNoPair(s[1..], t, a, b);
      }
    }
  }

  /** Deleting spaces from collapsed text leaves it collapsed. */
  lemma ThinnedCollapsed(s: string, t: string)
    requires Thinned(s, t) && Collapsed(s)
    ensures Collapsed(t)
  {
    ThinnedPlain(s, t);
    ThinnedNoPair(s, t, ' ', ' ');
    if s != [] {
      assert !IsSpace(s[0]) && !IsSpace(s[|s| - 1]);
      ThinnedLast(s, t);
    }
  }

  /** A replacement that only deletes white space from its pattern only deletes white space. */
  lemma {:induction false} ReplaceAllThins(s: string, pat: string, repl: string)
    requires pat != [] && Thinned(pat, repl)
    ensures Thinned(s, ReplaceAll(s, pat, repl))
    decreases |s|
  {
    if |s| < |pat| {
      ThinnedReflexive(s);
    } else if s[..|pat|] == pat {
      ReplaceAllThins(s[|pat|..], pat, repl);
      ThinnedConcat(pat, repl, s[|pat|..], ReplaceAll(s[|pat|..], pat, repl));
      assert s == pat + s[|pat|..];
    } else {
      ReplaceAllThins(s[1..], pat, repl);
      ThinnedConcat([s[0]], [s[0]], s[1..], ReplaceAll(s[1..], pat, repl));
      assert s == [s[0]] + s[1..];
    }
  }

  // ---------------------------------------------------------------- collapsing white space

  /** Newlines turned into spaces, then strings.Fields joined with single spaces. */
  function Collapse(s: string): string {
    Join(Fields(ReplaceAll(s, "\n", " ")), " ")
  }

  /** Non-empty words without white space, joined with single spaces, are collapsed text. */
  lemma {:induction false} JoinWordsCollapsed(words: seq<string>)
    requires forall i :: 0 <= i < |words| ==> words[i] != [] && NoSpace(words[i])
    ensures Collapsed(Join(words, " "))
    ensures words != [] ==> Join(words, " ") != [] && Join(words, " ")[0] == words[0][0]
    decreases |words|
  {
    if |words| == 1 {
      assert !IsSpace(words[0][0]) && !IsSpace(words[0][|words[0]| - 1]);
    } else if |words| > 1 {
      var w, rest := words[0], Join(words[1..], " ");
      JoinWordsCollapsed(words[1..]);
      assert Join(words, " ") == (w + " ") + rest;
      assert !IsSpace(w[|w| - 1]);
      NoPairConcat(w, " ", ' ', ' ');
      NoPairConcat(w + " ", rest, ' ', ' ');
      assert words[1] == words[1..][0];
      assert !IsSpace(rest[0]);
    }
  }

  /** Dropping white space while joining never lengthens the text. */
  lemma {:induction false} JoinFieldsNoLonger(s: string)
    ensures |Join(Fields(s), " ")| <= |s|
    ensures s != [] && IsSpace(s[0]) ==> |Join(Fields(s), " ")| < |s|
    decreases |s|
  {
    if s != [] {
      if IsSpace(s[0]) {
        JoinFieldsNoLonger(s[1..]);
      } else {
        var n := NonSpaceRun(s);
        JoinFieldsNoLonger(s[n..]);
        var rest := Fields(s[n..]);
        assert Fields(s) == [s[..n]] + rest;
        if rest != [] {
          assert ([s[..n]] + rest)[1..] == rest;
          assert Join(Fields(s), " ") == s[..n] + " " + Join(rest, " ");
        }
      }
    }
  }

  /** Splitting joined words gives the words back. */
  lemma {:induction false} FieldsOfJoin(words: seq<string>)
    requires forall i :: 0 <= i < |words| ==> words[i] != [] && NoSpace(words[i])
    ensures Fields(Join(words, " ")) == words
    decreases |words|
  {
    if words != [] {
      var w := words[0];
      var j := Join(words, " ");
      if |words| == 1 {
        assert NonSpaceRun(w) == |w|;
        assert w[..|w|] == w && w[|w|..] == [];
      } else {
        var rest := Join(words[1..], " ");
        assert j == w + (" " + rest);
        assert forall i :: 0 <= i < |w| ==> j[i] == w[i];
        assert j[|w|] == ' ';
        var n := NonSpaceRun(j);
        assert n == |w| && j[..n] == w && j[n..] == " " + rest;
        assert (" " + rest)[1..] == rest;
        FieldsOfJoin(words[1..]);
        assert words == [w] + words[1..];
      }
    }
  }

  /** Splitting looks only at which characters are white space. */
  lemma {:induction false} FieldsSameShape(s: string, t: string)
    requires |s| == |t|
    requires forall i :: 0 <= i < |s| ==> (IsSpace(s[i]) <==> IsSpace(t[i]))
    requires forall i :: 0 <= i < |s| ==> !IsSpace(s[i]) ==> s[i] == t[i]
    ensures Fields(s) == Fields(t)
    decreases |s|
  {
    if s != [] {
      if IsSpace(s[0]) {
        FieldsSameShape(s[1..], t[1..]);
      } else {
        var n, m := NonSpaceRun(s), NonSpaceRun(t);
        assert n == m;
        assert s[..n] == t[..n];
        FieldsSameShape(s[n..], t[n..]);
      }
    }
  }

  /** Replacing each newline by a space, character for character. */
  lemma {:induction false} ReplaceNewlines(s: string)
    ensures var r := ReplaceAll(s, "\n", " ");
      |r| == |s| && forall i :: 0 <= i < |s| ==> r[i] == if s[i] == '\n' then ' ' else s[i]
    decreases |s|
  {
    if s != [] {
      ReplaceNewlines(s[1..]);
    }
  }

  /** Collapsing keeps the words of the text, in order, and only them. */
  lemma CollapseKeepsWords(s: string)
    ensures Fields(Collapse(s)) == Fields(s)
  {
    var t := ReplaceAll(s, "\n", " ");
    ReplaceNewlines(s);
    FieldsSameShape(s, t);
    FieldsOfJoin(Fields(t));
  }

  /** Collapsing yields single-spaced text no longer than its input. */
  lemma CollapseShape(s: string)
    ensures Collapsed(Collapse(s)) && |Collapse(s)| <= |s|
  {
    ReplaceNewlines(s);
    JoinWordsCollapsed(Fields(ReplaceAll(s, "\n", " ")));
    JoinFieldsNoLonger(ReplaceAll(s, "\n", " "));
  }

  // ---------------------------------------------------------------- spaces around symbols

  /** The punctuation whose surrounding spaces compression removes, in the order it does so. */
  const Symbols: seq<char> := ['.', ',', ':', ';', ')', '(', '{', '}', '[', ']',
                               '+', '-', '*', '/', '=', '<', '>', '&', '|', '!', '?']

  /** The three replacements for one symbol c: " c " to "c", then " c" to "c", then "c " to "c". */
  function SquashSymbol(s: string, c: char): string {
    var s1 := ReplaceAll(s, [' ', c, ' '], [c]);
    var s2 := ReplaceAll(s1, [' ', c], [c]);
    ReplaceAll(s2, [c, ' '], [c])
  }

  /** SquashSymbol for each symbol in turn. */
  function SquashSymbols(s: string, symbols: seq<char>): string
    decreases |symbols|
  {
    if symbols == [] then s else SquashSymbols(SquashSymbol(s, symbols[0]), symbols[1..])
  }

  /** The first character of a replacement's result comes from the text or the replacement. */
  lemma ReplaceAllFirst(s: string, pat: string, repl: string)
    requires pat != [] && repl != [] && s != []
    ensures var r := ReplaceAll(s, pat, repl); r != [] && (r[0] == s[0] || r[0] == repl[0])
  {
  }

  /** Once " c" is replaced by "c" in text without double spaces, no space precedes c. */
  lemma {:induction false} NoSpaceBefore(s: string, c: char)
    requires c != ' ' && NoPair(s, ' ', ' ')
    ensures NoPair(ReplaceAll(s, [' ', c], [c]), ' ', c)
    decreases |s|
  {
    if |s| >= 2 {
      if s[..2] == [' ', c] {
        NoSpaceBefore(s[2..], c);
        NoPairConcat([c], ReplaceAll(s[2..], [' ', c], [c]), ' ', c);
      } else {
        var r' := ReplaceAll(s[1..], [' ', c], [c]);
        NoSpaceBefore(s[1..], c);
        ReplaceAllFirst(s[1..], [' ', c], [c]);
        assert s[0] == ' ' ==> s[1] != c && s[1] != ' ';
        NoPairConcat([s[0]], r', ' ', c);
      }
    }
  }

  /** Once "c " is replaced by "c" in text without double spaces, no space follows c. */
  lemma {:induction false} NoSpaceAfter(s: string, c: char)
    requires c != ' ' && NoPair(s, ' ', ' ')
    ensures NoPair(ReplaceAll(s, [c, ' '], [c]), c, ' ')
    decreases |s|
  {
    if |s| >= 2 {
      if s[..2] == [c, ' '] {
        var r' := ReplaceAll(s[2..], [c, ' '], [c]);
        NoSpaceAfter(s[2..], c);
        if |s| > 2 {
          ReplaceAllFirst(s[2..], [c, ' '], [c]);
          assert s[1] == s[..2][1] == ' ';
          assert s[2] != ' ';
        }
        NoPairConcat([c], r', c, ' ');
      } else {
        var r' := ReplaceAll(s[1..], [c, ' '], [c]);
        NoSpaceAfter(s[1..], c);
        ReplaceAllFirst(s[1..], [c, ' '], [c]);
        NoPairConcat([s[0]], r', c, ' ');
      }
    }
  }

  /**
   * Squashing one symbol in collapsed text deletes spaces only, keeps the text collapsed,
   * and leaves no space on either side of the symbol.
   */
  lemma SquashSymbolSpec(s: string, c: char)
    requires Collapsed(s) && !IsSpace(c)
    ensures var r := SquashSymbol(s, c);
      Thinned(s, r) && Collapsed(r) && NoPair(r, ' ', c) && NoPair(r, c, ' ')
  {
    var s1 := ReplaceAll(s, [' ', c, ' '], [c]);
    var s2 := ReplaceAll(s1, [' ', c], [c]);
    var s3 := ReplaceAll(s2, [c, ' '], [c]);
    assert Thinned([' '], []);
    assert Thinned([c, ' '], [c]);
    assert Thinned([' ', c, ' '], [c]);
    assert Thinned([' ', c], [c]);
    ReplaceAllThins(s, [' ', c, ' '], [c]);
    ThinnedCollapsed(s, s1);
    ReplaceAllThins(s1, [' ', c], [c]);
    ThinnedCollapsed(s1, s2);
    NoSpaceBefore(s1, c);
    ReplaceAllThins(s2, [c, ' '], [c]);
    ThinnedCollapsed(s2, s3);
    NoSpaceAfter(s2, c);
    ThinnedNoPair(s2, s3, ' ', c);
    ThinnedTransitive(s, s1, s2);
    ThinnedTransitive(s, s2, s3);
  }

  /**
   * Squashing a list of symbols in collapsed text deletes spaces only, keeps it collapsed,
   * and leaves no space next to any symbol of the list.
   */
  lemma {:induction false} SquashSymbolsSpec(s: string, symbols: seq<char>)
    requires Collapsed(s)
    requires forall i :: 0 <= i < |symbols| ==> !IsSpace(symbols[i])
    ensures var r := SquashSymbols(s, symbols);
      Thinned(s, r) && Collapsed(r)
      && forall c :: c in symbols ==> NoPair(r, ' ', c) && NoPair(r, c, ' ')
    decreases |symbols|
  {
    if symbols == [] {
      ThinnedReflexive(s);
    } else {
      var c := symbols[0];
      var t := SquashSymbol(s, c);
      var r := SquashSymbols(t, symbols[1..]);
      SquashSymbolSpec(s, c);
      SquashSymbolsSpec(t, symbols[1..]);
      ThinnedNoPair(t, r, ' ', c);
      ThinnedNoPair(t, r, c, ' ');
      ThinnedTransitive(s, t, r);
      assert forall d :: d in symbols ==> d == c || d in symbols[1..];
    }
  }

  /**
   * A character other than a space or the symbol, at either end of the text, stays where it
   * is under squashing.
   */
  lemma {:induction false} SquashSymbolEnds(s: string, c: char)
    requires s != [] && c != ' '
    ensures var r := SquashSymbol(s, c);
      (s[0] != ' ' && s[0] != c ==> r != [] && r[0] == s[0])
      && (s[|s| - 1] != ' ' && s[|s| - 1] != c ==> r != [] && r[|r| - 1] == s[|s| - 1])
  {
    var s1 := ReplaceAll(s, [' ', c, ' '], [c]);
    var s2 := ReplaceAll(s1, [' ', c], [c]);
    if s[0] != ' ' && s[0] != c {
      ReplaceAllKeepsFirst(s, [' ', c, ' '], [c]);
      ReplaceAllKeepsFirst(s1, [' ', c], [c]);
      ReplaceAllKeepsFirst(s2, [c, ' '], [c]);
    }
    if s[|s| - 1] != ' ' && s[|s| - 1] != c {
      ReplaceAllKeepsLast(s, [' ', c, ' '], [c]);
      ReplaceAllKeepsLast(s1, [' ', c], [c]);
      ReplaceAllKeepsLast(s2, [c, ' '], [c]);
    }
  }

  /**
   * A space with no symbol and no space on either side survives squashing, and the text on
   * each side of it is squashed on its own.
   */
  lemma {:induction false} SquashSymbolAround(x: string, y: string, c: char)
    requires c != ' ' && x != [] && y != []
    requires x[|x| - 1] != ' ' && x[|x| - 1] != c && y[0] != ' ' && y[0] != c
    ensures SquashSymbol(x + (" " + y), c) == SquashSymbol(x, c) + (" " + SquashSymbol(y, c))
  {
    var x1 := ReplaceAll(x, [' ', c, ' '], [c]);
    var y1 := ReplaceAll(y, [' ', c, ' '], [c]);
    ReplaceAllAround(x, ' ', y, [' ', c, ' '], [c]);
    ReplaceAllKeepsLast(x, [' ', c, ' '], [c]);
    ReplaceAllKeepsFirst(y, [' ', c, ' '], [c]);
    var x2 := ReplaceAll(x1, [' ', c], [c]);
    var y2 := ReplaceAll(y1, [' ', c], [c]);
    ReplaceAllAround(x1, ' ', y1, [' ', c], [c]);
    ReplaceAllKeepsLast(x1, [' ', c], [c]);
    ReplaceAllKeepsFirst(y1, [' ', c], [c]);
    ReplaceAllAround(x2, ' ', y2, [c, ' '], [c]);
  }

  /** Text in which the symbol does not occur is left as it is. */
  lemma {:induction false} SquashSymbolAbsent(s: string, c: char)
    requires c !in s
    ensures SquashSymbol(s, c) == s
  {
    if Contains(s, [' ', c, ' ']) {
      ContainedCharsOccur(s, [' ', c, ' '], 1);
    }
    ReplaceAllAbsent(s, [' ', c, ' '], [c]);
    if Contains(s, [' ', c]) {
      ContainedCharsOccur(s, [' ', c], 1);
    }
    ReplaceAllAbsent(s, [' ', c], [c]);
    if Contains(s, [c, ' ']) {
      ContainedCharsOccur(s, [c, ' '], 0);
    }
    ReplaceAllAbsent(s, [c, ' '], [c]);
  }

  /**
   * Over a list of symbols: a space with no symbol of the list and no space beside it
   * survives, and each side is squashed on its own.
   */
  lemma {:induction false} SquashSymbolsAround(x: string, y: string, symbols: seq<char>)
    requires ' ' !in symbols && x != [] && y != []
    requires x[|x| - 1] != ' ' && x[|x| - 1] !in symbols && y[0] != ' ' && y[0] !in symbols
    ensures SquashSymbols(x + (" " + y), symbols) == SquashSymbols(x, symbols) + (" " + SquashSymbols(y, symbols))
    decreases |symbols|
  {
    if symbols != [] {
      var c := symbols[0];
      SquashSymbolAround(x, y, c);
      SquashSymbolEnds(x, c);
      SquashSymbolEnds(y, c);
      SquashSymbolsAround(SquashSymbol(x, c), SquashSymbol(y, c), symbols[1..]);
    }
  }

  /** Text holding none of the symbols is left as it is. */
  lemma {:induction false} SquashSymbolsAbsent(s: string, symbols: seq<char>)
    requires forall c :: c in symbols ==> c !in s
    ensures SquashSymbols(s, symbols) == s
    decreases |symbols|
  {
    if symbols != [] {
      SquashSymbolAbsent(s, symbols[0]);
      SquashSymbolsAbsent(s, symbols[1..]);
    }
  }

  // ---------------------------------------------------------------- a word and the number after it

  /** RE2's \w */
  predicate IsWordChar(c: char) {
    IsDigit(c) || ('a' <= c <= 'z') || ('A' <= c <= 'Z') || c == '_'
  }

  /** RE2's \s: tab, newline, form feed, carriage return and space. */
  predicate IsRegexSpace(c: char) {
    c == ' ' || c == '\t' || c == '\n' || c == '\r' || c as int == 12
  }

  /** Length of the longest prefix of `s` made of word characters. */
  function WordRun(s: string): (n: nat)
    ensures n <= |s|
    decreases |s|
  {
    if s == [] || !IsWordChar(s[0]) then 0 else 1 + WordRun(s[1..])
  }

  /** Length of the longest prefix of `s` made of RE2 white space. */
  function SpaceRun(s: string): (n: nat)
    ensures n <= |s|
    decreases |s|
  {
    if s == [] || !IsRegexSpace(s[0]) then 0 else 1 + SpaceRun(s[1..])
  }

  /** Length of the longest prefix of `s` made of decimal digits. */
  function DigitRun(s: string): (n: nat)
    ensures n <= |s|
    decreases |s|
  {
    if s == [] || !IsDigit(s[0]) then 0 else 1 + DigitRun(s[1..])
  }

  /** Each run is a maximal prefix of its kind of character. */
  lemma {:induction false} RunsSpec(s: string)
    ensures var n := WordRun(s); (forall i :: 0 <= i < n ==> IsWordChar(s[i])) && (n < |s| ==> !IsWordChar(s[n]))
    ensures var n := SpaceRun(s); (forall i :: 0 <= i < n ==> IsRegexSpace(s[i])) && (n < |s| ==> !IsRegexSpace(s[n]))
    ensures var n := DigitRun(s); (forall i :: 0 <= i < n ==> IsDigit(s[i])) && (n < |s| ==> !IsDigit(s[n]))
    decreases |s|
  {
    if s != [] {
      RunsSpec(s[1..]);
    }
  }

  /** Dropping a run of white space between two kept pieces deletes white space only. */
  lemma ThinnedGap(a: string, gap: string, b: string, rest: string, rest': string)
    requires forall i :: 0 <= i < |gap| ==> IsSpace(gap[i])
    requires Thinned(rest, rest')
    ensures Thinned(a + gap + b + rest, a + b + rest')
  {
    ThinnedReflexive(a);
    ThinnedReflexive(b);
    ThinnedSpaces(gap);
    ThinnedConcat(a, a, gap, []);
    assert a + [] == a;
    ThinnedConcat(a + gap, a, b, b);
    ThinnedConcat(a + gap + b, a + b, rest, rest');
  }

  lemma GapThins(s: string, w: nat, sp: nat, d: nat)
    requires w + sp + d <= |s|
    requires forall i :: 0 <= i < sp ==> IsRegexSpace(s[w..][i])
    ensures Thinned(s[..w + sp + d], s[..w] + s[w + sp..w + sp + d])
  {
    var gap, digits := s[w..w + sp], s[w + sp..w + sp + d];
    assert forall i :: 0 <= i < sp ==> gap[i] == s[w..][i];
    ThinnedReflexive([]);
    ThinnedGap(s[..w], gap, digits, [], []);
    assert s[..w + sp + d] == s[..w] + gap + digits + [];
    assert s[..w] + digits + [] == s[..w] + digits;
  }

  /**
   * One match attempt of `(\w+)\s+(\d+)` at the front of `s`: how many characters the
   * scan consumes and what it emits for them. A maximal word followed by white space and
   * digits is a match and loses the white space; any other character, or a word with no
   * such tail, is copied.
   */
  function GlueStep(s: string): (r: (nat, string))
    requires s != []
    ensures 1 <= r.0 <= |s|
  {
    if !IsWordChar(s[0]) then (1, [s[0]])
    else
      var w := WordRun(s);
      var sp := SpaceRun(s[w..]);
      var d := DigitRun(s[w + sp..]);
      if sp > 0 && d > 0 then (w + sp + d, s[..w] + s[w + sp..w + sp + d]) else (w, s[..w])
  }

  /** One match attempt deletes white space only. */
  lemma {:induction false} GlueStepThins(s: string)
    requires s != []
    ensures Thinned(s[..GlueStep(s).0], GlueStep(s).1)
  {
    if !IsWordChar(s[0]) {
      ThinnedReflexive([s[0]]);
      assert s[..1] == [s[0]];
    } else {
      var w := WordRun(s);
      var sp := SpaceRun(s[w..]);
      var d := DigitRun(s[w + sp..]);
      if sp > 0 && d > 0 {
        RunsSpec(s[w..]);
        GapThins(s, w, sp, d);
      } else {
        ThinnedReflexive(s[..w]);
        assert s[..w][..w] == s[..w];
      }
    }
  }

  /** ReplaceAllString of `(\w+)\s+(\d+)` by "$1$2": leftmost-first, non-overlapping. */
  function JoinWordDigits(s: string): string
    decreases |s|
  {
    if s == [] then [] else GlueStep(s).1 + JoinWordDigits(s[GlueStep(s).0..])
  }

  /** Gluing words to numbers deletes white space only. */
  lemma {:induction false} JoinWordDigitsThins(s: string)
    ensures Thinned(s, JoinWordDigits(s))
    decreases |s|
  {
    if s != [] {
      var (n, out) := GlueStep(s);
      GlueStepThins(s);
      JoinWordDigitsThins(s[n..]);
      ThinnedConcat(s[..n], out, s[n..], JoinWordDigits(s[n..]));
      assert s == s[..n] + s[n..];
    }
  }

  /**
   * `t` is `s` with some runs of white space deleted, each of them whole, preceded by a word
   * character and followed by a digit. `afterWord` says whether the character before `s`
   * is a word character.
   */
  predicate GluedOnly(s: string, t: string, afterWord: bool)
    decreases |s|
  {
    if s == [] then t == []
    else
      (t != [] && t[0] == s[0] && GluedOnly(s[1..], t[1..], IsWordChar(s[0])))
      || (afterWord && 0 < SpaceRun(s) < |s| && IsDigit(s[SpaceRun(s)])
          && GluedOnly(s[SpaceRun(s)..], t, false))
  }

  /** A deletion allowed at the start of the text is allowed after a word too. */
  lemma {:induction false} GluedOnlyAfterWord(s: string, t: string)
    requires GluedOnly(s, t, false)
    ensures GluedOnly(s, t, true)
  {
  }

  /** A prefix copied unchanged keeps the deletions after it to word-digit gaps. */
  lemma {:induction false} GluedOnlyKeep(u: string, v: string, v': string, afterWord: bool)
    requires GluedOnly(v, v', if u == [] then afterWord else IsWordChar(u[|u| - 1]))
    ensures GluedOnly(u + v, u + v', afterWord)
    decreases |u|
  {
    if u == [] {
      assert u + v == v && u + v' == v';
    } else {
      var w := u[1..];
      assert w != [] ==> w[|w| - 1] == u[|u| - 1];
      GluedOnlyKeep(w, v, v', IsWordChar(u[0]));
      assert (u + v)[1..] == w + v && (u + v')[1..] == w + v';
      assert (u + v)[0] == u[0] == (u + v')[0];
      assert GluedOnly((u + v)[1..], (u + v')[1..], IsWordChar((u + v)[0]));
    }
  }

  /** A copied piece keeps the deletions after it to word-digit gaps. */
  lemma {:induction false} GlueCopyGluesOnly(s: string, w: nat, rest': string)
    requires 0 < w <= |s|
    requires GluedOnly(s[w..], rest', IsWordChar(s[w - 1]))
    ensures GluedOnly(s, s[..w] + rest', false)
  {
    GluedOnlyKeep(s[..w], s[w..], rest', false);
    assert s == s[..w] + s[w..];
  }

  /** A glued piece: the run between the word and the digits is a word-digit gap. */
  lemma {:induction false} GlueMatchGluesOnly(s: string, w: nat, sp: nat, n: nat, rest': string)
    requires 0 < w < w + sp < n <= |s|
    requires IsWordChar(s[w - 1]) && SpaceRun(s[w..]) == sp
    requires IsDigit(s[w + sp]) && IsWordChar(s[n - 1])
    requires GluedOnly(s[n..], rest', true)
    ensures GluedOnly(s, s[..w] + (s[w + sp..n] + rest'), false)
  {
    var digits := s[w + sp..n];
    assert digits[|digits| - 1] == s[n - 1];
    GluedOnlyKeep(digits, s[n..], rest', false);
    var t := s[w..];
    assert t[sp..] == digits + s[n..];
    assert t[sp] == s[w + sp];
    assert GluedOnly(t, digits + rest', true);
    GluedOnlyKeep(s[..w], t, digits + rest', false);
    assert s == s[..w] + t;
  }

  /**
   * The three things one step can do: copy a character that starts no word, copy a word
   * that has no white space and digits after it, or glue a word to the digits after it.
   */
  predicate StepCase(s: string, n: nat, out: string)
  {
    0 < n <= |s|
    && ((!IsWordChar(s[0]) && n == 1 && out == [s[0]])
        || (IsWordChar(s[n - 1]) && out == s[..n])
        || MatchCase(s, WordRun(s), SpaceRun(s[WordRun(s)..]), n, out))
  }

  /** A glued step: a word ending at `w`, `sp` characters of white space, then digits up to `n`. */
  predicate MatchCase(s: string, w: nat, sp: nat, n: nat, out: string)
  {
    0 < w < w + sp < n <= |s| && IsWordChar(s[w - 1]) && SpaceRun(s[w..]) == sp
    && IsDigit(s[w + sp]) && IsWordChar(s[n - 1]) && out == s[..w] + s[w + sp..n]
  }

  /** Every match attempt is one of the three cases. */
  lemma {:induction false} GlueStepCases(s: string)
    requires s != []
    ensures StepCase(s, GlueStep(s).0, GlueStep(s).1)
  {
    if IsWordChar(s[0]) {
      var w := WordRun(s);
      var sp := SpaceRun(s[w..]);
      var d := DigitRun(s[w + sp..]);
      if sp > 0 && d > 0 {
        GlueStepCasesMatch(s, w, sp, d);
        GlueStepMatch(s, w, sp, d);
      } else {
        GlueStepCasesCopy(s, w, sp, d);
      }
    } else {
      assert GlueStep(s) == (1, [s[0]]);
    }
  }

  /** A word, white space and digits at the front make a glued step. */
  lemma {:induction false} GlueStepCasesMatch(s: string, w: nat, sp: nat, d: nat)
    requires s != [] && IsWordChar(s[0]) && 0 < sp && 0 < d
    requires WordRun(s) == w && w <= |s| && SpaceRun(s[w..]) == sp
    requires w + sp <= |s| && DigitRun(s[w + sp..]) == d
    ensures MatchCase(s, w, sp, w + sp + d, s[..w] + s[w + sp..w + sp + d])
  {
    WordRunEnds(s);
    DigitRunEnds(s, w + sp);
  }

  /** A word with no white space and digits after it is copied whole. */
  lemma {:induction false} GlueStepCasesCopy(s: string, w: nat, sp: nat, d: nat)
    requires s != [] && IsWordChar(s[0]) && !(0 < sp && 0 < d)
    requires WordRun(s) == w && w <= |s| && SpaceRun(s[w..]) == sp
    requires w + sp <= |s| && DigitRun(s[w + sp..]) == d
    ensures StepCase(s, GlueStep(s).0, GlueStep(s).1)
  {
    WordRunEnds(s);
    GlueStepCopy(s, w, sp, d);
  }

  /** What a match attempt gives for a word it copies. */
  lemma {:induction false} GlueStepCopy(s: string, w: nat, sp: nat, d: nat)
    requires s != [] && IsWordChar(s[0]) && !(0 < sp && 0 < d)
    requires WordRun(s) == w && w <= |s| && SpaceRun(s[w..]) == sp
    requires w + sp <= |s| && DigitRun(s[w + sp..]) == d
    ensures GlueStep(s) == (w, s[..w])
  {
  }

  /** Each case of a step deletes at most a word-digit gap. */
  lemma {:induction false} StepCaseGluesOnly(s: string, n: nat, out: string, rest': string)
    requires StepCase(s, n, out) && GluedOnly(s[n..], rest', false)
    ensures GluedOnly(s, out + rest', false)
  {
    GluedOnlyAfterWord(s[n..], rest');
    if !IsWordChar(s[0]) && n == 1 && out == [s[0]] {
      GlueOtherGluesOnly(s, rest');
    } else if IsWordChar(s[n - 1]) && out == s[..n] {
      GlueCopyGluesOnly(s, n, rest');
    } else {
      var w := WordRun(s);
      var sp := SpaceRun(s[w..]);
      GlueMatchGluesOnly(s, w, sp, n, rest');
      AppendAssoc(s[..w], s[w + sp..n], rest');
    }
  }

  /** One match attempt deletes at most a word-digit gap. */
  lemma {:induction false} GlueStepGluesOnly(s: string, rest': string)
    requires s != []
    requires GluedOnly(s[GlueStep(s).0..], rest', false)
    ensures GluedOnly(s, GlueStep(s).1 + rest', false)
  {
    GlueStepCases(s);
    StepCaseGluesOnly(s, GlueStep(s).0, GlueStep(s).1, rest');
  }

  /** A character that starts no word is copied. */
  lemma {:induction false} GlueOtherGluesOnly(s: string, rest': string)
    requires s != [] && GluedOnly(s[1..], rest', IsWordChar(s[0]))
    ensures GluedOnly(s, [s[0]] + rest', false)
  {
    assert ([s[0]] + rest')[1..] == rest';
  }

  /** The word at the front of `s` ends in a word character. */
  lemma {:induction false} WordRunEnds(s: string)
    requires s != [] && IsWordChar(s[0])
    ensures 0 < WordRun(s) && IsWordChar(s[WordRun(s) - 1])
  {
    RunsSpec(s);
  }

  /** The number at position `k` starts and ends with a digit. */
  lemma {:induction false} DigitRunEnds(s: string, k: nat)
    requires k <= |s| && DigitRun(s[k..]) > 0
    ensures IsDigit(s[k]) && IsDigit(s[k + DigitRun(s[k..]) - 1])
  {
    var t := s[k..];
    RunsSpec(t);
    assert t[0] == s[k] && t[DigitRun(t) - 1] == s[k + DigitRun(t) - 1];
  }

  /** Gluing deletes only whole runs of white space between a word character and a digit. */
  lemma {:induction false} JoinWordDigitsGluesOnly(s: string)
    ensures GluedOnly(s, JoinWordDigits(s), false)
    decreases |s|
  {
    if s != [] {
      var n := GlueStep(s).0;
      JoinWordDigitsGluesOnly(s[n..]);
      GlueStepGluesOnly(s, JoinWordDigits(s[n..]));
    }
  }

  lemma {:induction false} WordRunOf(a: string, b: string)
    requires forall i :: 0 <= i < |a| ==> IsWordChar(a[i])
    requires b == [] || !IsWordChar(b[0])
    ensures WordRun(a + b) == |a|
    decreases |a|
  {
    if a != [] {
      assert (a + b)[1..] == a[1..] + b;
      WordRunOf(a[1..], b);
    } else {
      assert a + b == b;
    }
  }

  lemma {:induction false} SpaceRunOf(a: string, b: string)
    requires forall i :: 0 <= i < |a| ==> IsRegexSpace(a[i])
    requires b == [] || !IsRegexSpace(b[0])
    ensures SpaceRun(a + b) == |a|
    decreases |a|
  {
    if a != [] {
      assert (a + b)[1..] == a[1..] + b;
      SpaceRunOf(a[1..], b);
    } else {
      assert a + b == b;
    }
  }

  lemma {:induction false} DigitRunOf(a: string)
    requires forall i :: 0 <= i < |a| ==> IsDigit(a[i])
    ensures DigitRun(a) == |a|
    decreases |a|
  {
    if a != [] {
      DigitRunOf(a[1..]);
    }
  }

  lemma {:induction false} GlueStepMatch(s: string, w: nat, sp: nat, d: nat)
    requires s != [] && IsWordChar(s[0]) && 0 < sp && 0 < d
    requires WordRun(s) == w && w <= |s| && SpaceRun(s[w..]) == sp
    requires w + sp <= |s| && DigitRun(s[w + sp..]) == d
    ensures GlueStep(s) == (w + sp + d, s[..w] + s[w + sp..w + sp + d])
  {
    assert GlueStep(s).0 == w + sp + d;
    assert GlueStep(s).1 == s[..w] + s[w + sp..w + sp + d];
  }

  /** A word, a run of white space and a number become the word directly followed by the number. */
  lemma {:induction false} WordGapNumberGlued(word: string, gap: string, number: string)
    requires word != [] && gap != [] && number != []
    requires forall i :: 0 <= i < |word| ==> IsWordChar(word[i])
    requires forall i :: 0 <= i < |gap| ==> IsRegexSpace(gap[i])
    requires forall i :: 0 <= i < |number| ==> IsDigit(number[i])
    ensures JoinWordDigits(word + (gap + number)) == word + number
  {
    var s := word + (gap + number);
    var w, sp := |word|, |gap|;
    WordRunOf(word, gap + number);
    assert s[w..] == gap + number;
    SpaceRunOf(gap, number);
    assert s[w + sp..] == number;
    DigitRunOf(number);
    assert s[0] == word[0];
    GlueStepMatch(s, w, sp, |number|);
    assert s[..w] == word && s[w + sp..|s|] == number;
    assert s[|s|..] == [];
  }

  // ---------------------------------------------------------------- file markers

  const StartMarker: string := "--- START OF FILE:"
  const EndMarker: string := "--- END OF FILE:"

  /** The removal of file markers that compression performs outside verbose mode. */
  function StripMarkers(s: string): string {
    ReplaceAll(ReplaceAll(s, StartMarker, ""), EndMarker, "")
  }

  /** Text without the pair m[k] m[k+1] does not contain m. */
  lemma {:induction false} NoPairNotContains(s: string, m: string, k: nat)
    requires k + 1 < |m| && NoPair(s, m[k], m[k + 1])
    ensures !Contains(s, m)
    decreases |s|
  {
    assert !HasPrefix(s, m) by {
      if |m| <= |s| {
        assert s[..|m|][k] == s[k] && s[..|m|][k + 1] == s[k + 1];
      }
    }
    if s != [] {
      NoPairNotContains(s[1..], m, k);
    }
  }

  /** Both markers hold "- ", so text without that pair has no marker to strip. */
  lemma StripMarkersInert(s: string)
    requires NoPair(s, '-', ' ')
    ensures StripMarkers(s) == s
  {
    NoPairNotContains(s, StartMarker, 2);
    ReplaceAllAbsent(s, StartMarker, "");
    NoPairNotContains(s, EndMarker, 2);
    ReplaceAllAbsent(s, EndMarker, "");
  }

  // ---------------------------------------------------------------- comments

  /** The text from its first line break on; empty when there is none. */
  function FromLineBreak(s: string): (r: string)
    ensures |r| <= |s| && r == s[|s| - |r|..]
    ensures r == [] || r[0] == '\n'
    ensures forall i :: 0 <= i < |s| - |r| ==> s[i] != '\n'
    decreases |s|
  {
    if s == [] || s[0] == '\n' then s else FromLineBreak(s[1..])
  }

  /** A line comment starts here. */
  predicate OpensLineComment(s: string) {
    |s| >= 2 && s[0] == '/' && s[1] == '/'
  }

  /** A block comment starts here. */
  predicate OpensBlockComment(s: string) {
    |s| >= 2 && s[0] == '/' && s[1] == '*'
  }

  /**
   * ReplaceAllString of `//.*` by "": from each leftmost "//" up to the end of its line
   * (the line break itself stays).
   */
  function RemoveLineComments(s: string): (r: string)
    ensures |r| <= |s|
    decreases |s|
  {
    if s == [] then []
    else if OpensLineComment(s) then RemoveLineComments(FromLineBreak(s[2..]))
    else [s[0]] + RemoveLineComments(s[1..])
  }

  /** No "//" survives, and text that does not open a comment keeps its first character. */
  lemma {:induction false} RemoveLineCommentsShape(s: string)
    ensures var r := RemoveLineComments(s);
      NoPair(r, '/', '/') && (s != [] && !OpensLineComment(s) ==> r != [] && r[0] == s[0])
    decreases |s|
  {
    if s != [] {
      if OpensLineComment(s) {
        RemoveLineCommentsShape(FromLineBreak(s[2..]));
      } else {
        var rest := RemoveLineComments(s[1..]);
        RemoveLineCommentsShape(s[1..]);
        if s[0] == '/' && rest != [] {
          assert s[1..][0] == s[1] && s[1] != '/';
        }
        NoPairConcat([s[0]], rest, '/', '/');
      }
    }
  }

  /** Index just past the first star-slash of `t`, if there is one. */
  function CloseEnd(t: string): (r: Option<nat>)
    ensures r.Some? ==> 2 <= r.value <= |t|
    decreases |t|
  {
    if |t| < 2 then None
    else if t[0] == '*' && t[1] == '/' then Some(2)
    else
      var k := CloseEnd(t[1..]);
      if k.None? then None else Some(k.value + 1)
  }

  /** The lazy match ends just past the first star-slash, and there is none when it fails. */
  lemma {:induction false} CloseEndSpec(t: string)
    ensures var r := CloseEnd(t);
      (r.Some? ==> t[r.value - 2] == '*' && t[r.value - 1] == '/' && NoPair(t[..r.value - 1], '*', '/'))
      && (r.None? ==> NoPair(t, '*', '/'))
    decreases |t|
  {
    if |t| >= 2 && !(t[0] == '*' && t[1] == '/') {
      var k := CloseEnd(t[1..]);
      CloseEndSpec(t[1..]);
      if k.None? {
        NoPairConcat([t[0]], t[1..], '*', '/');
        assert t == [t[0]] + t[1..];
      } else {
        NoPairConcat([t[0]], t[1..][..k.value - 1], '*', '/');
        assert t[..k.value] == [t[0]] + t[1..][..k.value - 1];
      }
    } else if |t| >= 2 {
      assert t[..1] == [t[0]];
    }
  }

  /**
   * ReplaceAllString of the lazy, dot-all block-comment pattern by "": from each leftmost
   * slash-star that has a star-slash after it, up to and including the first such star-slash.
   */
  function RemoveBlockComments(s: string): (r: string)
    ensures |r| <= |s|
    decreases |s|
  {
    if s == [] then []
    else if OpensBlockComment(s) && CloseEnd(s[2..]).Some? then
      RemoveBlockComments(s[2 + CloseEnd(s[2..]).value..])
    else [s[0]] + RemoveBlockComments(s[1..])
  }

  /** removeComments: line comments first, then block comments. */
  function RemoveComments(s: string): (r: string)
    ensures |r| <= |s|
  {
    RemoveBlockComments(RemoveLineComments(s))
  }

  /** Text without "//" keeps all its lines. */
  lemma {:induction false} RemoveLineCommentsAbsent(s: string)
    requires NoPair(s, '/', '/')
    ensures RemoveLineComments(s) == s
    decreases |s|
  {
    if s != [] {
      RemoveLineCommentsAbsent(s[1..]);
      assert s == [s[0]] + s[1..];
    }
  }

  lemma {:induction false} FromLineBreakSkips(c: string, t: string)
    requires forall i :: 0 <= i < |c| ==> c[i] != '\n'
    requires t == [] || t[0] == '\n'
    ensures FromLineBreak(c + t) == t
    decreases |c|
  {
    if c != [] {
      assert (c + t)[1..] == c[1..] + t;
      FromLineBreakSkips(c[1..], t);
    } else {
      assert c + t == t;
    }
  }

  lemma NoPairTail(s: string, a: char, b: char)
    requires s != [] && NoPair(s, a, b)
    ensures NoPair(s[1..], a, b)
  {
    forall i | 0 <= i < |s| - 2 ensures !(s[1..][i] == a && s[1..][i + 1] == b) {
      assert s[1..][i] == s[i + 1] && s[1..][i + 1] == s[i + 2];
    }
  }

  /** A line comment and the rest of its line go; the line break stays. */
  lemma LineCommentDropped(c: string, t: string)
    requires forall i :: 0 <= i < |c| ==> c[i] != '\n'
    requires t == [] || t[0] == '\n'
    ensures RemoveLineComments("//" + (c + t)) == RemoveLineComments(t)
  {
    var u := c + t;
    var s := "//" + u;
    assert s[0] == '/' && s[1] == '/' && s[2..] == u;
    FromLineBreakSkips(c, t);
    assert RemoveLineComments(s) == RemoveLineComments(FromLineBreak(u));
  }

  /** Text holding no "//", and not ending in '/', is kept in front of whatever follows it. */
  lemma {:induction false} CleanPrefixKept(p: string, u: string)
    requires NoPair(p, '/', '/') && (p == [] || p[|p| - 1] != '/')
    ensures RemoveLineComments(p + u) == p + RemoveLineComments(u)
    decreases |p|
  {
    if p == [] {
      assert p + u == u;
    } else {
      var s := p + u;
      assert s[0] == p[0] && s[1..] == p[1..] + u;
      assert !OpensLineComment(s) by {
        if |p| > 1 {
          assert s[1] == p[1];
        }
      }
      NoPairTail(p, '/', '/');
      CleanPrefixKept(p[1..], u);
      assert p == [p[0]] + p[1..];
    }
  }

  /**
   * A line comment is cut from its "//" to the end of its line, and the text before it,
   * which holds no "//" of its own, is kept.
   */
  lemma RemoveLineCommentsCut(p: string, c: string, t: string)
    requires NoPair(p, '/', '/') && (p == [] || p[|p| - 1] != '/')
    requires forall i :: 0 <= i < |c| ==> c[i] != '\n'
    requires t == [] || t[0] == '\n'
    ensures RemoveLineComments(p + ("//" + (c + t))) == p + RemoveLineComments(t)
  {
    CleanPrefixKept(p, "//" + (c + t));
    LineCommentDropped(c, t);
  }

  /** Text without slash-star keeps all of itself. */
  lemma {:induction false} RemoveBlockCommentsAbsent(s: string)
    requires NoPair(s, '/', '*')
    ensures RemoveBlockComments(s) == s
    decreases |s|
  {
    if s != [] {
      RemoveBlockCommentsAbsent(s[1..]);
      assert s == [s[0]] + s[1..];
    }
  }

  /** In body, a star-slash and rest, where body holds no star-slash, the first one closes body. */
  lemma {:induction false} CloseEndAfter(body: string, rest: string)
    requires NoPair(body, '*', '/')
    ensures CloseEnd(body + "*/" + rest) == Some(|body| + 2)
    decreases |body|
  {
    var t := body + "*/" + rest;
    if body != [] {
      assert t[1..] == body[1..] + "*/" + rest;
      CloseEndAfter(body[1..], rest);
      if |body| == 1 {
        assert t[1] == '*';
      } else {
        assert t[1] == body[1];
      }
    }
  }

  /** A block comment goes up to and including its first star-slash. */
  lemma BlockCommentDropped(body: string, rest: string)
    requires NoPair(body, '*', '/')
    ensures RemoveBlockComments("/*" + (body + ("*/" + rest))) == RemoveBlockComments(rest)
  {
    var u := body + ("*/" + rest);
    var s := "/*" + u;
    assert s[0] == '/' && s[1] == '*' && s[2..] == u;
    assert body + "*/" + rest == u;
    CloseEndAfter(body, rest);
    assert u[|body| + 2..] == rest;
    assert s[2 + (|body| + 2)..] == rest;
  }

  /** Text opening no block comment, and not opening one with what follows, is kept. */
  lemma {:induction false} CleanBlockPrefixKept(p: string, u: string)
    requires NoPair(p, '/', '*')
    requires p == [] || u == [] || !(p[|p| - 1] == '/' && u[0] == '*')
    ensures RemoveBlockComments(p + u) == p + RemoveBlockComments(u)
    decreases |p|
  {
    if p == [] {
      assert p + u == u;
    } else {
      var s := p + u;
      calc {
        RemoveBlockComments(s);
        { assert s[0] == p[0] && s[1..] == p[1..] + u;
          assert !OpensBlockComment(s) by {
            if |p| > 1 {
              assert s[1] == p[1];
            } else if u != [] {
              assert s[1] == u[0];
            }
          }
        }
        [p[0]] + RemoveBlockComments(p[1..] + u);
        { NoPairTail(p, '/', '*');
          assert p[1..] == [] || p[1..][|p| - 2] == p[|p| - 1];
          CleanBlockPrefixKept(p[1..], u);
        }
        [p[0]] + (p[1..] + RemoveBlockComments(u));
        { assert p == [p[0]] + p[1..]; }
        p + RemoveBlockComments(u);
      }
    }
  }

  /**
   * A block comment is cut from its slash-star to its first star-slash, and the text
   * before it, which opens no comment of its own, is kept.
   */
  lemma RemoveBlockCommentsCut(p: string, body: string, rest: string)
    requires NoPair(p, '/', '*') && NoPair(body, '*', '/')
    ensures RemoveBlockComments(p + ("/*" + (body + ("*/" + rest)))) == p + RemoveBlockComments(rest)
  {
    CleanBlockPrefixKept(p, "/*" + (body + ("*/" + rest)));
    BlockCommentDropped(body, rest);
  }

  /** Text that opens no comment of either kind comes through removeComments unchanged. */
  lemma RemoveCommentsAbsent(s: string)
    requires NoPair(s, '/', '/') && NoPair(s, '/', '*')
    ensures RemoveComments(s) == s
  {
    RemoveLineCommentsAbsent(s);
    RemoveBlockCommentsAbsent(s);
  }

  /**
   * Line comments go first, so a "//" inside a block comment takes the block's closing
   * star-slash with it and the block comment is left open, and kept.
   */
  lemma LineCommentInsideBlock()
    ensures RemoveComments("/*a//b*/c") == "/*a"
  {
    var s := "/*a//b*/c";
    assert s == "/*a" + ("//" + ("b*/c" + ""));
    assert NoPair("/*a", '/', '/') && "/*a"[2] != '/';
    RemoveLineCommentsCut("/*a", "b*/c", "");
    assert RemoveLineComments(s) == "/*a";
    assert CloseEnd("a") == None;
    assert RemoveBlockComments("a") == "a";
    assert RemoveBlockComments("*a") == "*a";
  }

  // ---------------------------------------------------------------- compressContent

  /** What compressContent returns for `content` under the given flags. */
  function Compressed(content: string, aggressive: bool, verbose: bool): string {
    var s0 := if aggressive then RemoveComments(content) else content;
    var s1 := SquashSymbols(Collapse(s0), Symbols);
    var s2 := JoinWordDigits(s1);
    if verbose then s2 else StripMarkers(s2)
  }

  /** The dash is one of the symbols. */
  lemma DashIsSymbol()
    ensures '-' in Symbols
  {
    assert Symbols[11] == '-';
  }

  lemma SymbolsAreNotSpace()
    ensures forall i :: 0 <= i < |Symbols| ==> !IsSpace(Symbols[i])
  {
  }

  /** Gluing words to numbers keeps the shape that squashing the symbols established. */
  lemma JoinWordDigitsKeepsShape(s: string)
    requires Collapsed(s)
    requires forall c :: c in Symbols ==> NoPair(s, ' ', c) && NoPair(s, c, ' ')
    ensures var r := JoinWordDigits(s);
      Thinned(s, r) && Collapsed(r) && forall c :: c in Symbols ==> NoPair(r, ' ', c) && NoPair(r, c, ' ')
  {
    var r := JoinWordDigits(s);
    JoinWordDigitsThins(s);
    ThinnedCollapsed(s, r);
    forall c | c in Symbols ensures NoPair(r, ' ', c) && NoPair(r, c, ' ') {
      ThinnedNoPair(s, r, ' ', c);
      ThinnedNoPair(s, r, c, ' ');
    }
  }

  /**
   * Compressed text is single-spaced, no longer than the input, has no space next to any
   * symbol, and differs from the collapsed (comment-free) input only by deleted spaces.
   */
  lemma CompressedShape(content: string, aggressive: bool, verbose: bool)
    ensures var s0 := if aggressive then RemoveComments(content) else content;
      var r := Compressed(content, aggressive, verbose);
      Collapsed(r) && |r| <= |content| && Thinned(Collapse(s0), r)
      && forall c :: c in Symbols ==> NoPair(r, ' ', c) && NoPair(r, c, ' ')
  {
    var s0 := if aggressive then RemoveComments(content) else content;
    var c0 := Collapse(s0);
    var s1 := SquashSymbols(c0, Symbols);
    var s2 := JoinWordDigits(s1);
    CollapseShape(s0);
    SymbolsAreNotSpace();
    SquashSymbolsSpec(c0, Symbols);
    JoinWordDigitsKeepsShape(s1);
    ThinnedLength(s1, s2);
    ThinnedLength(c0, s1);
    ThinnedTransitive(c0, s1, s2);
    DashIsSymbol();
    StripMarkersInert(s2);
  }

  /** The marker removal never fires: the result does not depend on the verbose flag. */
  lemma CompressedIgnoresVerbose(content: string, aggressive: bool)
    ensures Compressed(content, aggressive, true) == Compressed(content, aggressive, false)
  {
    var r := Compressed(content, aggressive, true);
    CompressedShape(content, aggressive, true);
    DashIsSymbol();
    assert NoPair(r, '-', ' ');
    StripMarkersInert(r);
  }

  lemma GlueLoneDigit()
    ensures JoinWordDigits(" 2") == " 2"
  {
    assert WordRun("2") == 1;
    assert "2"[1..] == "" && "2"[..1] == "2";
    assert GlueStep("2") == (1, "2");
    assert JoinWordDigits("2") == "2";
    assert GlueStep(" 2") == (1, " ");
    assert " 2"[1..] == "2";
  }

  lemma GlueFirstMatch()
    ensures GlueStep("a 1 2") == (3, "a1")
  {
    var s := "a 1 2";
    assert WordRun(s) == 1;
    assert s[1..] == " 1 2" && SpaceRun(" 1 2") == 1;
    assert s[2..] == "1 2" && DigitRun("1 2") == 1;
    assert s[..1] + s[2..3] == "a1";
  }

  lemma GlueSecondPass()
    ensures GlueStep("a1 2") == (4, "a12")
  {
    var s := "a1 2";
    assert WordRun(s) == 2;
    assert s[2..] == " 2" && SpaceRun(" 2") == 1;
    assert s[3..] == "2" && DigitRun("2") == 1;
    assert s[..2] + s[3..4] == "a12";
  }

  /**
   * The word-number gluing is a single leftmost pass: "a 1 2" becomes "a1 2", which a
   * second pass would turn into "a12".
   */
  lemma JoinWordDigitsOnePass()
    ensures JoinWordDigits("a 1 2") == "a1 2"
    ensures JoinWordDigits("a1 2") == "a12"
  {
    FirstPassGluesOnce();
    SecondPassGluesRest();
  }

  lemma FirstPassGluesOnce()
    ensures JoinWordDigits("a 1 2") == "a1 2"
  {
    GlueLoneDigit();
    GlueFirstMatch();
    assert "a 1 2"[3..] == " 2";
  }

  lemma SecondPassGluesRest()
    ensures JoinWordDigits("a1 2") == "a12"
  {
    GlueSecondPass();
    assert "a1 2"[4..] == "";
  }

  /** The loop over the symbols in compressContent: the three replacements for each in turn. */
  method SquashEachSymbol(s: string) returns (r: string)
    ensures r == SquashSymbols(s, Symbols)
  {
    r := s;
    var i := 0;
    while i < |Symbols|
      invariant 0 <= i <= |Symbols|
      invariant SquashSymbols(r, Symbols[i..]) == SquashSymbols(s, Symbols)
    {
      ghost var before := r;
      var sym := Symbols[i];
      r := ReplaceAll(r, [' ', sym, ' '], [sym]);
      r := ReplaceAll(r, [' ', sym], [sym]);
      r := ReplaceAll(r, [sym, ' '], [sym]);
      assert r == SquashSymbol(before, sym);
      assert Symbols[i..][0] == sym && Symbols[i..][1..] == Symbols[i + 1..];
      i := i + 1;
    }
    assert Symbols[i..] == [];
  }

  /** compressContent */
  method CompressContent(content: string, aggressive: bool, verbose: bool) returns (r: string)
    ensures r == Compressed(content, aggressive, verbose)
    ensures Collapsed(r) && |r| <= |content|
    ensures forall c :: c in Symbols ==> NoPair(r, ' ', c) && NoPair(r, c, ' ')
  {
    var str := content;
    if aggressive {
      str := RemoveComments(str);
    }
    str := Collapse(str);
    str := SquashEachSymbol(str);
    str := JoinWordDigits(str);
    if !verbose {
      str := StripMarkers(str);
    }
    r := str;
    CompressedShape(content, aggressive, verbose);
  }
}
