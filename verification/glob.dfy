/**
 * The part of Go's path/filepath.Match that the packer's ignore patterns use:
 * literal characters, '*' (any run of characters other than the separator) and
 * '?' (one character other than the separator).
 */
module Glob {
  import opened Wrappers
  import opened Text

  const Separator: char := '/'

  /** Character classes ('[') and escapes ('\') are outside the model and count as malformed. */
  predicate Supported(pattern: string) {
    forall i :: 0 <= i < |pattern| ==> pattern[i] != '[' && pattern[i] != '\\'
  }

  /** A pattern made of plain characters only. */
  predicate Literal(pattern: string) {
    Supported(pattern) && forall i :: 0 <= i < |pattern| ==> pattern[i] != '*' && pattern[i] != '?'
  }

  /** Whether the whole of `name` matches `pattern`. */
  predicate Matches(pattern: string, name: string)
    decreases |pattern| + |name|
  {
    if pattern == [] then name == []
    else if pattern[0] == '*' then
      Matches(pattern[1..], name)
      || (name != [] && name[0] != Separator && Matches(pattern, name[1..]))
    else if pattern[0] == '?' then
      name != [] && name[0] != Separator && Matches(pattern[1..], name[1..])
    else
      name != [] && name[0] == pattern[0] && Matches(pattern[1..], name[1..])
  }

  /** filepath.Match: the verdict, or ErrBadPattern. */
  function Match(pattern: string, name: string): Result<bool, string> {
    if Supported(pattern) then Success(Matches(pattern, name))
    else Failure("syntax error in pattern")
  }

  /**
   * What the packer's loops act on: a pattern whose Match reports an error is logged and
   * skipped, so it selects nothing.
   */
  predicate Matched(pattern: string, name: string) {
    Match(pattern, name) == Success(true)
  }

  /** A pattern of plain characters matches exactly itself. */
  lemma {:induction false} LiteralMatchesItself(pattern: string, name: string)
    requires Literal(pattern)
    ensures Matches(pattern, name) <==> name == pattern
    decreases |pattern|
  {
    if pattern != [] {
      LiteralMatchesItself(pattern[1..], if name == [] then [] else name[1..]);
      if name != [] && name[0] == pattern[0] && name[1..] == pattern[1..] {
        assert name == [name[0]] + name[1..];
        assert pattern == [pattern[0]] + pattern[1..];
      }
    }
  }

  /**
   * "*" followed by plain characters matches exactly the names that end with those
   * characters and have no separator before them.
   */
  lemma {:induction false} StarSuffixMatches(lit: string, name: string)
    requires Literal(lit)
    ensures Matches(['*'] + lit, name)
        <==> HasSuffix(name, lit) && NoSlash(name[..|name| - |lit|])
    decreases |name|
  {
    var p := ['*'] + lit;
    assert p[1..] == lit;
    LiteralMatchesItself(lit, name);
    if name != [] {
      StarSuffixMatches(lit, name[1..]);
      if HasSuffix(name, lit) && |name| > |lit| {
        assert name[1..][..|name| - 1 - |lit|] == name[1..|name| - |lit|];
        assert name[1..][|name| - 1 - |lit|..] == name[|name| - |lit|..];
      }
      if HasSuffix(name[1..], lit) {
        assert name[1..][|name| - 1 - |lit|..] == name[|name| - |lit|..];
        assert name[..|name| - |lit|] == [name[0]] + name[1..][..|name| - 1 - |lit|];
      }
    }
  }

  /** A lone "*" matches exactly the names without a separator. */
  lemma StarMatchesOneElement(name: string)
    ensures Matches("*", name) <==> NoSlash(name)
  {
    StarSuffixMatches("", name);
    assert ['*'] + "" == "*";
    assert name[..|name| - 0] == name;
  }

  /** A lone "?" matches exactly the one-character names other than the separator. */
  lemma QuestionMatchesOneCharacter(name: string)
    ensures Matches("?", name) <==> |name| == 1 && name[0] != Separator
  {
  }
}
