/**
 * Shell-style pattern matching as filepath.Match does it for the two wildcards the
 * model keeps: `*` matches any run of non-separator characters and `?` exactly one
 * non-separator character. Every other character matches itself.
 */
module Glob {

  import Paths

  predicate IsWildcard(c: char) {
    c == '*' || c == '?'
  }

  /** True when `pattern` matches all of `name`. */
  function Match(pattern: string, name: string): bool
    decreases |pattern| + |name|
  {
    if pattern == [] then name == []
    else if pattern[0] == '*' then
      Match(pattern[1..], name) || (|name| > 0 && name[0] != Paths.Separator && Match(pattern, name[1..]))
    else if pattern[0] == '?' then
      |name| > 0 && name[0] != Paths.Separator && Match(pattern[1..], name[1..])
    else
      |name| > 0 && name[0] == pattern[0] && Match(pattern[1..], name[1..])
  }

  /** The number of separators in a path. */
  function Separators(s: string): nat
    decreases |s|
  {
    if s == [] then 0 else (if s[0] == Paths.Separator then 1 else 0) + Separators(s[1..])
  }

  /** A pattern without wildcards matches exactly the one name it spells. */
  lemma {:induction false} MatchLiteral(pattern: string, name: string)
    requires forall k :: 0 <= k < |pattern| ==> !IsWildcard(pattern[k])
    ensures Match(pattern, name) <==> pattern == name
    decreases |pattern|
  {
    if pattern != [] && |name| > 0 {
      MatchLiteral(pattern[1..], name[1..]);
      if pattern[0] == name[0] && pattern[1..] == name[1..] {
        assert pattern == [pattern[0]] + pattern[1..];
        assert name == [name[0]] + name[1..];
      }
    }
  }

  /** A wildcard never spans a separator: a match has as many separators as its pattern. */
  lemma {:induction false} MatchKeepsDepth(pattern: string, name: string)
    requires Match(pattern, name)
    ensures Separators(pattern) == Separators(name)
    decreases |pattern| + |name|
  {
    if pattern == [] {
    } else if pattern[0] == '*' {
      if Match(pattern[1..], name) {
        MatchKeepsDepth(pattern[1..], name);
      } else {
        MatchKeepsDepth(pattern, name[1..]);
      }
    } else {
      MatchKeepsDepth(pattern[1..], name[1..]);
    }
  }

  /** A lone star matches exactly the names with no separator in them. */
  lemma {:induction false} StarMatchesOneElement(name: string)
    ensures Match("*", name) <==> Paths.Separator !in name
    decreases |name|
  {
    assert "*"[1..] == "";
    if name != [] {
      StarMatchesOneElement(name[1..]);
      assert name == [name[0]] + name[1..];
    }
  }
}
