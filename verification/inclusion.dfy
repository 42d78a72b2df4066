/**
 * Deciding whether a path inside a layer or an image belongs to the requested
 * sources. Paths are compared in absolute form: a relative path gets a leading
 * separator first. The current implementation accepts a path that a source matches
 * as a pattern or has as a prefix; the earlier revisions accept prefixes only.
 */
module Inclusion {

  import Paths
  import Glob

  /** The source accepts the (absolute form of the) path by prefix or by pattern. */
  predicate Accepts(source: string, path: string) {
    var abs := Paths.Absolute(path);
    Glob.Match(source, abs) || source <= abs
  }

  /** Accepts a path whose absolute form matches a source or starts with it. */
  function Includes(sources: seq<string>, path: string): (r: bool)
    ensures r <==> exists k :: 0 <= k < |sources| && Accepts(sources[k], path)
    decreases |sources|
  {
    if sources == [] then false
    else Accepts(sources[0], path) || Includes(sources[1..], path)
  }

  /** Accepts a path whose absolute form starts with one of the sources. */
  function IncludesPrefix(sources: seq<string>, path: string): (r: bool)
    ensures r <==> exists k :: 0 <= k < |sources| && sources[k] <= Paths.Absolute(path)
    decreases |sources|
  {
    if sources == [] then false
    else sources[0] <= Paths.Absolute(path) || IncludesPrefix(sources[1..], path)
  }

  /** Pattern matching only widens the prefix rule: everything a prefix accepts is still included. */
  lemma PrefixIncluded(sources: seq<string>, path: string)
    requires IncludesPrefix(sources, path)
    ensures Includes(sources, path)
  {
    var k :| 0 <= k < |sources| && sources[k] <= Paths.Absolute(path);
    assert Accepts(sources[k], path);
  }

  /** A relative path is judged exactly as the same path with a leading separator. */
  lemma RelativeIsRooted(sources: seq<string>, path: string)
    requires !Paths.IsAbs(path)
    ensures Includes(sources, path) == Includes(sources, "/" + path)
    ensures IncludesPrefix(sources, path) == IncludesPrefix(sources, "/" + path)
  {
    assert Paths.IsAbs("/" + path);
    assert Paths.Absolute("/" + path) == Paths.Absolute(path);
    forall k | 0 <= k < |sources|
      ensures Accepts(sources[k], path) == Accepts(sources[k], "/" + path)
    {
    }
  }

  /** The root as a source includes every path. */
  lemma RootIncludesAll(sources: seq<string>, path: string)
    requires "/" in sources
    ensures IncludesPrefix(sources, path)
    ensures Includes(sources, path)
  {
    var k :| 0 <= k < |sources| && sources[k] == "/";
    assert Paths.Absolute(path)[0] == '/';
    assert sources[k] <= Paths.Absolute(path);
    PrefixIncluded(sources, path);
  }

  /** A pattern source picks a file no prefix rule would: the two revisions disagree on a star pattern. */
  lemma PatternWidens()
    ensures Includes(["/bin/*"], "/bin/sh")
    ensures !IncludesPrefix(["/bin/*"], "/bin/sh")
  {
    assert Glob.Match("*", "sh") by {
      Glob.StarMatchesOneElement("sh");
    }
    assert Glob.Match("/bin/*", "/bin/sh") by {
      assert "/bin/*"[1..] == "bin/*";
      assert "bin/*"[1..] == "in/*";
      assert "in/*"[1..] == "n/*";
      assert "n/*"[1..] == "/*";
      assert "/*"[1..] == "*";
      assert "/bin/sh"[1..] == "bin/sh";
      assert "bin/sh"[1..] == "in/sh";
      assert "in/sh"[1..] == "n/sh";
      assert "n/sh"[1..] == "/sh";
      assert "/sh"[1..] == "sh";
    }
    assert Accepts("/bin/*", "/bin/sh");
    assert ["/bin/*"][0] == "/bin/*";
    assert !("/bin/*" <= "/bin/sh") by {
      assert "/bin/*"[5] != "/bin/sh"[5];
    }
  }

  /**
   * Prefixes are compared as strings, not path elements: the source "/app" also
   * covers "app/file.txt", while "/app/" does not cover "ap".
   */
  lemma PrefixIsTextual()
    ensures IncludesPrefix(["/app"], "app/file.txt")
    ensures !IncludesPrefix(["/app/"], "ap")
  {
    assert Paths.Absolute("app/file.txt") == "/app/file.txt";
    assert "/app" <= "/app/file.txt";
    assert Paths.Absolute("ap") == "/ap";
    assert !("/app/" <= "/ap");
  }
}
