/**
 * Lexical handling of slash-separated paths, as Go's path/filepath package does it
 * on Unix: IsAbs, Clean, Join, Split (the file part) and Dir. Only the lexical rules
 * are modelled; nothing here consults a file system.
 */
module Paths {

  const Separator: char := '/'

  /** filepath.IsAbs on Unix: the path starts with a separator. */
  predicate IsAbs(p: string) {
    |p| > 0 && p[0] == Separator
  }

  /** strings.HasSuffix */
  predicate HasSuffix(s: string, suffix: string) {
    |suffix| <= |s| && s[|s| - |suffix|..] == suffix
  }

  /** The path made absolute by prepending a separator when it has none. */
  function Absolute(p: string): (r: string)
    ensures IsAbs(r)
    ensures IsAbs(p) ==> r == p
    ensures !IsAbs(p) ==> r == "/" + p
  {
    if IsAbs(p) then p else "/" + p
  }

  /**
   * The elements of `s` between separators, left to right, empty ones included:
   * "a//b/" has the elements "a", "", "b" and "".
   */
  function Elements(s: string): (r: seq<string>)
    ensures |r| >= 1
    decreases |s|
  {
    if s == [] then [""]
    else
      var init := Elements(s[..|s| - 1]);
      var c := s[|s| - 1];
      if c == Separator then init + [""]
      else init[..|init| - 1] + [init[|init| - 1] + [c]]
  }

  /** The elements joined with single separators; the inverse of Elements (see ElementsOfJoin). */
  function JoinElements(segs: seq<string>): string
    decreases |segs|
  {
    if segs == [] then ""
    else if |segs| == 1 then segs[0]
    else JoinElements(segs[..|segs| - 1]) + "/" + segs[|segs| - 1]
  }

  /** The part after the last separator: the file half of filepath.Split. */
  function LastElement(p: string): string {
    var e := Elements(p);
    e[|e| - 1]
  }

  /** An element that names a directory by its form alone. */
  predicate IsDirectoryElement(x: string) {
    x == "" || x == "." || x == ".."
  }

  /**
   * One element of Clean's rewriting: empty and "." elements vanish, ".." removes the
   * preceding real element; at the root a ".." is dropped, in a relative path an
   * unmatched ".." is kept.
   */
  function Step(stack: seq<string>, x: string, rooted: bool): seq<string> {
    if x == "" || x == "." then stack
    else if x == ".." then
      if |stack| > 0 && stack[|stack| - 1] != ".." then stack[..|stack| - 1]
      else if rooted then stack
      else stack + [".."]
    else stack + [x]
  }

  function Normalize(segs: seq<string>, rooted: bool): seq<string>
    decreases |segs|
  {
    if segs == [] then []
    else Step(Normalize(segs[..|segs| - 1], rooted), segs[|segs| - 1], rooted)
  }

  /** Writes an element list back as a path: a leading separator when rooted, "." for nothing at all. */
  function Render(segs: seq<string>, rooted: bool): string {
    var body := JoinElements(segs);
    var out := if rooted then "/" + body else body;
    if out == "" then "." else out
  }

  /** filepath.Clean: the shortest lexically equivalent path; "." for an empty result. */
  function Clean(p: string): string {
    Render(Normalize(Elements(p), IsAbs(p)), IsAbs(p))
  }

  /** filepath.Join of two elements: the non-empty tail joined by a separator, then cleaned. */
  function Join(a: string, b: string): string {
    if a != "" then Clean(a + "/" + b)
    else if b != "" then Clean(b)
    else ""
  }

  /** The prefix of `p` up to and including its last separator (the directory half of filepath.Split). */
  function DirPart(p: string): string
    decreases |p|
  {
    if p == [] then []
    else if p[|p| - 1] == Separator then p
    else DirPart(p[..|p| - 1])
  }

  /** filepath.Dir: all but the last element, cleaned. */
  function Dir(p: string): string {
    Clean(DirPart(p))
  }

  /** The normal form Clean produces: no empty, "." or separator-bearing elements, and ".." only leading a relative path. */
  ghost predicate Normal(segs: seq<string>, rooted: bool) {
    forall k :: 0 <= k < |segs| ==>
      && segs[k] != ""
      && segs[k] != "."
      && Separator !in segs[k]
      && (segs[k] == ".." ==> !rooted && forall j :: 0 <= j < k ==> segs[j] == "..")
  }

  // ---------------------------------------------------------------------------
  // Elements / JoinElements

  /** No element contains a separator. */
  predicate SeparatorFree(segs: seq<string>) {
    forall k :: 0 <= k < |segs| ==> Separator !in segs[k]
  }

  /** The elements of a path never contain the separator that delimits them. */
  lemma {:induction false} ElementsSeparatorFree(s: string)
    ensures SeparatorFree(Elements(s))
    decreases |s|
  {
    if s != [] {
      var init := Elements(s[..|s| - 1]);
      ElementsSeparatorFree(s[..|s| - 1]);
      var c := s[|s| - 1];
      if c != Separator {
        var e := Elements(s);
        assert e == init[..|init| - 1] + [init[|init| - 1] + [c]];
        forall k | 0 <= k < |e| ensures Separator !in e[k] {
          if k < |e| - 1 {
            assert e[k] == init[k];
          } else {
            assert Separator !in init[|init| - 1];
          }
        }
      }
    }
  }

  lemma {:induction false} ElementsOfFree(x: string)
    requires Separator !in x
    ensures Elements(x) == [x]
    decreases |x|
  {
    if x != [] {
      var x' := x[..|x| - 1];
      assert Separator !in x' by {
        forall c | c in x' ensures c != Separator {
          var k :| 0 <= k < |x'| && x'[k] == c;
          assert x[k] == c;
        }
      }
      ElementsOfFree(x');
      assert x' + [x[|x| - 1]] == x;
    }
  }

  /** Elements of a path extended by one character, in terms of the elements of the path. */
  lemma ElementsSnoc(s: string, c: char)
    ensures c == Separator ==> Elements(s + [c]) == Elements(s) + [""]
    ensures c != Separator ==> Elements(s + [c]) == Elements(s)[..|Elements(s)| - 1] + [Elements(s)[|Elements(s)| - 1] + [c]]
  {
    var t := s + [c];
    assert t[..|t| - 1] == s;
    assert t[|t| - 1] == c;
  }

  lemma SnocOfLast<T>(s: seq<T>)
    requires |s| > 0
    ensures s[..|s| - 1] + [s[|s| - 1]] == s
  {
  }

  lemma AppendAssoc<T>(x: seq<T>, y: seq<T>, z: seq<T>)
    ensures (x + y) + z == x + (y + z)
  {
  }

  lemma ExtendLast(A: seq<string>, E: seq<string>, c: char)
    requires |E| >= 1
    ensures var AE := A + E; AE[..|AE| - 1] + [AE[|AE| - 1] + [c]] == A + (E[..|E| - 1] + [E[|E| - 1] + [c]])
  {
    var AE := A + E;
    assert AE[..|AE| - 1] == A + E[..|E| - 1];
    assert AE[|AE| - 1] == E[|E| - 1];
  }

  /** ElementsSnoc for a path that extends a separator-joined pair. */
  lemma ElementsSnocJoined(a: string, b: string, c: char)
    ensures c == Separator ==> Elements(a + "/" + (b + [c])) == Elements(a + "/" + b) + [""]
    ensures c != Separator ==>
      var init := Elements(a + "/" + b);
      Elements(a + "/" + (b + [c])) == init[..|init| - 1] + [init[|init| - 1] + [c]]
  {
    assert a + "/" + (b + [c]) == (a + "/" + b) + [c];
    ElementsSnoc(a + "/" + b, c);
  }

  lemma ElementsAppendSeparator(a: string, b: string)
    requires Elements(a + "/" + b) == Elements(a) + Elements(b)
    ensures Elements(a + "/" + (b + [Separator])) == Elements(a) + Elements(b + [Separator])
  {
    ElementsSnocJoined(a, b, Separator);
    ElementsSnoc(b, Separator);
    AppendAssoc(Elements(a), Elements(b), [""]);
  }

  lemma ElementsAppendChar(a: string, b: string, c: char)
    requires c != Separator
    requires Elements(a + "/" + b) == Elements(a) + Elements(b)
    ensures Elements(a + "/" + (b + [c])) == Elements(a) + Elements(b + [c])
  {
    ElementsSnocJoined(a, b, c);
    ElementsSnoc(b, c);
    ExtendLast(Elements(a), Elements(b), c);
  }

  /** Splitting at a separator splits the element lists. */
  lemma {:induction false} ElementsAppend(a: string, b: string)
    ensures Elements(a + "/" + b) == Elements(a) + Elements(b)
    decreases |b|
  {
    if b == [] {
      assert a + "/" + b == a + [Separator];
      ElementsSnoc(a, Separator);
    } else {
      var b' := b[..|b| - 1];
      ElementsAppend(a, b');
      if b[|b| - 1] == Separator {
        ElementsAppendSeparator(a, b');
      } else {
        ElementsAppendChar(a, b', b[|b| - 1]);
      }
      assert b' + [b[|b| - 1]] == b;
    }
  }

  /** Appending a separator and a separator-free element appends that element. */
  lemma ElementsAppendFree(j: string, last: string)
    requires Separator !in last
    ensures Elements(j + "/" + last) == Elements(j) + [last]
  {
    ElementsAppend(j, last);
    ElementsOfFree(last);
  }

  lemma JoinElementsSnoc(segs: seq<string>)
    requires |segs| >= 2
    ensures JoinElements(segs) == JoinElements(segs[..|segs| - 1]) + "/" + segs[|segs| - 1]
  {
  }

  /** Joining one more separator-free element appends it to the elements of the shorter join. */
  lemma ElementsOfJoinSnoc(segs: seq<string>)
    requires |segs| >= 2
    requires Separator !in segs[|segs| - 1]
    ensures Elements(JoinElements(segs)) == Elements(JoinElements(segs[..|segs| - 1])) + [segs[|segs| - 1]]
  {
    JoinElementsSnoc(segs);
    ElementsAppendFree(JoinElements(segs[..|segs| - 1]), segs[|segs| - 1]);
  }

  lemma ElementsOfJoinStep(segs: seq<string>)
    requires |segs| >= 2
    requires Separator !in segs[|segs| - 1]
    requires Elements(JoinElements(segs[..|segs| - 1])) == segs[..|segs| - 1]
    ensures Elements(JoinElements(segs)) == segs
  {
    ElementsOfJoinSnoc(segs);
    SnocOfLast(segs);
  }

  /** Elements recovers the element list that JoinElements joined. */
  lemma {:induction false} ElementsOfJoin(segs: seq<string>)
    requires |segs| >= 1
    requires SeparatorFree(segs)
    ensures Elements(JoinElements(segs)) == segs
    decreases |segs|
  {
    if |segs| == 1 {
      ElementsOfFree(segs[0]);
    } else {
      var init := segs[..|segs| - 1];
      assert SeparatorFree(init) by {
        forall k | 0 <= k < |init| ensures Separator !in init[k] {
          assert init[k] == segs[k];
        }
      }
      ElementsOfJoin(init);
      ElementsOfJoinStep(segs);
    }
  }

  lemma {:induction false} JoinElementsFirst(segs: seq<string>)
    requires |segs| >= 1 && segs[0] != ""
    ensures |JoinElements(segs)| > 0 && JoinElements(segs)[0] == segs[0][0]
    decreases |segs|
  {
    if |segs| > 1 {
      JoinElementsFirst(segs[..|segs| - 1]);
    }
  }

  /** A string ends in a separator exactly when its last element is empty. */
  lemma LastElementEmpty(s: string)
    requires |s| > 0
    ensures LastElement(s) == "" <==> s[|s| - 1] == Separator
  {
  }

  // ---------------------------------------------------------------------------
  // Normalize

  lemma {:induction false} NormalizeIsNormal(segs: seq<string>, rooted: bool)
    requires SeparatorFree(segs)
    ensures Normal(Normalize(segs, rooted), rooted)
    decreases |segs|
  {
    if segs != [] {
      var init := segs[..|segs| - 1];
      NormalizeIsNormal(init, rooted);
      var st := Normalize(init, rooted);
      var x := segs[|segs| - 1];
      if x == ".." && !(|st| > 0 && st[|st| - 1] != "..") && !rooted {
        assert forall j :: 0 <= j < |st| ==> st[j] == "..";
      }
    }
  }

  /** Clean's rewriting leaves an element list that is already normal untouched. */
  lemma {:induction false} NormalizeFixed(pre: seq<string>, segs: seq<string>, rooted: bool)
    requires Normalize(pre, rooted) == []
    requires Normal(segs, rooted)
    ensures Normalize(pre + segs, rooted) == segs
    decreases |segs|
  {
    if segs == [] {
      assert pre + segs == pre;
    } else {
      var init := segs[..|segs| - 1];
      var x := segs[|segs| - 1];
      assert Normal(init, rooted);
      NormalizeFixed(pre, init, rooted);
      assert (pre + segs)[..|pre + segs| - 1] == pre + init;
      assert init + [x] == segs;
      if x == ".." {
        assert forall j :: 0 <= j < |init| ==> init[j] == "..";
      }
    }
  }

  // ---------------------------------------------------------------------------
  // Clean

  /** Clean keeps a path absolute exactly when it was absolute. */
  lemma CleanAbs(p: string)
    ensures IsAbs(Clean(p)) <==> IsAbs(p)
  {
    var rooted := IsAbs(p);
    var n := Normalize(Elements(p), rooted);
    ElementsSeparatorFree(p);
    NormalizeIsNormal(Elements(p), rooted);
    if !rooted && n != [] {
      JoinElementsFirst(n);
    }
  }

  /** A rooted normal element list is what Clean reads back from its rendering. */
  lemma RenderRootedFixed(n: seq<string>)
    requires Normal(n, true)
    ensures IsAbs(Render(n, true))
    ensures Normalize(Elements(Render(n, true)), true) == n
  {
    var body := JoinElements(n);
    assert Render(n, true) == "" + "/" + body;
    ElementsAppend("", body);
    if n == [] {
      assert Elements(Render(n, true)) == ["", ""];
    } else {
      ElementsOfJoin(n);
      NormalizeFixed([""], n, true);
    }
  }

  /** A relative normal element list is what Clean reads back from its rendering. */
  lemma RenderRelativeFixed(n: seq<string>)
    requires Normal(n, false)
    ensures !IsAbs(Render(n, false))
    ensures Normalize(Elements(Render(n, false)), false) == n
  {
    if n == [] {
      ElementsOfFree(".");
    } else {
      JoinElementsFirst(n);
      ElementsOfJoin(n);
      NormalizeFixed([], n, false);
      assert [] + n == n;
    }
  }

  /** Cleaning twice is the same as cleaning once. */
  lemma CleanIdempotent(p: string)
    ensures Clean(Clean(p)) == Clean(p)
  {
    var rooted := IsAbs(p);
    var n := Normalize(Elements(p), rooted);
    ElementsSeparatorFree(p);
    NormalizeIsNormal(Elements(p), rooted);
    if rooted {
      RenderRootedFixed(n);
    } else {
      RenderRelativeFixed(n);
    }
  }

  /** A cleaned path never ends in a separator, except the root itself. */
  lemma CleanNoTrailingSeparator(p: string)
    ensures Clean(p) == "/" || Clean(p)[|Clean(p)| - 1] != Separator
  {
    var rooted := IsAbs(p);
    var n := Normalize(Elements(p), rooted);
    ElementsSeparatorFree(p);
    NormalizeIsNormal(Elements(p), rooted);
    var body := JoinElements(n);
    var c := Clean(p);
    if c != "." && (rooted || n != []) {
      if rooted {
        assert c == "" + "/" + body;
        ElementsAppend("", body);
      }
      if n != [] {
        ElementsOfJoin(n);
        assert LastElement(c) == n[|n| - 1];
        LastElementEmpty(c);
      }
    }
  }

  /** When the last element is an ordinary name, Clean keeps it as the last element. */
  lemma CleanKeepsLastName(p: string)
    requires !IsDirectoryElement(LastElement(p))
    ensures LastElement(Clean(p)) == LastElement(p)
    ensures Clean(p)[|Clean(p)| - 1] != Separator
  {
    var rooted := IsAbs(p);
    var e := Elements(p);
    var x := e[|e| - 1];
    ElementsSeparatorFree(p);
    NormalizeIsNormal(e, rooted);
    var n := Normalize(e, rooted);
    assert n == Normalize(e[..|e| - 1], rooted) + [x];
    var body := JoinElements(n);
    var c := Clean(p);
    ElementsOfJoin(n);
    if rooted {
      assert c == "" + "/" + body;
      ElementsAppend("", body);
    }
    assert LastElement(c) == x;
    LastElementEmpty(c);
  }

  /** Joining onto an absolute directory gives an absolute path. */
  lemma JoinAbs(a: string, b: string)
    requires IsAbs(a)
    ensures IsAbs(Join(a, b))
  {
    CleanAbs(a + "/" + b);
  }

  /** A trailing separator does not change what a path cleans to. */
  lemma CleanTrailingSeparator(p: string)
    requires |p| > 0
    ensures Clean(p + "/") == Clean(p)
  {
    var q := p + "/";
    assert q[..|q| - 1] == p;
    assert Elements(q) == Elements(p) + [""];
    assert Elements(q)[..|Elements(q)| - 1] == Elements(p);
    assert IsAbs(q) == IsAbs(p);
  }

  /** Joining onto a non-empty directory keeps the joined path's last name. */
  lemma JoinKeepsLastName(a: string, b: string)
    requires a != ""
    requires !IsDirectoryElement(LastElement(b))
    ensures LastElement(Join(a, b)) == LastElement(b)
  {
    ElementsAppend(a, b);
    assert LastElement(a + "/" + b) == LastElement(b);
    CleanKeepsLastName(a + "/" + b);
  }
}
