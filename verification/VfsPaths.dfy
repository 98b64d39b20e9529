/** Comparison of paths without regard to case (vfs.c), against a comparison of their components. */
module VfsPaths {
  import opened PathName

  /** The same character, or the two cases of one letter. */
  ghost predicate SameLetter(c: char, d: char) {
    || c == d
    || ('A' <= c <= 'Z' && 'a' <= d <= 'z' && c as int - 'A' as int == d as int - 'a' as int)
    || ('a' <= c <= 'z' && 'A' <= d <= 'Z' && c as int - 'a' as int == d as int - 'A' as int)
  }

  /** The same string but for the case of letters. */
  ghost predicate SameName(s: string, t: string) {
    |s| == |t| && forall i :: 0 <= i < |s| ==> SameLetter(s[i], t[i])
  }

  /** The path is the base or goes on behind it with a slash; everything is in the root. */
  ghost predicate Within(path: string, base: string) {
    || |base| == 1
    || (|base| <= |path| && SameName(path[..|base|], base) && (|path| == |base| || path[|base|] == '/'))
  }

  function Lower(c: char): char {
    if 'A' <= c <= 'Z' then c + 32 as char else c
  }

  lemma SameLower(c: char, d: char)
    ensures Lower(c) == Lower(d) <==> SameLetter(c, d)
  {
  }

  /** The comparison of strcasecmp. */
  method Compare(s: string, t: string) returns (r: bool)
    ensures r <==> SameName(s, t)
  {
    var i := 0;
    while i < |s| && i < |t|
      invariant i <= |s| && i <= |t| && SameName(s[..i], t[..i])
    {
      SameLower(s[i], t[i]);
      if Lower(s[i]) != Lower(t[i]) {
        return false;
      }
      i := i + 1;
    }
    return i == |s| && i == |t|;
  }

  method PrefixOf(s: string, p: string) returns (r: bool)
    ensures r <==> |p| <= |s| && SameName(s[..|p|], p)
  {
    for i := 0 to |p|
      invariant i <= |s| && SameName(s[..i], p[..i])
    {
      if i >= |s| {
        return false;
      }
      SameLower(s[i], p[i]);
      if Lower(s[i]) != Lower(p[i]) {
        return false;
      }
    }
    assert p[..|p|] == p;
    r := true;
  }

  method PathWithin(path: string, base: string) returns (r: bool)
    ensures r <==> Within(path, base)
  {
    if |base| == 1 {
      return true;
    }
    r := PrefixOf(path, base);
    if r {
      r := |path| == |base| || path[|base|] == '/';
    }
  }

  // ---- the same on components ----

  ghost function LowerAll(s: string): (r: string)
    ensures |r| == |s| && forall i :: 0 <= i < |s| ==> r[i] == Lower(s[i])
  {
    seq(|s|, i requires 0 <= i < |s| => Lower(s[i]))
  }

  lemma SameIsLower(s: string, t: string)
    ensures SameName(s, t) <==> LowerAll(s) == LowerAll(t)
  {
    forall i | 0 <= i < |s| && i < |t|
      ensures SameLetter(s[i], t[i]) <==> LowerAll(s)[i] == LowerAll(t)[i]
    {
      SameLower(s[i], t[i]);
    }
  }

  lemma WithinIsLower(path: string, base: string)
    requires |base| > 1
    ensures Within(path, base) <==>
      LowerAll(base) <= LowerAll(path) && (|path| == |base| || path[|base|] == '/')
  {
    if |base| <= |path| {
      SameIsLower(path[..|base|], base);
      assert LowerAll(path[..|base|]) == LowerAll(path)[..|base|];
    }
  }

  ghost function LowerNames(stack: seq<string>): (r: seq<string>)
    ensures |r| == |stack| && forall i :: 0 <= i < |stack| ==> r[i] == LowerAll(stack[i])
  {
    seq(|stack|, i requires 0 <= i < |stack| => LowerAll(stack[i]))
  }

  lemma LowerConcat(s: string, t: string)
    ensures LowerAll(s + t) == LowerAll(s) + LowerAll(t)
  {
  }

  lemma {:induction false} LowerJoin(stack: seq<string>)
    ensures LowerAll(Join(stack)) == Join(LowerNames(stack))
  {
    if stack != [] {
      var below, c := Pop(stack), stack[|stack| - 1];
      LowerJoin(below);
      assert LowerNames(stack)[..|stack| - 1] == LowerNames(below);
      LowerConcat(Join(below) + "/", c);
      LowerConcat(Join(below), "/");
      assert LowerAll("/") == "/";
    }
  }

  lemma {:induction false} JoinConcat(a: seq<string>, b: seq<string>)
    ensures Join(a + b) == Join(a) + Join(b)
  {
    if b == [] {
      assert a + b == a;
    } else {
      var below, c := Pop(b), b[|b| - 1];
      JoinConcat(a, below);
      assert (a + b)[..|a + b| - 1] == a + below;
      assert Join(a) + Join(b) == Join(a) + Join(below) + "/" + c;
    }
  }

  lemma {:induction false} ComponentsOfJoin(stack: seq<string>)
    requires forall c :: c in stack ==> c != "" && '/' !in c
    ensures Components(Join(stack)) == stack
  {
    if stack != [] {
      var below, c := Pop(stack), stack[|stack| - 1];
      assert c in stack && forall d :: d in below ==> d in stack;
      ComponentsOfJoin(below);
      ComponentsOneMore(Join(below), c, below);
      assert below + [c] == stack;
    }
  }

  lemma LowerKeepsNames(stack: seq<string>)
    requires forall c :: c in stack ==> c != "" && '/' !in c
    ensures forall c :: c in LowerNames(stack) ==> c != "" && '/' !in c
  {
    forall c | c in LowerNames(stack)
      ensures c != "" && '/' !in c
    {
      var i: nat :| i < |stack| && LowerNames(stack)[i] == c;
      assert stack[i] in stack;
    }
  }

  lemma GoodNames(stack: seq<string>)
    requires Good(stack)
    ensures forall c :: c in stack ==> c != "" && '/' !in c
  {
    forall c | c in stack
      ensures c != "" && '/' !in c
    {
      var i: nat :| i < |stack| && stack[i] == c;
      assert GoodAt(stack, i);
    }
  }

  /** The base's names are the first of the path's, but for case. */
  ghost predicate Below(path: seq<string>, base: seq<string>) {
    |base| <= |path| && forall k :: 0 <= k < |base| ==> SameName(path[k], base[k])
  }

  lemma BelowIsLower(path: seq<string>, base: seq<string>)
    ensures Below(path, base) <==> LowerNames(base) <= LowerNames(path)
  {
    forall k | 0 <= k < |base| && k < |path|
      ensures SameName(path[k], base[k]) <==> LowerNames(path)[k] == LowerNames(base)[k]
    {
      SameIsLower(path[k], base[k]);
    }
  }

  /** On normalized paths the comparison of characters is the comparison of components. */
  lemma WithinIsBelow(path: seq<string>, base: seq<string>)
    requires Good(path) && Good(base)
    ensures Within(Render(path), Render(base)) <==> Below(path, base)
  {
    if base == [] {
      assert LowerNames(base) == [];
    } else {
      RenderShort(base);
      if Below(path, base) {
        BelowIsWithin(path, base);
      }
      if Within(Render(path), Render(base)) {
        WithinIsBelowOnly(path, base);
      }
    }
  }

  lemma BelowIsWithin(path: seq<string>, base: seq<string>)
    requires Good(path) && Good(base) && base != [] && Below(path, base) && |Render(base)| > 1
    ensures Within(Render(path), Render(base))
  {
    var lp, lb := LowerNames(path), LowerNames(base);
    BelowIsLower(path, base);
    var rest := lp[|lb|..];
    assert lp == lb + rest;
    JoinConcat(lb, rest);
    LowerJoin(path);
    LowerJoin(base);
    if rest != [] {
      JoinStarts(rest);
      assert LowerAll(Render(path))[|Render(base)|] == '/';
    }
    WithinIsLower(Render(path), Render(base));
  }

  lemma {:induction false} JoinStarts(stack: seq<string>)
    requires stack != []
    ensures Join(stack) != "" && Join(stack)[0] == '/'
  {
    var below := Pop(stack);
    if below != [] {
      JoinStarts(below);
    }
  }

  lemma WithinIsBelowOnly(path: seq<string>, base: seq<string>)
    requires Good(path) && Good(base) && base != [] && Within(Render(path), Render(base)) && |Render(base)| > 1
    ensures Below(path, base)
  {
    var lp, lb := LowerNames(path), LowerNames(base);
    GoodNames(path);
    GoodNames(base);
    LowerKeepsNames(path);
    LowerKeepsNames(base);
    RenderShort(path);
    assert path != [];
    LowerJoin(path);
    LowerJoin(base);
    ComponentsOfJoin(lp);
    ComponentsOfJoin(lb);
    WithinIsLower(Render(path), Render(base));
    PrefixComponents(Join(lb), Join(lp));
    BelowIsLower(path, base);
  }

  /** A path that goes on behind a prefix at the end of a component has the prefix's components first. */
  lemma PrefixComponents(s: string, p: string)
    requires s <= p && (|p| == |s| || p[|s|] == '/')
    ensures Components(s) <= Components(p)
  {
    if |p| == |s| {
      assert p == s;
    } else {
      var t := p[|s| + 1..];
      assert p == s + "/" + t;
      AppendedComponents(s, t, p);
    }
  }

  lemma AppendedComponents(s: string, t: string, p: string)
    requires p == s + "/" + t
    ensures Components(s) <= Components(p)
  {
    ComponentsAppend(s, t);
  }

  // ---- normalized paths ----

  /** The string is what normalizing gives. */
  ghost predicate IsNormal(s: string) {
    Good(Components(s)) && s == Render(Components(s))
  }

  lemma RenderIsNormal(stack: seq<string>)
    requires Good(stack)
    ensures IsNormal(Render(stack))
  {
    ComponentsOfRender(stack);
  }

  /** What a successful normalization returns, and the root, are normal. */
  lemma NormalizedIsNormal(path: string, cwd: string)
    ensures Normal(path, cwd).Some? ==> IsNormal(Render(Normal(path, cwd).value))
    ensures IsNormal("/")
  {
    RenderIsNormal([]);
    if Normal(path, cwd).Some? {
      ComponentsAreNames(Full(path, cwd).value);
      WalkGood([], Components(Full(path, cwd).value));
      RenderIsNormal(Normal(path, cwd).value);
    }
  }

  /** Of two directories above a path, the one with more names has the longer rendering. */
  lemma MoreNamesLonger(path: seq<string>, a: seq<string>, b: seq<string>)
    requires Good(a) && Good(b) && Below(path, a) && Below(path, b) && |a| < |b|
    ensures |Render(a)| < |Render(b)|
  {
    var la, lb := LowerNames(a), LowerNames(b);
    BelowIsLower(path, a);
    BelowIsLower(path, b);
    var rest := lb[|la|..];
    assert la == LowerNames(path)[..|a|] && lb == la + rest;
    RenderShort(b);
    LowerJoin(a);
    LowerJoin(b);
    JoinConcat(la, rest);
    JoinStarts(rest);
  }

  /** Two directories above a path with as many names are the same but for case. */
  lemma AsManyNamesSame(path: seq<string>, a: seq<string>, b: seq<string>)
    requires Below(path, a) && Below(path, b) && |a| == |b|
    ensures SameName(Render(a), Render(b))
  {
    BelowIsLower(path, a);
    BelowIsLower(path, b);
    assert LowerNames(a) == LowerNames(path)[..|a|] == LowerNames(b);
    LowerJoin(a);
    LowerJoin(b);
    SameIsLower(Render(a), Render(b));
  }

  /** What a path is below a directory. */
  lemma CutOff(path: seq<string>, base: seq<string>)
    requires Good(path) && Below(path, base) && base != []
    ensures |base| <= |path| && |Render(base)| <= |Render(path)|
    ensures Render(path)[|Render(base)|..] == Join(path[|base|..]) && Components(Join(path[|base|..])) == path[|base|..]
  {
    var n := |base|;
    var front, rest := path[..n], path[n..];
    assert path == front + rest;
    BelowIsLower(path, base);
    assert LowerNames(front) == LowerNames(path)[..n] == LowerNames(base);
    LowerJoin(front);
    LowerJoin(base);
    JoinConcat(front, rest);
    GoodNames(path);
    assert forall c :: c in rest ==> c in path;
    ComponentsOfJoin(rest);
  }
}
