/** Path normalization (vfs.c): a path becomes the fold of its components over the current directory. */
module PathName {
  import opened Common

  const PATH_MAX := 128

  /** The length of the component at the front of `s`. */
  function Span(s: string): (n: nat)
    ensures n <= |s| && (forall i :: 0 <= i < n ==> s[i] != '/') && (n < |s| ==> s[n] == '/')
  {
    if s == "" || s[0] == '/' then 0 else 1 + Span(s[1..])
  }

  /** The nonempty pieces between slashes. */
  function Components(s: string): seq<string> {
    if s == "" then []
    else if s[0] == '/' then Components(s[1..])
    else [s[..Span(s)]] + Components(s[Span(s)..])
  }

  function Join(stack: seq<string>): string {
    if stack == [] then "" else Join(stack[..|stack| - 1]) + "/" + stack[|stack| - 1]
  }

  /** The absolute path of a stack of directory names. */
  function Render(stack: seq<string>): string {
    if stack == [] then "/" else Join(stack)
  }

  function Pop(stack: seq<string>): seq<string> {
    if stack == [] then [] else stack[..|stack| - 1]
  }

  /** The bound under which a component may be appended. */
  predicate Fits(stack: seq<string>, c: string) {
    |Render(stack)| + |c| + 2 < PATH_MAX
  }

  /** What the components lead to from the directory `stack`; nothing if one is too long for where it stands. */
  function Walk(stack: seq<string>, comps: seq<string>): Option<seq<string>>
    decreases |comps|
  {
    if comps == [] then Some(stack)
    else
      var c := comps[0];
      if |c| >= PATH_MAX then None
      else if c == "." then Walk(stack, comps[1..])
      else if c == ".." then Walk(Pop(stack), comps[1..])
      else if !Fits(stack, c) then None
      else Walk(stack + [c], comps[1..])
  }

  /** The path that is taken apart: absolute as it is, relative behind the current directory. */
  ghost function Full(path: string, cwd: string): Option<string> {
    var p := if path == "" then "." else path;
    if p[0] == '/' then
      if |p| >= 2 * PATH_MAX then None else Some(p)
    else if |cwd| + |p| + 2 >= 2 * PATH_MAX then None
    else Some(cwd + "/" + p)
  }

  ghost function Normal(path: string, cwd: string): Option<seq<string>> {
    var f := Full(path, cwd);
    if f.None? then None else Walk([], Components(f.value))
  }

  /** A directory name that a normalized path may hold. */
  predicate Plain(c: string) {
    c != "" && '/' !in c && c != "." && c != ".."
  }

  ghost predicate Good(stack: seq<string>) {
    forall i {:trigger GoodAt(stack, i)} :: 0 <= i < |stack| ==> GoodAt(stack, i)
  }

  ghost predicate GoodAt(stack: seq<string>, i: nat)
    requires i < |stack|
  {
    Plain(stack[i]) && Fits(stack[..i], stack[i])
  }

  lemma GoodPrefix(stack: seq<string>, c: string)
    requires Good(stack)
    ensures Good(Pop(stack))
    ensures Plain(c) && Fits(stack, c) ==> Good(stack + [c])
  {
    forall i | 0 <= i < |Pop(stack)|
      ensures GoodAt(Pop(stack), i)
    {
      assert GoodAt(stack, i) && Pop(stack)[..i] == stack[..i];
    }
    if Plain(c) && Fits(stack, c) {
      var more := stack + [c];
      forall i | 0 <= i < |more|
        ensures GoodAt(more, i)
      {
        assert i < |stack| ==> GoodAt(stack, i);
        assert more[..i] == stack[..i];
        assert stack[..|stack|] == stack;
      }
    }
  }

  lemma {:induction false} ComponentsAreNames(s: string)
    ensures forall c :: c in Components(s) ==> c != "" && '/' !in c
    decreases |s|
  {
    if s != "" {
      if s[0] == '/' {
        ComponentsAreNames(s[1..]);
      } else {
        ComponentsAreNames(s[Span(s)..]);
      }
    }
  }

  lemma {:induction false} WalkGood(stack: seq<string>, comps: seq<string>)
    requires Good(stack) && (forall c :: c in comps ==> c != "" && '/' !in c) && Walk(stack, comps).Some?
    ensures Good(Walk(stack, comps).value)
    decreases |comps|
  {
    if comps != [] {
      var c := comps[0];
      assert c in comps && forall d :: d in comps[1..] ==> d in comps;
      GoodPrefix(stack, c);
      WalkGood(if c == "." then stack else if c == ".." then Pop(stack) else stack + [c], comps[1..]);
    }
  }

  lemma {:induction false} WalkAppend(stack: seq<string>, a: seq<string>, b: seq<string>)
    ensures Walk(stack, a + b) == match Walk(stack, a) case None => None case Some(mid) => Walk(mid, b)
    decreases |a|
  {
    if a == [] {
      assert a + b == b;
    } else {
      var c := a[0];
      assert (a + b)[1..] == a[1..] + b;
      WalkAppend(if c == "." then stack else if c == ".." then Pop(stack) else stack + [c], a[1..], b);
    }
  }

  lemma WalkOne(stack: seq<string>, c: string)
    requires Plain(c) && Fits(stack, c)
    ensures Walk(stack, [c]) == Some(stack + [c])
  {
    assert [c][1..] == [];
  }

  /** A good stack is what its own names lead to. */
  lemma {:induction false} WalkSelf(stack: seq<string>)
    requires Good(stack)
    ensures Walk([], stack) == Some(stack)
  {
    if stack != [] {
      var below, c := Pop(stack), stack[|stack| - 1];
      GoodPrefix(stack, "");
      WalkSelf(below);
      WalkAppend([], below, [c]);
      assert GoodAt(stack, |stack| - 1);
      WalkOne(below, c);
      assert below + [c] == stack;
    }
  }

  lemma {:induction false} SpanAppend(s: string, t: string)
    ensures Span(s + "/" + t) == Span(s)
  {
    if s == "" || s[0] == '/' {
    } else {
      SpanAppend(s[1..], t);
      assert (s + "/" + t)[1..] == s[1..] + "/" + t;
    }
  }

  lemma ConsAppend(c: string, a: seq<string>, b: seq<string>)
    ensures [c] + (a + b) == [c] + a + b
  {
  }

  /** Components of paths that are joined with a slash. */
  lemma {:induction false} ComponentsAppend(s: string, t: string)
    ensures Components(s + "/" + t) == Components(s) + Components(t)
    decreases |s|
  {
    var r := s + "/" + t;
    if s == "" {
      assert r[1..] == t;
    } else if s[0] == '/' {
      assert r[1..] == s[1..] + "/" + t;
      ComponentsAppend(s[1..], t);
    } else {
      var n := Span(s);
      SpanAppend(s, t);
      assert r[..n] == s[..n] && r[n..] == s[n..] + "/" + t;
      ComponentsAppend(s[n..], t);
      ConsAppend(s[..n], Components(s[n..]), Components(t));
    }
  }

  lemma ComponentsOfName(c: string)
    requires c != "" && '/' !in c
    ensures Components(c) == [c]
  {
    assert Span(c) == |c|;
    assert c[..|c|] == c && c[|c|..] == "";
  }

  lemma ComponentsOneMore(s: string, c: string, comps: seq<string>)
    requires Components(s) == comps && c != "" && '/' !in c
    ensures Components(s + "/" + c) == comps + [c]
  {
    ComponentsAppend(s, c);
    ComponentsOfName(c);
  }

  /** Rendering and taking apart are inverse on good stacks. */
  lemma {:induction false} ComponentsOfRender(stack: seq<string>)
    requires Good(stack)
    ensures Components(Join(stack)) == stack && Components(Render(stack)) == stack
  {
    if stack == [] {
      assert "/"[1..] == "";
    } else {
      GoodPrefix(stack, "");
      var below, c := Pop(stack), stack[|stack| - 1];
      ComponentsOfRender(below);
      assert GoodAt(stack, |stack| - 1);
      ComponentsOneMore(Join(below), c, below);
      assert below + [c] == stack;
    }
  }

  lemma {:induction false} RenderShort(stack: seq<string>)
    requires Good(stack)
    ensures 1 <= |Render(stack)| < PATH_MAX && Render(stack)[0] == '/'
    ensures stack != [] ==> |Render(stack)| > 1
  {
    if stack != [] {
      var below, c := Pop(stack), stack[|stack| - 1];
      GoodPrefix(stack, "");
      RenderShort(below);
      assert GoodAt(stack, |stack| - 1);
      assert Render(stack) == Join(below) + "/" + c;
      assert Join(below) == if below == [] then "" else Render(below);
    }
  }

  /**
   A normalized path is absolute, short, made of plain names only, and normalizes to itself from any directory.
   */
  lemma NormalIsFixed(path: string, cwd: string, cwd': string)
    requires Normal(path, cwd).Some?
    ensures
      var out := Render(Normal(path, cwd).value);
      && 1 <= |out| < PATH_MAX && out[0] == '/'
      && Components(out) == Normal(path, cwd).value && (forall c :: c in Components(out) ==> Plain(c))
      && Normal(out, cwd') == Normal(path, cwd)
  {
    var f := Full(path, cwd).value;
    var stack := Normal(path, cwd).value;
    ComponentsAreNames(f);
    WalkGood([], Components(f));
    RenderShort(stack);
    ComponentsOfRender(stack);
    WalkSelf(stack);
    forall c | c in stack
      ensures Plain(c)
    {
      var i: nat :| i < |stack| && stack[i] == c;
      assert GoodAt(stack, i);
    }
  }

  /** A relative path is walked from the current directory, as long as the two together are not too long. */
  lemma RelativeToCurrent(path: string, cwd: seq<string>)
    requires Good(cwd) && path != "" && path[0] != '/' && |Render(cwd)| + |path| + 2 < 2 * PATH_MAX
    ensures Normal(path, Render(cwd)) == Walk(cwd, Components(path))
  {
    ComponentsAppend(Render(cwd), path);
    ComponentsOfRender(cwd);
    WalkSelf(cwd);
    WalkAppend([], cwd, Components(path));
  }

  /** One more name leads to the entry below, "." stays, and ".." goes to the parent; a name that does not fit fails. */
  lemma OneMoreName(path: string, c: string, cwd: string)
    requires path != "" && c != "" && '/' !in c && Full(path + "/" + c, cwd).Some?
    ensures Full(path, cwd).Some?
    ensures Normal(path + "/" + c, cwd) == match Normal(path, cwd) case None => None case Some(dir) => Walk(dir, [c])
  {
    var f := Full(path, cwd).value;
    assert cwd + "/" + (path + "/" + c) == cwd + "/" + path + "/" + c;
    assert Full(path + "/" + c, cwd).value == f + "/" + c;
    ComponentsOneMore(f, c, Components(f));
    WalkAppend([], Components(f), [c]);
  }

  /** A name followed by ".." undoes itself wherever the name fits; the parent of the root is the root. */
  lemma DownAndUp(path: string, c: string, cwd: string)
    requires path != "" && Plain(c) && Full(path + "/" + c + "/..", cwd).Some?
    ensures Normal(path + "/" + c + "/..", cwd) ==
      if Normal(path, cwd).Some? && |Render(Normal(path, cwd).value)| + |c| + 2 < PATH_MAX then Normal(path, cwd)
      else None
    ensures Normal("/..", cwd) == Normal("/", cwd) == Some([])
  {
    assert path + "/" + c + "/" + ".." == path + "/" + c + "/..";
    OneMoreName(path + "/" + c, "..", cwd);
    OneMoreName(path, c, cwd);
    if Normal(path, cwd).Some? && Fits(Normal(path, cwd).value, c) {
      var dir := Normal(path, cwd).value;
      WalkOne(dir, c);
      assert (dir + [c])[..|dir|] == dir;
      WalkUp(dir + [c]);
    }
    assert Components("/") == [] by {
      assert "/"[1..] == "";
    }
    ComponentsOneMore("", "..", []);
    assert "" + "/" + ".." == "/..";
    WalkUp([]);
  }

  lemma WalkUp(stack: seq<string>)
    ensures Walk(stack, [".."]) == Some(Pop(stack))
  {
    assert [".."][1..] == [];
  }

  /** The empty path and "." are the current directory, and a path with "/." behind it is the same path. */
  lemma Here(path: string, cwd: string, dir: seq<string>)
    requires Good(dir)
    ensures Normal("", Render(dir)) == Normal(".", Render(dir)) == Some(dir)
    ensures path != "" && Full(path + "/.", cwd).Some? ==> Normal(path + "/.", cwd) == Normal(path, cwd)
  {
    RenderShort(dir);
    RelativeToCurrent(".", dir);
    ComponentsOfName(".");
    WalkHere(dir);
    if path != "" && Full(path + "/.", cwd).Some? {
      assert path + "/" + "." == path + "/.";
      OneMoreName(path, ".", cwd);
      if Normal(path, cwd).Some? {
        WalkHere(Normal(path, cwd).value);
      }
    }
  }

  lemma WalkHere(stack: seq<string>)
    ensures Walk(stack, ["."]) == Some(stack)
  {
    assert ["."][1..] == [];
  }

  // ---- the buffer loops ----

  method ReadComponent(full: string, from: nat) returns (ok: bool, comp: string, p: nat)
    requires from < |full| && full[from] != '/'
    ensures ok <==> Span(full[from..]) < PATH_MAX
    ensures ok ==> p == from + Span(full[from..]) && comp == full[from..p]
  {
    p, comp := from, "";
    while p < |full| && full[p] != '/'
      invariant from <= p <= |full| && comp == full[from..p] && |comp| < PATH_MAX
      invariant Span(full[from..]) == p - from + Span(full[p..])
    {
      if |comp| >= PATH_MAX - 1 {
        return false, comp, p;
      }
      assert full[p..][1..] == full[p + 1..];
      comp := comp + [full[p]];
      p := p + 1;
    }
    ok := true;
  }

  /** Cuts the last name off an absolute path. */
  method CutLast(out: string, ghost stack: seq<string>) returns (r: string)
    requires Good(stack) && out == Render(stack)
    ensures r == Render(Pop(stack))
  {
    RenderShort(stack);
    var len := |out|;
    if len > 1 {
      ghost var n := |stack| - 1;
      ghost var base := |Join(stack[..n])|;
      assert stack != [] && GoodAt(stack, n) && out == Join(stack[..n]) + "/" + stack[n];
      while len > 1 && out[len - 1] != '/'
        invariant base < len <= |out|
      {
        assert len - 1 > base;
        len := len - 1;
      }
      if len > 1 {
        len := len - 1;
      }
      CutPoint(stack, len);
    }
    r := out[..len];
  }

  /** The last slash of a rendered path stands behind the path of the parent. */
  lemma CutPoint(stack: seq<string>, len: nat)
    requires Good(stack) && stack != [] && 1 <= len <= |Render(stack)|
    requires var base := |Join(stack[..|stack| - 1])|; len == if base == 0 then 1 else base
    ensures Render(stack)[..len] == Render(stack[..|stack| - 1])
  {
    var n := |stack| - 1;
    assert Render(stack) == Join(stack[..n]) + "/" + stack[n];
  }

  /** What the rest of a path starts with. */
  lemma FrontOf(full: string, p: nat)
    requires p < |full|
    ensures full[p] == '/' ==> Components(full[p..]) == Components(full[p + 1..])
    ensures full[p] != '/' ==>
      var n := Span(full[p..]);
      n > 0 && '/' !in full[p..p + n] && Components(full[p..]) == [full[p..p + n]] + Components(full[p + n..])
  {
    var n := Span(full[p..]);
    assert full[p..][1..] == full[p + 1..] && full[p..][..n] == full[p..p + n] && full[p..][n..] == full[p + n..];
  }

  lemma LongName(stack: seq<string>, c: string, rest: seq<string>)
    requires |c| >= PATH_MAX
    ensures Walk(stack, [c] + rest) == None
  {
  }

  /** Skips a slash or applies the component at `p`. */
  method Advance(full: string, p: nat, out: string, ghost stack: seq<string>)
    returns (ok: bool, q: nat, r: string, ghost next: seq<string>)
    requires p < |full| && Good(stack) && out == Render(stack)
    ensures ok ==> p < q <= |full| && Good(next) && r == Render(next)
    ensures Walk(stack, Components(full[p..])) == if ok then Walk(next, Components(full[q..])) else None
  {
    FrontOf(full, p);
    if full[p] == '/' {
      return true, p + 1, out, stack;
    }
    var comp;
    ok, comp, q := ReadComponent(full, p);
    r, next := out, stack;
    if ok {
      ok, r, next := Apply(out, comp, stack, Components(full[q..]));
    } else {
      LongName(stack, full[p..p + Span(full[p..])], Components(full[p + Span(full[p..])..]));
    }
  }

  /** Normalizes a path relative to the current directory. */
  method Normalize(path: string, cwd: string) returns (ok: bool, out: string)
    ensures ok <==> Normal(path, cwd).Some?
    ensures ok ==> out == Render(Normal(path, cwd).value)
  {
    out := "";
    var in_ := if path == "" then "." else path;
    var full := in_;
    if in_[0] == '/' {
      if |in_| >= 2 * PATH_MAX {
        return false, out;
      }
    } else {
      if |cwd| + |in_| + 2 >= 2 * PATH_MAX {
        return false, out;
      }
      full := cwd + "/" + in_;
    }
    out := "/";
    var p: nat := 0;
    ghost var stack := [];
    assert full[0..] == full;
    while p < |full|
      invariant 0 <= p <= |full| && Good(stack) && out == Render(stack)
      invariant Walk([], Components(full)) == Walk(stack, Components(full[p..]))
    {
      ok, p, out, stack := Advance(full, p, out, stack);
      if !ok {
        return;
      }
    }
    ok := true;
  }

  /** One component applied to the output buffer. */
  method Apply(out: string, comp: string, ghost stack: seq<string>, ghost rest: seq<string>)
    returns (ok: bool, r: string, ghost next: seq<string>)
    requires Good(stack) && out == Render(stack) && comp != "" && '/' !in comp && |comp| < PATH_MAX
    ensures ok ==> Good(next) && r == Render(next)
    ensures Walk(stack, [comp] + rest) == if ok then Walk(next, rest) else None
  {
    assert ([comp] + rest)[1..] == rest;
    GoodPrefix(stack, comp);
    ok, r, next := true, out, stack;
    if comp == "." {
    } else if comp == ".." {
      r := CutLast(out, stack);
      next := Pop(stack);
    } else if |out| + |comp| + 2 >= PATH_MAX {
      ok := false;
    } else {
      next := stack + [comp];
      assert next[..|stack|] == stack;
      RenderShort(stack);
      r := if |out| > 1 then out + "/" + comp else out + comp;
      RenderLonger(stack, comp);
    }
  }

  lemma RenderLonger(stack: seq<string>, c: string)
    requires Good(stack)
    ensures Render(stack + [c]) == if |Render(stack)| > 1 then Render(stack) + "/" + c else Render(stack) + c
  {
    assert (stack + [c])[..|stack|] == stack;
    RenderShort(stack);
    assert Join(stack) == if stack == [] then "" else Render(stack);
    assert Render(stack + [c]) == Join(stack) + "/" + c;
  }
}
