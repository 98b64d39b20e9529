/** The initial stack of a program (elf.c): argument and environment strings, pointer arrays and the count. */
module ArgStack {
  import opened Sectors
  import opened PageTables
  import opened UserMemory

  const MAX_ARGV := 32
  const MAX_ENV := 16
  const MAX_BYTES := 4096
  const STACK_TOP := 0x9000_0000
  const STACK_SIZE := 16384

  const STACK_LOW := STACK_TOP - STACK_SIZE

  /** The budget counts no padding, of which there may be three bytes. */
  const LOWEST := STACK_TOP - MAX_BYTES - 3

  type Strings = seq<seq<byte>>

  /** The frames that a directory maps the pages of the stack to. */
  function StackPages(mem: Memory, dir: nat): Pages {
    map p: nat | STACK_LOW / PAGE <= p < STACK_TOP / PAGE && Present(Translation(mem, dir, p)) ::
      Translation(mem, dir, p).frame
  }

  /** An address of the stack is mapped exactly if the directory has its page. */
  lemma InStack(mem: Memory, dir: nat, a: nat)
    requires STACK_LOW <= a < STACK_TOP
    ensures a / PAGE < PAGES
    ensures Mapped(StackPages(mem, dir), a) <==> Present(Translation(mem, dir, a / PAGE))
    ensures Mapped(StackPages(mem, dir), a) ==> StackPages(mem, dir)[a / PAGE] == Translation(mem, dir, a / PAGE).frame
  {
    assert STACK_LOW / PAGE <= a / PAGE < STACK_TOP / PAGE;
  }

  /** The bytes that the strings take, each with its terminator. */
  function Size(strings: Strings): nat {
    if strings == [] then 0 else |strings[0]| + 1 + Size(strings[1..])
  }

  /** String `i` stands at address `addrs[i]`, between `lo` and `hi`. */
  ghost predicate StringIn(ram: seq<byte>, pages: Pages, addrs: seq<word>, strings: Strings, i: nat, lo: nat, hi: nat)
    requires i < |addrs| == |strings|
  {
    lo <= addrs[i] && addrs[i] + |strings[i]| + 1 <= hi && StringAt(ram, pages, addrs[i], strings[i])
  }

  ghost predicate StringsAt(ram: seq<byte>, pages: Pages, addrs: seq<word>, strings: Strings, lo: nat, hi: nat) {
    && |addrs| == |strings|
    && forall i :: 0 <= i < |strings| ==> StringIn(ram, pages, addrs, strings, i, lo, hi)
  }

  ghost predicate WordIs(ram: seq<byte>, pages: Pages, a: nat, w: word) {
    Holds(ram, pages, a, WordBytes(w))
  }

  /** The array of words at `a`. */
  ghost predicate WordsAt(ram: seq<byte>, pages: Pages, a: nat, ws: seq<word>) {
    forall i :: 0 <= i < |ws| ==> WordIn(ram, pages, a, ws, i)
  }

  ghost predicate WordIn(ram: seq<byte>, pages: Pages, a: nat, ws: seq<word>, i: nat)
    requires i < |ws|
  {
    WordIs(ram, pages, a + 4 * i, ws[i])
  }

  lemma StringsKept(ram: seq<byte>, ram': seq<byte>, pages: Pages, addrs: seq<word>, strings: Strings,
                    lo: nat, hi: nat, from: nat, to: nat, lo': nat)
    requires StringsAt(ram, pages, addrs, strings, lo, hi) && Within(ram, ram', pages, from, to)
    requires (to <= lo || hi <= from) && lo' <= lo
    ensures StringsAt(ram', pages, addrs, strings, lo', hi)
  {
    forall i | 0 <= i < |strings|
      ensures StringIn(ram', pages, addrs, strings, i, lo', hi)
    {
      assert StringIn(ram, pages, addrs, strings, i, lo, hi);
      HoldsKept(ram, ram', pages, addrs[i], strings[i] + [0], from, to);
    }
  }

  lemma WordsKept(ram: seq<byte>, ram': seq<byte>, pages: Pages, a: nat, ws: seq<word>, from: nat, to: nat)
    requires WordsAt(ram, pages, a, ws) && Within(ram, ram', pages, from, to)
    requires to <= a || a + 4 * |ws| <= from
    ensures WordsAt(ram', pages, a, ws)
  {
    forall i | 0 <= i < |ws|
      ensures WordIn(ram', pages, a, ws, i)
    {
      assert WordIn(ram, pages, a, ws, i);
      HoldsKept(ram, ram', pages, a + 4 * i, WordBytes(ws[i]), from, to);
    }
  }

  /** One more string below the others. */
  lemma StringAdded(ram: seq<byte>, ram': seq<byte>, pages: Pages, addrs: seq<word>, strings: Strings, s: seq<byte>,
                    sp: nat, hi: nat)
    requires |s| + 1 <= sp <= hi < WORD_LIMIT && NoNul(s) && StringsAt(ram, pages, addrs, strings, sp, hi)
    requires Within(ram, ram', pages, sp - |s| - 1, sp) && Holds(ram', pages, sp - |s| - 1, s + [0])
    ensures StringsAt(ram', pages, [sp - |s| - 1] + addrs, [s] + strings, sp - |s| - 1, hi)
  {
    var new_ := sp - |s| - 1;
    StringsKept(ram, ram', pages, addrs, strings, sp, hi, new_, sp, new_);
    forall i | 0 <= i < |strings| + 1
      ensures StringIn(ram', pages, [new_] + addrs, [s] + strings, i, new_, hi)
    {
      assert i > 0 ==> StringIn(ram', pages, addrs, strings, i - 1, new_, hi);
    }
  }

  /** The strings stand between `sp` and `top`, without a gap, and nothing else has changed. */
  ghost predicate Pushed(was: seq<byte>, ram: seq<byte>, pages: Pages, addrs: seq<word>, strings: Strings, sp: nat,
                         top: nat) {
    && sp + Size(strings) == top && StringsAt(ram, pages, addrs, strings, sp, top)
    && Within(was, ram, pages, sp, top)
  }

  lemma SizeStep(strings: Strings, i: nat)
    requires i < |strings|
    ensures Size(strings[i..]) == |strings[i]| + 1 + Size(strings[i + 1..])
  {
    assert strings[i..][1..] == strings[i + 1..];
  }

  /** A part of the strings takes no more than all of them. */
  lemma {:induction false} SizeSuffix(strings: Strings, i: nat)
    requires i <= |strings|
    ensures Size(strings[i..]) <= Size(strings)
    decreases i
  {
    if i > 0 {
      SizeStep(strings, i - 1);
      SizeSuffix(strings, i - 1);
    } else {
      assert strings[0..] == strings;
    }
  }

  /** The bytes that the whole image takes, without the gap that aligns the arrays. */
  function ImageSize(argv: Strings, env: Strings): nat {
    Size(env) + Size(argv) + 4 * (|env| + 1) + 4 * (|argv| + 1) + 4
  }

  /** What crt0 finds at `esp`: a count, pointers to that many strings, null, pointers to the environment, null. */
  ghost predicate Decodes(ram: seq<byte>, pages: Pages, esp: nat, argv: Strings, env: Strings,
                          args: seq<word>, vars: seq<word>) {
    && |argv| < WORD_LIMIT && WordIs(ram, pages, esp, |argv|)
    && WordsAt(ram, pages, esp + 4, args + [0])
    && WordsAt(ram, pages, esp + 4 + 4 * |argv| + 4, vars + [0])
    && StringsAt(ram, pages, args, argv, 1, WORD_LIMIT) && StringsAt(ram, pages, vars, env, 1, WORD_LIMIT)
  }

  lemma WordUnique(ram: seq<byte>, pages: Pages, a: nat, w: word, w': word)
    requires WordIs(ram, pages, a, w) && WordIs(ram, pages, a, w')
    ensures w == w'
  {
    var s, t := WordBytes(w), WordBytes(w');
    forall k | 0 <= k < 4
      ensures s[k] == t[k]
    {
      assert Byte(ram, pages, a + k) == s[k];
      assert Byte(ram, pages, a + k) == t[k];
    }
    assert s == t;
    WordBytesRoundTrip(w);
    WordBytesRoundTrip(w');
  }

  lemma SameStrings(ram: seq<byte>, pages: Pages, addrs: seq<word>, s: Strings, t: Strings)
    requires StringsAt(ram, pages, addrs, s, 1, WORD_LIMIT) && StringsAt(ram, pages, addrs, t, 1, WORD_LIMIT)
    ensures s == t
  {
    forall i | 0 <= i < |s|
      ensures s[i] == t[i]
    {
      assert StringIn(ram, pages, addrs, s, i, 1, WORD_LIMIT) && StringIn(ram, pages, addrs, t, i, 1, WORD_LIMIT);
      StringUnique(ram, pages, addrs[i], s[i], t[i]);
    }
  }

  /** Null-terminated arrays of addresses at the same place are the same. */
  lemma SameArray(ram: seq<byte>, pages: Pages, a: nat, s: seq<word>, t: seq<word>)
    requires WordsAt(ram, pages, a, s + [0]) && WordsAt(ram, pages, a, t + [0]) && 0 !in s && 0 !in t
    ensures s == t
  {
    forall i | 0 <= i <= |s| && i <= |t|
      ensures (s + [0])[i] == (t + [0])[i]
    {
      assert WordIn(ram, pages, a, s + [0], i) && WordIn(ram, pages, a, t + [0], i);
      WordUnique(ram, pages, a + 4 * i, (s + [0])[i], (t + [0])[i]);
    }
    var n := if |s| < |t| then |s| else |t|;
    assert (s + [0])[n] == (t + [0])[n];
    forall i | 0 <= i < n
      ensures s[i] == t[i]
    {
      assert (s + [0])[i] == (t + [0])[i];
    }
  }

  /** The stack image stands for one list of arguments and one environment only. */
  lemma DecodeUnique(ram: seq<byte>, pages: Pages, esp: nat, argv: Strings, env: Strings, args: seq<word>,
                     vars: seq<word>,
                     argv': Strings, env': Strings, args': seq<word>, vars': seq<word>)
    requires Decodes(ram, pages, esp, argv, env, args, vars) && Decodes(ram, pages, esp, argv', env', args', vars')
    ensures argv == argv' && env == env'
  {
    WordUnique(ram, pages, esp, |argv|, |argv'|);
    NonNull(ram, pages, args, argv);
    NonNull(ram, pages, args', argv');
    NonNull(ram, pages, vars, env);
    NonNull(ram, pages, vars', env');
    SameArray(ram, pages, esp + 4, args, args');
    SameArray(ram, pages, esp + 4 + 4 * |argv| + 4, vars, vars');
    SameStrings(ram, pages, args, argv, argv');
    SameStrings(ram, pages, vars, env, env');
  }

  lemma NonNull(ram: seq<byte>, pages: Pages, addrs: seq<word>, strings: Strings)
    requires StringsAt(ram, pages, addrs, strings, 1, WORD_LIMIT)
    ensures 0 !in addrs
  {
    forall i | 0 <= i < |addrs|
      ensures addrs[i] != 0
    {
      assert StringIn(ram, pages, addrs, strings, i, 1, WORD_LIMIT);
    }
  }

  lemma WordAdded(ram: seq<byte>, pages: Pages, a: nat, ws: seq<word>, i: nat)
    requires i < |ws| && WordsAt(ram, pages, a, ws[..i]) && WordIs(ram, pages, a + 4 * i, ws[i])
    ensures WordsAt(ram, pages, a, ws[..i + 1])
  {
    var more := ws[..i + 1];
    forall k | 0 <= k < i + 1
      ensures WordIn(ram, pages, a, more, k)
    {
      assert k < i ==> WordIn(ram, pages, a, ws[..i], k);
    }
  }

  /** At most sixteen variables are passed on. */
  function Environment(environ: Strings): (env: Strings)
    ensures env <= environ && |env| == if |environ| < MAX_ENV then |environ| else MAX_ENV
  {
    if |environ| > MAX_ENV then environ[..MAX_ENV] else environ
  }

  /** The arrays and the count, written below the strings one after the other, complete the image. */
  lemma ImageDone(was: seq<byte>, r0: seq<byte>, r1: seq<byte>, r2: seq<byte>, r3: seq<byte>, pages: Pages,
                  args: seq<word>, vars: seq<word>, argv: Strings, env: Strings,
                  sp0: nat, mid: nat, esp: nat, arg: nat, envp: nat, sp: nat)
    requires esp + 4 == arg && arg + 4 * (|args| + 1) == envp
    requires envp + 4 * (|vars| + 1) == sp <= sp0 <= mid <= STACK_TOP
    requires esp > 0 && |args| <= MAX_ARGV
    requires StringsAt(r0, pages, args, argv, sp0, mid) && StringsAt(r0, pages, vars, env, mid, STACK_TOP)
    requires Within(was, r0, pages, sp0, STACK_TOP)
    requires Within(r0, r1, pages, envp, sp) && WordsAt(r1, pages, envp, vars + [0])
    requires Within(r1, r2, pages, arg, envp) && WordsAt(r2, pages, arg, args + [0])
    requires Within(r2, r3, pages, esp, arg) && WordIs(r3, pages, esp, |args|)
    ensures Decodes(r3, pages, esp, argv, env, args, vars) && Within(was, r3, pages, esp, STACK_TOP)
  {
    WordsKept(r1, r2, pages, envp, vars + [0], arg, envp);
    WordsKept(r2, r3, pages, envp, vars + [0], esp, arg);
    WordsKept(r2, r3, pages, arg, args + [0], esp, arg);
    WithinJoined(r0, r1, r2, pages, envp, sp, arg, envp, arg, sp);
    WithinJoined(r0, r2, r3, pages, arg, sp, esp, arg, esp, sp);
    WithinJoined(was, r0, r3, pages, sp0, STACK_TOP, esp, sp, esp, STACK_TOP);
    StringsKept(r0, r3, pages, args, argv, sp0, mid, esp, sp, 1);
    StringsKept(r0, r3, pages, vars, env, mid, STACK_TOP, esp, sp, 1);
    Wider(r3, pages, args, argv, mid);
    Wider(r3, pages, vars, env, STACK_TOP);
  }

  lemma Wider(ram: seq<byte>, pages: Pages, addrs: seq<word>, strings: Strings, hi: nat)
    requires StringsAt(ram, pages, addrs, strings, 1, hi) && hi <= WORD_LIMIT
    ensures StringsAt(ram, pages, addrs, strings, 1, WORD_LIMIT)
  {
    forall i | 0 <= i < |strings|
      ensures StringIn(ram, pages, addrs, strings, i, 1, WORD_LIMIT)
    {
      assert StringIn(ram, pages, addrs, strings, i, 1, hi);
    }
  }

  /** The memory of a task: its bytes, and the directory and tables that its addresses are translated with. */
  class Process {
    var ram: seq<byte>
    const mem: Memory
    const dir: nat
    ghost const pages: Pages

    constructor (ram: seq<byte>, mem: Memory, dir: nat)
      requires Injective(StackPages(mem, dir), |ram|)
      ensures Valid() && this.ram == ram && this.mem == mem && this.dir == dir
    {
      this.ram, this.mem, this.dir, pages := ram, mem, dir, StackPages(mem, dir);
    }

    /** The pages of the stack that are mapped are in frames of their own. Other pages may be in the same frames. */
    ghost predicate Valid()
      reads this
    {
      pages == StackPages(mem, dir) && Injective(pages, |ram|)
    }

    /** Writes to the stack page by page; false when a page is not mapped. */
    method WriteUser(a: nat, bytes: seq<byte>) returns (ok: bool)
      requires Valid() && STACK_LOW <= a && a + |bytes| <= STACK_TOP
      modifies this
      ensures Valid() && Within(old(ram), ram, pages, a, a + |bytes|)
      ensures ok <==> AllMapped(pages, a, a + |bytes|)
      ensures ok ==> Holds(ram, pages, a, bytes)
    {
      var written := 0;
      while written < |bytes|
        invariant 0 <= written <= |bytes| && Valid()
        invariant Within(old(ram), ram, pages, a, a + written) && Holds(ram, pages, a, bytes[..written])
      {
        InStack(mem, dir, a + written);
        var e := Translation(mem, dir, (a + written) / PAGE);
        if !Present(e) {
          return false;
        }
        var off := (a + written) % PAGE;
        var chunk := if PAGE - off > |bytes| - written then |bytes| - written else PAGE - off;
        WritePiece(a, written, PAGE * e.frame + off, bytes[written..written + chunk], bytes[..written], old(ram));
        assert bytes[..written] + bytes[written..written + chunk] == bytes[..written + chunk];
        written := written + chunk;
      }
      assert bytes[..written] == bytes;
      return true;
    }

    /** Writes a piece at the physical address that the user address is translated to. */
    method WritePiece(ghost a: nat, ghost written: nat, phys: nat, piece: seq<byte>, ghost done: seq<byte>,
                      ghost was: seq<byte>)
      requires Valid() && Mapped(pages, a + written) && (a + written) % PAGE + |piece| <= PAGE && |done| == written
      requires phys == Phys(pages, a + written)
      requires Within(was, ram, pages, a, a + written) && Holds(ram, pages, a, done)
      modifies this
      ensures Valid() && Within(was, ram, pages, a, a + written + |piece|) && Holds(ram, pages, a, done + piece)
    {
      PieceAdded(was, ram, pages, a, done, piece);
      ram := Overwrite(ram, phys, piece);
    }

    /** Pushes strings, the last one first, as long as the budget lasts. */
    method PushStrings(strings: Strings, top: nat, used0: nat) returns (ok: bool, sp: nat, used: nat, addrs: seq<word>)
      requires Valid() && used0 <= MAX_BYTES && top + used0 == STACK_TOP
      requires forall i :: 0 <= i < |strings| ==> NoNul(strings[i])
      modifies this
      ensures Valid() && |ram| == |old(ram)|
      ensures ok ==>
        && sp == top - Size(strings) && used == used0 + Size(strings) <= MAX_BYTES
        && StringsAt(ram, pages, addrs, strings, sp, top) && Within(old(ram), ram, pages, sp, top)
      ensures AllMapped(pages, STACK_LOW, STACK_TOP) ==> (ok <==> used0 + Size(strings) <= MAX_BYTES)
      ensures Within(old(ram), ram, pages, LOWEST, top)
    {
      sp, used, addrs := top, used0, [];
      var i := |strings|;
      while i > 0
        invariant 0 <= i <= |strings| && Valid() && used == used0 + Size(strings[i..]) <= MAX_BYTES
        invariant Pushed(old(ram), ram, pages, addrs, strings[i..], sp, top)
      {
        i := i - 1;
        SizeStep(strings, i);
        SizeSuffix(strings, i);
        used := used + |strings[i]| + 1;
        if used > MAX_BYTES {
          WithinWider(old(ram), ram, pages, sp, LOWEST, top);
          return false, sp, used, addrs;
        }
        ghost var low := sp - |strings[i]| - 1;
        ok, sp, addrs := PushString(strings[i], sp, addrs, strings[i + 1..], top, old(ram));
        if !ok {
          WithinWider(old(ram), ram, pages, low, LOWEST, top);
          return;
        }
        assert [strings[i]] + strings[i + 1..] == strings[i..];
      }
      assert strings[0..] == strings;
      WithinWider(old(ram), ram, pages, sp, LOWEST, top);
      ok := true;
    }

    /** Pushes one string below the others. */
    method PushString(s: seq<byte>, sp0: nat, addrs0: seq<word>, ghost strings: Strings, ghost top: nat,
                      ghost was: seq<byte>)
      returns (ok: bool, sp: nat, addrs: seq<word>)
      requires Valid() && NoNul(s) && STACK_LOW + |s| + 1 <= sp0 <= top <= STACK_TOP
      requires Pushed(was, ram, pages, addrs0, strings, sp0, top)
      modifies this
      ensures Valid() && |ram| == |old(ram)|
      ensures ok <==> AllMapped(pages, sp0 - |s| - 1, sp0)
      ensures ok ==> Pushed(was, ram, pages, addrs, [s] + strings, sp, top)
      ensures Within(was, ram, pages, sp0 - |s| - 1, top)
    {
      sp, addrs := sp0 - (|s| + 1), addrs0;
      ok := WriteUser(sp, s + [0]);
      WithinJoined(was, old(ram), ram, pages, sp0, top, sp, sp0, sp, top);
      if ok {
        StringAdded(old(ram), ram, pages, addrs0, strings, s, sp0, top);
        addrs := [sp] + addrs0;
        assert ([s] + strings)[1..] == strings;
      }
    }

    /** Writes an array of words. */
    method WriteWords(a: nat, ws: seq<word>) returns (ok: bool)
      requires Valid() && STACK_LOW <= a && a + 4 * |ws| <= STACK_TOP
      modifies this
      ensures Valid() && Within(old(ram), ram, pages, a, a + 4 * |ws|)
      ensures ok ==> WordsAt(ram, pages, a, ws)
      ensures AllMapped(pages, a, a + 4 * |ws|) ==> ok
    {
      var i := 0;
      while i < |ws|
        invariant 0 <= i <= |ws| && Valid() && Within(old(ram), ram, pages, a, a + 4 * i)
        invariant WordsAt(ram, pages, a, ws[..i])
      {
        ghost var before := ram;
        ok := WriteUser(a + 4 * i, WordBytes(ws[i]));
        if !ok {
          WithinJoined(old(ram), before, ram, pages, a, a + 4 * i, a + 4 * i, a + 4 * i + 4, a, a + 4 * |ws|);
          return;
        }
        WithinJoined(old(ram), before, ram, pages, a, a + 4 * i, a + 4 * i, a + 4 * i + 4, a, a + 4 * i + 4);
        WordsKept(before, ram, pages, a, ws[..i], a + 4 * i, a + 4 * i + 4);
        WordAdded(ram, pages, a, ws, i);
        i := i + 1;
      }
      assert ws[..i] == ws;
      ok := true;
    }

    /**
     Builds the stack image below the top of the stack. What crt0 decodes from it are the given strings, the first
     sixteen of the environment. With the stack mapped it succeeds exactly if the image fits its budget; nothing is
     written below that.
     */
    method PushArgv(argv: Strings, environ: Strings) returns (ok: bool, esp: nat, ghost args: seq<word>,
                    ghost vars: seq<word>)
      requires Valid() && (forall s :: s in argv ==> NoNul(s)) && (forall s :: s in environ ==> NoNul(s))
      modifies this
      ensures Valid()
      ensures ok ==>
        && STACK_LOW < esp < STACK_TOP && esp % 4 == 0
        && Decodes(ram, pages, esp, argv, Environment(environ), args, vars)
        && Within(old(ram), ram, pages, esp, STACK_TOP)
      ensures AllMapped(pages, STACK_LOW, STACK_TOP) ==>
        (ok <==> |argv| <= MAX_ARGV && ImageSize(argv, Environment(environ)) <= MAX_BYTES)
      ensures Within(old(ram), ram, pages, LOWEST, STACK_TOP)
    {
      ok, esp, args, vars := false, 0, [], [];
      Unwritten(ram, pages, LOWEST, STACK_TOP);
      if |argv| > MAX_ARGV {
        return;
      }
      var env := Environment(environ);
      var sp, used, envAddrs, argAddrs;
      ok, sp, used, envAddrs := PushStrings(env, STACK_TOP, 0);
      if !ok {
        return;
      }
      ghost var r1, sp1 := ram, sp;
      ok, sp, used, argAddrs := PushStrings(argv, sp, used);
      WithinJoined(old(ram), r1, ram, pages, LOWEST, STACK_TOP, LOWEST, sp1, LOWEST, STACK_TOP);
      if !ok {
        return;
      }
      StringsKept(r1, ram, pages, envAddrs, env, sp1, STACK_TOP, sp, sp1, sp1);
      WithinJoined(old(ram), r1, ram, pages, sp1, STACK_TOP, sp, sp1, sp, STACK_TOP);
      args, vars := argAddrs, envAddrs;
      ok, esp := PushArrays(argAddrs, envAddrs, sp, used, argv, env, sp1, old(ram));
    }

    /** Pushes the arrays of pointers and the count. */
    method PushArrays(args: seq<word>, vars: seq<word>, sp0: nat, used0: nat,
                      ghost argv: Strings, ghost env: Strings, ghost mid: nat, ghost was: seq<byte>)
      returns (ok: bool, esp: nat)
      requires Valid() && STACK_TOP - MAX_BYTES <= sp0 <= mid <= STACK_TOP && used0 == STACK_TOP - sp0
      requires StringsAt(ram, pages, args, argv, sp0, mid) && StringsAt(ram, pages, vars, env, mid, STACK_TOP)
      requires |args| <= MAX_ARGV && |vars| <= MAX_ENV && Within(was, ram, pages, sp0, STACK_TOP)
      modifies this
      ensures Valid()
      ensures ok ==>
        && STACK_LOW < esp < STACK_TOP && esp % 4 == 0
        && Decodes(ram, pages, esp, argv, env, args, vars) && Within(was, ram, pages, esp, STACK_TOP)
      ensures AllMapped(pages, STACK_LOW, STACK_TOP) ==>
        (ok <==> used0 + 4 * (|vars| + 1) + 4 * (|args| + 1) + 4 <= MAX_BYTES)
      ensures Within(was, ram, pages, LOWEST, STACK_TOP)
    {
      WithinWider(was, ram, pages, sp0, LOWEST, STACK_TOP);
      ok, esp := false, 0;
      var sp, used := sp0 / 4 * 4, used0 + 4 * (|vars| + 1);
      if used > MAX_BYTES {
        return;
      }
      var envp := sp - 4 * (|vars| + 1);
      ok := WriteWords(envp, vars + [0]);
      WithinJoined(was, old(ram), ram, pages, LOWEST, STACK_TOP, envp, sp, LOWEST, STACK_TOP);
      if !ok {
        return;
      }
      ghost var r1 := ram;
      used := used + 4 * (|args| + 1);
      if used > MAX_BYTES {
        ok := false;
        return;
      }
      var arg := envp - 4 * (|args| + 1);
      ok := WriteWords(arg, args + [0]);
      WithinJoined(was, r1, ram, pages, LOWEST, STACK_TOP, arg, envp, LOWEST, STACK_TOP);
      if !ok {
        return;
      }
      ghost var r2 := ram;
      used := used + 4;
      if used > MAX_BYTES {
        ok := false;
        return;
      }
      esp := arg - 4;
      ok := WriteUser(esp, WordBytes(|args|));
      WithinJoined(was, r2, ram, pages, LOWEST, STACK_TOP, esp, arg, LOWEST, STACK_TOP);
      if ok {
        ImageDone(was, old(ram), r1, r2, ram, pages, args, vars, argv, env, sp0, mid, esp, arg, envp, sp);
      }
    }
  }
}
