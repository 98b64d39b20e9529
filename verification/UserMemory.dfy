/** User memory seen through page translations (task.c): bytes, words and strings at user addresses. */
module UserMemory {
  import opened Sectors

  const PAGE := 4096

  /** The frames that the mapped pages of a part of an address space are in. */
  type Pages = map<nat, nat>

  /** Different pages are in different frames, all of them within memory and none at address 0. */
  ghost predicate Injective(pages: Pages, size: nat) {
    && (forall p :: p in pages ==> 0 < pages[p] && PAGE * pages[p] + PAGE <= size)
    && (forall p, q :: p in pages && q in pages && pages[p] == pages[q] ==> p == q)
  }

  predicate Mapped(pages: Pages, a: nat) {
    a / PAGE in pages
  }

  /** The physical address behind a user address. */
  function Phys(pages: Pages, a: nat): nat
    requires Mapped(pages, a)
  {
    PAGE * pages[a / PAGE] + a % PAGE
  }

  /** The byte at a user address; 0 where nothing is mapped. */
  ghost function Byte(ram: seq<byte>, pages: Pages, a: nat): byte {
    if Mapped(pages, a) && Phys(pages, a) < |ram| then ram[Phys(pages, a)] else 0
  }

  ghost predicate AllMapped(pages: Pages, lo: nat, hi: nat) {
    forall a :: lo <= a < hi ==> Mapped(pages, a)
  }

  /** `data` stands at address `a`. */
  ghost predicate Holds(ram: seq<byte>, pages: Pages, a: nat, data: seq<byte>) {
    AllMapped(pages, a, a + |data|) && forall k :: 0 <= k < |data| ==> Byte(ram, pages, a + k) == data[k]
  }

  ghost predicate SameByte(ram: seq<byte>, ram': seq<byte>, pages: Pages, a: nat) {
    Byte(ram', pages, a) == Byte(ram, pages, a)
  }

  /** The byte of memory at `x` is in one of the frames, or as it was. */
  ghost predicate SameOutside(ram: seq<byte>, ram': seq<byte>, pages: Pages, x: nat) {
    x < |ram| == |ram'| && x / PAGE !in pages.Values ==> ram'[x] == ram[x]
  }

  /** No byte of these pages changes but those from `lo` to before `hi`, and no byte of any other frame. */
  ghost predicate Within(ram: seq<byte>, ram': seq<byte>, pages: Pages, lo: nat, hi: nat) {
    && |ram'| == |ram|
    && (forall a: nat {:trigger SameByte(ram, ram', pages, a)} :: !(lo <= a < hi) ==> SameByte(ram, ram', pages, a))
    && (forall x: nat {:trigger SameOutside(ram, ram', pages, x)} :: SameOutside(ram, ram', pages, x))
  }

  /** A write of a piece that stays in one page. */
  lemma PieceWritten(ram: seq<byte>, pages: Pages, a: nat, data: seq<byte>)
    requires Injective(pages, |ram|) && Mapped(pages, a) && a % PAGE + |data| <= PAGE
    ensures Phys(pages, a) + |data| <= |ram|
    ensures Within(ram, Overwrite(ram, Phys(pages, a), data), pages, a, a + |data|)
    ensures Holds(Overwrite(ram, Phys(pages, a), data), pages, a, data)
  {
    var ram' := Overwrite(ram, Phys(pages, a), data);
    forall b | a <= b < a + |data|
      ensures Mapped(pages, b) && Phys(pages, b) == Phys(pages, a) + (b - a)
    {
      assert b / PAGE == a / PAGE && b % PAGE == a % PAGE + (b - a);
    }
    forall b: nat | !(a <= b < a + |data|)
      ensures SameByte(ram, ram', pages, b)
    {
      assert Mapped(pages, b) && pages[b / PAGE] == pages[a / PAGE] ==> b / PAGE == a / PAGE;
    }
    forall x: nat
      ensures SameOutside(ram, ram', pages, x)
    {
      OutOfFrame(pages, a, x, |data|);
    }
  }

  lemma OutOfFrame(pages: Pages, a: nat, x: nat, n: nat)
    requires Mapped(pages, a) && a % PAGE + n <= PAGE
    ensures x / PAGE !in pages.Values ==> x < Phys(pages, a) || Phys(pages, a) + n <= x
  {
    assert pages[a / PAGE] in pages.Values;
    if Phys(pages, a) <= x < Phys(pages, a) + n {
      assert x / PAGE == pages[a / PAGE];
    }
  }

  lemma HoldsKept(ram: seq<byte>, ram': seq<byte>, pages: Pages, a: nat, data: seq<byte>, lo: nat, hi: nat)
    requires Holds(ram, pages, a, data) && Within(ram, ram', pages, lo, hi) && (a + |data| <= lo || hi <= a)
    ensures Holds(ram', pages, a, data)
  {
    forall k | 0 <= k < |data|
      ensures Byte(ram', pages, a + k) == data[k]
    {
      assert SameByte(ram, ram', pages, a + k);
    }
  }

  lemma HoldsJoined(ram: seq<byte>, pages: Pages, a: nat, s: seq<byte>, t: seq<byte>)
    requires Holds(ram, pages, a, s) && Holds(ram, pages, a + |s|, t)
    ensures Holds(ram, pages, a, s + t)
  {
    forall k | 0 <= k < |s + t|
      ensures Byte(ram, pages, a + k) == (s + t)[k]
    {
      assert k >= |s| ==> a + k == a + |s| + (k - |s|);
    }
    forall b | a <= b < a + |s + t|
      ensures Mapped(pages, b)
    {
    }
  }

  lemma Unwritten(ram: seq<byte>, pages: Pages, lo: nat, hi: nat)
    ensures Within(ram, ram, pages, lo, hi)
  {
  }

  lemma WithinWider(ram: seq<byte>, ram': seq<byte>, pages: Pages, lo: nat, lo': nat, hi: nat)
    requires Within(ram, ram', pages, lo, hi) && lo' <= lo
    ensures Within(ram, ram', pages, lo', hi)
  {
  }

  lemma WithinJoined(r0: seq<byte>, r1: seq<byte>, r2: seq<byte>, pages: Pages, lo: nat, hi: nat, lo': nat, hi': nat,
                     lo'': nat, hi'': nat)
    requires Within(r0, r1, pages, lo, hi) && Within(r1, r2, pages, lo', hi')
    requires lo'' <= lo && lo'' <= lo' && hi <= hi'' && hi' <= hi''
    ensures Within(r0, r2, pages, lo'', hi'')
  {
    forall a: nat | !(lo'' <= a < hi'')
      ensures SameByte(r0, r2, pages, a)
    {
      assert SameByte(r0, r1, pages, a) && SameByte(r1, r2, pages, a);
    }
    forall x: nat
      ensures SameOutside(r0, r2, pages, x)
    {
      assert SameOutside(r0, r1, pages, x) && SameOutside(r1, r2, pages, x);
    }
  }

  /** A write that has reached `a + |done|` goes on with one piece. */
  lemma PieceAdded(was: seq<byte>, ram: seq<byte>, pages: Pages, a: nat, done: seq<byte>, piece: seq<byte>)
    requires Injective(pages, |ram|) && Mapped(pages, a + |done|) && (a + |done|) % PAGE + |piece| <= PAGE
    requires Within(was, ram, pages, a, a + |done|) && Holds(ram, pages, a, done)
    ensures Phys(pages, a + |done|) + |piece| <= |ram|
    ensures
      var ram' := Overwrite(ram, Phys(pages, a + |done|), piece);
      Within(was, ram', pages, a, a + |done| + |piece|) && Holds(ram', pages, a, done + piece)
  {
    var b := a + |done|;
    PieceWritten(ram, pages, b, piece);
    var ram' := Overwrite(ram, Phys(pages, b), piece);
    HoldsKept(ram, ram', pages, a, done, b, b + |piece|);
    HoldsJoined(ram', pages, a, done, piece);
    WithinJoined(was, ram, ram', pages, a, b, b, b + |piece|, a, b + |piece|);
  }

  // ---- C strings ----

  ghost predicate NoNul(s: seq<byte>) {
    forall k :: 0 <= k < |s| ==> s[k] != 0
  }

  /** The C string at address `a` is `s`. */
  ghost predicate StringAt(ram: seq<byte>, pages: Pages, a: nat, s: seq<byte>) {
    NoNul(s) && Holds(ram, pages, a, s + [0])
  }

  /** There is only one C string at an address. */
  lemma StringUnique(ram: seq<byte>, pages: Pages, a: nat, s: seq<byte>, t: seq<byte>)
    requires StringAt(ram, pages, a, s) && StringAt(ram, pages, a, t)
    ensures s == t
  {
    forall k | 0 <= k <= |s| && k <= |t|
      ensures (s + [0])[k] == (t + [0])[k]
    {
      assert Byte(ram, pages, a + k) == (s + [0])[k];
      assert Byte(ram, pages, a + k) == (t + [0])[k];
    }
    var n := if |s| < |t| then |s| else |t|;
    assert (s + [0])[n] == (t + [0])[n];
    forall k | 0 <= k < n
      ensures s[k] == t[k]
    {
      assert (s + [0])[k] == (t + [0])[k];
    }
  }
}
