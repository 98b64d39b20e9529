/**
 The cluster store of a FAT32 volume (fat32.c): mirrored tables, allocation, and the reading and writing of chains.
 */
module FatStore {
  import opened Sectors
  import opened FatChains

  const ENTRY := 0x1000_0000

  /** A table with the media entry, the mounted mark, and the end of the root directory. */
  function FreshTable(n: nat): (t: seq<word>)
    requires n >= 3
    ensures |t| == n && t[0] == 0x0FFF_FFF8 && t[1] == 0x07FF_FFFF && t[2] == 0x0FFF_FFFF
    ensures forall c :: 3 <= c < n ==> t[c] == 0
  {
    seq(n, c => if c == 0 then 0x0FFF_FFF8 else if c == 1 then 0x07FF_FFFF else if c == 2 then 0x0FFF_FFFF else 0)
  }

  lemma {:induction false} FreshFree(n: nat)
    requires n >= 3
    ensures |FreeSet(FreshTable(n))| == n - 3
  {
    if n == 3 {
      assert FreeSet(FreshTable(n)) == {};
    } else {
      FreshFree(n - 1);
      assert FreeSet(FreshTable(n)) == FreeSet(FreshTable(n - 1)) + {n - 1};
    }
  }

  /** The low 28 bits of one copy of the table are `t`. */
  ghost predicate Copy(w: seq<word>, t: seq<nat>) {
    |w| >= |t| && forall c :: 0 <= c < |t| ==> w[c] % ENTRY == t[c]
  }

  function SetLow(old_: word, v: nat): (w: word)
    ensures w % ENTRY == v % ENTRY && w / ENTRY == old_ / ENTRY
  {
    old_ / ENTRY * ENTRY + v % ENTRY
  }

  /** The top four bits of every entry are as before. */
  ghost predicate SameHigh(w: seq<word>, w': seq<word>) {
    |w'| == |w| && forall c :: 0 <= c < |w| ==> w'[c] / ENTRY == w[c] / ENTRY
  }

  /** How many clusters of `size` bytes hold `len` bytes. */
  function Needed(len: nat, size: nat): nat
    requires size > 0
  {
    if len == 0 then 0 else if len <= size then 1 else 1 + Needed(len - size, size)
  }

  /** How many of `free` clusters are left when `n` of them are wanted. */
  function Rest(free: nat, n: nat): nat {
    if n <= free then free - n else 0
  }

  /** Where a search from `start` that wraps around at the end finds the first free cluster. */
  ghost predicate NextFit(t: seq<nat>, start: nat, c: nat) {
    && 2 <= c < |t| && t[c] == 0
    && if start <= c then forall k :: start <= k < c ==> t[k] != 0
       else (forall k :: start <= k < |t| ==> t[k] != 0) && forall k :: 2 <= k < c ==> t[k] != 0
  }

  lemma Joined(bytes: seq<byte>, from: nat, upTo: nat, z: seq<byte>)
    requires from <= upTo <= |bytes|
    ensures bytes[..from] + (bytes[from..upTo] + z) == bytes[..upTo] + z
  {
  }

  lemma LastFilled(d: seq<seq<byte>>, s: seq<nat>, v: seq<byte>)
    requires s != [] && Last(s) < |d| && Last(s) !in s[..|s| - 1]
    ensures Content(d[Last(s) := v], s) == Content(d, s[..|s| - 1]) + v
  {
    ContentFrame(d, d[Last(s) := v], s[..|s| - 1]);
  }

  /** The last cluster of a chain is filled with the next bytes, and zeros where they run out. */
  lemma FillStep(d: seq<seq<byte>>, s: seq<nat>, bytes: seq<byte>, from: nat, upTo: nat, pad: nat)
    requires s != [] && Last(s) < |d| && Last(s) !in s[..|s| - 1] && from <= upTo <= |bytes|
    requires Content(d, s[..|s| - 1]) == bytes[..from]
    ensures Content(d[Last(s) := bytes[from..upTo] + Zeros(pad)], s) == bytes[..upTo] + Zeros(pad)
  {
    var v := bytes[from..upTo] + Zeros(pad);
    LastFilled(d, s, v);
    Joined(bytes, from, upTo, Zeros(pad));
  }

  /** The next sector of a cluster that is filled from the front. */
  lemma SectorFilled(bytes: seq<byte>, from: nat, upTo: nat, chunk: nat, size: nat)
    requires from <= upTo && upTo + chunk <= |bytes| && chunk <= SECTOR_SIZE && upTo - from + SECTOR_SIZE <= size
    ensures Overwrite(bytes[from..upTo] + Zeros(size - (upTo - from)), upTo - from,
                      bytes[upTo..upTo + chunk] + Zeros(SECTOR_SIZE - chunk))
      == bytes[from..upTo + chunk] + Zeros(size - (upTo + chunk - from))
  {
  }

  lemma GrowStep(d: seq<seq<byte>>, s: seq<nat>, c: nat, v: seq<byte>)
    requires c < |d| && c !in s
    ensures Content(d[c := v], (s + [c])[..|s|]) == Content(d, s)
  {
    ContentFrame(d, d[c := v], s);
    assert (s + [c])[..|s|] == s;
  }

  /** How many bytes a read asks for after the 32-bit comparison with the end of the file. */
  function Clamp(fileSize: word, offset: word, n: word): nat {
    if offset >= fileSize then 0 else if (offset + n) % WORD_LIMIT > fileSize then fileSize - offset else n
  }

  /** `buf` holds the up to `n` bytes from `offset` on that `content` has. */
  ghost predicate Fetched(content: seq<byte>, offset: nat, n: nat, buf: seq<byte>) {
    if offset >= |content| then buf == []
    else buf == content[offset..if offset + n < |content| then offset + n else |content|]
  }

  /** A piece of cluster `i` of a chain, joined to what was read before it. */
  lemma ReadStep(d: seq<seq<byte>>, s: seq<nat>, i: nat, off: nat, n: nat, offset: nat, buf: seq<byte>,
                 piece: seq<byte>)
    requires i < |s| && s[i] < |d| && off <= |d[s[i]]|
    requires |Content(d, s[..i])| + off == offset + |buf| && offset + |buf| <= |Content(d, s)|
    requires buf == Content(d, s)[offset..offset + |buf|]
    requires piece == d[s[i]][off..if off + n < |d[s[i]]| then off + n else |d[s[i]]|]
    ensures offset + |buf + piece| <= |Content(d, s)|
    ensures buf + piece == Content(d, s)[offset..offset + |buf + piece|]
    ensures |Content(d, s[..i + 1])| == |Content(d, s[..i])| + |d[s[i]]|
  {
    ContentPrefix(d, s, i);
    ReadOn(Content(d, s), Content(d, s[..i]), d[s[i]], off, n, offset, buf, piece);
  }

  /** The same on sequences: `x` follows `p` in `c`. */
  lemma ReadOn(c: seq<byte>, p: seq<byte>, x: seq<byte>, off: nat, n: nat, offset: nat, buf: seq<byte>,
               piece: seq<byte>)
    requires p + x <= c && off <= |x| && |p| + off == offset + |buf| && offset + |buf| <= |c|
    requires buf == c[offset..offset + |buf|] && piece == x[off..if off + n < |x| then off + n else |x|]
    ensures offset + |buf + piece| <= |c| && buf + piece == c[offset..offset + |buf + piece|]
  {
    var end := off + |piece|;
    assert c == p + x + c[|p + x|..];
    Middle(p, x, c[|p + x|..], off, end);
    Adjacent(c, offset, offset + |buf|, |p| + end);
  }

  /** A piece of a sector is a piece of its cluster. */
  lemma OfSector(c: seq<byte>, k: nat, off: nat, n: nat)
    requires off + n <= SECTOR_SIZE && SECTOR_SIZE * k + SECTOR_SIZE <= |c|
    ensures c[SECTOR_SIZE * k..SECTOR_SIZE * k + SECTOR_SIZE][off..off + n]
      == c[SECTOR_SIZE * k + off..SECTOR_SIZE * k + off + n]
  {
    var at := SECTOR_SIZE * k;
    var sector := c[at..at + SECTOR_SIZE];
    var x, y := sector[off..off + n], c[at + off..at + off + n];
    forall i | 0 <= i < n
      ensures x[i] == y[i]
    {
      assert x[i] == sector[off + i] == c[at + off + i];
    }
  }

  lemma Middle(p: seq<byte>, x: seq<byte>, rest: seq<byte>, a: nat, b: nat)
    requires a <= b <= |x|
    ensures (p + x + rest)[|p| + a..|p| + b] == x[a..b]
  {
  }

  lemma Adjacent(c: seq<byte>, a: nat, b: nat, e: nat)
    requires a <= b <= e <= |c|
    ensures c[a..b] + c[b..e] == c[a..e]
  {
  }

  /** What was read of `c` from `offset` on; while there is `more`, the reading has come to position `at`. */
  ghost predicate Reading(c: seq<byte>, offset: nat, size: nat, buf: seq<byte>, more: bool, at: nat) {
    && |buf| <= size
    && (if offset < |c| then offset + |buf| <= |c| && buf == c[offset..offset + |buf|] else buf == [] && !more)
    && (|buf| < size ==> if more then at == offset + |buf| else offset + |buf| >= |c|)
  }

  /** Where byte `r` of cluster number `i` lies in a chain of clusters of `size` bytes. */
  lemma Located(d: seq<seq<byte>>, s: seq<nat>, size: nat, i: nat, r: nat, offset: nat)
    requires r < size && offset == i * size + r && forall k :: 0 <= k < |s| ==> s[k] < |d| && |d[s[k]]| == size
    ensures i >= |s| ==> offset >= |Content(d, s)|
    ensures i < |s| ==> |Content(d, s[..i])| + r == offset < |Content(d, s)|
  {
    ContentLength(d, s, size);
    if i >= |s| {
      Monotone(|s|, i, size);
    } else {
      ContentLength(d, s[..i], size);
      Monotone(i + 1, |s|, size);
    }
  }

  method DivMod(x: nat, size: nat) returns (q: nat, r: nat)
    requires size > 0
    ensures x == q * size + r && r < size
  {
    q, r := x / size, x % size;
  }

  lemma Monotone(x: nat, y: nat, z: nat)
    requires x <= y
    ensures x * z <= y * z
  {
  }

  /** A state with one chain more, at clusters that were free; all others are as before, with the same contents. */
  ghost predicate Added(chains: Chains, owner: Owner, d: seq<seq<byte>>,
                        chains': Chains, owner': Owner, d': seq<seq<byte>>, h: nat, s: seq<nat>) {
    && h !in chains && chains' == chains[h := s] && |d'| == |d|
    && (forall c :: c in owner ==> c in owner' && owner'[c] == owner[c])
    && (forall c :: c in owner && c < |d| ==> d'[c] == d[c])
    && (forall c :: c in s ==> c !in owner)
  }

  lemma AddedFill(chains: Chains, owner: Owner, d: seq<seq<byte>>,
                  chains': Chains, owner': Owner, d': seq<seq<byte>>, h: nat, s: seq<nat>, c: nat, v: seq<byte>)
    requires Added(chains, owner, d, chains', owner', d', h, s) && c in s && c < |d'|
    ensures Added(chains, owner, d, chains', owner', d'[c := v], h, s)
  {
  }

  lemma AddedExtend(chains: Chains, owner: Owner, d: seq<seq<byte>>,
                    chains': Chains, owner': Owner, d': seq<seq<byte>>, h: nat, s: seq<nat>, c: nat, v: seq<byte>)
    requires Added(chains, owner, d, chains', owner', d', h, s) && c !in owner' && c < |d'|
    ensures
      Added(chains, owner, d, chains'[h := s + [c]], owner'[c := Spot(h, |s|)], d'[c := v], h, s + [c])
  {
    assert chains'[h := s + [c]] == chains[h := s + [c]];
  }

  lemma Relinked(chains: Chains, owner: Owner, h: nat, s: seq<nat>, c: nat, p: Spot)
    requires c !in chains && h in chains
    ensures (chains[c := [c]] - {c})[h := s] == chains[h := s]
    ensures owner[c := Spot(c, 0)][c := p] == owner[c := p]
  {
  }

  /** What one more cluster means for the number still needed. */
  lemma AllNeeded(len: nat, written: nat, w: nat, size: nat, k: nat, free: nat)
    requires written < len && size > 0 && w == (if written + size < len then written + size else len) && k >= 1
    requires Needed(len, size) == k - 1 + Needed(len - written, size) && free >= k
    ensures w < len ==> Needed(len, size) == k + Needed(len - w, size) && Needed(len - w, size) > 0
    ensures w == len ==> free >= Needed(len, size) == k
    ensures w < len && free == k ==> free < Needed(len, size)
  {
  }

  /** A chain that holds the first `w` bytes, padded with zeros. */
  ghost predicate Holds(content: seq<byte>, bytes: seq<byte>, w: nat, pad: nat) {
    w <= |bytes| && content == bytes[..w] + Zeros(pad)
  }

  /** A chain and the bytes of its clusters. */
  datatype File = File(chain: seq<nat>, bytes: seq<byte>)

  type View = map<nat, File>

  ghost function ViewOf(chains: Chains, d: seq<seq<byte>>): View {
    map h | h in chains :: File(chains[h], Content(d, chains[h]))
  }

  lemma AddedView(t: seq<nat>, chains: Chains, owner: Owner, d: seq<seq<byte>>,
                  chains': Chains, owner': Owner, d': seq<seq<byte>>, h: nat, s: seq<nat>)
    requires ChainsOk(t, chains, owner) && Added(chains, owner, d, chains', owner', d', h, s)
    ensures ViewOf(chains', d') == ViewOf(chains, d)[h := File(s, Content(d', s))]
  {
    forall k | k in chains
      ensures Content(d', chains[k]) == Content(d, chains[k])
    {
      OwnedKept(t, chains, owner, d, d', k);
    }
  }

  lemma ExtendedView(t: seq<nat>, chains: Chains, owner: Owner, d: seq<seq<byte>>, h: nat, c: nat, v: seq<byte>)
    requires ChainsOk(t, chains, owner) && c !in owner && c < |d| && h in chains
    ensures ViewOf(chains[h := chains[h] + [c]], d[c := v])
      == ViewOf(chains, d)[h := File(chains[h] + [c], Content(d, chains[h]) + v)]
  {
    var d', s := d[c := v], chains[h];
    forall k | k in chains
      ensures Content(d', chains[k]) == Content(d, chains[k])
    {
      OwnedKept(t, chains, owner, d, d', k);
    }
    ContentAppend(d', s, c);
    SameViews(ViewOf(chains[h := s + [c]], d'), ViewOf(chains, d)[h := File(s + [c], Content(d, s) + v)]);
  }

  lemma SameViews(x: View, y: View)
    requires x.Keys == y.Keys && forall k :: k in x ==> x[k] == y[k]
    ensures x == y
  {
  }

  /** The table of a fresh volume has one chain, that of the root directory. */
  lemma FreshChains(n: nat, d: seq<seq<byte>>, size: nat)
    requires 3 <= n <= EOC && |d| == n && d[2] == Zeros(size)
    ensures ChainsOk(FreshTable(n), map[2 := [2]], map[2 := Spot(2, 0)]) && Copy(FreshTable(n), FreshTable(n))
    ensures ViewOf(map[2 := [2]], d) == map[2 := File([2], Zeros(size))]
  {
    ContentAppend(d, [], 2);
    assert [] + [2] == [2] && Content(d, []) == [] && [] + Zeros(size) == Zeros(size);
    assert Content(d, [2]) == Zeros(size);
    assert Link(FreshTable(n), [2], 0) && Claimed(map[2 := Spot(2, 0)], 2, [2], 0);
  }

  /** The files and the number of free clusters. */
  datatype Account = Account(files: View, free: nat)

  ghost function ChainLength(files: View, first: nat): nat {
    if first in files then |files[first].chain| else 0
  }

  ghost function BytesAt(files: View, first: nat): seq<byte> {
    if first in files then files[first].bytes else []
  }

  /** The chain `first`, new since `cs`, holds the first `written` bytes; its last cluster is still empty. */
  ghost predicate Filling(t: seq<nat>, chains: Chains, owner: Owner, d: seq<seq<byte>>,
                          first: nat, bytes: seq<byte>, written: nat, cluster: nat, size: nat,
                          cs: Chains, os: Owner, ds: seq<seq<byte>>, free: nat) {
    && 0 < size && first in chains && chains[first] != [] && cluster == Last(chains[first]) < |d|
    && Added(cs, os, ds, chains, owner, d, first, chains[first])
    && |FreeSet(t)| + |chains[first]| == free
    && written < |bytes| && d[cluster] == Zeros(size)
    && Content(d, chains[first][..|chains[first]| - 1]) == bytes[..written]
    && Needed(|bytes|, size) == |chains[first]| - 1 + Needed(|bytes| - written, size)
  }

  /** The chain `first`, new since `cs`, holds `w` bytes, which is all of them if there were clusters enough. */
  ghost predicate Filled(t: seq<nat>, chains: Chains, owner: Owner, d: seq<seq<byte>>,
                         first: nat, bytes: seq<byte>, w: nat, pad: nat, size: nat,
                         cs: Chains, os: Owner, ds: seq<seq<byte>>, free: nat) {
    && 0 < size && first in chains && Added(cs, os, ds, chains, owner, d, first, chains[first])
    && Holds(Content(d, chains[first]), bytes, w, pad)
    && |FreeSet(t)| + |chains[first]| == free
    && (w == |bytes| <==> free >= Needed(|bytes|, size))
    && (w < |bytes| ==> pad == 0 && FreeSet(t) == {})
    && (w == |bytes| ==> |chains[first]| == Needed(|bytes|, size))
  }

  /** The offset after one more cluster of bytes. */
  function Advance(written: nat, size: nat, len: nat): nat {
    if written + size < len then written + size else len
  }

  lemma FilledTurn(t: seq<nat>, chains: Chains, owner: Owner, d: seq<seq<byte>>,
                   first: nat, bytes: seq<byte>, written: nat, cluster: nat, size: nat,
                   cs: Chains, os: Owner, ds: seq<seq<byte>>, free: nat, w: nat, pad: nat, d': seq<seq<byte>>)
    requires Filling(t, chains, owner, d, first, bytes, written, cluster, size, cs, os, ds, free)
    requires w == Advance(written, size, |bytes|) && pad == size - (w - written)
    requires d' == d[cluster := bytes[written..w] + Zeros(pad)] && (w == |bytes| || FreeSet(t) == {})
    requires Content(d', chains[first]) == bytes[..w] + Zeros(pad)
    ensures Filled(t, chains, owner, d', first, bytes, w, pad, size, cs, os, ds, free)
  {
    AddedFill(cs, os, ds, chains, owner, d, first, chains[first], cluster, bytes[written..w] + Zeros(pad));
    AllNeeded(|bytes|, written, w, size, |chains[first]|, free);
  }

  lemma FillingTurn(t: seq<nat>, chains: Chains, owner: Owner, d: seq<seq<byte>>,
                    first: nat, bytes: seq<byte>, written: nat, cluster: nat, size: nat,
                    cs: Chains, os: Owner, ds: seq<seq<byte>>, free: nat, w: nat, next: nat,
                    t': seq<nat>, chains': Chains, owner': Owner, d': seq<seq<byte>>)
    requires Filling(t, chains, owner, d, first, bytes, written, cluster, size, cs, os, ds, free)
    requires w == Advance(written, size, |bytes|) < |bytes| && next < |d| && next !in owner
    requires |FreeSet(t')| == |FreeSet(t)| - 1
    requires chains' == chains[first := chains[first] + [next]] && owner' == owner[next := Spot(first, |chains[first]|)]
    requires d' == d[cluster := bytes[written..w] + Zeros(size - (w - written))][next := Zeros(size)]
    requires Content(d', (chains[first] + [next])[..|chains[first]|]) == bytes[..w]
    ensures Filling(t', chains', owner', d', first, bytes, w, next, size, cs, os, ds, free)
  {
    var s, v := chains[first], bytes[written..w] + Zeros(size - (w - written));
    AddedFill(cs, os, ds, chains, owner, d, first, s, cluster, v);
    AddedExtend(cs, os, ds, chains, owner, d[cluster := v], first, s, next, Zeros(size));
    AllNeeded(|bytes|, written, w, size, |s|, free);
  }

  class Store {
    const total: nat
    const spc: nat
    var fats: seq<seq<word>>
    var hint: nat
    var data: seq<seq<byte>>
    ghost var t: seq<nat>
    ghost var chains: Chains
    ghost var owner: Owner
    ghost var files: View
    ghost predicate Tables()
      reads this
    {
      && |t| == total <= EOC && fats != []
      && (forall f :: 0 <= f < |fats| ==> Copy(fats[f], t))
      && hint <= total
    }

    ghost predicate Area()
      reads this
    {
      && 0 < spc < 256 && 2 <= total
      && |data| == total && forall c :: 0 <= c < total ==> |data[c]| == SECTOR_SIZE * spc
    }

    /** All of the store but for the ghost view of it. */
    ghost predicate Sound()
      reads this
    {
      Tables() && Area() && ChainsOk(t, chains, owner)
    }

    /** What fat32_format and the mount that ends it leave: two equal tables and a zeroed root cluster. */
    constructor Format(total: nat, spc: nat, disk: seq<seq<byte>>)
      requires 3 <= total <= EOC && 0 < spc < 256
      requires |disk| == total && forall c :: 0 <= c < total ==> |disk[c]| == SECTOR_SIZE * spc
      ensures Valid() && this.total == total && this.spc == spc && hint == 3
      ensures files.Keys == {2} && files[2] == File([2], Zeros(SECTOR_SIZE * spc)) && Free() == total - 3
      ensures chains == map[2 := [2]] && data == disk[2 := Zeros(SECTOR_SIZE * spc)]
    {
      this.total, this.spc, hint := total, spc, 3;
      var table: seq<word> := FreshTable(total);
      fats, t := [table, table], table;
      data := disk[2 := Zeros(SECTOR_SIZE * spc)];
      chains, owner := map[2 := [2]], map[2 := Spot(2, 0)];
      new;
      files := ViewOf(chains, data);
      FreshFree(total);
      FreshChains(total, data, SECTOR_SIZE * spc);
    }

    method EntryGet(c: nat) returns (v: nat)
      requires Tables() && c < total
      ensures v == t[c]
    {
      assert Copy(fats[0], t);
      v := fats[0][c] % ENTRY;
    }

    /** Writes the low 28 bits of an entry in every copy of the table and keeps the top four of each. */
    method EntrySet(c: nat, v: nat)
      requires Tables() && c < total && v < ENTRY
      modifies this`fats, this`t
      ensures Tables() && t == old(t)[c := v]
      ensures |fats| == |old(fats)| && forall f :: 0 <= f < |fats| ==> SameHigh(old(fats)[f], fats[f])
    {
      var f := 0;
      while f < |fats|
        modifies this`fats
        invariant 0 <= f <= |fats| == |old(fats)|
        invariant forall g :: 0 <= g < f ==> Copy(fats[g], t[c := v]) && SameHigh(old(fats)[g], fats[g])
        invariant forall g :: f <= g < |fats| ==> fats[g] == old(fats)[g]
      {
        assert Copy(fats[f], t);
        var w := SetLow(fats[f][c], v);
        fats := fats[f := fats[f][c := w]];
        f := f + 1;
      }
      t := t[c := v];
    }

    /** The first free cluster from `lo` to before `hi`, or 0. */
    method ScanFree(lo: nat, hi: nat) returns (c: nat)
      requires Tables() && 2 <= lo && hi <= total
      ensures c == 0 ==> forall k :: lo <= k < hi ==> t[k] != 0
      ensures c != 0 ==> lo <= c < hi && t[c] == 0 && forall k :: lo <= k < c ==> t[k] != 0
    {
      c := lo;
      while c < hi
        invariant lo <= c
        invariant forall k :: lo <= k < c && k < hi ==> t[k] != 0
      {
        var v := EntryGet(c);
        if v == 0 {
          return;
        }
        c := c + 1;
      }
      return 0;
    }

    method WriteSector(c: nat, s: nat, sec: Sector)
      requires Area() && c < total && s < spc
      modifies this`data
      ensures Area() && data == old(data)[c := Overwrite(old(data)[c], SECTOR_SIZE * s, sec)]
    {
      data := data[c := Overwrite(data[c], SECTOR_SIZE * s, sec)];
    }

    method ZeroCluster(c: nat)
      requires Area() && c < total
      modifies this`data
      ensures Area() && data == old(data)[c := Zeros(SECTOR_SIZE * spc)]
    {
      var s := 0;
      while s < spc
        invariant 0 <= s <= spc && Area()
        invariant data == old(data)[c := data[c]]
        invariant forall k :: 0 <= k < SECTOR_SIZE * s ==> data[c][k] == 0
      {
        WriteSector(c, s, ZeroSector());
        s := s + 1;
      }
      assert data[c] == Zeros(SECTOR_SIZE * spc);
    }

    method FindFree() returns (c: nat)
      requires Tables() && 2 <= total
      ensures c == 0 <==> FreeSet(t) == {}
      ensures c != 0 ==> NextFit(t, if hint >= 2 then hint else 2, c)
    {
      var start := if hint >= 2 then hint else 2;
      c := ScanFree(start, total);
      if c == 0 {
        c := ScanFree(2, start);
      }
      assert c != 0 ==> c in FreeSet(t);
    }

    /** A zeroed cluster taken from the free ones, as a chain of its own; 0 if there is none. */
    method AllocCluster() returns (c: nat)
      requires Sound()
      modifies this`fats, this`t, this`hint, this`data, this`chains, this`owner
      ensures Sound()
      ensures c == 0 <==> FreeSet(old(t)) == {}
      ensures c == 0 ==> data == old(data) && t == old(t) && chains == old(chains) && owner == old(owner)
      ensures c != 0 ==>
        && NextFit(old(t), if old(hint) >= 2 then old(hint) else 2, c) && hint == c + 1
        && c !in old(chains) && c !in old(owner)
        && t == old(t)[c := EOC] && |FreeSet(t)| == |FreeSet(old(t))| - 1
        && chains == old(chains)[c := [c]] && owner == old(owner)[c := Spot(c, 0)]
        && data == old(data)[c := Zeros(SECTOR_SIZE * spc)]
    {
      c := FindFree();
      if c != 0 {
        NewChain(t, chains, owner, c);
        FreeTaken(t, c, EOC);
        EntrySet(c, EOC);
        hint := c + 1;
        ZeroCluster(c);
        chains, owner := chains[c := [c]], owner[c := Spot(c, 0)];
      }
    }

    /** Frees the clusters of a chain one by one. */
    method FreeChain(h: nat)
      requires Sound() && h in chains
      modifies this`fats, this`t, this`chains, this`owner
      ensures Sound() && chains == old(chains) - {h} && owner == DropOwner(old(owner), old(chains)[h])
      ensures |FreeSet(t)| == |FreeSet(old(t))| + |old(chains)[h]| && FreeSet(t) != {}
    {
      ghost var s := chains[h];
      ghost var i := 0;
      var cluster := h;
      assert ChainOk(t, owner, h, s) && Link(t, s, 0);
      while cluster >= 2 && !Ends(cluster)
        modifies this`fats, this`t
        invariant 0 <= i <= |s| && Tables()
        invariant Cleared(old(t), s[..i], t)
        invariant if i < |s| then cluster == s[i] && 2 <= cluster < total else cluster >= EOC
        decreases |s| - i
      {
        assert Link(old(t), s, i) && Claimed(old(owner), h, s, i) && (i + 1 < |s| ==> Link(old(t), s, i + 1));
        NotTwice(old(t), chains, owner, h, i);
        var next := EntryGet(cluster);
        EntrySet(cluster, 0);
        cluster := next;
        i := i + 1;
      }
      assert s[..i] == s;
      DropChain(old(t), chains, owner, h, t);
      DropCount(old(t), chains, owner, h, t);
      chains, owner := chains - {h}, DropOwner(owner, s);
    }

    /** Puts the bytes from `from` on, as many as fit, into a zeroed cluster. */
    method FillCluster(c: nat, bytes: seq<byte>, from: nat) returns (upTo: nat)
      requires Area() && c < total && from < |bytes| && data[c] == Zeros(SECTOR_SIZE * spc)
      modifies this`data
      ensures Area() && upTo == if from + SECTOR_SIZE * spc < |bytes| then from + SECTOR_SIZE * spc else |bytes|
      ensures data == old(data)[c := bytes[from..upTo] + Zeros(SECTOR_SIZE * spc - (upTo - from))]
    {
      upTo := from;
      var inCluster := 0;
      ghost var k := 0;
      assert data[c] == bytes[from..upTo] + Zeros(SECTOR_SIZE * spc);
      while inCluster < SECTOR_SIZE * spc && upTo < |bytes|
        invariant inCluster == SECTOR_SIZE * k && 0 <= k <= spc && Area()
        invariant upTo == if from + inCluster < |bytes| then from + inCluster else |bytes|
        invariant data == old(data)[c := bytes[from..upTo] + Zeros(SECTOR_SIZE * spc - (upTo - from))]
        decreases SECTOR_SIZE * spc - inCluster
      {
        var chunk := if SECTOR_SIZE > |bytes| - upTo then |bytes| - upTo else SECTOR_SIZE;
        SectorFilled(bytes, from, upTo, chunk, SECTOR_SIZE * spc);
        WriteSector(c, inCluster / SECTOR_SIZE, bytes[upTo..upTo + chunk] + Zeros(SECTOR_SIZE - chunk));
        upTo := upTo + chunk;
        inCluster, k := inCluster + SECTOR_SIZE, k + 1;
      }
    }

    /** Links a new cluster to the end of a chain; 0 if there is none. */
    method ExtendChain(first: nat, cluster: nat) returns (nc: nat)
      requires Sound() && first in chains && chains[first] != [] && cluster == Last(chains[first])
      modifies this`fats, this`t, this`hint, this`data, this`chains, this`owner
      ensures Sound()
      ensures nc == 0 <==> FreeSet(old(t)) == {}
      ensures nc == 0 ==> data == old(data) && t == old(t) && chains == old(chains) && owner == old(owner)
      ensures nc != 0 ==>
        && nc < total && nc !in old(owner) && |FreeSet(t)| == |FreeSet(old(t))| - 1
        && chains == old(chains)[first := old(chains)[first] + [nc]]
        && owner == old(owner)[nc := Spot(first, |old(chains)[first]|)]
        && data == old(data)[nc := Zeros(SECTOR_SIZE * spc)]
    {
      nc := AllocCluster();
      if nc != 0 {
        LinkChain(t, chains, owner, first, nc);
        ghost var s := chains[first];
        EntrySet(cluster, nc);
        chains, owner := (chains - {nc})[first := s + [nc]], owner[nc := Spot(first, |s|)];
        Relinked(old(chains), old(owner), first, s + [nc], nc, Spot(first, |s|));
      }
    }

    /** One cluster of a file: fills the last one and, if bytes are left, links another; `next` is 0 when it stops. */
    method StoreTurn(first: nat, cluster: nat, bytes: seq<byte>, written: nat) returns (w: nat, next: nat)
      requires Sound() && first in chains && chains[first] != [] && cluster == Last(chains[first]) < total
      requires written < |bytes| && data[cluster] == Zeros(SECTOR_SIZE * spc)
      requires Content(data, chains[first][..|chains[first]| - 1]) == bytes[..written]
      modifies this`fats, this`t, this`hint, this`data, this`chains, this`owner
      ensures Sound()
      ensures w == if written + SECTOR_SIZE * spc < |bytes| then written + SECTOR_SIZE * spc else |bytes|
      ensures next == 0 <==> w == |bytes| || FreeSet(old(t)) == {}
      ensures
        var s, v := old(chains)[first], bytes[written..w] + Zeros(SECTOR_SIZE * spc - (w - written));
        if next == 0 then
          && chains == old(chains) && owner == old(owner) && t == old(t) && data == old(data)[cluster := v]
          && Content(data, s) == bytes[..w] + Zeros(SECTOR_SIZE * spc - (w - written))
        else
          && next < total && next !in old(owner) && |FreeSet(t)| == |FreeSet(old(t))| - 1
          && chains == old(chains)[first := s + [next]] && owner == old(owner)[next := Spot(first, |s|)]
          && data == old(data)[cluster := v][next := Zeros(SECTOR_SIZE * spc)]
          && Content(data, (s + [next])[..|s|]) == bytes[..w]
    {
      ghost var s := chains[first];
      NotTwice(t, chains, owner, first, |s| - 1);
      w := FillCluster(cluster, bytes, written);
      FillStep(old(data), s, bytes, written, w, SECTOR_SIZE * spc - (w - written));
      next := 0;
      if w < |bytes| {
        ghost var d := data;
        next := ExtendChain(first, cluster);
        if next != 0 {
          NotOwned(old(t), old(chains), old(owner), first, next);
          GrowStep(d, s, next, Zeros(SECTOR_SIZE * spc));
          assert bytes[..w] + Zeros(0) == bytes[..w];
        }
      }
    }

    method FillTurn(first: nat, cluster: nat, bytes: seq<byte>, written: nat,
                    ghost cs: Chains, ghost os: Owner, ghost ds: seq<seq<byte>>, ghost free: nat)
      returns (w: nat, next: nat, ghost pad: nat)
      requires Sound() && cluster < total
      requires Filling(t, chains, owner, data, first, bytes, written, cluster, SECTOR_SIZE * spc, cs, os, ds, free)
      modifies this`fats, this`t, this`hint, this`data, this`chains, this`owner
      ensures Sound() && written < w <= |bytes| && next < total
      ensures next != 0 ==>
        Filling(t, chains, owner, data, first, bytes, w, next, SECTOR_SIZE * spc, cs, os, ds, free)
      ensures next == 0 ==> Filled(t, chains, owner, data, first, bytes, w, pad, SECTOR_SIZE * spc, cs, os, ds, free)
    {
      w, next := StoreTurn(first, cluster, bytes, written);
      pad := SECTOR_SIZE * spc - (w - written);
      if next == 0 {
        FilledTurn(t, old(chains), old(owner), old(data), first, bytes, written, cluster, SECTOR_SIZE * spc, cs, os, ds,
                   free, w, pad, data);
      } else {
        FillingTurn(old(t), old(chains), old(owner), old(data), first, bytes, written, cluster, SECTOR_SIZE * spc,
                    cs, os,
                    ds, free, w, next, t, chains, owner, data);
      }
    }

    /**
     A new chain that holds `bytes`, padded with zeros to whole clusters. When the clusters run out, the chain holds the
     first `w` bytes; it holds all of them exactly if there were enough free clusters to begin with.
     */
    method StoreBytes(bytes: seq<byte>) returns (first: nat, ghost w: nat, ghost pad: nat)
      requires Sound() && |bytes| > 0
      modifies this`fats, this`t, this`hint, this`data, this`chains, this`owner
      ensures Sound()
      ensures first == 0 <==> FreeSet(old(t)) == {}
      ensures first == 0 ==> data == old(data) && t == old(t) && chains == old(chains) && owner == old(owner)
      ensures first != 0 ==>
        Filled(t, chains, owner, data, first, bytes, w, pad, SECTOR_SIZE * spc, old(chains), old(owner), old(data),
               |FreeSet(old(t))|)
    {
      w, pad := 0, 0;
      first := AllocCluster();
      if first != 0 {
        ghost var free := |FreeSet(old(t))|;
        assert [first][..0] == [];
        var written: nat, cluster: nat := 0, first;
        while written < |bytes| && cluster != 0
          invariant Sound() && cluster < total
          invariant cluster != 0 ==>
            Filling(t, chains, owner, data, first, bytes, written, cluster, SECTOR_SIZE * spc,
                    old(chains), old(owner), old(data), free)
          invariant cluster == 0 ==>
            Filled(t, chains, owner, data, first, bytes, w, pad, SECTOR_SIZE * spc,
                   old(chains), old(owner), old(data), free)
          decreases |bytes| - written
        {
          written, cluster, pad := FillTurn(first, cluster, bytes, written, old(chains), old(owner), old(data), free);
          w := written;
        }
      }
    }

    /** Up to `want` bytes from offset `off` of a cluster, sector by sector. */
    method ReadCluster(c: nat, off: nat, want: nat) returns (buf: seq<byte>)
      requires Area() && c < total && off < SECTOR_SIZE * spc
      ensures buf == data[c][off..if off + want < SECTOR_SIZE * spc then off + want else SECTOR_SIZE * spc]
    {
      var inCluster, inSector := off / SECTOR_SIZE, off % SECTOR_SIZE;
      buf := [];
      while |buf| < want && inCluster < spc
        invariant |buf| <= want && off + |buf| <= SECTOR_SIZE * spc && inCluster <= spc && 0 <= inSector < SECTOR_SIZE
        invariant |buf| < want ==> SECTOR_SIZE * inCluster + inSector == off + |buf|
        invariant buf == data[c][off..off + |buf|]
        decreases spc - inCluster
      {
        var sec := data[c][SECTOR_SIZE * inCluster..SECTOR_SIZE * inCluster + SECTOR_SIZE];
        var chunk := if SECTOR_SIZE - inSector > want - |buf| then want - |buf| else SECTOR_SIZE - inSector;
        OfSector(data[c], inCluster, inSector, chunk);
        Adjacent(data[c], off, off + |buf|, off + |buf| + chunk);
        buf := buf + sec[inSector..inSector + chunk];
        inSector, inCluster := 0, inCluster + 1;
      }
    }

    ghost function ChainAt(first: nat): seq<nat>
      reads this
    {
      if first in chains then chains[first] else []
    }

    /** `cluster` is where a walk along the chain stands after `i` steps. */
    ghost predicate At(s: seq<nat>, i: nat, cluster: nat)
      reads this
    {
      if i < |s| then cluster == s[i] && 2 <= cluster < total else cluster < 2 || cluster >= EOC
    }

    method NextCluster(first: nat, cluster: nat, ghost i: nat) returns (next: nat)
      requires Sound() && At(ChainAt(first), i, cluster) && i < |ChainAt(first)|
      ensures At(ChainAt(first), i + 1, next) && (i + 1 == |ChainAt(first)| ==> next >= EOC)
    {
      ghost var s := chains[first];
      assert ChainOk(t, owner, first, s) && Link(t, s, i) && (i + 1 < |s| ==> Link(t, s, i + 1));
      next := EntryGet(cluster);
    }

    method WalkTo(first: nat, steps: nat) returns (cluster: nat, ghost i: nat)
      requires Sound() && (first in chains || first < 2)
      ensures i <= steps && At(ChainAt(first), i, cluster) && (i < |ChainAt(first)| ==> i == steps)
    {
      cluster := first;
      var k := 0;
      ghost var s := ChainAt(first);
      assert first in chains ==> ChainOk(t, owner, first, chains[first]) && Link(t, chains[first], 0);
      while k < steps && cluster >= 2 && !Ends(cluster)
        invariant k <= steps && At(s, k, cluster)
      {
        cluster := NextCluster(first, cluster, k);
        k := k + 1;
      }
      i := k;
    }

    lemma ChainSizes(first: nat)
      requires Sound()
      ensures var s := ChainAt(first);
        forall i :: 0 <= i < |s| ==> s[i] < |data| && |data[s[i]]| == SECTOR_SIZE * spc
    {
      var s := ChainAt(first);
      assert first in chains ==> ChainOk(t, owner, first, chains[first]);
      forall i | 0 <= i < |s|
        ensures s[i] < |data| && |data[s[i]]| == SECTOR_SIZE * spc
      {
        assert Link(t, s, i);
      }
    }

    /** One turn: what is wanted of cluster `i` of the chain is joined to what was read before. */
    method ReadTurn(ghost first: nat, cluster: nat, inCluster: nat, size: nat, ghost offset: nat, buf: seq<byte>,
                    ghost i: nat)
      returns (r: seq<byte>)
      requires Sound() && At(ChainAt(first), i, cluster) && i < |ChainAt(first)| && cluster < total
      requires inCluster < SECTOR_SIZE * spc && |buf| < size
      requires Reading(Content(data, ChainAt(first)), offset, size, buf, true,
                       |Content(data, ChainAt(first)[..i])| + inCluster)
      ensures
        var s := ChainAt(first);
        Reading(Content(data, s), offset, size, r, i + 1 < |s|, if i + 1 < |s| then |Content(data, s[..i + 1])| else 0)
    {
      ghost var s := ChainAt(first);
      var piece := ReadCluster(cluster, inCluster, size - |buf|);
      ReadStep(data, s, i, inCluster, size - |buf|, offset, buf, piece);
      assert i + 1 == |s| ==> s[..i + 1] == s;
      r := buf + piece;
    }

    /** Reads on from byte `off` of the cluster at index `i` of a chain, which is byte `offset` of the file. */
    method ReadFrom(first: nat, from: nat, off: nat, size: nat, ghost offset: nat, ghost i0: nat)
      returns (buf: seq<byte>)
      requires Sound() && At(ChainAt(first), i0, from) && off < SECTOR_SIZE * spc
      requires i0 < |ChainAt(first)| ==>
        |Content(data, ChainAt(first)[..i0])| + off == offset < |Content(data, ChainAt(first))|
      requires i0 >= |ChainAt(first)| ==> offset >= |Content(data, ChainAt(first))|
      ensures Fetched(Content(data, ChainAt(first)), offset, size, buf)
    {
      ghost var s := ChainAt(first);
      ghost var c, i := Content(data, s), i0;
      ChainSizes(first);
      var cluster: nat, inCluster: nat := from, off;
      buf := [];
      while |buf| < size && cluster >= 2 && !Ends(cluster)
        invariant At(s, i, cluster) && inCluster < SECTOR_SIZE * spc
        invariant Reading(c, offset, size, buf, i < |s|, if i < |s| then |Content(data, s[..i])| + inCluster else 0)
        decreases |s| - i
      {
        buf := ReadTurn(first, cluster, inCluster, size, offset, buf, i);
        inCluster := 0;
        cluster := NextCluster(first, cluster, i);
        i := i + 1;
      }
    }

    method ReadChain(first: nat, fileSize: word, offset: word, n: word) returns (buf: seq<byte>)
      requires Sound() && (first in chains || first < 2)
      ensures Fetched(Content(data, ChainAt(first)), offset, Clamp(fileSize, offset, n), buf)
    {
      var size := Clamp(fileSize, offset, n);
      buf := [];
      if offset < fileSize {
        var index, off := DivMod(offset, SECTOR_SIZE * spc);
        ChainSizes(first);
        Located(data, ChainAt(first), SECTOR_SIZE * spc, index, off, offset);
        var cluster, i := WalkTo(first, index);
        buf := ReadFrom(first, cluster, off, size, offset, i);
      }
    }

    method LastCluster(d: nat) returns (cluster: nat)
      requires Sound() && d in chains
      ensures chains[d] != [] && cluster == Last(chains[d])
    {
      cluster := d;
      ghost var s, i := chains[d], 0;
      assert ChainOk(t, owner, d, s) && Link(t, s, 0);
      var next: nat := NextCluster(d, cluster, 0);
      while !Ends(next)
        invariant 0 <= i < |s| && At(s, i, cluster) && At(s, i + 1, next) && (i + 1 == |s| ==> next >= EOC)
        decreases |s| - i
      {
        cluster := next;
        i := i + 1;
        next := NextCluster(d, cluster, i);
      }
    }

    // ---- the store as a map from first clusters to files ----

    ghost predicate Valid()
      reads this
    {
      Sound() && files == ViewOf(chains, data)
    }

    ghost function Free(): nat
      reads this
    {
      |FreeSet(t)|
    }

    ghost function Books(): Account
      reads this
    {
      Account(files, Free())
    }

    /** No chain starts at cluster 0. */
    lemma NoChainAtZero()
      requires Valid()
      ensures 0 !in files
    {
      NoHeadBelowTwo(t, chains, owner);
    }

    /** A chain for the bytes, none if there are none; false if no cluster is left. */
    method Put(bytes: seq<byte>) returns (ok: bool, first: nat, ghost w: nat, ghost pad: nat)
      requires Valid()
      modifies this
      ensures Valid() && (ok <==> bytes == [] || old(Free()) > 0)
      ensures first == 0 ==> files == old(files)
      ensures first != 0 ==> ok && first in files && files == old(files)[first := files[first]]
      ensures first !in old(files) && (ok ==> (first == 0 <==> bytes == []))
      ensures ok ==> Holds(BytesAt(files, first), bytes, w, pad)
      ensures ok ==> (w == |bytes| <==> old(Free()) >= Needed(|bytes|, SECTOR_SIZE * spc))
      ensures Free() == Rest(old(Free()), Needed(|bytes|, SECTOR_SIZE * spc))
      ensures 0 !in files && Free() + ChainLength(files, first) == old(Free())
    {
      ok, first, w, pad := true, 0, 0, 0;
      NoHeadBelowTwo(t, chains, owner);
      if |bytes| > 0 {
        first, w, pad := StoreBytes(bytes);
        ok := first != 0;
        if ok {
          AddedView(old(t), old(chains), old(owner), old(data), chains, owner, data, first, chains[first]);
        }
      }
      files := ViewOf(chains, data);
    }

    /** Frees the chain of a file, if it has one. */
    method Drop(h: nat)
      requires Valid() && (h == 0 || h in files)
      modifies this
      ensures Valid() && files == old(files) - {h} && (h == 0 ==> files == old(files))
      ensures Free() == old(Free()) + ChainLength(old(files), h)
      ensures 0 !in old(files) && (h != 0 ==> Free() > 0)
    {
      NoHeadBelowTwo(t, chains, owner);
      if h >= 2 {
        FreeChain(h);
      }
      files := files - {h};
    }

    /** Links a zeroed cluster to the end of a chain. */
    method Grow(h: nat) returns (ok: bool)
      requires Valid() && h in files
      modifies this
      ensures Valid() && (ok <==> old(Free()) > 0)
      ensures h in files && files == old(files)[h := files[h]]
      ensures files[h].bytes == old(files)[h].bytes + if ok then Zeros(SECTOR_SIZE * spc) else []
      ensures |files[h].chain| == |old(files)[h].chain| + if ok then 1 else 0
      ensures Free() + |files[h].chain| == old(Free()) + |old(files)[h].chain|
    {
      var cluster := LastCluster(h);
      var nc := ExtendChain(h, cluster);
      ok := nc != 0;
      if ok {
        ExtendedView(old(t), old(chains), old(owner), old(data), h, nc, Zeros(SECTOR_SIZE * spc));
      }
      files := ViewOf(chains, data);
    }

    /** Reads from a file that starts at cluster `first`. */
    method Read(first: nat, fileSize: word, offset: word, n: word) returns (buf: seq<byte>)
      requires Valid() && (first == 0 || first in files)
      ensures Fetched(BytesAt(files, first), offset, Clamp(fileSize, offset, n), buf)
    {
      NoHeadBelowTwo(t, chains, owner);
      buf := ReadChain(first, fileSize, offset, n);
    }
  }
}
