/** The cluster chains of a FAT volume as values: the table, the chains it links, and the bytes they hold. */
module FatChains {
  import opened Common
  import opened Sectors

  const EOC := 0x0FFF_FFF8

  /** Where a cluster stands: at `index` of the chain that starts at `head`. */
  datatype Spot = Spot(head: nat, index: nat)

  type Chains = map<nat, seq<nat>>

  type Owner = map<nat, Spot>

  /** A value that ends a walk along a chain. */
  predicate Ends(v: nat) {
    v >= EOC || v == 0
  }

  /** Entry `i` of chain `s` leads to the next cluster, or marks the end. */
  ghost predicate Link(t: seq<nat>, s: seq<nat>, i: nat)
    requires i < |s|
  {
    2 <= s[i] < |t| && if i + 1 < |s| then t[s[i]] == s[i + 1] else t[s[i]] >= EOC
  }

  ghost predicate Claimed(owner: Owner, h: nat, s: seq<nat>, i: nat)
    requires i < |s|
  {
    s[i] in owner && owner[s[i]] == Spot(h, i)
  }

  ghost predicate ChainOk(t: seq<nat>, owner: Owner, h: nat, s: seq<nat>) {
    && s != [] && s[0] == h
    && (forall i :: 0 <= i < |s| ==> Link(t, s, i))
    && (forall i :: 0 <= i < |s| ==> Claimed(owner, h, s, i))
  }

  ghost predicate SpotOk(chains: Chains, owner: Owner, c: nat)
    requires c in owner
  {
    var p := owner[c];
    p.head in chains && p.index < |chains[p.head]| && chains[p.head][p.index] == c
  }

  /** Every chain is linked by the table, `owner` is the inverse of the chains, and the free entries are the rest. */
  ghost predicate ChainsOk(t: seq<nat>, chains: Chains, owner: Owner) {
    && |t| <= EOC
    && (forall h {:trigger ChainOk(t, owner, h, chains[h])} :: h in chains ==> ChainOk(t, owner, h, chains[h]))
    && (forall c {:trigger SpotOk(chains, owner, c)} :: c in owner ==> SpotOk(chains, owner, c))
    && (forall c :: 2 <= c < |t| ==> (t[c] == 0 <==> c !in owner))
  }

  /** No cluster is in two chains, or twice in one: chains are disjoint and without cycles. */
  lemma ChainsDisjoint(t: seq<nat>, chains: Chains, owner: Owner, h: nat, i: nat, k: nat, j: nat)
    requires ChainsOk(t, chains, owner) && h in chains && k in chains && i < |chains[h]| && j < |chains[k]|
    requires chains[h][i] == chains[k][j]
    ensures h == k && i == j
  {
    assert ChainOk(t, owner, h, chains[h]) && ChainOk(t, owner, k, chains[k]);
    assert Claimed(owner, h, chains[h], i) && Claimed(owner, k, chains[k], j);
  }

  /** The free clusters. */
  ghost function FreeSet(t: seq<nat>): set<nat> {
    set c | 2 <= c < |t| && t[c] == 0
  }

  lemma HeadsOwned(t: seq<nat>, chains: Chains, owner: Owner)
    requires ChainsOk(t, chains, owner)
    ensures forall h :: h in chains ==> h in owner
  {
    forall h | h in chains
      ensures h in owner
    {
      assert ChainOk(t, owner, h, chains[h]) && Claimed(owner, h, chains[h], 0);
    }
  }

  lemma NoHeadBelowTwo(t: seq<nat>, chains: Chains, owner: Owner)
    requires ChainsOk(t, chains, owner)
    ensures forall h :: h in chains ==> h >= 2
  {
    forall h | h in chains
      ensures h >= 2
    {
      assert ChainOk(t, owner, h, chains[h]) && Link(t, chains[h], 0);
    }
  }

  lemma FreeTaken(t: seq<nat>, c: nat, v: nat)
    requires 2 <= c < |t| && t[c] == 0 && v != 0
    ensures FreeSet(t[c := v]) == FreeSet(t) - {c} && |FreeSet(t[c := v])| == |FreeSet(t)| - 1
  {
    assert FreeSet(t[c := v]) == FreeSet(t) - {c};
    assert c in FreeSet(t);
  }

  lemma NewChainLinks(t: seq<nat>, chains: Chains, owner: Owner, c: nat, h: nat)
    requires ChainsOk(t, chains, owner) && 2 <= c < |t| && t[c] == 0 && c !in owner && h in chains
    ensures ChainOk(t[c := EOC], owner[c := Spot(c, 0)], h, chains[h])
  {
    var t', owner', s := t[c := EOC], owner[c := Spot(c, 0)], chains[h];
    assert ChainOk(t, owner, h, s);
    forall i | 0 <= i < |s|
      ensures Link(t', s, i) && Claimed(owner', h, s, i)
    {
      assert Link(t, s, i) && Claimed(owner, h, s, i);
    }
  }

  /** A free cluster becomes a chain of its own. */
  lemma NewChain(t: seq<nat>, chains: Chains, owner: Owner, c: nat)
    requires ChainsOk(t, chains, owner) && 2 <= c < |t| && t[c] == 0
    ensures c !in owner && c !in chains
    ensures ChainsOk(t[c := EOC], chains[c := [c]], owner[c := Spot(c, 0)])
  {
    HeadsOwned(t, chains, owner);
    var t', chains', owner' := t[c := EOC], chains[c := [c]], owner[c := Spot(c, 0)];
    forall h | h in chains'
      ensures ChainOk(t', owner', h, chains'[h])
    {
      if h != c {
        NewChainLinks(t, chains, owner, c, h);
      }
    }
    forall k | k in owner'
      ensures SpotOk(chains', owner', k)
    {
      assert k != c ==> SpotOk(chains, owner, k);
    }
    forall k | 2 <= k < |t'|
      ensures t'[k] == 0 <==> k !in owner'
    {
      assert k != c ==> (t[k] == 0 <==> k !in owner);
    }
  }

  function Last(s: seq<nat>): nat
    requires s != []
  {
    s[|s| - 1]
  }

  /** The one-cluster chain `c` is linked to the end of the chain that starts at `h`. */
  lemma LinkChain(t: seq<nat>, chains: Chains, owner: Owner, h: nat, c: nat)
    requires ChainsOk(t, chains, owner) && h in chains && c in chains && c != h && chains[c] == [c] && chains[h] != []
    ensures Last(chains[h]) < |t|
    ensures
      var s := chains[h];
      ChainsOk(t[Last(s) := c], (chains - {c})[h := s + [c]], owner[c := Spot(h, |s|)])
    ensures FreeSet(t[Last(chains[h]) := c]) == FreeSet(t)
  {
    var s := chains[h];
    var last := Last(s);
    assert ChainOk(t, owner, h, s) && Link(t, s, |s| - 1) && Claimed(owner, h, s, |s| - 1);
    assert ChainOk(t, owner, c, [c]) && Link(t, [c], 0) && Claimed(owner, c, [c], 0);
    var t', chains', owner' := t[last := c], (chains - {c})[h := s + [c]], owner[c := Spot(h, |s|)];
    forall k | k in chains'
      ensures ChainOk(t', owner', k, chains'[k])
    {
      assert ChainOk(t, owner, k, chains[k]);
      forall i | 0 <= i < |chains'[k]|
        ensures Link(t', chains'[k], i) && Claimed(owner', k, chains'[k], i)
      {
        if i < |chains[k]| {
          assert Link(t, chains[k], i) && Claimed(owner, k, chains[k], i);
        }
      }
    }
    forall k | k in owner'
      ensures SpotOk(chains', owner', k)
    {
      assert k != c ==> SpotOk(chains, owner, k);
    }
    forall k | 2 <= k < |t|
      ensures t'[k] == 0 <==> k !in owner'
    {
      assert t[k] == 0 <==> k !in owner;
    }
    assert FreeSet(t') == FreeSet(t);
  }

  /** The entries of the clusters in `s` are free, all others as in `t`. */
  ghost predicate Cleared(t: seq<nat>, s: seq<nat>, t': seq<nat>) {
    |t'| == |t| && forall c :: 0 <= c < |t| ==> t'[c] == if c in s then 0 else t[c]
  }

  ghost function DropOwner(owner: Owner, s: seq<nat>): Owner {
    map c | c in owner && c !in s :: owner[c]
  }

  /** A chain whose entries are all cleared is gone; the others stay, and its clusters are free. */
  lemma DropChain(t: seq<nat>, chains: Chains, owner: Owner, h: nat, t': seq<nat>)
    requires ChainsOk(t, chains, owner) && h in chains && Cleared(t, chains[h], t')
    ensures ChainsOk(t', chains - {h}, DropOwner(owner, chains[h]))
    ensures FreeSet(t) < FreeSet(t')
    ensures FreeSet(t') == FreeSet(t) + Members(chains[h])
  {
    var s := chains[h];
    assert ChainOk(t, owner, h, s);
    var chains', owner' := chains - {h}, DropOwner(owner, s);
    forall k | k in chains'
      ensures ChainOk(t', owner', k, chains'[k])
    {
      assert ChainOk(t, owner, k, chains[k]);
      forall i | 0 <= i < |chains[k]|
        ensures Link(t', chains[k], i) && Claimed(owner', k, chains[k], i)
      {
        assert Link(t, chains[k], i) && Claimed(owner, k, chains[k], i);
        NotInOther(t, chains, owner, h, k, i);
      }
    }
    forall c | c in owner'
      ensures SpotOk(chains', owner', c)
    {
      assert SpotOk(chains, owner, c);
    }
    forall c | c in s
      ensures 2 <= c < |t| && t[c] != 0
    {
      var i: nat :| i < |s| && s[i] == c;
      assert Link(t, s, i) && Claimed(owner, h, s, i);
    }
    assert FreeSet(t') == FreeSet(t) + Members(s);
    assert h in s && h in FreeSet(t') && h !in FreeSet(t);
  }

  /** Freeing a chain frees as many clusters as it has. */
  lemma DropCount(t: seq<nat>, chains: Chains, owner: Owner, h: nat, t': seq<nat>)
    requires ChainsOk(t, chains, owner) && h in chains
    requires FreeSet(t') == FreeSet(t) + Members(chains[h])
    ensures |FreeSet(t')| == |FreeSet(t)| + |chains[h]|
  {
    var s := chains[h];
    assert ChainOk(t, owner, h, s);
    forall i, j | 0 <= i < j < |s|
      ensures s[i] != s[j]
    {
      assert Claimed(owner, h, s, i) && Claimed(owner, h, s, j);
    }
    DistinctCount(s);
    forall c | c in s
      ensures c !in FreeSet(t)
    {
      var i: nat :| i < |s| && s[i] == c;
      assert Claimed(owner, h, s, i);
    }
    assert FreeSet(t) !! Members(s);
  }

  lemma NotInOther(t: seq<nat>, chains: Chains, owner: Owner, h: nat, k: nat, i: nat)
    requires ChainsOk(t, chains, owner) && h in chains && k in chains && h != k && i < |chains[k]|
    ensures chains[k][i] !in chains[h]
  {
    if chains[k][i] in chains[h] {
      var j: nat :| j < |chains[h]| && chains[h][j] == chains[k][i];
      ChainsDisjoint(t, chains, owner, h, j, k, i);
    }
  }

  lemma NotOwned(t: seq<nat>, chains: Chains, owner: Owner, h: nat, c: nat)
    requires ChainsOk(t, chains, owner) && h in chains && c !in owner
    ensures c !in chains[h]
  {
    var s := chains[h];
    assert ChainOk(t, owner, h, s);
    forall i | 0 <= i < |s|
      ensures s[i] in owner
    {
      assert Claimed(owner, h, s, i);
    }
  }

  lemma NotTwice(t: seq<nat>, chains: Chains, owner: Owner, h: nat, i: nat)
    requires ChainsOk(t, chains, owner) && h in chains && i < |chains[h]|
    ensures chains[h][i] !in chains[h][..i]
  {
    if chains[h][i] in chains[h][..i] {
      var j: nat :| j < i && chains[h][j] == chains[h][i];
      ChainsDisjoint(t, chains, owner, h, j, h, i);
    }
  }

  // ---- the bytes of a chain ----

  /** The contents of the clusters of `s`, one after the other. */
  ghost function Content(d: seq<seq<byte>>, s: seq<nat>): seq<byte> {
    if s == [] then []
    else Content(d, s[..|s| - 1]) + if Last(s) < |d| then d[Last(s)] else []
  }

  lemma {:induction false} ContentFrame(d: seq<seq<byte>>, d': seq<seq<byte>>, s: seq<nat>)
    requires |d'| == |d| && forall c :: c in s && c < |d| ==> d'[c] == d[c]
    ensures Content(d', s) == Content(d, s)
  {
    if s != [] {
      assert Last(s) in s;
      ContentFrame(d, d', s[..|s| - 1]);
    }
  }

  lemma ContentAppend(d: seq<seq<byte>>, s: seq<nat>, c: nat)
    requires c < |d|
    ensures Content(d, s + [c]) == Content(d, s) + d[c]
  {
    assert (s + [c])[..|s|] == s;
  }

  /** The content of a chain starts with that of any prefix and the cluster after it. */
  lemma {:induction false} ContentPrefix(d: seq<seq<byte>>, s: seq<nat>, i: nat)
    requires i < |s| && s[i] < |d|
    ensures Content(d, s[..i + 1]) == Content(d, s[..i]) + d[s[i]]
    ensures Content(d, s[..i + 1]) <= Content(d, s)
    decreases |s|
  {
    assert s[..i + 1][..i] == s[..i];
    if i + 1 < |s| {
      var r := s[..|s| - 1];
      ContentPrefix(d, r, i);
      assert r[..i] == s[..i] && r[..i + 1] == s[..i + 1];
    } else {
      assert s[..i + 1] == s;
    }
  }

  lemma {:induction false} ContentLength(d: seq<seq<byte>>, s: seq<nat>, size: nat)
    requires forall i :: 0 <= i < |s| ==> s[i] < |d| && |d[s[i]]| == size
    ensures |Content(d, s)| == |s| * size
  {
    if s != [] {
      ContentLength(d, s[..|s| - 1], size);
      assert |s| * size == (|s| - 1) * size + size;
    }
  }

  /** Contents stay when no owned cluster changes. */
  lemma OwnedKept(t: seq<nat>, chains: Chains, owner: Owner, d: seq<seq<byte>>, d': seq<seq<byte>>, h: nat)
    requires ChainsOk(t, chains, owner) && h in chains && |d'| == |d|
    requires forall c :: c in owner && c < |d| ==> d'[c] == d[c]
    ensures Content(d', chains[h]) == Content(d, chains[h])
  {
    var s := chains[h];
    assert ChainOk(t, owner, h, s);
    forall c | c in s && c < |d|
      ensures d'[c] == d[c]
    {
      var i: nat :| i < |s| && s[i] == c;
      assert Claimed(owner, h, s, i);
    }
    ContentFrame(d, d', s);
  }
}
