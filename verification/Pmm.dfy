/**
 The physical frame allocator (pmm.c): a bitmap of 32-bit words, one bit for each 4 KiB frame, searched from a moving
 hint.
 */
module Pmm {
  import opened Sectors

  const MAX_BLOCKS := 1048576
  const WORDS := 32768
  const BLOCK_SIZE := 4096
  const LOW_MEMORY := 0x10_0000
  const IMAGE_ROOM := 0x50_0000
  const BACK_BUFFER := 0x80_0000

  /** A 32-bit word of the bitmap, least significant bit first. */
  type Word32 = w: seq<bool> | |w| == 32 witness seq(32, _ => false)

  /** The word 0xFFFFFFFF. */
  function AllOnes(): (w: Word32)
    ensures forall j :: 0 <= j < 32 ==> w[j]
  {
    seq(32, _ => true)
  }

  /** Bit `j` of word `i` stands for frame 32 * i + j. */
  ghost predicate Bitmap(ws: seq<Word32>, used: seq<bool>) {
    && |used| == 32 * |ws|
    && forall i: nat, j: nat :: i < |ws| && j < 32 ==> used[32 * i + j] == ws[i][j]
  }

  lemma WriteInBitmap(ws: seq<Word32>, used: seq<bool>, b: nat, v: bool)
    requires Bitmap(ws, used) && b < |used|
    ensures b / 32 < |ws| && Bitmap(ws[b / 32 := ws[b / 32][b % 32 := v]], used[b := v])
  {
  }

  /** `b` is the first clear bit at or after `from`, going around the end of the bitmap once. */
  ghost predicate FirstFreeFrom(used: seq<bool>, from: nat, b: nat) {
    && b < |used| && !used[b]
    && if from <= b then forall x :: from <= x < b ==> used[x]
       else (forall x :: from <= x < |used| ==> used[x]) && (forall x :: 0 <= x < b ==> used[x])
  }

  ghost predicate Lowest(used: seq<bool>, b: nat) {
    b < |used| && !used[b] && forall x :: 0 <= x < b ==> used[x]
  }

  /** The promise behind the hint: everything below it is used. */
  ghost predicate HintOk(used: seq<bool>, hint: nat) {
    hint < |used| && forall x :: 0 <= x < hint ==> used[x]
  }

  /** The word that the search starts in. */
  function StartOf(hint: nat): nat {
    32 * (hint / 32)
  }

  /** While the promise holds, the hinted search finds exactly the lowest free frame. */
  lemma HintedIsLowest(used: seq<bool>, hint: nat, b: nat)
    requires HintOk(used, hint) && FirstFreeFrom(used, StartOf(hint), b)
    ensures Lowest(used, b)
  {
    assert StartOf(hint) <= hint;
  }

  /**
   Without it, the search finds the lowest free frame if and only if nothing is free below the word of the hint or
   nothing is free from there on.
   */
  lemma LowestExactly(used: seq<bool>, hint: nat, b: nat)
    requires FirstFreeFrom(used, StartOf(hint), b)
    ensures Lowest(used, b) <==>
      || (forall x :: 0 <= x < StartOf(hint) && x < |used| ==> used[x])
      || (forall x :: StartOf(hint) <= x < |used| ==> used[x])
  {
    if Lowest(used, b) && b >= StartOf(hint) {
      assert forall x :: 0 <= x < StartOf(hint) && x < |used| ==> used[x];
    }
  }

  // ---- runs ----

  /** The bitmap and the hint at one moment. */
  datatype State = State(used: seq<bool>, hint: nat)

  ghost predicate Taken(s: State, s': State, b: nat) {
    FirstFreeFrom(s.used, StartOf(s.hint), b) && s' == State(s.used[b := true], b)
  }

  ghost predicate Given(s: State, s': State, b: nat) {
    b < |s.used| && s.used[b] && s' == State(s.used[b := false], if b < s.hint then b else s.hint)
  }

  /** One call: a frame is taken, a frame is given back, or nothing happens. */
  ghost predicate Stepped(s: State, s': State) {
    s' == s || (exists b :: Taken(s, s', b)) || (exists b :: Given(s, s', b))
  }

  ghost predicate IsRun(run: seq<State>) {
    |run| > 0 && forall i, j {:trigger Stepped(run[i], run[j])} :: 0 <= i && j == i + 1 < |run| ==>
      Stepped(run[i], run[j])
  }

  /** Whatever is taken and given back, and in whatever order, everything below the hint stays used. */
  lemma {:induction false} RunKeepsHint(run: seq<State>, k: nat)
    requires IsRun(run) && HintOk(run[0].used, run[0].hint) && k < |run|
    ensures HintOk(run[k].used, run[k].hint) && |run[k].used| == |run[0].used|
  {
    if k > 0 {
      RunKeepsHint(run, k - 1);
      var s, s' := run[k - 1], run[k];
      assert Stepped(s, s');
      if b :| Taken(s, s', b) {
        HintedIsLowest(s.used, s.hint, b);
      }
    }
  }

  /** So every frame that is taken in a run is the lowest one that is free. */
  lemma RunTakesLowest(run: seq<State>, k: nat, b: nat)
    requires IsRun(run) && HintOk(run[0].used, run[0].hint) && k + 1 < |run| && Taken(run[k], run[k + 1], b)
    ensures Lowest(run[k].used, b)
  {
    RunKeepsHint(run, k);
    HintedIsLowest(run[k].used, run[k].hint, b);
  }

  // ---- regions ----

  /** A stretch of memory, with the kind that the boot loader gives it; 1 stands for memory that can be used. */
  datatype Region = Region(base: nat, size: nat, kind: nat)

  /** Whether frame `b` belongs to the region; only whole frames of `size` count. */
  predicate InRegion(base: nat, size: nat, b: nat) {
    base / BLOCK_SIZE <= b < base / BLOCK_SIZE + size / BLOCK_SIZE
  }

  /** Frame `b` is in one of the usable regions. */
  ghost predicate Usable(regions: seq<Region>, b: nat) {
    exists i :: 0 <= i < |regions| && regions[i].kind == 1 && InRegion(regions[i].base, regions[i].size, b)
  }

  /** Low memory, the image of the kernel and the picture behind the screen are not for use. */
  predicate Reserved(kernelEnd: word, screen: word, b: nat) {
    || InRegion(0, LOW_MEMORY, b) || InRegion(LOW_MEMORY, IMAGE_ROOM, b)
    || InRegion(LOW_MEMORY, (kernelEnd - LOW_MEMORY) % WORD_LIMIT, b) || InRegion(BACK_BUFFER, screen, b)
  }

  /**
   The set-up of the frames at boot. Afterwards exactly the usable frames that are not reserved are free, and the
   promise behind the hint holds: no frame has been taken yet and the hint is 0.
   */
  method Boot(regions: seq<Region>, kernelEnd: word, screen: word) returns (a: FrameAllocator)
    ensures fresh(a) && fresh(a.words) && a.Ready()
    ensures forall b :: 0 <= b < MAX_BLOCKS ==>
      (!a.used[b] <==> b > 0 && Usable(regions, b) && !Reserved(kernelEnd, screen, b))
  {
    a := new FrameAllocator();
    for i := 0 to |regions|
      invariant fresh(a) && fresh(a.words) && a.Ready() && a.hint == 0
      invariant forall b :: 0 <= b < MAX_BLOCKS ==> (!a.used[b] <==> b > 0 && Usable(regions[..i], b))
    {
      if regions[i].kind == 1 {
        a.InitRegion(regions[i].base, regions[i].size);
      }
      forall b | 0 <= b < MAX_BLOCKS
        ensures !a.used[b] <==> b > 0 && Usable(regions[..i + 1], b)
      {
        UsableStep(regions, i, b);
      }
    }
    assert regions[..|regions|] == regions;
    a.DeinitRegion(0, LOW_MEMORY);
    a.DeinitRegion(LOW_MEMORY, IMAGE_ROOM);
    a.DeinitRegion(LOW_MEMORY, (kernelEnd - LOW_MEMORY) % WORD_LIMIT);
    a.DeinitRegion(BACK_BUFFER, screen);
  }

  lemma UsableStep(regions: seq<Region>, i: nat, b: nat)
    requires i < |regions|
    ensures Usable(regions[..i + 1], b) <==>
      || Usable(regions[..i], b)
      || (regions[i].kind == 1 && InRegion(regions[i].base, regions[i].size, b))
  {
    assert regions[..i + 1] == regions[..i] + [regions[i]];
    if Usable(regions[..i], b) {
      var k :| 0 <= k < i && regions[..i][k].kind == 1 && InRegion(regions[..i][k].base, regions[..i][k].size, b);
      assert regions[..i + 1][k] == regions[..i][k];
    }
    assert regions[..i + 1][i] == regions[i];
  }

  class FrameAllocator {
    const words: array<Word32>
    var hint: nat

    ghost var used: seq<bool>

    ghost predicate Valid()
      reads this, words
    {
      words.Length == WORDS && Bitmap(words[..], used)
    }

    /** Holds after `Boot`, and from then on while frame 0 is not given back; so frame 0 is never handed out. */
    ghost predicate Ready()
      reads this, words
    {
      Valid() && HintOk(used, hint) && used[0]
    }

    constructor ()
      ensures Ready() && hint == 0 && fresh(words) && forall b :: 0 <= b < MAX_BLOCKS ==> used[b]
    {
      words := new Word32[WORDS](_ => AllOnes());
      hint := 0;
      used := seq(MAX_BLOCKS, _ => true);
    }

    method TestBit(b: nat) returns (r: bool)
      requires Valid() && b < MAX_BLOCKS
      ensures r == used[b]
    {
      r := words[b / 32][b % 32];
      assert used[32 * (b / 32) + b % 32] == words[..][b / 32][b % 32];
    }

    method WriteBit(b: nat, v: bool)
      requires Valid() && b < MAX_BLOCKS
      modifies this`used, words
      ensures Valid() && used == old(used)[b := v]
    {
      WriteInBitmap(words[..], used, b, v);
      words[b / 32] := words[b / 32][b % 32 := v];
      used := used[b := v];
    }

    /** Makes a region available. Frame 0 stays used whatever the region says. */
    method InitRegion(base: nat, size: nat)
      requires Valid()
      modifies this`used, words
      ensures Valid()
      ensures forall b :: 0 < b < MAX_BLOCKS ==> (used[b] <==> old(used)[b] && !InRegion(base, size, b))
      ensures used[0]
    {
      var align, blocks := base / BLOCK_SIZE, size / BLOCK_SIZE;
      for i := 0 to blocks
        invariant Valid()
        invariant forall b :: 0 <= b < MAX_BLOCKS ==> (used[b] <==> old(used)[b] && !(align <= b < align + i))
      {
        var bit := align + i;
        if bit >= MAX_BLOCKS {
          break;
        }
        var set_ := TestBit(bit);
        if set_ {
          WriteBit(bit, false);
        }
      }
      WriteBit(0, true);
    }

    /** Takes a region away. */
    method DeinitRegion(base: nat, size: nat)
      requires Valid()
      modifies this`used, words
      ensures Valid()
      ensures forall b :: 0 <= b < MAX_BLOCKS ==> (used[b] <==> old(used)[b] || InRegion(base, size, b))
    {
      var align, blocks := base / BLOCK_SIZE, size / BLOCK_SIZE;
      for i := 0 to blocks
        invariant Valid()
        invariant forall b :: 0 <= b < MAX_BLOCKS ==> (used[b] <==> old(used)[b] || align <= b < align + i)
      {
        var bit := align + i;
        if bit >= MAX_BLOCKS {
          break;
        }
        var set_ := TestBit(bit);
        if !set_ {
          WriteBit(bit, true);
        }
      }
    }

    /** The first clear bit of the words `begin` up to `end`; words without one are skipped whole. */
    method Scan(begin: nat, end: nat) returns (found: bool, bit: nat)
      requires Valid() && begin <= end <= WORDS
      ensures found ==>
        32 * begin <= bit < 32 * end && !used[bit] && forall x :: 32 * begin <= x < bit ==> used[x]
      ensures !found ==> forall x :: 32 * begin <= x < 32 * end ==> used[x]
    {
      for i := begin to end
        invariant forall x :: 32 * begin <= x < 32 * i ==> used[x]
      {
        var word := words[i];
        assert word == words[..][i];
        if word != AllOnes() {
          for j := 0 to 32
            invariant forall x :: 32 * begin <= x < 32 * i + j ==> used[x]
          {
            assert used[32 * i + j] == word[j];
            if !word[j] {
              return true, 32 * i + j;
            }
          }
        } else {
          forall x | 32 * i <= x < 32 * (i + 1)
            ensures used[x]
          {
            assert used[32 * i + (x - 32 * i)] == word[x - 32 * i];
          }
        }
      }
      return false, 0;
    }

    /**
     Takes a frame and returns its address. The search starts in the word of the hint and goes around once; 0 means
     that every frame is used, or that frame 0 was taken.
     */
    method Alloc() returns (addr: nat, ghost found: bool, ghost bit: nat)
      requires Valid()
      modifies this, words
      ensures Valid()
      ensures found ==>
        && FirstFreeFrom(old(used), StartOf(old(hint)), bit)
        && used == old(used)[bit := true] && hint == bit && addr == BLOCK_SIZE * bit
      ensures !found ==>
        && addr == 0 && used == old(used) && hint == old(hint)
        && (forall b :: 0 <= b < MAX_BLOCKS ==> used[b])
      ensures Stepped(old(State(used, hint)), State(used, hint))
      ensures old(Ready()) ==> Ready() && (addr != 0 <==> found) && (found ==> Lowest(old(used), bit))
    {
      var startWord := if hint / 32 < WORDS then hint / 32 else WORDS;
      var hit, b := Scan(startWord, WORDS);
      if !hit {
        hit, b := Scan(0, startWord);
      }
      found, bit := hit, b;
      if !hit {
        return 0, found, bit;
      }
      WriteBit(b, true);
      hint := b;
      assert Taken(old(State(used, hint)), State(used, hint), b);
      if old(Ready()) {
        HintedIsLowest(old(used), old(hint), b);
      }
      return BLOCK_SIZE * b, found, bit;
    }

    /** Gives a frame back. Freeing a free frame or an address out of range does nothing. */
    method Free(addr: nat)
      requires Valid()
      modifies this, words
      ensures Valid()
      ensures var b := addr / BLOCK_SIZE;
        if b < MAX_BLOCKS && old(used)[b]
        then used == old(used)[b := false] && hint == (if b < old(hint) then b else old(hint))
        else used == old(used) && hint == old(hint)
      ensures Stepped(old(State(used, hint)), State(used, hint))
      ensures old(Ready()) && BLOCK_SIZE <= addr ==> Ready()
    {
      var block := addr / BLOCK_SIZE;
      if block >= MAX_BLOCKS {
        return;
      }
      var set_ := TestBit(block);
      if !set_ {
        return;
      }
      WriteBit(block, false);
      if block < hint {
        hint := block;
      }
      assert Given(old(State(used, hint)), State(used, hint), block);
    }
  }
}
