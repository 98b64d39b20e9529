/**
 The rings of the xHCI driver (xhci.c) as a producer and a consumer that share memory and nothing else. A step is one
 store or one load of a 32-bit field, so a run is any interleaving of the two sides. Ownership of an entry is passed
 by its cycle bit alone (sections 4.9.2 to 4.9.4 of the xHCI specification).

 A transfer or command ring ends in a link TRB that sends the consumer back to the start and toggles its cycle state;
 the driver is the producer. The event ring has no link TRB; the driver is the consumer.
 */
module Xhci {
  import opened Common

  const TYPE_LINK := 6
  const TRB_SIZE := 16
  const WORD := 0x1_0000_0000

  type bit = x: int | 0 <= x < 2

  /** The control word: bit 0 is the cycle bit, bit 1 toggle cycle, bits 10 to 15 the type, `rest` all others. */
  datatype Control = Control(cycle: bit, toggle: bit, kind: nat, rest: nat)

  datatype Trb = Trb(pLo: nat, pHi: nat, status: nat, control: Control)

  /** A TRB as it is handed to xhci_ring_push: the cycle bit is clear, and it is not a link. */
  predicate Pushable(t: Trb) {
    t.control.cycle == 0 && t.control.kind != TYPE_LINK
  }

  function WithCycle(t: Trb, c: bit): Trb {
    t.(control := t.control.(cycle := c))
  }

  const ZERO_TRB := Trb(0, 0, 0, Control(0, 0, 0, 0))

  /** The link TRB that closes a pass. */
  function LinkTrb(base: nat, c: bit): Trb {
    Trb(base, 0, 0, Control(c, 1, TYPE_LINK, 0))
  }

  /** Where the producer is: between pushes, about to store field `next` of an entry, or of the link TRB. */
  datatype Producer = Resting | Storing(next: nat, trb: Trb) | Linking(next: nat)

  /**
   Where the consumer is: about to look at the control word, loading the other fields of an entry it owns, or about to
   load the low (0) or high (1) half of the address in a link TRB.
   */
  datatype Consumer = Looking | Loading(next: nat, got: Trb) | Following(next: nat, lo: nat, toggle: bit)

  datatype Ring = Ring(
    slots: nat, linked: bool, base: nat,
    mem: seq<Trb>, enq: nat, cycle: bit, producer: Producer,
    deq: nat, ccs: bit, consumer: Consumer,
    pushed: seq<Trb>, delivered: seq<Trb>)
  {
    function Pending(): int {
      |pushed| - |delivered|
    }

    /** How many entries may be outstanding: one less than the slots if the pass is closed by a link TRB. */
    function Limit(): int {
      if linked then slots - 1 else slots
    }
  }

  /** What may happen next. The environment decides; a step that is not enabled leaves the ring alone. */
  datatype Action = Begin(trb: Trb) | Produce | Consume

  function Init(slots: nat, linked: bool, base: nat): Ring {
    Ring(slots, linked, base, seq(if linked then slots + 1 else slots, _ => ZERO_TRB), 0, 1, Resting,
         0, 1, Looking, [], [])
  }

  function StoreField(t: Trb, next: nat, v: Trb): Trb {
    if next == 0 then t.(pLo := v.pLo)
    else if next == 1 then t.(pHi := v.pHi)
    else if next == 2 then t.(status := v.status)
    else t.(control := v.control)
  }

  function Begun(limit: int, r: Ring, v: Trb): Ring {
    if r.producer.Resting? && Pushable(v) && r.Pending() < limit then r.(producer := Storing(0, v)) else r
  }

  /** The end of a pass: the index goes back to 0 and the producer's cycle state flips. */
  function Wrapped(r: Ring): Ring {
    r.(enq := 0, cycle := 1 - r.cycle, producer := Resting)
  }

  /** One store of xhci_ring_push. The control word goes last and carries the cycle bit. */
  function Produced(r: Ring): Ring {
    match r.producer
    case Resting => r
    case Storing(n, v) =>
      if r.enq >= |r.mem| then r
      else
        var w := WithCycle(v, r.cycle);
        var r1 := r.(mem := r.mem[r.enq := StoreField(r.mem[r.enq], n, w)]);
        if n < 3 then r1.(producer := Storing(n + 1, v))
        else
          var r2 := r1.(enq := r.enq + 1, pushed := r.pushed + [v], producer := Resting);
          if r2.enq < r.slots then r2
          else if r.linked then r2.(producer := Linking(0)) else Wrapped(r2)
    case Linking(n) =>
      if r.slots >= |r.mem| then r
      else
        var link := LinkTrb(r.base, r.cycle);
        var r1 := r.(mem := r.mem[r.slots := StoreField(r.mem[r.slots], n, link)]);
        if n < 3 then r1.(producer := Linking(n + 1)) else Wrapped(r1)
  }

  function LoadField(got: Trb, next: nat, t: Trb): Trb {
    if next == 0 then got.(pLo := t.pLo) else if next == 1 then got.(pHi := t.pHi) else got.(status := t.status)
  }

  /** The consumer moves on; without a link TRB it wraps by itself. */
  function Advanced(r: Ring): Ring {
    var r1 := r.(deq := r.deq + 1, consumer := Looking);
    if !r.linked && r1.deq >= r.slots then r1.(deq := 0, ccs := 1 - r.ccs) else r1
  }

  /** The entry at a physical address. An address outside the ring leads to no entry, and the consumer is lost. */
  function EntryAt(r: Ring, lo: nat, hi: nat): (e: nat)
    ensures lo == r.base && hi == 0 && |r.mem| > 0 ==> e == 0
  {
    var d := lo + WORD * hi - r.base;
    if 0 <= d && d / TRB_SIZE < |r.mem| then d / TRB_SIZE else |r.mem|
  }

  /**
   One load of the consumer. An entry counts as delivered once all its fields have been loaded; a link TRB sends the
   consumer where its address points.
   */
  function Consumed(r: Ring): Ring {
    if r.deq >= |r.mem| then r
    else
      match r.consumer
      case Looking =>
        var t := r.mem[r.deq];
        if t.control.cycle != r.ccs then r
        else if r.linked && t.control.kind == TYPE_LINK then r.(consumer := Following(0, 0, t.control.toggle))
        else r.(consumer := Loading(0, ZERO_TRB.(control := t.control.(cycle := 0))))
      case Loading(n, got) =>
        var g := LoadField(got, n, r.mem[r.deq]);
        if n < 2 then r.(consumer := Loading(n + 1, g))
        else Advanced(r.(delivered := r.delivered + [g]))
      case Following(n, lo, toggle) =>
        if n < 1 then r.(consumer := Following(1, r.mem[r.deq].pLo, toggle))
        else
          r.(deq := EntryAt(r, lo, r.mem[r.deq].pHi), ccs := if toggle == 1 then 1 - r.ccs else r.ccs,
             consumer := Looking)
  }

  function Next(limit: int, r: Ring, a: Action): Ring {
    match a
    case Begin(v) => Begun(limit, r, v)
    case Produce => Produced(r)
    case Consume => Consumed(r)
  }

  /** A run: every interleaving is some sequence of actions. */
  function Run(limit: int, r: Ring, acts: seq<Action>): Ring {
    if acts == [] then r else Next(limit, Run(limit, r, acts[..|acts| - 1]), acts[|acts| - 1])
  }

  predicate SamePass(r: Ring) {
    r.cycle == r.ccs
  }

  ghost predicate Shape(r: Ring) {
    && 0 < r.slots && (r.linked ==> 1 < r.slots)
    && |r.mem| == (if r.linked then r.slots + 1 else r.slots)
    && |r.delivered| <= |r.pushed|
    && r.Pending() <= r.Limit()
    && (if r.producer.Linking? then r.linked && r.enq == r.slots else r.enq < r.slots)
    && (if r.linked then r.deq <= r.slots else r.deq < r.slots)
    && (forall k :: 0 <= k < |r.pushed| ==> Pushable(r.pushed[k]))
    && (if SamePass(r) then r.deq <= r.enq && r.Pending() == r.enq - r.deq
        else r.enq <= r.deq && r.Pending() == r.slots - r.deq + r.enq)
  }

  /** Cycle bits tell written entries of this pass from the rest, whoever looks. */
  ghost predicate Bits(r: Ring)
    requires Shape(r)
  {
    && (forall j :: 0 <= j < r.slots ==> r.mem[j].control.cycle == if j < r.enq then r.cycle else 1 - r.cycle)
    && (r.linked ==> r.mem[r.slots].control.cycle == 1 - r.cycle)
    && (r.linked && !SamePass(r) ==>
          && r.mem[r.slots].control.kind == TYPE_LINK && r.mem[r.slots].control.toggle == 1
          && r.mem[r.slots].pLo == r.base && r.mem[r.slots].pHi == 0)
  }

  /** Counted from the start of the consumer's pass, the place of push number `m`. */
  function Place(r: Ring, m: nat): int {
    r.deq + m - |r.delivered|
  }

  /** Undelivered entries lie in the ring in push order, from the consumer's index on and around the end. */
  ghost predicate Contents(r: Ring)
    requires Shape(r)
  {
    forall m :: |r.delivered| <= m < |r.pushed| ==>
      if Place(r, m) < r.slots then r.mem[Place(r, m)] == WithCycle(r.pushed[m], r.ccs)
      else r.mem[Place(r, m) - r.slots] == WithCycle(r.pushed[m], 1 - r.ccs)
  }

  /** What a producer or consumer in the middle of an entry has done so far. */
  ghost predicate Midway(r: Ring)
    requires Shape(r)
  {
    && (match r.producer
        case Resting => true
        case Storing(n, v) =>
          && n <= 3 && Pushable(v) && r.Pending() < r.Limit()
          && (n > 0 ==> r.mem[r.enq].pLo == v.pLo)
          && (n > 1 ==> r.mem[r.enq].pHi == v.pHi)
          && (n > 2 ==> r.mem[r.enq].status == v.status)
        case Linking(n) =>
          && n <= 3 && SamePass(r)
          && (n > 0 ==> r.mem[r.slots].pLo == r.base)
          && (n > 1 ==> r.mem[r.slots].pHi == 0))
    && (match r.consumer
        case Looking => true
        case Loading(n, got) =>
          && n <= 2 && r.Pending() > 0 && r.deq < r.slots
          && got.control == r.mem[r.deq].control.(cycle := 0)
          && (n > 0 ==> got.pLo == r.mem[r.deq].pLo)
          && (n > 1 ==> got.pHi == r.mem[r.deq].pHi)
        case Following(n, lo, toggle) =>
          && n <= 1 && toggle == 1 && r.linked && r.deq == r.slots && !SamePass(r)
          && (n > 0 ==> lo == r.base))
  }

  ghost predicate Inv(r: Ring) {
    && Shape(r) && Bits(r) && Contents(r) && Midway(r)
    && r.delivered == r.pushed[..|r.delivered|]
  }

  lemma InitInv(slots: nat, linked: bool, base: nat)
    requires 0 < slots && (linked ==> 1 < slots)
    ensures Inv(Init(slots, linked, base))
  {
  }

  lemma BeginInv(limit: int, r: Ring, v: Trb)
    requires Inv(r) && limit <= r.Limit()
    ensures Inv(Begun(limit, r, v))
  {
  }

  lemma StoreInv(r: Ring)
    requires Inv(r) && r.producer.Storing? && r.producer.next < 3
    ensures Inv(Produced(r))
  {
  }

  /** The store of the control word hands the entry over: this is where a push takes effect. */
  lemma HandOverInv(r: Ring)
    requires Inv(r) && r.producer.Storing? && r.producer.next == 3
    ensures Inv(Produced(r))
  {
    var v := r.producer.trb;
    assert r.mem[r.enq := StoreField(r.mem[r.enq], 3, WithCycle(v, r.cycle))] == r.mem[r.enq := WithCycle(v, r.cycle)];
    if r.enq + 1 < r.slots {
      HandOverWithin(r);
    } else {
      HandOverLast(r);
    }
  }

  lemma HandOverWithin(r: Ring)
    requires Inv(r) && r.producer.Storing? && r.producer.next == 3 && r.enq + 1 < r.slots
    ensures Inv(Produced(r))
  {
    var w, r' := WithCycle(r.producer.trb, r.cycle), Produced(r);
    assert r'.mem == r.mem[r.enq := w] && r'.pushed == r.pushed + [r.producer.trb];
    assert Shape(r') && Bits(r');
    HandedOver(r, r', w);
  }

  /** The undelivered entries are in their places, the new one included. */
  lemma HandedOver(r: Ring, r': Ring, w: Trb)
    requires Inv(r) && Shape(r') && r.producer.Storing? && w == WithCycle(r.producer.trb, r.cycle)
    requires r' == r.(mem := r.mem[r.enq := w], enq := r.enq + 1, pushed := r.pushed + [r.producer.trb],
                      producer := Resting)
    ensures Contents(r')
  {
    forall m | |r'.delivered| <= m < |r'.pushed|
      ensures if Place(r', m) < r.slots then r'.mem[Place(r', m)] == WithCycle(r'.pushed[m], r.ccs)
              else r'.mem[Place(r', m) - r.slots] == WithCycle(r'.pushed[m], 1 - r.ccs)
    {
      if m < |r.pushed| {
        assert Place(r, m) == Place(r', m) && Place(r, m) != r.enq && Place(r, m) - r.slots != r.enq;
      }
    }
  }

  lemma HandOverLast(r: Ring)
    requires Inv(r) && r.producer.Storing? && r.producer.next == 3 && r.enq + 1 == r.slots
    ensures Inv(Produced(r))
  {
  }

  lemma LinkInv(r: Ring)
    requires Inv(r) && r.producer.Linking?
    ensures Inv(Produced(r))
  {
  }

  lemma LookInv(r: Ring)
    requires Inv(r) && r.consumer.Looking?
    ensures Inv(Consumed(r))
  {
    if r.deq < r.slots {
      LookAtEntry(r);
    } else {
      LookAtLink(r);
    }
  }

  /** The consumer owns the entry in front of it exactly while something is undelivered, and it is the oldest one. */
  lemma FrontEntry(r: Ring)
    requires Inv(r) && r.deq < r.slots
    ensures r.mem[r.deq].control.cycle == r.ccs <==> r.Pending() > 0
    ensures r.Pending() > 0 ==> r.mem[r.deq] == WithCycle(r.pushed[|r.delivered|], r.ccs)
  {
    if r.Pending() > 0 {
      assert Place(r, |r.delivered|) == r.deq;
    }
  }

  lemma LookAtEntry(r: Ring)
    requires Inv(r) && r.consumer.Looking? && r.deq < r.slots
    ensures Inv(Consumed(r))
  {
    FrontEntry(r);
  }

  lemma LookAtLink(r: Ring)
    requires Inv(r) && r.consumer.Looking? && r.deq == r.slots
    ensures Inv(Consumed(r))
  {
  }

  /** The address in the link TRB leads back to the first entry. */
  lemma FollowInv(r: Ring)
    requires Inv(r) && r.consumer.Following?
    ensures Inv(Consumed(r)) && Consumed(r).deq == if r.consumer.next == 1 then 0 else r.slots
  {
  }

  lemma LoadInv(r: Ring)
    requires Inv(r) && r.consumer.Loading? && r.consumer.next < 2
    ensures Inv(Consumed(r))
  {
  }

  /** The entry that the last load completes is the oldest undelivered one, whole. */
  lemma Completed(r: Ring)
    requires Inv(r) && r.consumer.Loading? && r.consumer.next == 2
    ensures Consumed(r) == Advanced(r.(delivered := r.pushed[..|r.delivered| + 1]))
  {
    FrontEntry(r);
    var d := |r.delivered|;
    assert LoadField(r.consumer.got, 2, r.mem[r.deq]) == r.pushed[d];
    assert r.delivered + [r.pushed[d]] == r.pushed[..d + 1];
  }

  lemma DeliverInv(r: Ring)
    requires Inv(r) && r.consumer.Loading? && r.consumer.next == 2
    ensures Inv(Consumed(r))
  {
    Completed(r);
    if !r.linked && r.deq + 1 == r.slots {
      AdvanceAround(r, Consumed(r));
    } else {
      AdvanceWithin(r, Consumed(r));
    }
  }

  lemma AdvanceWithin(r: Ring, r': Ring)
    requires Inv(r) && r.consumer.Loading? && (r.linked || r.deq + 1 < r.slots)
    requires r' == r.(delivered := r.pushed[..|r.delivered| + 1], deq := r.deq + 1, consumer := Looking)
    ensures Inv(r')
  {
  }

  lemma AdvanceAround(r: Ring, r': Ring)
    requires Inv(r) && r.consumer.Loading? && !r.linked && r.deq + 1 == r.slots
    requires r' == r.(delivered := r.pushed[..|r.delivered| + 1], deq := 0, ccs := 1 - r.ccs, consumer := Looking)
    ensures Inv(r')
  {
  }

  lemma NextInv(limit: int, r: Ring, a: Action)
    requires Inv(r) && limit <= r.Limit()
    ensures Inv(Next(limit, r, a))
  {
    match a
    case Begin(v) => BeginInv(limit, r, v);
    case Produce =>
      match r.producer {
        case Resting =>
        case Storing(n, _) => if n < 3 { StoreInv(r); } else { HandOverInv(r); }
        case Linking(_) => LinkInv(r);
      }
    case Consume =>
      match r.consumer {
        case Looking => LookInv(r);
        case Loading(n, _) => if n < 2 { LoadInv(r); } else { DeliverInv(r); }
        case Following(_, _, _) => FollowInv(r);
      }
  }

  lemma {:induction false} RunInv(limit: int, r: Ring, acts: seq<Action>)
    requires Inv(r) && limit <= r.Limit()
    ensures Inv(Run(limit, r, acts)) && Run(limit, r, acts).Limit() == r.Limit()
  {
    if acts != [] {
      RunInv(limit, r, acts[..|acts| - 1]);
      NextInv(limit, Run(limit, r, acts[..|acts| - 1]), acts[|acts| - 1]);
    }
  }

  /**
   For every interleaving and any number of passes, the consumer has received exactly a prefix of what was pushed,
   each TRB whole, once and in order; what is missing never exceeds the limit.
   */
  lemma Fifo(slots: nat, linked: bool, base: nat, limit: int, acts: seq<Action>)
    requires 0 < slots && (linked ==> 1 < slots)
    requires limit <= Init(slots, linked, base).Limit()
    ensures var r := Run(limit, Init(slots, linked, base), acts);
      && r.delivered <= r.pushed
      && |r.pushed| - |r.delivered| <= Init(slots, linked, base).Limit()
  {
    InitInv(slots, linked, base);
    RunInv(limit, Init(slots, linked, base), acts);
  }

  /** How many loads the consumer still needs for the next delivery. */
  function Work(r: Ring): nat {
    match r.consumer
    case Looking => if r.deq >= r.slots then 7 else 4
    case Loading(n, _) => if n < 3 then 3 - n else 0
    case Following(n, _, _) => if n == 0 then 6 else 5
  }

  /** While something is undelivered the consumer is never stuck: every load of its brings the next delivery closer. */
  lemma Progress(r: Ring)
    requires Inv(r) && r.Pending() > 0
    ensures 0 < Work(r) <= 7
    ensures
      var r' := Consumed(r);
      |r'.delivered| == |r.delivered| + 1 || (r'.delivered == r.delivered && Work(r') == Work(r) - 1)
  {
    if r.deq < r.slots {
      FrontEntry(r);
    }
  }

  // ---- The driver's own code, in one go, against the single steps ----

  /** The ring after one call of xhci_ring_push: `v` in slot `enq`, and a new link TRB if that was the last slot. */
  function PushMem(mem: seq<Trb>, base: nat, enq: nat, cycle: bit, v: Trb): (mem': seq<Trb>)
    requires enq + 1 < |mem|
    ensures |mem'| == |mem|
  {
    var m := mem[enq := WithCycle(v, cycle)];
    if enq + 1 >= |mem| - 1 then m[|mem| - 1 := LinkTrb(base, cycle)] else m
  }

  method RingPush(ring: array<Trb>, base: nat, enq: nat, cycle: bit, v: Trb) returns (enq': nat, cycle': bit, at: nat)
    requires enq + 1 < ring.Length
    modifies ring
    ensures ring[..] == PushMem(old(ring[..]), base, enq, cycle, v)
    ensures at == enq
    ensures if enq + 1 < ring.Length - 1 then enq' == enq + 1 && cycle' == cycle else enq' == 0 && cycle' == 1 - cycle
  {
    var count := ring.Length;
    at := enq;
    ring[enq] := ring[enq].(pLo := v.pLo);
    ring[enq] := ring[enq].(pHi := v.pHi);
    ring[enq] := ring[enq].(status := v.status);
    ring[enq] := ring[enq].(control := v.control.(cycle := cycle));
    enq', cycle' := enq + 1, cycle;
    if enq' >= count - 1 {
      ring[count - 1] := ring[count - 1].(pLo := base);
      ring[count - 1] := ring[count - 1].(pHi := 0);
      ring[count - 1] := ring[count - 1].(status := 0);
      ring[count - 1] := ring[count - 1].(control := Control(cycle, 1, TYPE_LINK, 0));
      enq', cycle' := 0, 1 - cycle;
    }
  }

  /** What a poll of the event ring finds, and where the ring is to be read next. */
  datatype Polled = Polled(event: Option<Trb>, deq: nat, cycle: bit)

  /** The event at the dequeue index is taken if its cycle bit matches; behind the last one the bit is flipped. */
  function Poll(ring: seq<Trb>, deq: nat, cycle: bit): Polled
    requires deq < |ring|
  {
    if ring[deq].control.cycle != cycle then Polled(None, deq, cycle)
    else if deq + 1 < |ring| then Polled(Some(ring[deq]), deq + 1, cycle)
    else Polled(Some(ring[deq]), 0, 1 - cycle)
  }

  /** The event ring as the driver keeps it. */
  class EventRing {
    const ring: array<Trb>
    var deq: nat
    var cycle: bit

    constructor (ring: array<Trb>)
      ensures this.ring == ring && deq == 0 && cycle == 1
    {
      this.ring, deq, cycle := ring, 0, 1;
    }

    /** Takes one event if the cycle bit says that there is one. */
    method ProcessOne() returns (taken: bool, out: Trb)
      requires deq < ring.Length
      modifies this
      ensures deq < ring.Length
      ensures Polled(if taken then Some(out) else None, deq, cycle) == Poll(ring[..], old(deq), old(cycle))
    {
      out := ring[deq];
      if out.control.cycle != cycle {
        return false, out;
      }
      deq := deq + 1;
      if deq >= ring.Length {
        deq := 0;
        cycle := 1 - cycle;
      }
      return true, out;
    }
  }

  /** Four loads in a row take an owned event whole, and leave the indices as ProcessOne does. */
  lemma EventInSteps(r: Ring)
    requires !r.linked && |r.mem| == r.slots && r.deq < r.slots && r.consumer.Looking?
    ensures
      var polled := Poll(r.mem, r.deq, r.ccs);
      match polled.event
      case None => Consumed(r) == r
      case Some(e) =>
        Consumed(Consumed(Consumed(Consumed(r)))) ==
        r.(delivered := r.delivered + [WithCycle(e, 0)], deq := polled.deq, ccs := polled.cycle)
  {
    var t := r.mem[r.deq];
    if t.control.cycle == r.ccs {
      var r1 := Consumed(r);
      assert r1 == r.(consumer := Loading(0, Trb(0, 0, 0, t.control.(cycle := 0))));
      var r2 := Consumed(r1);
      assert r2 == r.(consumer := Loading(1, Trb(t.pLo, 0, 0, t.control.(cycle := 0))));
      var r3 := Consumed(r2);
      assert r3 == r.(consumer := Loading(2, Trb(t.pLo, t.pHi, 0, t.control.(cycle := 0))));
    }
  }

  /** `r'` lies on some run from `r`. */
  ghost predicate Reaches(limit: int, r: Ring, r': Ring) {
    exists acts :: Run(limit, r, acts) == r'
  }

  lemma ReachesSelf(limit: int, r: Ring)
    ensures Reaches(limit, r, r)
  {
    assert Run(limit, r, []) == r;
  }

  lemma ReachesNext(limit: int, r: Ring, r': Ring, a: Action)
    requires Reaches(limit, r, r')
    ensures Reaches(limit, r, Next(limit, r', a))
  {
    var acts :| Run(limit, r, acts) == r';
    assert (acts + [a])[..|acts|] == acts;
    assert Run(limit, r, acts + [a]) == Next(limit, r', a);
  }

  lemma {:induction false} ReachesTransitive(limit: int, r: Ring, r': Ring, r'': Ring)
    requires Reaches(limit, r, r') && Reaches(limit, r', r'')
    ensures Reaches(limit, r, r'')
  {
    var acts :| Run(limit, r', acts) == r'';
    ReachesAlong(limit, r, r', acts);
  }

  lemma {:induction false} ReachesAlong(limit: int, r: Ring, r': Ring, acts: seq<Action>)
    requires Reaches(limit, r, r')
    ensures Reaches(limit, r, Run(limit, r', acts))
  {
    if acts != [] {
      ReachesAlong(limit, r, r', acts[..|acts| - 1]);
      ReachesNext(limit, r, Run(limit, r', acts[..|acts| - 1]), acts[|acts| - 1]);
    }
  }

  /** `n` stores of the producer in a row. */
  function Produces(r: Ring, n: nat): Ring
    decreases n
  {
    if n == 0 then r else Produces(Produced(r), n - 1)
  }

  lemma FourStores(r: Ring, r1: Ring, r2: Ring, r3: Ring, r4: Ring)
    requires r1 == Produced(r) && r2 == Produced(r1) && r3 == Produced(r2) && r4 == Produced(r3)
    ensures Produces(r, 4) == r4
  {
    assert Produces(r3, 1) == Produces(r4, 0);
    assert Produces(r2, 2) == Produces(r3, 1);
    assert Produces(r1, 3) == Produces(r2, 2);
  }

  lemma {:induction false} ReachesProduces(limit: int, r: Ring, r': Ring, n: nat)
    requires Reaches(limit, r, r')
    ensures Reaches(limit, r, Produces(r', n))
    decreases n
  {
    if n > 0 {
      ReachesNext(limit, r, r', Produce);
      ReachesProduces(limit, r, Produced(r'), n - 1);
    }
  }

  lemma {:induction false} ProducesAdd(r: Ring, m: nat, n: nat)
    ensures Produces(r, m + n) == Produces(Produces(r, m), n)
    decreases m
  {
    if m > 0 {
      ProducesAdd(Produced(r), m - 1, n);
    }
  }

  /** The ring after a whole push that nobody interrupts. */
  function PushDone(r: Ring, v: Trb): Ring
    requires r.enq + 1 < |r.mem|
  {
    var last := r.enq + 1 >= |r.mem| - 1;
    r.(mem := PushMem(r.mem, r.base, r.enq, r.cycle, v), pushed := r.pushed + [v],
       enq := if last then 0 else r.enq + 1, cycle := if last then 1 - r.cycle else r.cycle)
  }

  /** The stores of xhci_ring_push, one by one, amount to what RingPush does. */
  lemma PushInSteps(limit: int, r: Ring, v: Trb)
    requires r.linked && |r.mem| == r.slots + 1 && r.enq < r.slots && r.producer.Resting?
    requires Pushable(v) && r.Pending() < limit
    ensures Produces(Begun(limit, r, v), if r.enq + 1 < r.slots then 4 else 8) == PushDone(r, v)
  {
    var r0 := Begun(limit, r, v);
    var w, t := WithCycle(v, r.cycle), r.mem[r.enq];
    var t1 := t.(pLo := w.pLo);
    var t2 := t1.(pHi := w.pHi);
    var t3 := t2.(status := w.status);
    var r1 := r0.(mem := r.mem[r.enq := t1], producer := Storing(1, v));
    var r2 := r0.(mem := r.mem[r.enq := t2], producer := Storing(2, v));
    var r3 := r0.(mem := r.mem[r.enq := t3], producer := Storing(3, v));
    var r4 := Produced(r3);
    FourStores(r0, r1, r2, r3, r4);
    assert r4.mem == r.mem[r.enq := w];
    if r.enq + 1 >= r.slots {
      LinkInSteps(r4);
      ProducesAdd(r0, 4, 4);
    }
  }

  lemma LinkInSteps(r: Ring)
    requires |r.mem| == r.slots + 1 && r.producer == Linking(0)
    ensures Produces(r, 4) == Wrapped(r.(mem := r.mem[r.slots := LinkTrb(r.base, r.cycle)]))
  {
    var t, l := r.mem[r.slots], LinkTrb(r.base, r.cycle);
    var t1 := t.(pLo := l.pLo);
    var t2 := t1.(pHi := l.pHi);
    var t3 := t2.(status := l.status);
    LinkStore(r, 0, t);
    LinkStore(r, 1, t1);
    LinkStore(r, 2, t2);
    LinkStore(r, 3, t3);
    FourStores(LinkAt(r, 0, t), LinkAt(r, 1, t1), LinkAt(r, 2, t2), LinkAt(r, 3, t3), Produced(LinkAt(r, 3, t3)));
    assert LinkAt(r, 0, t) == r;
  }

  /** The ring with `t` in the last entry, about to store field `n` there. */
  function LinkAt(r: Ring, n: nat, t: Trb): Ring
    requires |r.mem| == r.slots + 1
  {
    r.(mem := r.mem[r.slots := t], producer := Linking(n))
  }

  lemma LinkStore(r: Ring, n: nat, t: Trb)
    requires |r.mem| == r.slots + 1 && n <= 3
    ensures
      var u := StoreField(t, n, LinkTrb(r.base, r.cycle));
      Produced(LinkAt(r, n, t)) == if n < 3 then LinkAt(r, n + 1, u) else Wrapped(LinkAt(r, n, u))
  {
    var u := StoreField(t, n, LinkTrb(r.base, r.cycle));
    assert r.mem[r.slots := t][r.slots := u] == r.mem[r.slots := u];
  }

  // ---- The limit cannot be raised ----

  /** From an idle ring with room under `limit`, `k` pushes of the same TRB in a row that stay within the pass. */
  lemma {:induction false} ReachesPushes(limit: int, r: Ring, v: Trb, k: nat) returns (r': Ring)
    requires r.linked && |r.mem| == r.slots + 1 && r.producer.Resting? && Pushable(v)
    requires r.enq + k < r.slots && r.Pending() + k <= limit
    ensures Reaches(limit, r, r')
    ensures r' == r.(mem := r'.mem, enq := r.enq + k, pushed := r'.pushed) && |r'.mem| == |r.mem|
    ensures |r'.pushed| == |r.pushed| + k && r'.mem[r.slots] == r.mem[r.slots]
    ensures forall j :: 0 <= j < r.slots ==>
      r'.mem[j] == if r.enq <= j < r.enq + k then WithCycle(v, r.cycle) else r.mem[j]
  {
    if k == 0 {
      ReachesSelf(limit, r);
      return r;
    }
    var m := ReachesPushes(limit, r, v, k - 1);
    r' := PushDone(m, v);
    PushInSteps(limit, m, v);
    ReachesNext(limit, r, m, Begin(v));
    ReachesProduces(limit, r, Begun(limit, m, v), 4);
  }

  /** A whole pass of pushes, from slot 0 through the link TRB. */
  lemma ReachesPass(limit: int, r: Ring, v: Trb) returns (r': Ring)
    requires r.linked && 0 < r.slots && |r.mem| == r.slots + 1 && r.producer.Resting? && Pushable(v)
    requires r.enq == 0 && r.Pending() + r.slots <= limit
    ensures Reaches(limit, r, r')
    ensures r' == r.(mem := r'.mem, cycle := 1 - r.cycle, pushed := r'.pushed) && |r'.mem| == |r.mem|
    ensures |r'.pushed| == |r.pushed| + r.slots && r'.mem[r.slots] == LinkTrb(r.base, r.cycle)
    ensures forall j :: 0 <= j < r.slots ==> r'.mem[j] == WithCycle(v, r.cycle)
  {
    var m := ReachesPushes(limit, r, v, r.slots - 1);
    r' := PushDone(m, v);
    PushInSteps(limit, m, v);
    ReachesNext(limit, r, m, Begin(v));
    ReachesProduces(limit, r, Begun(limit, m, v), 8);
  }

  lemma {:induction false} ReachesTakes(limit: int, r: Ring, k: nat) returns (r': Ring)
    requires r.linked && |r.mem| == r.slots + 1 && r.consumer.Looking? && r.deq + k <= r.slots
    requires forall j :: r.deq <= j < r.deq + k ==>
      r.mem[j].control.cycle == r.ccs && r.mem[j].control.kind != TYPE_LINK
    ensures Reaches(limit, r, r')
    ensures r' == r.(deq := r.deq + k, delivered := r'.delivered) && |r'.delivered| == |r.delivered| + k
  {
    if k == 0 {
      ReachesSelf(limit, r);
      return r;
    }
    var m := ReachesTakes(limit, r, k - 1);
    var m1 := Consumed(m);
    ReachesNext(limit, r, m, Consume);
    var m2 := Consumed(m1);
    ReachesNext(limit, r, m1, Consume);
    var m3 := Consumed(m2);
    ReachesNext(limit, r, m2, Consume);
    r' := Consumed(m3);
    ReachesNext(limit, r, m3, Consume);
  }

  /** Something is undelivered, nobody is in the middle of anything, and the consumer cannot take it. */
  ghost predicate Stuck(r: Ring) {
    r.Pending() > 0 && r.consumer.Looking? && r.producer.Resting? && Consumed(r) == r
  }

  /**
   With one more outstanding entry allowed there is a run that loses the consumer: it waits at the link TRB while the
   producer fills a whole pass and rewrites that link TRB with the other cycle bit.
   */
  lemma StuckAboveLimit(slots: nat, base: nat, limit: int)
    requires 1 < slots <= limit
    ensures exists r :: Reaches(limit, Init(slots, true, base), r) && Stuck(r)
  {
    var r := Init(slots, true, base);
    var a := ReachesPass(limit, r, ZERO_TRB);
    var b := ReachesTakes(limit, a, slots);
    ReachesTransitive(limit, r, a, b);
    var c := ReachesPass(limit, b, ZERO_TRB);
    ReachesTransitive(limit, r, b, c);
    assert Stuck(c);
  }

  /** A transfer ring never loses its consumer if and only if at most `slots - 1` entries may be outstanding. */
  lemma LimitIsExact(slots: nat, base: nat, limit: int)
    requires 1 < slots
    ensures limit <= slots - 1 <==> forall r :: Reaches(limit, Init(slots, true, base), r) ==> !Stuck(r)
  {
    if limit <= slots - 1 {
      forall r | Reaches(limit, Init(slots, true, base), r)
        ensures !Stuck(r)
      {
        var acts :| Run(limit, Init(slots, true, base), acts) == r;
        InitInv(slots, true, base);
        RunInv(limit, Init(slots, true, base), acts);
        if r.Pending() > 0 {
          Progress(r);
        }
      }
    } else {
      StuckAboveLimit(slots, base, limit);
    }
  }
}
