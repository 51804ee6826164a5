/** What the chains of 'All-Or-None' orders do in every case: executing a volume either takes exactly that
    volume or empties the side, and this decides when bought equals sold and when all limits are kept;
    and the two-sided calculator finds the least volume that both best queues can be cut at. */
module Chains {
  import opened Options
  import opened Orders
  import opened PriorityList
  import opened BookSpec
  import opened Invariants
  import opened Fills
  import opened Trades
  import opened Crossing

  // ---------- executing a volume

  // The volume can be taken from the front without splitting an 'All-Or-None' order.
  predicate Cuttable(s: seq<Order>, volume: nat) { CutsAt(s, volume) && volume <= Leaves(s) }

  // What executing a volume takes.
  function Reached(s: seq<Order>, volume: nat): nat { if Cuttable(s, volume) then volume else Leaves(s) }

  // The execution reports of the first q units at one price.
  function ChainReports(s: seq<Order>, price: nat, q: nat): seq<Event> {
    if s == [] || q == 0 then []
    else
      var n := Min(s[0].leaves, q);
      TradeReports(s[0], price, n) + ChainReports(s[1..], price, q - n)
  }

  lemma LeavesOfTail(s: seq<Order>)
    requires s != [] && HaveLeaves(s)
    ensures HaveLeaves(s[1..]) && s[0].leaves > 0 && Leaves(s) == s[0].leaves + Leaves(s[1..])
  {
    assert forall i :: 0 <= i < |s[1..]| ==> s[1..][i] == s[i + 1];
  }

  // One order of the chain, on the list and in the log.
  lemma ChainHit(b: Book, k: Kind, price: nat, volume: nat)
    requires b.Get(k) != [] && volume > 0
    ensures var e := b.Get(k)[0];
            var q := if e.IsAON() then e.leaves else Min(e.leaves, volume);
            var b' := Hit(b, k, 0, price, q);
            ExecuteChain(b, k, price, volume) == ExecuteChain(b', k, price, Sub64(volume, q)) &&
            b'.Get(k) == (if q == e.leaves then b.Get(k)[1..] else [Traded(e, q)] + b.Get(k)[1..]) &&
            b'.tape.log == b.tape.log + TradeReports(e, price, q) && (q < e.leaves ==> Sub64(volume, q) == 0)
  {
    hide ExecuteChain, Hit;
    var e := b.Get(k)[0];
    var q := if e.IsAON() then e.leaves else Min(e.leaves, volume);
    ChainStep(b, k, price, volume);
    HitAtFront(b, k, price, q);
    HitReported(b, k, 0, price, q);
  }

  /** Executing a volume takes that volume if it can be cut off the front, and otherwise everything: the
      remaining volume has wrapped around, or there is not enough. Each order trades at the given price. */
  lemma {:induction false} ExecuteChainReaches(b: Book, k: Kind, price: nat, volume: nat)
    requires var s := b.Get(k); HaveLeaves(s) && Leaves(s) <= TWO64
    ensures var s, r := b.Get(k), ExecuteChain(b, k, price, volume);
            r.Get(k) == Take(s, Reached(s, volume)) &&
            r.tape.log == b.tape.log + ChainReports(s, price, Reached(s, volume))
    decreases |b.Get(k)|
  {
    hide ExecuteChain, Hit, TradeReports;
    var s := b.Get(k);
    if s == [] || volume == 0 {
      NothingExecuted(b, k, price, volume);
    } else {
      LeavesOfTail(s);
      ChainHit(b, k, price, volume);
      var q := if s[0].IsAON() then s[0].leaves else Min(s[0].leaves, volume);
      var b' := Hit(b, k, 0, price, q);
      if q < s[0].leaves {
        NoVolume(b', k, price);
        assert ChainReports(s[1..], price, 0) == [];
      } else {
        var rest := Sub64(volume, q);
        ExecuteChainReaches(b', k, price, rest);
        ReachedRest(s, volume);
        TakenFirst(s, price, Reached(s, volume));
      }
    }
  }

  lemma NothingExecuted(b: Book, k: Kind, price: nat, volume: nat)
    requires b.Get(k) == [] || volume == 0
    ensures ExecuteChain(b, k, price, volume) == b
    ensures Take(b.Get(k), Reached(b.Get(k), volume)) == b.Get(k) &&
            ChainReports(b.Get(k), price, Reached(b.Get(k), volume)) == []
  {
  }

  // After a first order that goes whole, the rest of the volume reaches as far in the rest of the list.
  lemma ReachedRest(s: seq<Order>, volume: nat)
    requires HaveLeaves(s) && s != [] && 0 < volume && Leaves(s) <= TWO64
    requires s[0].leaves <= volume || s[0].IsAON()
    ensures Reached(s, volume) == s[0].leaves + Reached(s[1..], Sub64(volume, s[0].leaves))
  {
    hide HaveLeaves;
    LeavesOfTail(s);
    if s[0].leaves > volume { WrappedReaches(s, volume); }
  }

  // An 'All-Or-None' order larger than the volume wraps what remains around, and nothing is out of reach.
  lemma WrappedReaches(s: seq<Order>, volume: nat)
    requires HaveLeaves(s) && s != [] && 0 < volume < s[0].leaves && s[0].IsAON() && Leaves(s) <= TWO64
    ensures Reached(s, volume) == Leaves(s) && Reached(s[1..], Sub64(volume, s[0].leaves)) == Leaves(s[1..])
  {
    LeavesOfTail(s);
    Wraps(s[0].leaves - volume);
    BeyondReach(s[1..], Sub64(volume, s[0].leaves));
  }

  lemma BeyondReach(s: seq<Order>, volume: nat)
    requires volume >= Leaves(s)
    ensures Reached(s, volume) == Leaves(s)
  {
  }

  lemma Wraps(n: nat)
    requires 0 < n <= TWO64
    ensures (0 - n) % TWO64 == TWO64 - n
  {
  }

  lemma TakenFirst(s: seq<Order>, price: nat, q: nat)
    requires s != [] && q >= s[0].leaves > 0
    ensures Take(s, q) == Take(s[1..], q - s[0].leaves)
    ensures ChainReports(s, price, q) ==
            TradeReports(s[0], price, s[0].leaves) + ChainReports(s[1..], price, q - s[0].leaves)
  {
  }

  /** So it takes the volume it was asked for exactly when that volume can be cut off. */
  lemma ExecutesVolumeIff(b: Book, k: Kind, price: nat, volume: nat)
    requires var s := b.Get(k); HaveLeaves(s) && Leaves(s) <= TWO64
    ensures Leaves(b.Get(k)) - Leaves(ExecuteChain(b, k, price, volume).Get(k)) == volume <==>
              Cuttable(b.Get(k), volume)
  {
    hide ExecuteChain;
    ExecuteChainReaches(b, k, price, volume);
    TakeLeaves(b.Get(k), Reached(b.Get(k), volume));
    WholeCut(b.Get(k));
  }

  lemma ReachedWithin(s: seq<Order>, volume: nat)
    ensures Reached(s, volume) <= Leaves(s)
  {
  }

  lemma {:induction false} WholeCut(s: seq<Order>)
    ensures CutsAt(s, Leaves(s))
  {
    if s != [] { WholeCut(s[1..]); }
  }

  // ---------- reports

  ghost predicate AllFair(log: seq<Event>) { forall i :: 0 <= i < |log| ==> Fair(log[i]) }

  lemma {:induction false} GapConcat(a: seq<Event>, c: seq<Event>)
    ensures Gap(a + c) == Gap(a) + Gap(c)
  {
    if c == [] {
      assert a + c == a;
    } else {
      assert (a + c)[..|a + c| - 1] == a + c[..|c| - 1];
      GapConcat(a, c[..|c| - 1]);
    }
  }

  ghost predicate OfSide(s: seq<Order>, side: Side) { forall i :: 0 <= i < |s| ==> s[i].side == side }

  lemma {:induction false} ChainReportsGap(s: seq<Order>, side: Side, price: nat, q: nat)
    requires OfSide(s, side) && HaveLeaves(s) && q <= Leaves(s)
    ensures Gap(ChainReports(s, price, q)) == Signed(side, q)
  {
    if s != [] && q > 0 {
      LeavesOfTail(s);
      var n := Min(s[0].leaves, q);
      assert OfSide(s[1..], side) by { assert forall i :: 0 <= i < |s[1..]| ==> s[1..][i] == s[i + 1]; }
      ChainReportsGap(s[1..], side, price, q - n);
      GapConcat(TradeReports(s[0], price, n), ChainReports(s[1..], price, q - n));
      OrderGap(s[0], price, n);
    }
  }

  lemma OrderGap(e: Order, price: nat, n: nat)
    ensures Gap(TradeReports(e, price, n)) == Signed(e.side, n)
    ensures AllFair(TradeReports(e, price, n)) <==> Accepts(e.side, e.price, price)
  {
    var x := Executed(e.id, e.side, e.price, price, n);
    assert Gap([x]) == Gap([]) + Weight(x) by { assert [x][..0] == []; }
    assert [x, Deleted(e.id)][..1] == [x];
    assert TradeReports(e, price, n)[0] == x;
  }

  function Other(side: Side): Side { if side == Buy then Sell else Buy }

  /** Every order trades within its limit exactly when no more is taken than there is at prices that the
      other party accepts. */
  lemma {:induction false} ChainReportsFairIff(s: seq<Order>, side: Side, price: nat, q: nat)
    requires OfSide(s, side) && HaveLeaves(s) && q <= Leaves(s)
    ensures AllFair(ChainReports(s, price, q)) <==> q <= Within(Other(side), price, s)
  {
    if s != [] && q > 0 {
      LeavesOfTail(s);
      var n := Min(s[0].leaves, q);
      assert OfSide(s[1..], side) by { assert forall i :: 0 <= i < |s[1..]| ==> s[1..][i] == s[i + 1]; }
      ChainReportsFairIff(s[1..], side, price, q - n);
      OrderGap(s[0], price, n);
      FairConcat(TradeReports(s[0], price, n), ChainReports(s[1..], price, q - n));
    }
  }

  lemma FairConcat(a: seq<Event>, c: seq<Event>)
    ensures AllFair(a + c) <==> AllFair(a) && AllFair(c)
  {
    forall i | 0 <= i < |a| ensures (a + c)[i] == a[i] {}
    forall i | 0 <= i < |c| ensures (a + c)[|a| + i] == c[i] {}
  }

  // ---------- both sides

  ghost predicate Bounded(b: Book) { Leaves(b.bids) <= TWO64 && Leaves(b.asks) <= TWO64 }

  // What the two executions add to the log.
  function BothReports(b: Book, volume: nat): seq<Event>
    requires b.bids != [] && b.asks != []
  {
    ChainReports(b.bids, b.bids[0].price, Reached(b.bids, volume)) +
    ChainReports(b.asks, b.asks[0].price, Reached(b.asks, volume))
  }

  lemma BothSides(b: Book)
    requires Good(b, Any)
    ensures OfSide(b.bids, Buy) && OfSide(b.asks, Sell) && HaveLeaves(b.bids) && HaveLeaves(b.asks)
  {
  }

  lemma BothReach(b: Book, volume: nat)
    requires Good(b, Any) && Bounded(b) && b.bids != [] && b.asks != []
    ensures var r := ExecuteChain(ExecuteChain(b, Bids, b.bids[0].price, volume), Asks, b.asks[0].price, volume);
            r.bids == Take(b.bids, Reached(b.bids, volume)) && r.asks == Take(b.asks, Reached(b.asks, volume)) &&
            r.tape.log == b.tape.log + BothReports(b, volume)
  {
    hide ExecuteChain, Good;
    BothSides(b);
    var b1 := ExecuteChain(b, Bids, b.bids[0].price, volume);
    var r := ExecuteChain(b1, Asks, b.asks[0].price, volume);
    assert b1.Get(Asks) == b.Get(Asks) && r.Get(Bids) == b1.Get(Bids);
    ExecuteChainReaches(b, Bids, b.bids[0].price, volume);
    ExecuteChainReaches(b1, Asks, b.asks[0].price, volume);
  }

  /** A pass over the best levels with an 'All-Or-None' order in front, when the calculator returns a
      volume: it removes exactly that volume from both sides exactly when both can be cut at it; what is
      reported as bought and as sold is the same exactly when both sides are reached equally far; and all
      limits are kept exactly when neither side is reached beyond its best price. */
  lemma PassIff(b: Book)
    requires Good(b, Any) && Bounded(b) && b.Crossed() && (b.bids[0].IsAON() || b.asks[0].IsAON()) &&
             TwoSidedChain(b) > 0
    ensures var v, r := TwoSidedChain(b), PairLevels(b, 0, 0).0;
            var added := BothReports(b, v);
            r.tape.log == b.tape.log + added &&
            (Leaves(b.bids) - Leaves(r.bids) == Leaves(b.asks) - Leaves(r.asks) == v <==>
             Cuttable(b.bids, v) && Cuttable(b.asks, v)) &&
            (Gap(added) == 0 <==> Reached(b.bids, v) == Reached(b.asks, v)) &&
            (AllFair(added) <==>
             (Reached(b.bids, v) <= Within(Sell, b.bids[0].price, b.bids) &&
              Reached(b.asks, v) <= Within(Buy, b.asks[0].price, b.asks)))
  {
    hide ExecuteChain, PairLevels, TwoSidedChain, Good, HaveLeaves, OfSide, CutsAt, Leaves, Take, ChainReports,
         AllFair, Gap, Within;
    var v := TwoSidedChain(b);
    var tb, ta := Reached(b.bids, v), Reached(b.asks, v);
    var rb, ra := ChainReports(b.bids, b.bids[0].price, tb), ChainReports(b.asks, b.asks[0].price, ta);
    PairBlocks(b, 0, 0);
    BothReach(b, v);
    BothSides(b);
    ReachedWithin(b.bids, v);
    ReachedWithin(b.asks, v);
    TakeLeaves(b.bids, tb);
    TakeLeaves(b.asks, ta);
    WholeCut(b.bids);
    WholeCut(b.asks);
    GapConcat(rb, ra);
    FairConcat(rb, ra);
    ChainReportsGap(b.bids, Buy, b.bids[0].price, tb);
    ChainReportsGap(b.asks, Sell, b.asks[0].price, ta);
    ChainReportsFairIff(b.bids, Buy, b.bids[0].price, tb);
    ChainReportsFairIff(b.asks, Sell, b.asks[0].price, ta);
  }

  // ---------- the calculator

  /** Through all swaps: whatever positive volume both queues can be cut at, the walk finds one that is
      not larger. The current longest order is an 'All-Or-None' order. */
  lemma {:induction false} QueueWalkFinds(pl: seq<Order>, longest: seq<Order>, ps: seq<Order>, shortest: seq<Order>,
                                          required: nat, available: nat, v: nat)
    requires HaveLeaves(pl + longest) && HaveLeaves(ps + shortest)
    requires longest != [] && longest[0].IsAON() && required == Leaves(pl) + longest[0].leaves
    requires available == Leaves(ps) && available < required <= v
    requires Cuttable(pl + longest, v) && Cuttable(ps + shortest, v)
    ensures var r := QueueWalk(longest, shortest, required, available); r.Some? && r.value <= v
    decreases |longest| + |shortest|
  {
    hide HaveLeaves, Leaves, CutsAt;
    RestIsLeft(ps, shortest, v);
    var e := shortest[0];
    var total := available + if e.IsAON() then e.leaves else Min(e.leaves, required - available);
    WalkMoves(pl, longest);
    WalkMoves(ps, shortest);
    if required < total {
      QueueWalkFinds(ps, shortest, pl + [longest[0]], longest[1..], total, required, v);
    } else if total < required {
      QueueWalkFinds(pl, longest, ps + [e], shortest[1..], required, total, v);
    }
  }

  // A cut behind the part walked past lies in the rest of the queue, and not inside an 'All-Or-None' order.
  lemma RestIsLeft(p: seq<Order>, t: seq<Order>, v: nat)
    requires Cuttable(p + t, v) && v > Leaves(p)
    ensures t != [] && (t[0].IsAON() ==> v >= Leaves(p) + t[0].leaves)
  {
    LeavesConcat(p, t);
    CutsBehind(p, t, v);
  }

  // A cut behind a prefix is a cut of what follows.
  lemma {:induction false} CutsBehind(p: seq<Order>, t: seq<Order>, q: nat)
    requires CutsAt(p + t, q) && q >= Leaves(p)
    ensures CutsAt(t, q - Leaves(p))
  {
    if p == [] {
      assert p + t == t;
    } else {
      assert (p + t)[1..] == p[1..] + t;
      if q > 0 { CutsBehind(p[1..], t, q - p[0].leaves); }
    }
  }

  // A positive volume at which both best queues can be cut.
  predicate CommonCut(b: Book, v: nat)
    requires b.bids != [] && b.asks != []
  {
    v > 0 && Cuttable(Queue(Bids, b.bids, b.bids[0].price), v) && Cuttable(Queue(Asks, b.asks, b.asks[0].price), v)
  }

  lemma BestQueues(b: Book)
    requires Good(b, Any) && b.bids != [] && b.asks != []
    ensures var qb, qa := Queue(Bids, b.bids, b.bids[0].price), Queue(Asks, b.asks, b.asks[0].price);
            HaveLeaves(qb) && HaveLeaves(qa) && qb != [] && qa != [] && qb[0] == b.bids[0] && qa[0] == b.asks[0]
  {
    assert Key(Bids, b.bids[0]) == b.bids[0].price && Key(Asks, b.asks[0]) == b.asks[0].price;
    BestQueue(Bids, b.bids);
    BestQueue(Asks, b.asks);
  }

  /** With an 'All-Or-None' order in front, the walk ends within the two best levels exactly when these
      can be cut at a common positive volume, and its result is the least of them. */
  lemma BestWalkIff(b: Book)
    requires Good(b, Any) && b.bids != [] && b.asks != [] && (b.bids[0].IsAON() || b.asks[0].IsAON())
    ensures BestWalk(b).Some? <==> exists v :: CommonCut(b, v)
    ensures BestWalk(b).Some? ==> CommonCut(b, BestWalk(b).value)
    ensures forall v :: CommonCut(b, v) ==> BestWalk(b).Some? && BestWalk(b).value <= v
  {
    hide Good, Queue, QueueWalk, HaveLeaves, CutsAt, Leaves, BidIsLongest;
    var qb, qa := Queue(Bids, b.bids, b.bids[0].price), Queue(Asks, b.asks, b.asks[0].price);
    BestQueues(b);
    if BestWalk(b).Some? {
      BestWalkCuts(b, qb, qa);
      BestWalkPositive(b);
      assert CommonCut(b, BestWalk(b).value);
    }
    forall v | CommonCut(b, v) ensures BestWalk(b).Some? && BestWalk(b).value <= v { BestWalkFinds(b, v); }
  }

  lemma BestWalkFinds(b: Book, v: nat)
    requires Good(b, Any) && b.bids != [] && b.asks != [] && (b.bids[0].IsAON() || b.asks[0].IsAON()) && CommonCut(b, v)
    ensures BestWalk(b).Some? && BestWalk(b).value <= v
  {
    hide Good, Queue, QueueWalk, HaveLeaves, CutsAt;
    var qb, qa := Queue(Bids, b.bids, b.bids[0].price), Queue(Asks, b.asks, b.asks[0].price);
    BestQueues(b);
    assert [] + qb == qb && [] + qa == qa;
    if BidIsLongest(b) {
      FirstWithin(qb, v);
      QueueWalkFinds([], qb, [], qa, qb[0].leaves, 0, v);
    } else {
      FirstWithin(qa, v);
      QueueWalkFinds([], qa, [], qb, qa[0].leaves, 0, v);
    }
  }

  lemma FirstWithin(s: seq<Order>, v: nat)
    requires v > 0 && Cuttable(s, v) && s != [] && s[0].IsAON() && HaveLeaves(s)
    ensures 0 < s[0].leaves <= v
  {
  }

  lemma BestWalkPositive(b: Book)
    requires Good(b, Any) && b.bids != [] && b.asks != []
    ensures BestWalk(b).Some? ==> BestWalk(b).value > 0
  {
    hide Queue, QueueWalk;
    BestQueues(b);
    var qb, qa := Queue(Bids, b.bids, b.bids[0].price), Queue(Asks, b.asks, b.asks[0].price);
    if BidIsLongest(b) {
      QueueWalkPositive(qb, qa, qb[0].leaves, 0);
    } else {
      QueueWalkPositive(qa, qb, qa[0].leaves, 0);
    }
  }

  lemma {:induction false} QueueWalkPositive(longest: seq<Order>, shortest: seq<Order>, required: nat, available: nat)
    requires 0 < required && available <= required
    ensures var r := QueueWalk(longest, shortest, required, available); r.Some? ==> r.value >= required
    decreases |longest| + |shortest|
  {
    if longest != [] && shortest != [] {
      var e := shortest[0];
      var total := available + if e.IsAON() then e.leaves else Min(e.leaves, required - available);
      if required < total {
        QueueWalkPositive(shortest, longest[1..], total, required);
      } else if total < required {
        QueueWalkPositive(longest, shortest[1..], required, total);
      }
    }
  }

  // A book with one price on either side.
  ghost predicate OneLevel(b: Book) {
    (forall i :: 0 <= i < |b.bids| ==> b.bids[i].price == b.bids[0].price) &&
    (forall i :: 0 <= i < |b.asks| ==> b.asks[i].price == b.asks[0].price)
  }

  lemma {:induction false} NoNextPrice(k: Kind, s: seq<Order>, price: nat)
    requires forall i :: 0 <= i < |s| ==> Key(k, s[i]) == price
    ensures NextPrice(k, s, price) == None
  {
    if s != [] { NoNextPrice(k, s[1..], price); }
  }

  lemma {:induction false} WalkStops(b: Book, lk: Kind, lp: nat, sk: Kind, sp: nat, longest: seq<Order>,
                                     shortest: seq<Order>, required: nat, available: nat)
    requires available <= required && NextPrice(lk, b.Get(lk), lp) == None && NextPrice(sk, b.Get(sk), sp) == None
    ensures var r := QueueWalk(longest, shortest, required, available);
            TwoSidedWalk(b, lk, lp, sk, sp, longest, shortest, required, available) == if r.Some? then r.value else 0
    decreases |longest| + |shortest|
  {
    hide TwoSidedWalk, NextPrice;
    if longest == [] || shortest == [] {
      WalkLevel(b, lk, lp, sk, sp, longest, shortest, required, available);
    } else {
      WalkOrder(b, lk, lp, sk, sp, longest, shortest, required, available);
      var e := shortest[0];
      var total := available + if e.IsAON() then e.leaves else Min(e.leaves, required - available);
      if required < total {
        WalkStops(b, lk, lp, sk, sp, shortest, longest[1..], total, required);
      } else if total < required {
        WalkStops(b, lk, lp, sk, sp, longest, shortest[1..], required, total);
      }
    }
  }

  /** With an 'All-Or-None' order in front: matching does not get stuck if the two best levels can be cut at
      a common volume, and trades the least one; and with no further levels exactly then. A book that is
      stuck is left as it is. */
  lemma StuckWithoutCut(b: Book)
    requires Good(b, Any) && b.Crossed() && (b.bids[0].IsAON() || b.asks[0].IsAON())
    ensures CrossLoop(b) == (b, true) <==> TwoSidedChain(b) == 0
    ensures TwoSidedChain(b) == 0 ==> Match(b) == b && forall v :: !CommonCut(b, v)
    ensures forall v :: CommonCut(b, v) ==> CommonCut(b, TwoSidedChain(b)) && TwoSidedChain(b) <= v
    ensures OneLevel(b) ==> (TwoSidedChain(b) == 0 <==> forall v :: !CommonCut(b, v))
  {
    hide CrossLoop, Match, Good, CommonCut, QueueWalk, TwoSidedWalk, Queue;
    StuckIff(b);
    BestWalkIff(b);
    BestWalkPositive(b);
    BestQueues(b);
    var qb, qa := Queue(Bids, b.bids, b.bids[0].price), Queue(Asks, b.asks, b.asks[0].price);
    if BestWalk(b).Some? { BestWalkCuts(b, qb, qa); }
    if OneLevel(b) {
      NoNextPrice(Bids, b.bids, b.bids[0].price);
      NoNextPrice(Asks, b.asks, b.asks[0].price);
      if BidIsLongest(b) {
        WalkStops(b, Bids, b.bids[0].price, Asks, b.asks[0].price, qb, qa, qb[0].leaves, 0);
      } else {
        WalkStops(b, Asks, b.asks[0].price, Bids, b.bids[0].price, qa, qb, qa[0].leaves, 0);
      }
    }
  }
}
