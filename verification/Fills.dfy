/** What an incoming order gets, said without any walk: so many units from the front of the other
    side, no more than there are at acceptable prices; or, for an order that is filled entirely or
    not at all, exactly its volume when that volume can be cut off the front. */
module Fills {
  import opened Orders
  import opened PriorityList
  import opened BookSpec
  import opened Invariants

  // What is left of a list after its first q units have traded.
  function Take(s: seq<Order>, q: nat): seq<Order> {
    if s == [] || q == 0 then s
    else if s[0].leaves <= q then Take(s[1..], q - s[0].leaves)
    else [Traded(s[0], q)] + s[1..]
  }

  // The volume at prices that a limit accepts.
  function Within(side: Side, limit: nat, s: seq<Order>): nat {
    if s == [] || !Accepts(side, limit, s[0].price) then 0 else s[0].leaves + Within(side, limit, s[1..])
  }

  // The volume q ends between two orders, or inside an order that may be filled in parts.
  predicate CutsAt(s: seq<Order>, q: nat) {
    q == 0 || (s != [] && if s[0].leaves <= q then CutsAt(s[1..], q - s[0].leaves) else !s[0].IsAON())
  }

  // The execution reports of the first q units, each paired with one of the incoming order.
  function Reports(s: seq<Order>, o: Order, q: nat): seq<Event> {
    if s == [] || q == 0 then []
    else
      var n := Min(s[0].leaves, q);
      HitReports(s[0], o, n) + Reports(s[1..], o, q - n)
  }

  ghost predicate HaveLeaves(s: seq<Order>) { forall i :: 0 <= i < |s| ==> s[i].leaves > 0 }

  lemma {:induction false} TakeLeaves(s: seq<Order>, q: nat)
    requires q <= Leaves(s)
    ensures Leaves(Take(s, q)) == Leaves(s) - q
  {
    if s != [] && q > 0 {
      if s[0].leaves <= q {
        TakeLeaves(s[1..], q - s[0].leaves);
      } else {
        assert Take(s, q)[1..] == s[1..];
      }
    }
  }

  lemma {:induction false} WithinLeaves(side: Side, limit: nat, s: seq<Order>)
    ensures Within(side, limit, s) <= Leaves(s)
  {
    if s != [] { WithinLeaves(side, limit, s[1..]); }
  }

  // Without 'All-Or-None' orders every volume can be cut off.
  lemma {:induction false} PlainCuts(s: seq<Order>, q: nat)
    requires NoAON(s) && q <= Leaves(s)
    ensures CutsAt(s, q)
  {
    if s != [] && q > 0 && s[0].leaves <= q { PlainCuts(s[1..], q - s[0].leaves); }
  }

  // An order after q of its units have traded.
  function Traded(o: Order, q: nat): Order
    requires q <= o.leaves
  {
    o.(executed := o.executed + q, leaves := o.leaves - q)
  }

  // The largest volume up to n that can be cut off.
  function LargestCut(s: seq<Order>, n: nat): (q: nat)
    ensures q <= n && CutsAt(s, q) && forall v :: q < v <= n ==> !CutsAt(s, v)
  {
    if CutsAt(s, n) then n else LargestCut(s, n - 1)
  }

  lemma LargestCutStep(s: seq<Order>, n: nat)
    requires s != [] && n > 0 && s[0].leaves > 0
    ensures s[0].leaves <= n ==> LargestCut(s, n) == s[0].leaves + LargestCut(s[1..], n - s[0].leaves)
    ensures s[0].leaves > n ==> LargestCut(s, n) == if s[0].IsAON() then 0 else n
  {
    hide LargestCut;
    var l := s[0].leaves;
    if l <= n {
      var q := LargestCut(s[1..], n - l);
      assert CutsAt(s, l + q);
      forall v | l + q < v <= n ensures !CutsAt(s, v) { assert !CutsAt(s[1..], v - l); }
    } else {
      var q := LargestCut(s, n);
      assert CutsAt(s, n) <==> !s[0].IsAON();
      assert q > 0 ==> (CutsAt(s, q) <==> !s[0].IsAON());
    }
  }

  lemma PlainLargestCut(s: seq<Order>, n: nat)
    requires NoAON(s) && n <= Leaves(s)
    ensures LargestCut(s, n) == n
  {
    PlainCuts(s, n);
  }

  // What an order that may be filled in parts takes: of what it asks for or all there is at acceptable
  // prices, whichever is less, the largest volume that splits no 'All-Or-None' order.
  function FillVolume(o: Order, s: seq<Order>): (q: nat)
    ensures q <= o.leaves
  {
    LargestCut(s, Min(o.leaves, Within(o.side, o.price, s)))
  }

  // Without 'All-Or-None' orders it takes all of it.
  lemma PlainFillVolume(o: Order, s: seq<Order>)
    requires NoAON(s)
    ensures FillVolume(o, s) == Min(o.leaves, Within(o.side, o.price, s))
  {
    WithinLeaves(o.side, o.price, s);
    PlainLargestCut(s, Min(o.leaves, Within(o.side, o.price, s)));
  }

  // The volume is that of the first order and of what is left to fill behind it.
  lemma FillVolumeStep(o: Order, s: seq<Order>)
    requires o.leaves > 0 && (s != [] ==> s[0].leaves > 0)
    ensures s == [] || !Accepts(o.side, o.price, s[0].price) ==> FillVolume(o, s) == 0
    ensures s != [] && Accepts(o.side, o.price, s[0].price) ==>
              FillVolume(o, s) == if s[0].leaves > o.leaves then (if s[0].IsAON() then 0 else o.leaves)
                                  else s[0].leaves + FillVolume(Traded(o, s[0].leaves), s[1..])
  {
    hide LargestCut;
    if s != [] && Accepts(o.side, o.price, s[0].price) {
      LargestCutStep(s, Min(o.leaves, Within(o.side, o.price, s)));
    }
  }

  /** A limit or market order takes that volume from the front of the other side and changes nothing else. */
  lemma {:induction false} FillIsGreedy(b: Book, o: Order)
    requires HaveLeaves(b.Get(Opposite(o.side))) && o.leaves > 0
    ensures var k := Opposite(o.side);
            var q := FillVolume(o, b.Get(k));
            var (b', o') := Fill(b, o);
            o' == Traded(o, q) && b'.Get(k) == Take(b.Get(k), q) && forall j :: j != k ==> b'.Get(j) == b.Get(j)
    decreases |b.Get(Opposite(o.side))|
  {
    hide HitBest, FillVolume;
    var k := Opposite(o.side);
    var s := b.Get(k);
    FillVolumeStep(o, s);
    if s != [] && Accepts(o.side, o.price, s[0].price) && !(s[0].IsAON() && s[0].leaves > o.leaves) {
      HitFront(b, o);
      var b', o' := HitBest(b, o).0, HitBest(b, o).1;
      if o'.leaves > 0 { FillIsGreedy(b', o'); } else { FilledUp(o', s[1..]); }
    }
  }

  lemma FilledUp(o: Order, s: seq<Order>)
    requires o.leaves == 0
    ensures FillVolume(o, s) == 0
  {
  }

  /** It trades at the prices of the orders it meets, in their order, and both sides of every trade
      are reported. */
  lemma {:induction false} FillReports(b: Book, o: Order)
    requires HaveLeaves(b.Get(Opposite(o.side))) && o.leaves > 0
    ensures var s := b.Get(Opposite(o.side));
            Fill(b, o).0.tape.log == b.tape.log + Reports(s, o, FillVolume(o, s))
    decreases |b.Get(Opposite(o.side))|
  {
    hide HitBest, HitReports, FillVolume;
    var k := Opposite(o.side);
    var s := b.Get(k);
    FillVolumeStep(o, s);
    if s != [] && Accepts(o.side, o.price, s[0].price) && !(s[0].IsAON() && s[0].leaves > o.leaves) {
      HitFront(b, o);
      var b', o' := HitBest(b, o).0, HitBest(b, o).1;
      if o'.leaves > 0 {
        FillReports(b', o');
        ReportsSame(s[1..], o, o', FillVolume(o', s[1..]));
      } else {
        FilledUp(o', s[1..]);
      }
    }
  }

  // The reports of an order that trades.
  function TradeReports(o: Order, price: nat, q: nat): seq<Event> {
    [Executed(o.id, o.side, o.price, price, q)] + if q == o.leaves then [Deleted(o.id)] else []
  }

  lemma HitReported(b: Book, k: Kind, i: nat, price: nat, q: nat)
    requires i < |b.Get(k)| && q <= b.Get(k)[i].leaves
    ensures Hit(b, k, i, price, q).tape.log == b.tape.log + TradeReports(b.Get(k)[i], price, q)
  {
  }

  // What is reported when one order of the other side trades with an incoming one.
  function HitReports(e: Order, o: Order, n: nat): seq<Event> {
    TradeReports(e, e.price, n) + [Executed(o.id, o.side, o.price, e.price, n)]
  }

  lemma BestIsHit(b: Book, o: Order)
    requires b.Get(Opposite(o.side)) != []
    ensures var e := b.Get(Opposite(o.side))[0];
            var q := Min(e.leaves, o.leaves);
            HitBest(b, o) == (Hit(b, Opposite(o.side), 0, e.price, q).Trade(o, e.price, q), Traded(o, q))
  {
  }

  // One step of the fill, on the lists and in the reports.
  lemma HitFront(b: Book, o: Order)
    requires b.Get(Opposite(o.side)) != [] && b.Get(Opposite(o.side))[0].leaves > 0
    ensures var k := Opposite(o.side);
            var s := b.Get(k);
            var q := Min(s[0].leaves, o.leaves);
            var b' := HitBest(b, o).0;
            HitBest(b, o).1 == Traded(o, q) &&
            (forall j :: j != k ==> b'.Get(j) == b.Get(j)) &&
            b'.Get(k) == (if q == s[0].leaves then s[1..] else [Traded(s[0], q)] + s[1..]) &&
            b'.tape.log == b.tape.log + HitReports(s[0], o, q)
  {
    hide Hit;
    var k := Opposite(o.side);
    var e := b.Get(k)[0];
    var q := Min(e.leaves, o.leaves);
    HitLists(b, k, 0, e.price, q);
    HitAtFront(b, k, e.price, q);
    HitReported(b, k, 0, e.price, q);
    assert HitBest(b, o).0.tape.log ==
           Hit(b, k, 0, e.price, q).tape.log + [Executed(o.id, o.side, o.price, e.price, q)];
  }

  lemma HitAtFront(b: Book, k: Kind, price: nat, q: nat)
    requires b.Get(k) != [] && q <= b.Get(k)[0].leaves
    ensures var s := b.Get(k);
            Hit(b, k, 0, price, q).Get(k) == if q == s[0].leaves then s[1..] else [Traded(s[0], q)] + s[1..]
  {
    hide Hit;
    HitLists(b, k, 0, price, q);
  }

  lemma {:induction false} ReportsSame(s: seq<Order>, o: Order, p: Order, q: nat)
    requires p == o.(executed := p.executed, leaves := p.leaves)
    ensures Reports(s, o, q) == Reports(s, p, q)
  {
    if s != [] && q > 0 { ReportsSame(s[1..], o, p, q - Min(s[0].leaves, q)); }
  }

  // ---------- orders that are filled entirely or not at all

  /** The calculator says yes exactly when the volume is there at acceptable prices and can be cut off
      the front without splitting an 'All-Or-None' order. */
  lemma {:induction false} ChainIff(side: Side, s: seq<Order>, n: nat, price: nat, volume: nat, available: nat)
    requires n <= |s| && available < volume
    requires HaveLeaves(s)
    ensures Chain(Opposite(side), s, n, price, volume, available) ==
            if CutsAt(s[n..], volume - available) && volume - available <= Within(side, price, s[n..]) then volume
            else 0
    decreases |s| - n
  {
    hide Chain, CutsAt, Within;
    if n == |s| {
      NothingWithin(side, price, s[n..], volume - available);
      ChainEnds(Opposite(side), s, n, price, volume, available);
    } else {
      var t, rest := s[n..], volume - available;
      assert t[0] == s[n] && t[1..] == s[n + 1..];
      if !Accepts(side, price, s[n].price) {
        NothingWithin(side, price, t, rest);
        ChainEnds(Opposite(side), s, n, price, volume, available);
      } else {
        var q := if s[n].IsAON() then s[n].leaves else Min(s[n].leaves, rest);
        ChainWalk(Opposite(side), s, n, price, volume, available);
        ChainDecides(side, price, t, rest);
        if available + q < volume {
          ChainIff(side, s, n + 1, price, volume, available + q);
        }
      }
    }
  }

  lemma NothingWithin(side: Side, price: nat, s: seq<Order>, q: nat)
    requires q > 0 && (s == [] || !Accepts(side, price, s[0].price))
    ensures !(CutsAt(s, q) && q <= Within(side, price, s))
  {
  }

  // What the first order says about the volume that is still required.
  lemma ChainDecides(side: Side, price: nat, s: seq<Order>, rest: nat)
    requires s != [] && rest > 0 && s[0].leaves > 0 && Accepts(side, price, s[0].price)
    ensures var q := if s[0].IsAON() then s[0].leaves else Min(s[0].leaves, rest);
            var yes := CutsAt(s, rest) && rest <= Within(side, price, s);
            (q == rest ==> yes) && (q > rest ==> !yes) &&
            (q < rest ==> (yes <==> (CutsAt(s[1..], rest - q) && rest - q <= Within(side, price, s[1..]))))
  {
  }

  lemma ChainEnds(k: Kind, s: seq<Order>, n: nat, price: nat, volume: nat, available: nat)
    requires n <= |s| && available <= volume
    requires n < |s| ==> if IsBidLevel(k) then price > s[n].price else price < s[n].price
    ensures Chain(k, s, n, price, volume, available) == 0
  {
  }

  /** Executing a volume that can be cut off takes exactly that volume: no wrap-around, every
      'All-Or-None' order it meets whole, at most one order filled in part. */
  lemma {:induction false} ExecuteChainTakes(b: Book, k: Kind, price: nat, volume: nat)
    requires CutsAt(b.Get(k), volume) && HaveLeaves(b.Get(k))
    ensures ExecuteChain(b, k, price, volume).Get(k) == Take(b.Get(k), volume)
    decreases |b.Get(k)|
  {
    hide Hit, ExecuteChain;
    var s := b.Get(k);
    if volume == 0 {
      assert ExecuteChain(b, k, price, 0) == b by { NoVolume(b, k, price); }
    } else {
      var q := if s[0].IsAON() then s[0].leaves else Min(s[0].leaves, volume);
      ChainStep(b, k, price, volume);
      HitAtFront(b, k, price, q);
      if q == s[0].leaves {
        ExecuteChainTakes(Hit(b, k, 0, price, q), k, price, volume - q);
      } else {
        NoVolume(Hit(b, k, 0, price, q), k, price);
      }
    }
  }

  lemma NoVolume(b: Book, k: Kind, price: nat)
    ensures ExecuteChain(b, k, price, 0) == b
  {
  }

  /** A 'Fill-Or-Kill' order is filled entirely or leaves the book exactly as it was. */
  lemma WholeOrNothing(b: Book, o: Order)
    requires o.IsWhole() && 0 < o.leaves && HaveLeaves(b.Get(Opposite(o.side)))
    ensures var k := Opposite(o.side);
            var s := b.Get(k);
            var (b', o') := MatchOrder(b, o);
            if CutsAt(s, o.leaves) && o.leaves <= Within(o.side, o.price, s)
            then o'.leaves == 0 && o'.executed == o.executed + o.leaves && b'.Get(k) == Take(s, o.leaves) &&
                 forall j :: j != k ==> b'.Get(j) == b.Get(j)
            else (b', o') == (b, o)
  {
    var k := Opposite(o.side);
    var s := b.Get(k);
    assert s[0..] == s;
    ChainIff(o.side, s, 0, o.price, o.leaves, 0);
    if Chain(k, s, 0, o.price, o.leaves, 0) != 0 { ExecuteChainTakes(b, k, o.price, o.leaves); }
  }
}
