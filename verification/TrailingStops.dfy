/** Trailing stop orders: how far a stop price follows the market, and the recalculation of a whole
    tree of them, which moves orders to other levels while it walks over the levels. */
module TrailingStops {
  import opened Options
  import opened Orders
  import opened PriorityList

  // ---------- the trailing price

  // A distance or step: absolute when positive, in units of 0.01% of the market price when negative.
  function Absolute(value: int, distance: int, market: nat): int {
    if distance < 0 then ((-value * market) % TWO64) / 10000 else value
  }

  // The stop price at the full distance from the market.
  function Candidate(side: Side, distance: nat, market: nat): nat {
    if side == Buy then
      if market < Sub64(ORDER_INT_MAX, distance) then Add64(market, distance) else ORDER_INT_MAX
    else if market > distance then market - distance
    else 0
  }

  // A better stop price is taken when it is at least a step away.
  function Filtered(side: Side, current: nat, candidate: nat, step: int): nat {
    if side == Buy then
      if candidate < current && current - candidate >= step then candidate else current
    else if candidate > current && candidate - current >= step then candidate
    else current
  }

  function CalculateTrailingStopPrice(o: Order, market: nat): nat {
    var distance := Absolute(o.trailingDistance, o.trailingDistance, market);
    var step := Absolute(o.trailingStep, o.trailingDistance, market);
    Filtered(o.side, o.stopPrice, Candidate(o.side, distance, market), step)
  }

  predicate Settled(o: Order, market: nat) { CalculateTrailingStopPrice(o, market) == o.stopPrice }

  function DistanceAt(o: Order, market: nat): (d: nat)
    ensures o.trailingDistance >= 0 ==> d == o.trailingDistance
  {
    Absolute(o.trailingDistance, o.trailingDistance, market)
  }

  function StepAt(o: Order, market: nat): int { Absolute(o.trailingStep, o.trailingDistance, market) }

  function CandidateAt(o: Order, market: nat): nat { Candidate(o.side, DistanceAt(o, market), market) }

  // ---------- following the market

  predicate Ahead(side: Side, p: nat, q: nat) { if side == Buy then p < q else p > q }

  // The stop price of an order that follows one market price after the other.
  function Follow(o: Order, markets: seq<nat>): nat {
    if markets == [] then o.stopPrice
    else
      var n := |markets| - 1;
      CalculateTrailingStopPrice(o.(stopPrice := Follow(o, markets[..n])), markets[n])
  }

  // The best stop price there could have been so far, and the step that was required of it.
  function BestSoFar(o: Order, markets: seq<nat>): (nat, int) {
    if markets == [] then (o.stopPrice, 0)
    else
      var n := |markets| - 1;
      var (best, step) := BestSoFar(o, markets[..n]);
      var c := CandidateAt(o, markets[n]);
      if Ahead(o.side, c, best) then (c, StepAt(o, markets[n])) else (best, step)
  }

  /** No candidate and not the first stop price is ahead of the best one, which is one of them. */
  lemma {:induction false} BestIsBest(o: Order, markets: seq<nat>)
    ensures var (best, step) := BestSoFar(o, markets);
            !Ahead(o.side, o.stopPrice, best) &&
            (forall i :: 0 <= i < |markets| ==> !Ahead(o.side, CandidateAt(o, markets[i]), best)) &&
            ((best, step) == (o.stopPrice, 0) ||
             exists i :: 0 <= i < |markets| && (best, step) == (CandidateAt(o, markets[i]), StepAt(o, markets[i])))
  {
    if markets != [] {
      var n := |markets| - 1;
      hide CandidateAt, StepAt;
      BestIsBest(o, markets[..n]);
      assert forall i :: 0 <= i < n ==> markets[..n][i] == markets[i];
      var (best, step) := BestSoFar(o, markets[..n]);
      if Ahead(o.side, CandidateAt(o, markets[n]), best) {
        assert BestSoFar(o, markets) == (CandidateAt(o, markets[n]), StepAt(o, markets[n]));
      } else if (best, step) != (o.stopPrice, 0) {
        var i :| 0 <= i < n && (best, step) == (CandidateAt(o, markets[..n][i]), StepAt(o, markets[..n][i]));
        assert (best, step) == (CandidateAt(o, markets[i]), StepAt(o, markets[i]));
      }
    }
  }

  /** However the market moves, and whether distance and step are absolute or percentages, the stop price
      is the best one it could have had or less than that one's step short of it, and never beyond it. */
  lemma {:induction false} FollowsTheBest(o: Order, markets: seq<nat>)
    ensures var r, (best, step) := Follow(o, markets), BestSoFar(o, markets);
            if o.side == Buy then best <= r <= o.stopPrice && (r == best || r < best + step)
            else o.stopPrice <= r <= best && (r == best || best < r + step)
  {
    if markets != [] { FollowsTheBest(o, markets[..|markets| - 1]); }
  }

  /** At a fixed distance the best stop price is the first one, or as far from the best market price as
      the price range allows. */
  lemma FixedDistance(o: Order, markets: seq<nat>)
    requires 0 <= o.trailingDistance <= ORDER_INT_MAX
    ensures var best, d := BestSoFar(o, markets).0, o.trailingDistance;
            if o.side == Buy then
              best <= o.stopPrice && (forall i :: 0 <= i < |markets| ==> best <= markets[i] + d) &&
              (best == o.stopPrice || exists i :: 0 <= i < |markets| && best == Min(markets[i] + d, ORDER_INT_MAX))
            else
              best >= o.stopPrice && (forall i :: 0 <= i < |markets| ==> best >= markets[i] - d) &&
              (best == o.stopPrice || exists i :: 0 <= i < |markets| && best == Max(markets[i] - Min(markets[i], d), 0))
  {
    hide Candidate;
    BestIsBest(o, markets);
    var best := BestSoFar(o, markets).0;
    forall i | 0 <= i < |markets|
      ensures !Ahead(o.side, CandidateAt(o, markets[i]), best)
      ensures CandidateAt(o, markets[i]) == if o.side == Buy then Min(markets[i] + o.trailingDistance, ORDER_INT_MAX)
                                            else Max(markets[i] - Min(markets[i], o.trailingDistance), 0)
    {
      CandidateIsCapped(o.trailingDistance, markets[i]);
    }
  }

  /** Within machine words the distance is the plain one, capped at the ends of the price range. */
  lemma CandidateIsCapped(distance: nat, market: nat)
    requires distance <= ORDER_INT_MAX
    ensures Candidate(Buy, distance, market) == Min(market + distance, ORDER_INT_MAX)
    ensures Candidate(Sell, distance, market) == Max(market - Min(market, distance), 0)
  {
  }

  /** The stop price moves exactly when the price at the distance from the market is ahead of it by at least the
      step, and then to that price. */
  lemma MovesIff(o: Order, market: nat)
    requires Computable(o, market)
    ensures var stop, d, step := CalculateTrailingStopPrice(o, market), DistanceAt(o, market), StepAt(o, market);
            var c := if o.side == Buy then Min(market + d, ORDER_INT_MAX) else if market > d then market - d else 0;
            var gain := if o.side == Buy then o.stopPrice - c else c - o.stopPrice;
            stop == if gain > 0 && gain >= step then c else o.stopPrice
  {
    assert DistanceAt(o, market) <= ORDER_INT_MAX by { DistanceIs(o, market); }
    hide Absolute, Computable;
    CandidateIsCapped(DistanceAt(o, market), market);
  }

  /** Distance and step are absolute, or percentages of the market price, rounded down. */
  lemma DistanceIs(o: Order, market: nat)
    requires Computable(o, market)
    ensures var d, step := DistanceAt(o, market), StepAt(o, market);
            d <= ORDER_INT_MAX &&
            if o.trailingDistance > 0 then d == o.trailingDistance && step == o.trailingStep
            else IsShare(d, -o.trailingDistance, market) && IsShare(step, -o.trailingStep, market)
  {
    if o.trailingDistance < 0 {
      hide Absolute, IsShare;
      ProductGrows(-o.trailingStep, -o.trailingDistance, market);
      ShareIs(o.trailingDistance, o.trailingDistance, market);
      ShareIs(o.trailingStep, o.trailingDistance, market);
    }
  }

  lemma ProductGrows(x: nat, y: nat, m: nat)
    requires x <= y
    ensures 0 <= x * m <= y * m
  {
  }

  lemma ShareIs(value: int, distance: int, market: nat)
    requires value <= 0 && distance < 0 && 0 <= -value * market < TWO64
    ensures IsShare(Absolute(value, distance, market), -value, market)
    ensures Absolute(value, distance, market) <= ORDER_INT_MAX
  {
    var x := -value * market;
    Share(x);
  }

  lemma Share(x: nat)
    requires x < TWO64
    ensures var n := (x % TWO64) / 10000; 10000 * n <= x < 10000 * (n + 1) && n <= ORDER_INT_MAX
  {
  }

  // So many units of 0.01% of a price, rounded down.
  predicate IsShare(n: int, units: int, price: nat) { 10000 * n <= units * price < 10000 * (n + 1) }

  /** Whatever the market does next, the stop price never moves back. */
  lemma {:induction false} NeverMovesBack(o: Order, markets: seq<nat>, more: seq<nat>)
    ensures !Ahead(o.side, Follow(o, markets), Follow(o, markets + more))
  {
    if more == [] {
      assert markets + more == markets;
    } else {
      var n := |more| - 1;
      assert (markets + more)[..|markets| + n] == markets + more[..n];
      NeverMovesBack(o, markets, more[..n]);
    }
  }

  // ---------- an order at its new stop price

  /** The limit of a stop-limit order keeps its distance from the stop price, in 64-bit arithmetic. */
  function Recalculated(o: Order, market: nat): Order {
    var stop := CalculateTrailingStopPrice(o, market);
    if stop == o.stopPrice then o
    else if o.typ == StopLimit then o.(stopPrice := stop, price := Add64(stop, Sub64(o.price, o.stopPrice)))
    else o.(stopPrice := stop)
  }

  lemma OffsetKept(o: Order, market: nat)
    requires o.typ == StopLimit && o.price < TWO64 && o.stopPrice < TWO64
    ensures var r := Recalculated(o, market);
            (r.price - r.stopPrice - (o.price - o.stopPrice)) % TWO64 == 0
  {
    hide CalculateTrailingStopPrice;
    var r := Recalculated(o, market);
    if r != o {
      var diff := Sub64(o.price, o.stopPrice);
      assert diff == (o.price - o.stopPrice) || diff == o.price - o.stopPrice + TWO64;
      var sum := r.stopPrice + diff;
      assert sum == TWO64 * (sum / TWO64) + r.price;
      var c := sum / TWO64;
      if diff == o.price - o.stopPrice {
        MultipleOf(-c);
      } else {
        MultipleOf(1 - c);
      }
    }
  }

  lemma MultipleOf(c: int)
    ensures (c * TWO64) % TWO64 == 0
  {
  }

  // A recalculated order stays where it is while the market does.
  lemma RecalculatedIsSettled(o: Order, market: nat)
    ensures Settled(Recalculated(o, market), market)
    ensures Recalculated(Recalculated(o, market), market) == Recalculated(o, market)
    ensures Settled(o, market) <==> Recalculated(o, market) == o
  {
  }

  // Its new level lies before the old one.
  lemma RecalculatedIsBetter(k: Kind, o: Order, market: nat)
    requires if k == BuyStops then o.side == Buy else k == SellStops && o.side == Sell
    ensures !Settled(o, market) ==> Better(k, Recalculated(o, market).stopPrice, o.stopPrice)
  {
  }

  // What the validation of an order demands of distance and step: a percentage is at most ten.
  predicate Trails(o: Order) {
    if o.trailingDistance > 0 then 0 <= o.trailingStep < o.trailingDistance
    else -1000 <= o.trailingDistance < 0 && o.trailingDistance < o.trailingStep <= 0
  }

  /** Distances that 64-bit arithmetic computes without wrap-around. */
  predicate Computable(o: Order, market: nat) {
    Trails(o) && o.trailingDistance <= ORDER_INT_MAX &&
    (o.trailingDistance < 0 ==> -o.trailingDistance * market < TWO64)
  }

  /** A sell order whose step, a percentage, has shrunk with the market below what it is short of its
      candidate. */
  predicate Slips(o: Order, market: nat, next: nat) {
    o.side == Sell && o.trailingDistance < 0 && CandidateAt(o, next) > o.stopPrice &&
    StepAt(o, next) <= CandidateAt(o, next) - o.stopPrice < StepAt(o, market)
  }

  /** A market that moves away unsettles an order exactly when the order slips. So buys, sells with an
      absolute distance, and sells whose step has not shrunk stay settled. */
  lemma StaysSettledIff(o: Order, market: nat, next: nat)
    requires Settled(o, market) && Computable(o, market) && Computable(o, next)
    requires if o.side == Buy then market <= next else next <= market
    ensures Settled(o, next) <==> !Slips(o, market, next)
    ensures StepAt(o, next) >= StepAt(o, market) ==> Settled(o, next)
  {
    hide Candidate;
    var d, d' := DistanceAt(o, market), DistanceAt(o, next);
    if o.side == Buy {
      if o.trailingDistance < 0 {
        Percent(-o.trailingDistance, market, next);
        StepRises(o, market, next);
      }
      CandidateRises(d, d', market, next);
    } else {
      if o.trailingDistance < 0 {
        PercentShare(-o.trailingDistance, next, market);
        StepRises(o, next, market);
      }
      CandidateFalls(d, d', market, next);
    }
  }

  /** So a skipped recalculation leaves a tree settled, of orders that were settled at the last one or are
      settled now, exactly when no order slips. */
  lemma SkippedTreeIff(k: Kind, s: seq<Order>, last: nat, market: nat)
    requires (k == BuyStops || k == SellStops) && TreeOk(k, s)
    requires if k == BuyStops then last <= market else market <= last
    requires forall i :: 0 <= i < |s| ==> Computable(s[i], last) && Computable(s[i], market)
    requires forall i :: 0 <= i < |s| ==> Settled(s[i], last) || Settled(s[i], market)
    ensures AllSettled(s, market) <==> forall i :: 0 <= i < |s| ==> !Slips(s[i], last, market)
  {
    hide Computable, Trails;
    forall i | 0 <= i < |s| ensures Settled(s[i], market) <==> !Slips(s[i], last, market) {
      if Settled(s[i], last) { StaysSettledIff(s[i], last, market); } else { SlipsMoves(s[i], last, market); }
    }
  }

  lemma SlipsMoves(o: Order, last: nat, market: nat)
    ensures Slips(o, last, market) ==> !Settled(o, market)
  {
  }

  /** A sell order two percent away, with a step of one, is settled at 200 and not at 199: its candidate
      stays at 196, and its step falls from 2 to 1. */
  lemma PercentSellSlips()
    ensures var o := Order(1, 0, Stop, Sell, 0, 195, 5, 0, 5, GTC, ORDER_INT_MAX, ORDER_INT_MAX, -200, -100);
            o.Validate() == OK && Computable(o, 200) && Computable(o, 199) &&
            Settled(o, 200) && Slips(o, 200, 199) && !Settled(o, 199)
  {
  }

  lemma StepRises(o: Order, market: nat, next: nat)
    requires Trails(o) && o.trailingDistance < 0 && market <= next && -o.trailingDistance * next < TWO64
    ensures StepAt(o, market) <= StepAt(o, next)
  {
    var p, q := -o.trailingDistance, -o.trailingStep;
    assert q * market <= q * next && q * next <= p * next;
    ShareOfMore(q * market, q * next);
  }

  // A percentage of a price rises no faster than the price.
  lemma PercentShare(p: nat, m: nat, n: nat)
    requires m <= n && p <= 10000 && p * n < TWO64
    ensures ((p * m) % TWO64) / 10000 <= ((p * n) % TWO64) / 10000 <= ((p * m) % TWO64) / 10000 + (n - m)
  {
    var c := n - m;
    assert p * n == p * m + p * c && 0 <= p * c <= 10000 * c;
    ShareOfSum(p * m, p * n, c);
  }

  lemma ShareOfSum(a: nat, b: nat, c: nat)
    requires a <= b <= a + 10000 * c && b < TWO64
    ensures (a % TWO64) / 10000 <= (b % TWO64) / 10000 <= (a % TWO64) / 10000 + c
    ensures (b % TWO64) / 10000 <= ORDER_INT_MAX
  {
  }

  lemma Percent(p: nat, m: nat, n: nat)
    requires m <= n && p * n < TWO64
    ensures ((p * m) % TWO64) / 10000 <= ((p * n) % TWO64) / 10000 <= ORDER_INT_MAX
  {
    assert p * m <= p * n;
    ShareOfMore(p * m, p * n);
  }

  lemma ShareOfMore(a: nat, b: nat)
    requires a <= b < TWO64
    ensures (a % TWO64) / 10000 <= (b % TWO64) / 10000 <= ORDER_INT_MAX
  {
  }

  lemma CandidateRises(d: nat, d': nat, market: nat, next: nat)
    requires d <= d' <= ORDER_INT_MAX && market <= next
    ensures Candidate(Buy, d, market) <= Candidate(Buy, d', next)
  {
  }

  lemma CandidateFalls(d: nat, d': nat, market: nat, next: nat)
    requires next <= market && d' <= d <= d' + (market - next)
    ensures Candidate(Sell, d', next) <= Candidate(Sell, d, market)
  {
  }

  // ---------- the recalculation of a tree

  ghost predicate AllSettled(s: seq<Order>, market: nat) { forall i :: 0 <= i < |s| ==> Settled(s[i], market) }

  function Unsettled(s: seq<Order>, market: nat): nat {
    if s == [] then 0 else (if Settled(s[0], market) then 0 else 1) + Unsettled(s[1..], market)
  }

  // Every order at the stop price it has in the end.
  function Targets(s: seq<Order>, market: nat): (t: seq<Order>)
    ensures |t| == |s| && forall i :: 0 <= i < |s| ==> t[i] == Recalculated(s[i], market)
  {
    if s == [] then [] else [Recalculated(s[0], market)] + Targets(s[1..], market)
  }

  lemma {:induction false} SumsOfParts(s: seq<Order>, t: seq<Order>, market: nat)
    ensures Unsettled(s + t, market) == Unsettled(s, market) + Unsettled(t, market)
    ensures multiset(Targets(s + t, market)) == multiset(Targets(s, market)) + multiset(Targets(t, market))
  {
    if s == [] {
      assert s + t == t;
    } else {
      assert (s + t)[1..] == s[1..] + t;
      SumsOfParts(s[1..], t, market);
      assert Targets(s + t, market) == [Recalculated(s[0], market)] + Targets(s[1..] + t, market);
      assert Targets(s, market) == [Recalculated(s[0], market)] + Targets(s[1..], market);
    }
  }

  lemma {:induction false} SettledTargets(s: seq<Order>, market: nat)
    requires AllSettled(s, market)
    ensures Targets(s, market) == s && Unsettled(s, market) == 0
  {
    if s != [] { SettledTargets(s[1..], market); }
  }

  // The orders of one side's tree of trailing stop orders, by stop price and time.
  ghost predicate TreeOk(k: Kind, s: seq<Order>) {
    Sorted(k, s) && Distinct(s) &&
    forall i :: 0 <= i < |s| ==> (s[i].side == Buy <==> k == BuyStops) && (s[i].typ == Stop || s[i].typ == StopLimit)
  }

  function Moved(k: Kind, s: seq<Order>, n: nat, market: nat): seq<Order>
    requires n < |s|
  {
    Insert(k, RemoveAt(s, n), Recalculated(s[n], market))
  }

  /** Moving an unsettled order puts it in front of its old place, settled, and leaves everything
      behind its old place where it was. */
  lemma MovedForward(k: Kind, s: seq<Order>, n: nat, market: nat) returns (p: nat)
    requires (k == BuyStops || k == SellStops) && TreeOk(k, s) && n < |s| && !Settled(s[n], market)
    ensures var o := Recalculated(s[n], market);
            p <= n && Moved(k, s, n, market) == s[..p] + [o] + s[p..n] + s[n + 1..] &&
            (forall i :: 0 <= i < p ==> !Better(k, Key(k, o), Key(k, s[i]))) &&
            (forall i :: p <= i < |s| ==> Better(k, Key(k, o), Key(k, s[i])))
  {
    hide Recalculated, Insert, Better, Distinct, CalculateTrailingStopPrice;
    var o := Recalculated(s[n], market);
    var r := RemoveAt(s, n);
    RecalculatedKey(k, s[n], market);
    RemovedSorted(k, s, n);
    p := InsertAt(k, r, o);
    BehindIsWorse(k, s, n, o);
    ForwardPlace(k, s, n, p, o);
  }

  // The place of a better order in the list without it.
  lemma ForwardPlace(k: Kind, s: seq<Order>, n: nat, p: nat, o: Order)
    requires n < |s| && p <= |RemoveAt(s, n)|
    requires forall i :: 0 <= i < p ==> !Better(k, Key(k, o), Key(k, RemoveAt(s, n)[i]))
    requires forall i :: p <= i < |RemoveAt(s, n)| ==> Better(k, Key(k, o), Key(k, RemoveAt(s, n)[i]))
    requires forall i :: n <= i < |s| ==> Better(k, Key(k, o), Key(k, s[i]))
    ensures p <= n && RemoveAt(s, n)[..p] + [o] + RemoveAt(s, n)[p..] == s[..p] + [o] + s[p..n] + s[n + 1..]
    ensures forall i :: 0 <= i < p ==> !Better(k, Key(k, o), Key(k, s[i]))
    ensures forall i :: p <= i < |s| ==> Better(k, Key(k, o), Key(k, s[i]))
  {
    hide Better, Key;
    var r := RemoveAt(s, n);
    assert forall i :: 0 <= i < |r| ==> r[i] == s[if i < n then i else i + 1];
    if n < |r| { assert r[n] == s[n + 1]; }
    assert r[..p] == s[..p] && r[p..] == s[p..n] + s[n + 1..];
    forall i | 0 <= i < n ensures r[i] == s[i] {}
  }

  lemma RecalculatedKey(k: Kind, o: Order, market: nat)
    requires if k == BuyStops then o.side == Buy else k == SellStops && o.side == Sell
    ensures !Settled(o, market) ==> Better(k, Key(k, Recalculated(o, market)), Key(k, o))
  {
    RecalculatedIsBetter(k, o, market);
  }

  lemma RemovedSorted(k: Kind, s: seq<Order>, n: nat)
    requires Sorted(k, s) && n < |s|
    ensures Sorted(k, RemoveAt(s, n))
  {
    assert forall i :: 0 <= i < |s| - 1 ==> RemoveAt(s, n)[i] == s[if i < n then i else i + 1];
  }

  lemma BehindIsWorse(k: Kind, s: seq<Order>, n: nat, o: Order)
    requires Sorted(k, s) && n < |s| && Better(k, Key(k, o), Key(k, s[n]))
    ensures forall i :: n <= i < |s| ==> Better(k, Key(k, o), Key(k, s[i]))
  {
    forall i | n < i < |s| ensures Better(k, Key(k, o), Key(k, s[i])) {
      assert !Better(k, Key(k, s[i]), Key(k, s[n]));
    }
  }

  lemma MovedOk(k: Kind, s: seq<Order>, n: nat, market: nat)
    requires (k == BuyStops || k == SellStops) && TreeOk(k, s) && n < |s| && !Settled(s[n], market)
    ensures TreeOk(k, Moved(k, s, n, market)) && |Moved(k, s, n, market)| == |s|
    ensures forall i :: n < i < |s| ==> Moved(k, s, n, market)[i] == s[i]
    ensures !Better(k, Key(k, s[n]), Key(k, Moved(k, s, n, market)[n]))
    ensures forall price :: PriceBefore(k, s, n, price) ==> PriceBefore(k, Moved(k, s, n, market), n + 1, price)
  {
    var p := MovedForward(k, s, n, market);
    var o, t := Recalculated(s[n], market), Moved(k, s, n, market);
    hide Recalculated, Insert;
    ShiftedOk(k, s, p, n, o, t);
    ShiftedPrices(k, s, p, n, o, t);
  }

  // Where the elements come from when the one at n goes to p.
  function From(p: nat, n: nat, i: nat): nat
    requires p <= n
  {
    if i < p then i else if i == p then n else if i <= n then i - 1 else i
  }

  predicate Shifted(s: seq<Order>, p: nat, n: nat, o: Order, t: seq<Order>) {
    p <= n < |s| && |t| == |s| && t[p] == o && forall i :: 0 <= i < |t| && i != p ==> t[i] == s[From(p, n, i)]
  }

  lemma ShiftedIs(s: seq<Order>, p: nat, n: nat, o: Order)
    requires p <= n < |s|
    ensures Shifted(s, p, n, o, s[..p] + [o] + s[p..n] + s[n + 1..])
  {
  }

  lemma ShiftedOk(k: Kind, s: seq<Order>, p: nat, n: nat, o: Order, t: seq<Order>)
    requires TreeOk(k, s) && p <= n < |s| && t == s[..p] + [o] + s[p..n] + s[n + 1..]
    requires o.id == s[n].id && o.side == s[n].side && o.typ == s[n].typ
    requires forall i :: 0 <= i < p ==> !Better(k, Key(k, o), Key(k, s[i]))
    requires forall i :: p <= i < |s| ==> Better(k, Key(k, o), Key(k, s[i]))
    ensures TreeOk(k, t) && |t| == |s|
    ensures forall i :: n < i < |s| ==> t[i] == s[i]
  {
    hide Better, Key;
    ShiftedIs(s, p, n, o);
    forall i, j | 0 <= i < j < |t| ensures !Better(k, Key(k, t[j]), Key(k, t[i])) && t[i].id != t[j].id {
      var f, g := From(p, n, i), From(p, n, j);
      if i == p {
        assert t[j] == s[g];
        BetterAsymmetric(k, Key(k, o), Key(k, s[g]));
      } else if j == p {
        assert t[i] == s[f];
      } else {
        assert t[i] == s[f] && t[j] == s[g];
      }
    }
  }

  lemma ShiftedPrices(k: Kind, s: seq<Order>, p: nat, n: nat, o: Order, t: seq<Order>)
    requires Sorted(k, s) && p <= n < |s| && t == s[..p] + [o] + s[p..n] + s[n + 1..]
    requires Better(k, Key(k, o), Key(k, s[n]))
    ensures |t| == |s| && !Better(k, Key(k, s[n]), Key(k, t[n]))
    ensures forall price :: PriceBefore(k, s, n, price) ==> PriceBefore(k, t, n + 1, price)
  {
    ShiftedIs(s, p, n, o);
    if p < n { assert t[n] == s[n - 1]; }
    forall price | PriceBefore(k, s, n, price) ensures PriceBefore(k, t, n + 1, price) {
      var i :| 0 <= i < n && Key(k, s[i]) == price;
      assert t[if i < p then i else i + 1] == s[i];
    }
  }

  // The level of a price has an order before position n.
  predicate PriceBefore(k: Kind, s: seq<Order>, n: nat, price: nat)
    requires n <= |s|
  {
    exists i :: 0 <= i < n && Key(k, s[i]) == price
  }

  // Sums do not depend on where in the list an order is.
  lemma ShiftedSums(a: seq<Order>, c: seq<Order>, d: seq<Order>, x: Order, y: Order, market: nat)
    requires y == Recalculated(x, market) && !Settled(x, market)
    ensures Unsettled(a + [y] + c + d, market) < Unsettled(a + c + [x] + d, market)
    ensures multiset(Targets(a + [y] + c + d, market)) == multiset(Targets(a + c + [x] + d, market))
  {
    RecalculatedIsSettled(x, market);
    hide Settled, Recalculated;
    SumsOfParts(a + c + [x], d, market);
    SumsOfParts(a + c, [x], market);
    SumsOfParts(a, c, market);
    SumsOfParts(a + [y] + c, d, market);
    SumsOfParts(a + [y], c, market);
    SumsOfParts(a, [y], market);
    OneOrder(x, market);
    OneOrder(y, market);
  }

  lemma OneOrder(o: Order, market: nat)
    ensures Unsettled([o], market) == (if Settled(o, market) then 0 else 1) &&
            Targets([o], market) == [Recalculated(o, market)]
  {
    assert [o][1..] == [];
  }

  lemma MovedSums(k: Kind, s: seq<Order>, n: nat, market: nat)
    requires (k == BuyStops || k == SellStops) && TreeOk(k, s) && n < |s| && !Settled(s[n], market)
    ensures var t := Moved(k, s, n, market);
            Unsettled(t, market) < Unsettled(s, market) && multiset(Targets(t, market)) == multiset(Targets(s, market))
  {
    var p := MovedForward(k, s, n, market);
    assert s == s[..p] + s[p..n] + [s[n]] + s[n + 1..];
    ShiftedSums(s[..p], s[p..n], s[n + 1..], s[n], Recalculated(s[n], market), market);
  }

  // Settled orders before the old place stay settled, and the moved one has become so.
  lemma MovedSettled(k: Kind, s: seq<Order>, n: nat, market: nat)
    requires (k == BuyStops || k == SellStops) && TreeOk(k, s) && n < |s| && !Settled(s[n], market)
    requires forall i :: 0 <= i < n ==> Settled(s[i], market)
    ensures |Moved(k, s, n, market)| == |s| && forall i :: 0 <= i <= n ==> Settled(Moved(k, s, n, market)[i], market)
  {
    var p := MovedForward(k, s, n, market);
    RecalculatedIsSettled(s[n], market);
    var o := Recalculated(s[n], market);
    hide Settled, Insert, Recalculated;
    var t := Moved(k, s, n, market);
    assert forall i :: 0 <= i <= n ==> t[i] == if i < p then s[i] else if i == p then o else s[i - 1];
  }

  // Where a level begins.
  lemma LevelIndex(k: Kind, s: seq<Order>, price: nat) returns (n: nat)
    requires HasPrice(k, s, price)
    ensures n < |s| && Key(k, s[n]) == price && forall i :: 0 <= i < n ==> Key(k, s[i]) != price
  {
    n := 0;
    while Key(k, s[n]) != price
      invariant n < |s| && forall i :: 0 <= i < n ==> Key(k, s[i]) != price
      decreases |s| - n
    {
      n := n + 1;
    }
  }

  ghost predicate SettledTo(s: seq<Order>, n: nat, market: nat) {
    n <= |s| && forall i :: 0 <= i < n ==> Settled(s[i], market)
  }

  lemma SettledAll(s: seq<Order>, n: nat, market: nat)
    requires SettledTo(s, n, market) && n >= |s|
    ensures AllSettled(s, market)
  {
  }

  /** A level being recalculated, from its begin up to `end`: s0 is the tree before. Everything before
      `done`, the end of the levels walked so far, was settled already. */
  ghost predicate Walked(k: Kind, s0: seq<Order>, s: seq<Order>, done: nat, end: nat, level: nat, market: nat,
                         recalculated: bool, previous: Option<nat>)
  {
    TreeOk(k, s) && |s| == |s0| && done <= |s0| && end <= |s0| &&
    multiset(Targets(s, market)) == multiset(Targets(s0, market)) &&
    SettledTo(s, done, market) && SettledTo(s, end, market) &&
    (if recalculated then Unsettled(s, market) < Unsettled(s0, market) && done < end else s == s0) &&
    (previous.Some? ==> PriceBefore(k, s, if end > done then end else done, previous.value))
  }

  // The next order of the level stays, or moves forward.
  lemma WalkStep(k: Kind, s0: seq<Order>, s: seq<Order>, done: nat, end: nat, level: nat, market: nat,
                 recalculated: bool, previous: Option<nat>)
    requires k == BuyStops || k == SellStops
    requires Walked(k, s0, s, done, end, level, market, recalculated, previous) && end < |s| && Key(k, s[end]) == level
    ensures var moves := !Settled(s[end], market);
            var t := if moves then Moved(k, s, end, market) else s;
            Walked(k, s0, t, done, end + 1, level, market, recalculated || moves, previous) &&
            (forall i :: end < i < |s| ==> t[i] == s[i]) && !Better(k, level, Key(k, t[end]))
  {
    hide Walked, Settled, Moved;
    if !Settled(s[end], market) {
      WalkMove(k, s0, s, done, end, level, market, recalculated, previous);
    } else {
      WalkStay(k, s0, s, done, end, level, market, recalculated, previous);
    }
  }

  lemma WalkStay(k: Kind, s0: seq<Order>, s: seq<Order>, done: nat, end: nat, level: nat, market: nat,
                 recalculated: bool, previous: Option<nat>)
    requires Walked(k, s0, s, done, end, level, market, recalculated, previous) && end < |s| && Key(k, s[end]) == level
    requires Settled(s[end], market)
    ensures Walked(k, s0, s, done, end + 1, level, market, recalculated, previous) && !Better(k, level, Key(k, s[end]))
  {
    hide Settled, TreeOk, Unsettled, Targets, PriceBefore;
    if previous.Some? {
      PriceStays(k, s, if end > done then end else done, if end + 1 > done then end + 1 else done, previous.value);
    }
  }

  lemma PriceStays(k: Kind, s: seq<Order>, m: nat, n: nat, price: nat)
    requires m <= n <= |s| && PriceBefore(k, s, m, price)
    ensures PriceBefore(k, s, n, price)
  {
  }

  lemma WalkMove(k: Kind, s0: seq<Order>, s: seq<Order>, done: nat, end: nat, level: nat, market: nat,
                 recalculated: bool, previous: Option<nat>)
    requires k == BuyStops || k == SellStops
    requires Walked(k, s0, s, done, end, level, market, recalculated, previous) && end < |s| && Key(k, s[end]) == level
    requires !Settled(s[end], market)
    ensures var t := Moved(k, s, end, market);
            Walked(k, s0, t, done, end + 1, level, market, true, previous) &&
            (forall i :: end < i < |s| ==> t[i] == s[i]) && !Better(k, level, Key(k, t[end]))
  {
    hide Settled, Moved, TreeOk, Unsettled, Targets, Recalculated;
    assert end >= done;
    MovedOk(k, s, end, market);
    MovedSums(k, s, end, market);
    MovedSettled(k, s, end, market);
  }

  /** One side's tree of trailing stop orders. */
  class TrailingTree {
    const kind: Kind
    var orders: seq<Order>

    // The market price of the last recalculation.
    var trailingPrice: nat

    ghost predicate Valid()
      reads this
    {
      (kind == BuyStops || kind == SellStops) && TreeOk(kind, orders)
    }

    constructor (kind: Kind)
      requires kind == BuyStops || kind == SellStops
      ensures Valid() && this.kind == kind && orders == []
      ensures trailingPrice == if kind == BuyStops then ORDER_INT_MAX else 0
    {
      this.kind := kind;
      orders := [];
      trailingPrice := if kind == BuyStops then ORDER_INT_MAX else 0;
    }

    // The market price that this side's stop prices trail: the last trade price of the opposite side or
    // its best level, whichever is further away from the stops.
    function MarketTrailingStopPrice(last: nat, level: nat): nat {
      if kind == BuyStops then Max(last, level) else Min(last, level)
    }

    // The market has not moved towards better stop prices.
    predicate MovedAway(market: nat)
      reads this
    {
      if kind == BuyStops then market >= trailingPrice else market <= trailingPrice
    }

    function BestLevel(): Option<nat>
      reads this
    {
      if orders == [] then None else Some(Key(kind, orders[0]))
    }

    /** Recalculates all stop prices, unless the opposite side of the book, best ask for buys and best bid
        for sells, has no level or the market has moved away. After a level in which some order has
        moved, the walk goes back to the level before it. */
    method RecalculateTrailingStopPrice(level: Option<nat>, last: nat)
      requires Valid()
      modifies this
      ensures Valid()
      ensures if level == None then trailingPrice == old(trailingPrice) && orders == old(orders)
              else
                var market := MarketTrailingStopPrice(last, level.value);
                trailingPrice == market &&
                if old(MovedAway(market)) then orders == old(orders)
                else AllSettled(orders, market) && multiset(orders) == multiset(Targets(old(orders), market))
    {
      hide Settled, TreeOk;
      if level == None {
        return;
      }
      var market := MarketTrailingStopPrice(last, level.value);
      var away := MovedAway(market);
      trailingPrice := market;
      if !away {
        RecalculateLevels(market);
      }
    }

    // The walk over the levels.
    method RecalculateLevels(market: nat)
      requires Valid()
      modifies this`orders
      ensures Valid() && AllSettled(orders, market) && multiset(orders) == multiset(Targets(old(orders), market))
    {
      hide Settled, TreeOk, Sorted, Key, AllSettled;
      var previous: Option<nat> := None;
      var current := BestLevel();
      // Level `current` begins at n; everything before `done` is settled.
      ghost var n: nat, done: nat := 0, 0;
      while current.Some?
        invariant Valid()
        invariant multiset(Targets(orders, market)) == multiset(Targets(old(orders), market))
        invariant n <= done && SettledTo(orders, done, market)
        invariant match current
                  case Some(p) => n < |orders| && Key(kind, orders[n]) == p && LevelBegins(kind, orders, n)
                  case None => n == |orders|
        invariant previous.Some? ==> PriceBefore(kind, orders, done, previous.value)
        decreases Unsettled(orders, market), |orders| - n
      {
        ghost var end;
        var recalculated;
        recalculated, end := RecalculateLevel(current.value, market, n, done, previous);
        done := if end > done then end else done;
        if recalculated {
          current := if previous.Some? then previous else BestLevel();
          n := LevelIndex(kind, orders, current.value);
          IndexBefore(kind, orders, done, n, current.value);
        } else {
          previous := current;
          TreeSorted(kind, orders);
          LevelEndsAt(kind, orders, end);
          current := NextPrice(kind, orders, current.value);
          n := end;
        }
      }
      SettledAll(orders, done, market);
      SettledTargets(orders, market);
    }

    // The orders of one level. An order that moves leaves the level; the saved next one stays in it.
    method RecalculateLevel(level: nat, market: nat, ghost n: nat, ghost done: nat, ghost previous: Option<nat>)
      returns (recalculated: bool, ghost end: nat)
      requires Valid() && n <= done && SettledTo(orders, done, market)
      requires n < |orders| && Key(kind, orders[n]) == level && LevelBegins(kind, orders, n)
      requires previous.Some? ==> PriceBefore(kind, orders, done, previous.value)
      modifies this`orders
      ensures Walked(kind, old(orders), orders, done, end, level, market, recalculated, previous)
      ensures n < end && LevelBegins(kind, orders, end) && (!recalculated ==> Key(kind, orders[end - 1]) == level)
    {
      hide Walked, Settled, TreeOk, Moved, Queue;
      recalculated, end := false, n;
      TreeSorted(kind, orders);
      LevelStart(kind, orders, n);
      WalkBegins(kind, orders, done, n, level, market, previous);
      var order := Some(Queue(kind, orders, level)[0].id);
      while order.Some?
        invariant Walked(kind, old(orders), orders, done, end, level, market, recalculated, previous)
        invariant |orders| == |old(orders)| && n <= end <= |orders| && (n == end ==> order.Some?)
        invariant order.Some? ==> end < |orders| && orders[end].id == order.value && Key(kind, orders[end]) == level
        invariant order.None? ==> end == |orders| || Better(kind, level, Key(kind, orders[end]))
        invariant n < end ==> !Better(kind, level, Key(kind, orders[end - 1]))
        invariant !recalculated ==> orders == old(orders) && (n < end ==> Key(kind, orders[end - 1]) == level)
        decreases |orders| - end
      {
        WalkedTree(kind, old(orders), orders, done, end, level, market, recalculated, previous);
        OnlyIndex(kind, orders, end);
        WalkStep(kind, old(orders), orders, done, end, level, market, recalculated, previous);
        var i := IndexOf(orders, order.value);
        var o := orders[i];
        var next := NextInLevel(kind, orders, i);
        if CalculateTrailingStopPrice(o, market) != o.stopPrice {
          SettledMeans(o, market);
          orders := Moved(kind, orders, i, market);
          recalculated := true;
        } else {
          SettledMeans(o, market);
        }
        WalkedTree(kind, old(orders), orders, done, end + 1, level, market, recalculated, previous);
        order := next;
        end := end + 1;
      }
    }
  }

  lemma SettledMeans(o: Order, market: nat)
    ensures Settled(o, market) <==> CalculateTrailingStopPrice(o, market) == o.stopPrice
  {
  }

  lemma WalkBegins(k: Kind, s: seq<Order>, done: nat, n: nat, level: nat, market: nat, previous: Option<nat>)
    requires TreeOk(k, s) && n <= done && SettledTo(s, done, market)
    requires previous.Some? ==> PriceBefore(k, s, done, previous.value)
    ensures Walked(k, s, s, done, n, level, market, false, previous)
  {
  }

  lemma WalkedTree(k: Kind, s0: seq<Order>, s: seq<Order>, done: nat, end: nat, level: nat, market: nat,
                   recalculated: bool, previous: Option<nat>)
    requires Walked(k, s0, s, done, end, level, market, recalculated, previous)
    ensures TreeOk(k, s) && |s| == |s0| && end <= |s| && (!recalculated ==> s == s0)
  {
  }

  lemma TreeSorted(k: Kind, s: seq<Order>)
    requires TreeOk(k, s)
    ensures Sorted(k, s)
  {
  }

  // An order pointer leads to one place.
  lemma OnlyIndex(k: Kind, s: seq<Order>, n: nat)
    requires TreeOk(k, s) && n < |s|
    ensures Has(s, s[n].id) && IndexOf(s, s[n].id) == n
    ensures match NextInLevel(k, s, n)
            case Some(id) => s[n + 1].id == id && Key(k, s[n + 1]) == Key(k, s[n])
            case None => n + 1 == |s| || Better(k, Key(k, s[n]), Key(k, s[n + 1]))
  {
    assert Distinct(s);
    if n + 1 < |s| { assert !Better(k, Key(k, s[n + 1]), Key(k, s[n])); }
  }

  lemma IndexBefore(k: Kind, s: seq<Order>, done: nat, n: nat, price: nat)
    requires n < |s| && done <= |s| && Key(k, s[n]) == price && forall i :: 0 <= i < n ==> Key(k, s[i]) != price
    ensures LevelBegins(k, s, n) && (n == 0 || PriceBefore(k, s, done, price) ==> n <= done)
  {
  }

  // A position where a level begins, or the list ends.
  predicate LevelBegins(k: Kind, s: seq<Order>, n: nat)
    requires n <= |s|
  {
    0 < n < |s| ==> Key(k, s[n - 1]) != Key(k, s[n])
  }

  lemma LevelEndsAt(k: Kind, s: seq<Order>, n: nat)
    requires Sorted(k, s) && 0 < n <= |s| && LevelBegins(k, s, n)
    ensures NextPrice(k, s, Key(k, s[n - 1])) == if n < |s| then Some(Key(k, s[n])) else None
  {
    LevelEnd(k, s, n);
  }
}
