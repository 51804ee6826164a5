/** Price levels. A ladder is the in-order list of the levels of one tree, best price first. */
module Ladder {
  import opened Options
  import opened Orders
  import opened PriorityList

  datatype Level = Level(price: nat, total: int, hidden: int, visible: int, orders: int, queue: seq<Order>)

  function HiddenSum(s: seq<Order>): nat { if s == [] then 0 else s[0].Hidden() + HiddenSum(s[1..]) }

  function VisibleSum(s: seq<Order>): nat { if s == [] then 0 else s[0].Visible() + VisibleSum(s[1..]) }

  // The cached sums of a level.
  ghost predicate SumsOk(l: Level) {
    l.total == Leaves(l.queue) && l.hidden == HiddenSum(l.queue) && l.visible == VisibleSum(l.queue) &&
    l.orders == |l.queue|
  }

  ghost predicate QueueOk(k: Kind, l: Level) {
    OfKind(k, l.queue) && forall i :: 0 <= i < |l.queue| ==> Key(k, l.queue[i]) == l.price
  }

  ghost predicate LevelOk(k: Kind, l: Level) { l.queue != [] && SumsOk(l) && QueueOk(k, l) }

  ghost predicate LadderOk(k: Kind, ls: seq<Level>) {
    (forall i :: 0 <= i < |ls| ==> LevelOk(k, ls[i])) &&
    (forall i, j :: 0 <= i < j < |ls| ==> Better(k, ls[i].price, ls[j].price))
  }

  function Flat(ls: seq<Level>): seq<Order> { if ls == [] then [] else ls[0].queue + Flat(ls[1..]) }

  // Where a price is, or belongs, in the ladder: the search of the level tree.
  function Slot(k: Kind, ls: seq<Level>, price: nat): (i: nat)
    ensures i <= |ls|
    ensures forall j :: 0 <= j < i ==> Better(k, ls[j].price, price)
    ensures i < |ls| ==> !Better(k, ls[i].price, price)
  {
    if ls == [] || !Better(k, ls[0].price, price) then 0
    else
      var i := Slot(k, ls[1..], price);
      assert forall j :: 0 < j < i + 1 ==> ls[j] == ls[1..][j - 1];
      1 + i
  }

  // The level an order is linked into: its cached level pointer.
  function LevelOf(ls: seq<Level>, id: nat): (i: nat)
    requires Has(Flat(ls), id)
    ensures i < |ls| && Has(ls[i].queue, id)
    ensures forall j :: 0 <= j < i ==> !Has(ls[j].queue, id)
  {
    if Has(ls[0].queue, id) then 0
    else
      HasConcat(ls[0].queue, Flat(ls[1..]), id);
      1 + LevelOf(ls[1..], id)
  }

  // ---------- a ladder split at one of its levels

  lemma HasConcat(s: seq<Order>, t: seq<Order>, id: nat)
    ensures Has(s + t, id) <==> Has(s, id) || Has(t, id)
  {
    if Has(s, id) {
      var i :| 0 <= i < |s| && s[i].id == id;
      assert (s + t)[i] == s[i];
    }
    if Has(t, id) {
      var i :| 0 <= i < |t| && t[i].id == id;
      assert (s + t)[|s| + i] == t[i];
    }
    if Has(s + t, id) {
      var i :| 0 <= i < |s + t| && (s + t)[i].id == id;
      assert if i < |s| then s[i].id == id else t[i - |s|].id == id;
    }
  }

  lemma {:induction false} FlatConcat(a: seq<Level>, b: seq<Level>)
    ensures Flat(a + b) == Flat(a) + Flat(b)
  {
    if a == [] {
      assert a + b == b;
    } else {
      assert (a + b)[1..] == a[1..] + b;
      FlatConcat(a[1..], b);
    }
  }

  lemma FlatSplice(a: seq<Level>, l: Level, b: seq<Level>)
    ensures Flat(a + [l] + b) == Flat(a) + l.queue + Flat(b)
  {
    FlatConcat(a + [l], b);
    FlatConcat(a, [l]);
    assert Flat([l]) == l.queue + Flat([]);
  }

  lemma FlatCut(ls: seq<Level>, i: nat)
    requires i <= |ls|
    ensures Flat(ls) == Flat(ls[..i]) + [] + Flat(ls[i..])
  {
    assert ls == ls[..i] + ls[i..];
    FlatConcat(ls[..i], ls[i..]);
  }

  lemma {:induction false} FlatSplit(ls: seq<Level>, i: nat)
    requires i < |ls|
    ensures Flat(ls) == Flat(ls[..i]) + ls[i].queue + Flat(ls[i + 1..])
  {
    if i > 0 {
      FlatSplit(ls[1..], i - 1);
      assert ls[..i][1..] == ls[1..][..i - 1];
      assert ls[1..][i..] == ls[i + 1..];
    }
  }

  lemma {:induction false} FlatLacks(ls: seq<Level>, id: nat)
    requires forall j :: 0 <= j < |ls| ==> !Has(ls[j].queue, id)
    ensures !Has(Flat(ls), id)
  {
    if ls != [] {
      forall j | 0 <= j < |ls[1..]| ensures !Has(ls[1..][j].queue, id) { assert ls[1..][j] == ls[j + 1]; }
      FlatLacks(ls[1..], id);
      HasConcat(ls[0].queue, Flat(ls[1..]), id);
    }
  }

  /** The position of an order in the flat list, from its position in its queue. */
  lemma FlatIndex(ls: seq<Level>, id: nat)
    requires Has(Flat(ls), id)
    ensures var i := LevelOf(ls, id);
            IndexOf(Flat(ls), id) == |Flat(ls[..i])| + IndexOf(ls[i].queue, id)
  {
    var i := LevelOf(ls, id);
    var q := IndexOf(ls[i].queue, id);
    FlatSplit(ls, i);
    FlatLacks(ls[..i], id);
    var s := Flat(ls);
    var n := |Flat(ls[..i])| + q;
    assert s[n] == ls[i].queue[q];
    forall j | 0 <= j < n ensures s[j].id != id {
      if j < |Flat(ls[..i])| {
        assert s[j] == Flat(ls[..i])[j];
      } else {
        assert s[j] == ls[i].queue[j - |Flat(ls[..i])|];
      }
    }
  }

  // ---------- order of the flat list

  lemma {:induction false} FlatWorse(k: Kind, ls: seq<Level>, price: nat)
    requires LadderOk(k, ls) && forall i :: 0 <= i < |ls| ==> Better(k, price, ls[i].price)
    ensures forall i :: 0 <= i < |Flat(ls)| ==> Better(k, price, Key(k, Flat(ls)[i]))
  {
    if ls != [] { FlatWorse(k, ls[1..], price); }
  }

  lemma {:induction false} FlatBetter(k: Kind, ls: seq<Level>, price: nat)
    requires LadderOk(k, ls) && forall i :: 0 <= i < |ls| ==> Better(k, ls[i].price, price)
    ensures forall i :: 0 <= i < |Flat(ls)| ==> Better(k, Key(k, Flat(ls)[i]), price)
  {
    if ls != [] { FlatBetter(k, ls[1..], price); }
  }

  lemma {:induction false} FlatOk(k: Kind, ls: seq<Level>)
    requires LadderOk(k, ls)
    ensures ListOk(k, Flat(ls))
    ensures Flat(ls) == [] <==> ls == []
  {
    if ls != [] {
      FlatOk(k, ls[1..]);
      FlatWorse(k, ls[1..], ls[0].price);
      var s := Flat(ls);
      var n := |ls[0].queue|;
      assert forall i :: 0 <= i < |s| ==> s[i] == if i < n then ls[0].queue[i] else Flat(ls[1..])[i - n];
    }
  }

  // ---------- linking an order

  lemma {:induction false} InsertPast(k: Kind, s: seq<Order>, t: seq<Order>, o: Order)
    requires forall i :: 0 <= i < |s| ==> !Better(k, Key(k, o), Key(k, s[i]))
    ensures Insert(k, s + t, o) == s + Insert(k, t, o)
  {
    if s == [] {
      assert s + t == t;
      assert s + Insert(k, t, o) == Insert(k, t, o);
    } else {
      assert (s + t)[1..] == s[1..] + t;
      InsertPast(k, s[1..], t, o);
      assert [s[0]] + (s[1..] + Insert(k, t, o)) == s + Insert(k, t, o);
    }
  }

  function NewLevel(price: nat): Level { Level(price, 0, 0, 0, 0, []) }

  function Linked(l: Level, o: Order): Level {
    Level(l.price, l.total + o.leaves, l.hidden + o.Hidden(), l.visible + o.Visible(), l.orders + 1, l.queue + [o])
  }

  lemma {:induction false} SumsConcat(s: seq<Order>, t: seq<Order>)
    ensures HiddenSum(s + t) == HiddenSum(s) + HiddenSum(t)
    ensures VisibleSum(s + t) == VisibleSum(s) + VisibleSum(t)
  {
    if s == [] {
      assert s + t == t;
    } else {
      assert (s + t)[1..] == s[1..] + t;
      SumsConcat(s[1..], t);
    }
  }

  lemma LinkedOk(k: Kind, l: Level, o: Order)
    requires SumsOk(l) && QueueOk(k, l) && Resting(k, o) && Key(k, o) == l.price
    ensures LevelOk(k, Linked(l, o))
  {
    LeavesConcat(l.queue, [o]);
    SumsConcat(l.queue, [o]);
  }

  // Levels a, then l, then b, in price order.
  lemma SpliceOk(k: Kind, a: seq<Level>, l: Level, b: seq<Level>)
    requires LadderOk(k, a) && LevelOk(k, l) && LadderOk(k, b)
    requires forall i :: 0 <= i < |a| ==> Better(k, a[i].price, l.price)
    requires forall i :: 0 <= i < |b| ==> Better(k, l.price, b[i].price)
    ensures LadderOk(k, a + [l] + b)
  {
    var ls := a + [l] + b;
    assert forall i :: 0 <= i < |ls| ==> ls[i] == if i < |a| then a[i] else if i == |a| then l else b[i - |a| - 1];
  }

  /** Appending to an existing level is insertion in price-time priority. */
  lemma LinkRefines(k: Kind, ls: seq<Level>, i: nat, o: Order)
    requires LadderOk(k, ls) && Resting(k, o) && i == Slot(k, ls, Key(k, o))
    requires i < |ls| && ls[i].price == Key(k, o)
    ensures LadderOk(k, ls[i := Linked(ls[i], o)])
    ensures Flat(ls[i := Linked(ls[i], o)]) == Insert(k, Flat(ls), o)
  {
    AfterOk(k, ls, i + 1);
    LinkFlat(k, ls[..i], ls[i], ls[i + 1..], o);
    FlatSplit(ls, i);
    assert ls[i := Linked(ls[i], o)] == ls[..i] + [Linked(ls[i], o)] + ls[i + 1..];
  }

  /** So is creating the level that is missing and appending to it. */
  lemma LinkNewRefines(k: Kind, ls: seq<Level>, i: nat, o: Order)
    requires LadderOk(k, ls) && Resting(k, o) && i == Slot(k, ls, Key(k, o))
    requires i < |ls| ==> ls[i].price != Key(k, o)
    ensures var ls' := ls[..i] + [Linked(NewLevel(Key(k, o)), o)] + ls[i..];
            LadderOk(k, ls') && Flat(ls') == Insert(k, Flat(ls), o)
  {
    SlotPast(k, ls, Key(k, o));
    AfterOk(k, ls, i);
    LinkFlat(k, ls[..i], NewLevel(Key(k, o)), ls[i..], o);
    FlatCut(ls, i);
  }

  lemma AfterOk(k: Kind, ls: seq<Level>, i: nat)
    requires LadderOk(k, ls) && i <= |ls|
    ensures LadderOk(k, ls[i..])
    ensures i > 0 ==> forall j :: 0 <= j < |ls[i..]| ==> Better(k, ls[i - 1].price, ls[i..][j].price)
  {
    assert forall j :: 0 <= j < |ls[i..]| ==> ls[i..][j] == ls[i + j];
  }

  lemma SlotPast(k: Kind, ls: seq<Level>, price: nat)
    requires LadderOk(k, ls)
    ensures var i := Slot(k, ls, price);
            (i < |ls| ==> ls[i].price != price) ==> forall j :: i <= j < |ls| ==> Better(k, price, ls[j].price)
  {
  }

  // A price in the flat list is the price of a level.
  lemma SlotFinds(k: Kind, ls: seq<Level>, price: nat)
    requires LadderOk(k, ls) && HasPrice(k, Flat(ls), price)
    ensures var i := Slot(k, ls, price); i < |ls| && ls[i].price == price
  {
    var i := Slot(k, ls, price);
    if i < |ls| ==> ls[i].price != price { SlotMisses(k, ls, price); }
  }

  lemma SlotMisses(k: Kind, ls: seq<Level>, price: nat)
    requires LadderOk(k, ls)
    requires var i := Slot(k, ls, price); i < |ls| ==> ls[i].price != price
    ensures !HasPrice(k, Flat(ls), price)
  {
    var i := Slot(k, ls, price);
    SlotPast(k, ls, price);
    AfterOk(k, ls, i);
    BetterLacks(k, ls[..i], price);
    WorseLacks(k, ls[i..], price);
    FlatCut(ls, i);
    LacksPrice(k, Flat(ls[..i]), Flat(ls[i..]), price);
  }

  lemma BetterLacks(k: Kind, ls: seq<Level>, price: nat)
    requires LadderOk(k, ls) && forall i :: 0 <= i < |ls| ==> Better(k, ls[i].price, price)
    ensures !HasPrice(k, Flat(ls), price)
  {
    FlatBetter(k, ls, price);
  }

  lemma WorseLacks(k: Kind, ls: seq<Level>, price: nat)
    requires LadderOk(k, ls) && forall i :: 0 <= i < |ls| ==> Better(k, price, ls[i].price)
    ensures !HasPrice(k, Flat(ls), price)
  {
    FlatWorse(k, ls, price);
  }

  lemma LacksPrice(k: Kind, s: seq<Order>, t: seq<Order>, price: nat)
    requires !HasPrice(k, s, price) && !HasPrice(k, t, price)
    ensures !HasPrice(k, s + [] + t, price)
  {
    assert s + [] + t == s + t;
  }

  lemma LinkFlat(k: Kind, a: seq<Level>, l: Level, b: seq<Level>, o: Order)
    requires LadderOk(k, a) && LadderOk(k, b) && SumsOk(l) && QueueOk(k, l)
    requires Resting(k, o) && l.price == Key(k, o)
    requires forall i :: 0 <= i < |a| ==> Better(k, a[i].price, l.price)
    requires forall i :: 0 <= i < |b| ==> Better(k, l.price, b[i].price)
    ensures LadderOk(k, a + [Linked(l, o)] + b)
    ensures Flat(a + [Linked(l, o)] + b) == Insert(k, Flat(a) + l.queue + Flat(b), o)
  {
    LinkedOk(k, l, o);
    SpliceOk(k, a, Linked(l, o), b);
    FlatSplice(a, Linked(l, o), b);
    FlatBetter(k, a, l.price);
    FlatWorse(k, b, l.price);
    InsertBetween(k, Flat(a), l.queue, Flat(b), o);
  }

  lemma InsertBetween(k: Kind, s: seq<Order>, q: seq<Order>, t: seq<Order>, o: Order)
    requires forall i :: 0 <= i < |s| ==> Better(k, Key(k, s[i]), Key(k, o))
    requires forall i :: 0 <= i < |q| ==> Key(k, q[i]) == Key(k, o)
    requires forall i :: 0 <= i < |t| ==> Better(k, Key(k, o), Key(k, t[i]))
    ensures Insert(k, s + q + t, o) == s + (q + [o]) + t
  {
    InsertPast(k, s + q, t, o);
    assert Insert(k, t, o) == [o] + t;
    assert s + (q + [o]) + t == s + q + ([o] + t);
  }

  // ---------- changing or unlinking an order

  // The node is unlinked when nothing of the order is left.
  function LevelAfter(l: Level, q: nat, o: Order): Level
    requires q < |l.queue|
  {
    var e := l.queue[q];
    Level(l.price, l.total - (e.leaves - o.leaves), l.hidden - (e.Hidden() - o.Hidden()),
          l.visible - (e.Visible() - o.Visible()),
          if o.leaves == 0 then l.orders - 1 else l.orders, Put(l.queue, q, o))
  }

  // The level goes when its volume is zero.
  function Changed(ls: seq<Level>, i: nat, l: Level): seq<Level>
    requires i < |ls|
  {
    if l.total == 0 then ls[..i] + ls[i + 1..] else ls[i := l]
  }

  lemma SumsSplit(s: seq<Order>, i: nat)
    requires i < |s|
    ensures HiddenSum(s) == HiddenSum(s[..i]) + s[i].Hidden() + HiddenSum(s[i + 1..])
    ensures VisibleSum(s) == VisibleSum(s[..i]) + s[i].Visible() + VisibleSum(s[i + 1..])
  {
    assert s == s[..i] + s[i..] && s[i..][1..] == s[i + 1..] && s[i..][0] == s[i];
    SumsConcat(s[..i], s[i..]);
  }

  lemma SumsPut(s: seq<Order>, i: nat, o: Order)
    requires i < |s|
    ensures HiddenSum(Put(s, i, o)) == HiddenSum(s) - s[i].Hidden() + o.Hidden()
    ensures VisibleSum(Put(s, i, o)) == VisibleSum(s) - s[i].Visible() + o.Visible()
  {
    SumsSplit(s, i);
    if o.leaves == 0 {
      SumsConcat(s[..i], s[i + 1..]);
    } else {
      var t := s[i := o];
      SumsSplit(t, i);
      assert t[..i] == s[..i] && t[i + 1..] == s[i + 1..];
    }
  }

  lemma PutPast(s: seq<Order>, t: seq<Order>, u: seq<Order>, i: nat, o: Order)
    requires i < |t|
    ensures Put(s + t + u, |s| + i, o) == s + Put(t, i, o) + u
  {
    var a := s + t + u;
    assert a[..|s| + i] == s + t[..i];
    assert a[|s| + i + 1..] == t[i + 1..] + u;
  }

  // A level after one of its orders has changed is in order, or empty and without volume.
  lemma LevelAfterOk(k: Kind, l: Level, q: nat, o: Order)
    requires LevelOk(k, l) && q < |l.queue| && (o.leaves > 0 ==> Resting(k, o)) && Key(k, o) == l.price
    ensures var l' := LevelAfter(l, q, o);
            if l'.total == 0 then l'.queue == [] else LevelOk(k, l')
  {
    LeavesPut(l.queue, q, o);
    SumsPut(l.queue, q, o);
    var l' := LevelAfter(l, q, o);
    assert OfKind(k, l'.queue);
    LeavesPositive(k, l'.queue);
  }

  lemma ChangedRefines(k: Kind, ls: seq<Level>, i: nat, q: nat, o: Order)
    requires LadderOk(k, ls) && i < |ls| && q < |ls[i].queue|
    requires (o.leaves > 0 ==> Resting(k, o)) && Key(k, o) == ls[i].price
    ensures LadderOk(k, Changed(ls, i, LevelAfter(ls[i], q, o)))
    ensures |Flat(ls[..i])| + q < |Flat(ls)|
    ensures Flat(Changed(ls, i, LevelAfter(ls[i], q, o))) == Put(Flat(ls), |Flat(ls[..i])| + q, o)
  {
    hide LadderOk, Flat, LevelOk, Put, LevelAfter, Resting, Key;
    LevelAt(k, ls, i);
    FlatSplit(ls, i);
    PutPast(Flat(ls[..i]), ls[i].queue, Flat(ls[i + 1..]), q, o);
    LevelAfterOk(k, ls[i], q, o);
    LevelAfterIs(ls[i], q, o);
    if LevelAfter(ls[i], q, o).total == 0 {
      DropOk(k, ls, i);
    } else {
      ReplaceOk(k, ls, i, LevelAfter(ls[i], q, o));
    }
  }

  lemma LevelAt(k: Kind, ls: seq<Level>, i: nat)
    requires LadderOk(k, ls) && i < |ls|
    ensures LevelOk(k, ls[i])
  {
  }

  lemma LevelAfterIs(l: Level, q: nat, o: Order)
    requires q < |l.queue|
    ensures LevelAfter(l, q, o).queue == Put(l.queue, q, o) && LevelAfter(l, q, o).price == l.price
  {
  }

  // The node of an order, as its level and its place in the queue of that level.
  lemma NodeAt(ls: seq<Level>, id: nat)
    requires Has(Flat(ls), id)
    ensures var i := LevelOf(ls, id);
            var q := IndexOf(ls[i].queue, id);
            ls[i].queue[q] == Find(Flat(ls), id) && IndexOf(Flat(ls), id) == |Flat(ls[..i])| + q
  {
    var i := LevelOf(ls, id);
    var q := IndexOf(ls[i].queue, id);
    FlatIndex(ls, id);
    FlatSplit(ls, i);
    assert Flat(ls)[|Flat(ls[..i])| + q] == ls[i].queue[q];
  }

  /** `o` is what order `o.id` becomes: its level loses the difference, and goes when nothing is left. */
  lemma ChangeRefines(k: Kind, ls: seq<Level>, o: Order)
    requires LadderOk(k, ls) && Has(Flat(ls), o.id)
    requires var e := Find(Flat(ls), o.id);
             o == e.(leaves := o.leaves, executed := o.executed) && o.leaves <= e.leaves
    ensures var i := LevelOf(ls, o.id);
            var ls' := Changed(ls, i, LevelAfter(ls[i], IndexOf(ls[i].queue, o.id), o));
            LadderOk(k, ls') && Flat(ls') == Put(Flat(ls), IndexOf(Flat(ls), o.id), o)
  {
    var i := LevelOf(ls, o.id);
    var q := IndexOf(ls[i].queue, o.id);
    NodeAt(ls, o.id);
    assert QueueOk(k, ls[i]);
    assert Resting(k, ls[i].queue[q]);
    hide LadderOk, Changed, LevelAfter;
    ChangedRefines(k, ls, i, q, o);
  }

  lemma DropOk(k: Kind, ls: seq<Level>, i: nat)
    requires LadderOk(k, ls) && i < |ls|
    ensures LadderOk(k, ls[..i] + ls[i + 1..])
    ensures Flat(ls[..i] + ls[i + 1..]) == Flat(ls[..i]) + [] + Flat(ls[i + 1..])
  {
    FlatConcat(ls[..i], ls[i + 1..]);
    DropSorted(k, ls, i);
  }

  lemma DropSorted(k: Kind, ls: seq<Level>, i: nat)
    requires LadderOk(k, ls) && i < |ls|
    ensures LadderOk(k, ls[..i] + ls[i + 1..])
  {
    var t := ls[..i] + ls[i + 1..];
    assert forall j :: 0 <= j < |t| ==> t[j] == ls[if j < i then j else j + 1];
  }

  lemma ReplaceOk(k: Kind, ls: seq<Level>, i: nat, l: Level)
    requires LadderOk(k, ls) && i < |ls| && LevelOk(k, l) && l.price == ls[i].price
    ensures LadderOk(k, ls[i := l])
    ensures Flat(ls[i := l]) == Flat(ls[..i]) + l.queue + Flat(ls[i + 1..])
  {
    FlatSplit(ls[i := l], i);
    assert ls[i := l][..i] == ls[..i] && ls[i := l][i + 1..] == ls[i + 1..];
  }

  // ---------- moving along the ladder

  lemma NextOrderRefines(k: Kind, ls: seq<Level>, i: nat, q: nat)
    requires LadderOk(k, ls) && i < |ls| && q < |ls[i].queue|
    ensures var n := |Flat(ls[..i])| + q;
            n < |Flat(ls)| &&
            NextInLevel(k, Flat(ls), n) == if q + 1 < |ls[i].queue| then Some(ls[i].queue[q + 1].id) else None
  {
    FlatSplit(ls, i);
    var s := Flat(ls);
    var n := |Flat(ls[..i])| + q;
    assert s[n] == ls[i].queue[q];
    if q + 1 < |ls[i].queue| {
      assert s[n + 1] == ls[i].queue[q + 1];
    } else if n + 1 < |s| {
      FlatWorse(k, ls[i + 1..], ls[i].price);
      assert s[n + 1] == Flat(ls[i + 1..])[0];
    }
  }

  // The next node of the queue of an order.
  function NextNode(ls: seq<Level>, id: nat): Option<nat>
    requires Has(Flat(ls), id)
  {
    var queue := ls[LevelOf(ls, id)].queue;
    var q := IndexOf(queue, id);
    if q + 1 < |queue| then Some(queue[q + 1].id) else None
  }

  lemma NextNodeRefines(k: Kind, ls: seq<Level>, id: nat)
    requires LadderOk(k, ls) && Has(Flat(ls), id)
    ensures NextNode(ls, id) == NextInLevel(k, Flat(ls), IndexOf(Flat(ls), id))
  {
    var i := LevelOf(ls, id);
    NodeAt(ls, id);
    NextOrderRefines(k, ls, i, IndexOf(ls[i].queue, id));
  }

  lemma {:induction false} NextPricePast(k: Kind, s: seq<Order>, t: seq<Order>, price: nat)
    requires forall i :: 0 <= i < |s| ==> !Better(k, price, Key(k, s[i]))
    ensures NextPrice(k, s + t, price) == NextPrice(k, t, price)
  {
    if s == [] {
      assert s + t == t;
    } else {
      assert (s + t)[1..] == s[1..] + t;
      NextPricePast(k, s[1..], t, price);
    }
  }

  lemma NextLevelRefines(k: Kind, ls: seq<Level>, i: nat)
    requires LadderOk(k, ls) && i < |ls|
    ensures NextPrice(k, Flat(ls), ls[i].price) == if i + 1 < |ls| then Some(ls[i + 1].price) else None
  {
    FlatSplit(ls, i);
    FlatBetter(k, ls[..i], ls[i].price);
    NextPricePast(k, Flat(ls[..i]) + ls[i].queue, Flat(ls[i + 1..]), ls[i].price);
  }

  lemma {:induction false} QueueConcat(k: Kind, s: seq<Order>, t: seq<Order>, price: nat)
    ensures Queue(k, s + t, price) == Queue(k, s, price) + Queue(k, t, price)
  {
    if s == [] {
      assert s + t == t;
    } else {
      assert (s + t)[1..] == s[1..] + t && (s + t)[0] == s[0];
      QueueConcat(k, s[1..], t, price);
      var first := if Key(k, s[0]) == price then [s[0]] else [];
      assert first + (Queue(k, s[1..], price) + Queue(k, t, price)) ==
             first + Queue(k, s[1..], price) + Queue(k, t, price);
    }
  }

  lemma {:induction false} QueueSame(k: Kind, s: seq<Order>, price: nat)
    ensures (forall i :: 0 <= i < |s| ==> Key(k, s[i]) == price) ==> Queue(k, s, price) == s
    ensures (forall i :: 0 <= i < |s| ==> Key(k, s[i]) != price) ==> Queue(k, s, price) == []
  {
    if s != [] { QueueSame(k, s[1..], price); }
  }

  lemma QueueRefines(k: Kind, ls: seq<Level>, i: nat)
    requires LadderOk(k, ls) && i < |ls|
    ensures Queue(k, Flat(ls), ls[i].price) == ls[i].queue
  {
    hide Queue, Flat, LadderOk, Key;
    QueueParts(k, ls, i);
    FlatSplit(ls, i);
    var a, q, c := Flat(ls[..i]), ls[i].queue, Flat(ls[i + 1..]);
    QueueConcat(k, a + q, c, ls[i].price);
    QueueConcat(k, a, q, ls[i].price);
    assert [] + q + [] == q;
  }

  lemma QueueParts(k: Kind, ls: seq<Level>, i: nat)
    requires LadderOk(k, ls) && i < |ls|
    ensures Queue(k, Flat(ls[..i]), ls[i].price) == [] && Queue(k, Flat(ls[i + 1..]), ls[i].price) == []
    ensures Queue(k, ls[i].queue, ls[i].price) == ls[i].queue
  {
    hide Queue, Flat;
    FlatBetter(k, ls[..i], ls[i].price);
    FlatWorse(k, ls[i + 1..], ls[i].price);
    QueueSame(k, Flat(ls[..i]), ls[i].price);
    QueueSame(k, ls[i].queue, ls[i].price);
    QueueSame(k, Flat(ls[i + 1..]), ls[i].price);
  }
}
