/** The map from order ids to order nodes, and how it follows the books. */
module IdIndex {
  import opened Options
  import opened Orders
  import opened PriorityList
  import opened BookSpec

  /** The node of an order: the book it belongs to and the tree its level is in, or None while the
      order is being matched outside of its book. */
  datatype Ref = Ref(symbol: nat, place: Option<Kind>)

  /** The ids of one book: every listed order is found under its id, and every id that points into
      the book names a listed order. */
  ghost predicate Indexed(m: map<nat, Ref>, symbol: nat, b: Book) {
    (forall k: Kind :: Distinct(b.Get(k))) &&
    (forall k: Kind, i :: 0 <= i < |b.Get(k)| ==> b.Get(k)[i].id in m && m[b.Get(k)[i].id] == Ref(symbol, Some(k))) &&
    (forall id :: id in m && m[id].symbol == symbol && m[id].place.Some? ==> Has(b.Get(m[id].place.value), id))
  }

  lemma EmptyIndexed(m: map<nat, Ref>, symbol: nat)
    requires forall id :: id in m ==> m[id].symbol != symbol
    ensures Indexed(m, symbol, EMPTY)
  {
  }

  predicate Apart(r: Ref, symbol: nat) { r.symbol != symbol || r.place == None }

  /** Work on one book leaves the ids of other books, and the orders it holds outside of the book, alone. */
  ghost predicate Kept(m: map<nat, Ref>, m': map<nat, Ref>, symbol: nat) {
    forall id :: (id in m && Apart(m[id], symbol)) || (id in m' && Apart(m'[id], symbol)) ==>
      id in m && id in m' && m[id] == m'[id]
  }

  lemma KeptSelf(m: map<nat, Ref>, symbol: nat)
    ensures Kept(m, m, symbol)
  {
  }

  lemma StillLinked(m: map<nat, Ref>, m': map<nat, Ref>, symbol: nat)
    requires Kept(m, m', symbol) && forall id :: id in m ==> m[id].place.Some?
    ensures forall id :: id in m' ==> m'[id].place.Some?
  {
  }

  lemma KeptTransitive(m: map<nat, Ref>, m1: map<nat, Ref>, m2: map<nat, Ref>, symbol: nat)
    requires Kept(m, m1, symbol) && Kept(m1, m2, symbol)
    ensures Kept(m, m2, symbol)
  {
  }

  lemma IndexedElsewhere(m: map<nat, Ref>, m': map<nat, Ref>, symbol: nat, other: nat, b: Book)
    requires Kept(m, m', symbol) && Indexed(m, other, b) && other != symbol
    ensures Indexed(m', other, b)
  {
  }

  lemma SameIndex(m: map<nat, Ref>, symbol: nat, b: Book, c: Book)
    requires Indexed(m, symbol, b) && c == b.(tape := c.tape)
    ensures Indexed(m, symbol, c)
  {
    assert forall k: Kind :: c.Get(k) == b.Get(k);
  }

  // A listed id is listed where the index says it is.
  lemma ListedAt(m: map<nat, Ref>, symbol: nat, b: Book, k: Kind, id: nat)
    requires Indexed(m, symbol, b)
    ensures Has(b.Get(k), id) <==> id in m && m[id] == Ref(symbol, Some(k))
  {
    if Has(b.Get(k), id) {
      var i :| 0 <= i < |b.Get(k)| && b.Get(k)[i].id == id;
    }
  }

  lemma PositionOf(m: map<nat, Ref>, symbol: nat, b: Book, k: Kind, i: nat)
    requires Indexed(m, symbol, b) && i < |b.Get(k)|
    ensures Has(b.Get(k), b.Get(k)[i].id) && IndexOf(b.Get(k), b.Get(k)[i].id) == i
    ensures b.Get(k)[i].id in m && m[b.Get(k)[i].id] == Ref(symbol, Some(k))
  {
    assert Distinct(b.Get(k));
  }

  // The index after an order of the book has become `o`.
  function After(m: map<nat, Ref>, o: Order): map<nat, Ref> { if o.leaves == 0 then m - {o.id} else m }

  lemma IndexedPut(m: map<nat, Ref>, symbol: nat, b: Book, k: Kind, i: nat, o: Order)
    requires Indexed(m, symbol, b) && ListOk(k, b.Get(k)) && i < |b.Get(k)|
    requires o == b.Get(k)[i].(leaves := o.leaves, executed := o.executed)
    ensures Indexed(After(m, o), symbol, b.Set(k, Put(b.Get(k), i, o)))
    ensures Kept(m, After(m, o), symbol)
  {
    var c := b.Set(k, Put(b.Get(k), i, o));
    PutOk(k, b.Get(k), i, o);
    PositionOf(m, symbol, b, k, i);
    assert forall j: Kind :: j != k ==> c.Get(j) == b.Get(j);
    forall j: Kind, n | 0 <= n < |c.Get(j)|
      ensures c.Get(j)[n].id in After(m, o) && After(m, o)[c.Get(j)[n].id] == Ref(symbol, Some(j))
    {
      if j == k { assert Has(c.Get(j), c.Get(j)[n].id); ListedAt(m, symbol, b, k, c.Get(j)[n].id); }
    }
  }

  // Taking an order out of its book while its node stays in the map.
  lemma IndexedUnlink(m: map<nat, Ref>, symbol: nat, b: Book, k: Kind, i: nat)
    requires Indexed(m, symbol, b) && ListOk(k, b.Get(k)) && i < |b.Get(k)|
    ensures Indexed(m - {b.Get(k)[i].id}, symbol, Unlink(b, k, i))
    ensures Indexed(m[b.Get(k)[i].id := Ref(symbol, None)], symbol, Unlink(b, k, i))
    ensures Kept(m, m - {b.Get(k)[i].id}, symbol)
  {
    hide Indexed, Kept, ListOk;
    var o := b.Get(k)[i].(leaves := 0);
    IndexedPut(m, symbol, b, k, i, o);
    IndexedLoose(m - {o.id}, symbol, Unlink(b, k, i), o.id);
    assert (m - {o.id})[o.id := Ref(symbol, None)] == m[o.id := Ref(symbol, None)];
  }

  // A node outside of every book does not matter to the index.
  lemma IndexedLoose(m: map<nat, Ref>, symbol: nat, b: Book, id: nat)
    requires Indexed(m, symbol, b) && id !in m
    ensures Indexed(m[id := Ref(symbol, None)], symbol, b)
  {
  }

  lemma IndexedLink(m: map<nat, Ref>, symbol: nat, b: Book, o: Order)
    requires Indexed(m, symbol, b) && ListOk(KindOf(o), b.Get(KindOf(o)))
    requires o.id in m ==> m[o.id] == Ref(symbol, None)
    ensures Indexed(m[o.id := Ref(symbol, Some(KindOf(o)))], symbol, Link(b, o))
  {
    var k := KindOf(o);
    var c := Link(b, o);
    var n := m[o.id := Ref(symbol, Some(k))];
    InsertIds(k, b.Get(k), o);
    ListedAt(m, symbol, b, k, o.id);
    assert forall j: Kind :: j != k ==> c.Get(j) == b.Get(j);
    forall j: Kind, p | 0 <= p < |c.Get(j)|
      ensures c.Get(j)[p].id in n && n[c.Get(j)[p].id] == Ref(symbol, Some(j))
    {
      assert Has(c.Get(j), c.Get(j)[p].id);
      if c.Get(j)[p].id != o.id || j != k { ListedAt(m, symbol, b, j, c.Get(j)[p].id); }
    }
  }

  // A node outside of its book is erased, or linked again.
  lemma IndexedErase(m: map<nat, Ref>, symbol: nat, b: Book, id: nat)
    requires Indexed(m, symbol, b) && id in m && m[id] == Ref(symbol, None)
    ensures Indexed(m - {id}, symbol, b)
  {
  }

  lemma KeptErase(m: map<nat, Ref>, m': map<nat, Ref>, symbol: nat, id: nat)
    requires id in m && m[id].symbol == symbol && m[id].place.Some?
    requires Kept(m[id := Ref(symbol, None)], m', symbol)
    ensures Kept(m, m' - {id}, symbol)
    ensures id in m' && m'[id] == Ref(symbol, None)
    ensures forall k: Kind :: Kept(m, m'[id := Ref(symbol, Some(k))], symbol)
  {
    assert Apart(Ref(symbol, None), symbol);
  }

  // A new id.
  lemma KeptAdd(m: map<nat, Ref>, m': map<nat, Ref>, symbol: nat, id: nat, k: Kind)
    requires Kept(m, m', symbol) && id !in m'
    ensures Kept(m, m'[id := Ref(symbol, Some(k))], symbol)
  {
  }

  /** An id is free for a new order of the book exactly when the map does not have it. */
  lemma TakenIds(m: map<nat, Ref>, symbol: nat, b: Book, id: nat)
    requires Indexed(m, symbol, b) && forall i :: i in m ==> m[i].place.Some?
    ensures id in m <==> Lists(b, id) || id in Foreign(m, symbol)
  {
    ListedAt(m, symbol, b, Bids, id);
    ListedAt(m, symbol, b, Asks, id);
    ListedAt(m, symbol, b, BuyStops, id);
    ListedAt(m, symbol, b, SellStops, id);
    if id in m && m[id].symbol == symbol {
      match m[id].place.value { case Bids => case Asks => case BuyStops => case SellStops => }
    }
  }

  // The ids of other books.
  ghost function Foreign(m: map<nat, Ref>, symbol: nat): set<nat> {
    set id | id in m && m[id].symbol != symbol
  }

  lemma SameForeign(m: map<nat, Ref>, m': map<nat, Ref>, symbol: nat)
    requires Kept(m, m', symbol)
    ensures Foreign(m, symbol) == Foreign(m', symbol)
  {
    assert forall id :: id in Foreign(m, symbol) ==> Apart(m[id], symbol);
    assert forall id :: id in Foreign(m', symbol) ==> Apart(m'[id], symbol);
  }
}
