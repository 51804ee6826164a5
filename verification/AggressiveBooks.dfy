/** The aggressively optimized order book: per symbol two arrays of price levels in ascending order of
    signed price (asks are stored with negative prices, so that the best level is the last of either
    array), all levels in one pool, and orders that remember the pool index of their level. */
module AggressiveBooks {
  import opened Options

  const TWO32 := 0x1_0000_0000

  datatype Level = Level(price: int, volume: nat)

  datatype PriceLevel = PriceLevel(price: int, level: nat)

  datatype Order = Order(symbol: nat, quantity: nat, level: nat)

  datatype Pool = Pool(levels: seq<Level>, free: seq<nat>)

  datatype Sides = Sides(bids: seq<PriceLevel>, asks: seq<PriceLevel>)
  {
    function Of(price: int): seq<PriceLevel> { if price > 0 then bids else asks }

    function With(price: int, a: seq<PriceLevel>): Sides { if price > 0 then this.(bids := a) else this.(asks := a) }
  }

  // ---------- what the book stands for

  /** An order that has quantity left. A book stands for its live orders, listed by id. */
  datatype Live = Live(symbol: nat, price: int, quantity: nat)

  function Part(o: Option<Live>, symbol: nat, price: int): nat {
    if o.Some? && o.value.symbol == symbol && o.value.price == price then o.value.quantity else 0
  }

  /** The plain book: the sum of the live quantities at a symbol and signed price. */
  function Volume(live: seq<Option<Live>>, symbol: nat, price: int): nat {
    if live == [] then 0 else Part(live[0], symbol, price) + Volume(live[1..], symbol, price)
  }

  lemma {:induction false} VolumeAfter(live: seq<Option<Live>>, id: nat, o: Option<Live>, symbol: nat, price: int)
    requires id < |live|
    ensures Volume(live[id := o], symbol, price)
            == Volume(live, symbol, price) - Part(live[id], symbol, price) + Part(o, symbol, price)
    ensures Part(live[id], symbol, price) <= Volume(live, symbol, price)
  {
    var t := live[id := o];
    if id == 0 {
      assert t[1..] == live[1..];
    } else {
      assert t[1..] == live[1..][id - 1 := o];
      VolumeAfter(live[1..], id - 1, o, symbol, price);
    }
  }

  lemma {:induction false} VolumeIsZero(live: seq<Option<Live>>, symbol: nat, price: int)
    requires forall id :: 0 <= id < |live| ==> Part(live[id], symbol, price) == 0
    ensures Volume(live, symbol, price) == 0
  {
    if live != [] { VolumeIsZero(live[1..], symbol, price); }
  }

  // ---------- level arrays

  ghost predicate Ascending(a: seq<PriceLevel>) { forall i, j :: 0 <= i < j < |a| ==> a[i].price < a[j].price }

  // How many levels come before a price.
  function Rank(a: seq<PriceLevel>, price: int): (r: nat)
    ensures r <= |a|
  {
    if a == [] || a[0].price >= price then 0 else 1 + Rank(a[1..], price)
  }

  lemma {:induction false} RankIs(a: seq<PriceLevel>, price: int, r: nat)
    requires r <= |a| && (forall i :: 0 <= i < r ==> a[i].price < price) && (r < |a| ==> a[r].price >= price)
    ensures Rank(a, price) == r
  {
    if r > 0 { RankIs(a[1..], price, r - 1); }
  }

  lemma {:induction false} RankSplits(a: seq<PriceLevel>, price: int)
    requires Ascending(a)
    ensures forall i :: 0 <= i < |a| ==> (i < Rank(a, price) <==> a[i].price < price)
    ensures forall i :: 0 <= i < |a| && a[i].price == price ==> i == Rank(a, price)
  {
    if a != [] && a[0].price < price {
      RankSplits(a[1..], price);
      assert forall i :: 0 < i < |a| ==> a[i] == a[1..][i - 1];
    }
  }

  predicate Lists(a: seq<PriceLevel>, price: int) { Rank(a, price) < |a| && a[Rank(a, price)].price == price }

  lemma ListsAt(a: seq<PriceLevel>, k: nat)
    requires Ascending(a) && k < |a|
    ensures Lists(a, a[k].price) && Rank(a, a[k].price) == k
  {
    RankIs(a, a[k].price, k);
  }

  // ---------- steps on values

  function Taken(p: Pool): nat { if p.free == [] then |p.levels| else p.free[|p.free| - 1] }

  predicate PoolOk(p: Pool) { p.free != [] ==> p.free[|p.free| - 1] < |p.levels| }

  function Taking(p: Pool, l: Level): (q: Pool)
    requires PoolOk(p)
    ensures |q.levels| == if p.free == [] then |p.levels| + 1 else |p.levels|
  {
    if p.free == [] then p.(levels := p.levels + [l]) else Pool(p.levels[Taken(p) := l], p.free[..|p.free| - 1])
  }

  // The level of a price, made when there is none.
  function Find(v: Sides, p: Pool, price: int): (Sides, Pool, nat)
    requires PoolOk(p)
  {
    var a, r := v.Of(price), Rank(v.Of(price), price);
    if Lists(a, price) then (v, p, a[r].level)
    else (v.With(price, Inserted(a, price, Taken(p))), Taking(p, Level(price, 0)), Taken(p))
  }

  function SetVolume(p: Pool, level: nat, volume: nat): Pool
    requires level < |p.levels|
  {
    p.(levels := p.levels[level := p.levels[level].(volume := volume)])
  }

  predicate Ready(v: Sides, p: Pool, price: int) {
    PoolOk(p) && (Lists(v.Of(price), price) ==> v.Of(price)[Rank(v.Of(price), price)].level < |p.levels|)
  }

  function Add(v: Sides, p: Pool, price: int, quantity: nat): (Sides, Pool, nat)
    requires Ready(v, p, price)
  {
    var (w, q, level) := Find(v, p, price);
    (w, SetVolume(q, level, (q.levels[level].volume + quantity) % TWO32), level)
  }

  // Takes quantity away from a level, and an empty level away from the book.
  function Cut(v: Sides, p: Pool, level: nat, quantity: nat): (Sides, Pool)
    requires level < |p.levels|
  {
    var volume := (p.levels[level].volume - quantity) % TWO32;
    var q := SetVolume(p, level, volume);
    if volume != 0 then (v, q) else Drop(v, q, level)
  }

  function Drop(v: Sides, p: Pool, level: nat): (Sides, Pool)
    requires level < |p.levels|
  {
    var price := p.levels[level].price;
    var a := v.Of(price);
    (if Lists(a, price) then v.With(price, Erased(a, price)) else v, p.(free := p.free + [level]))
  }

  // ---------- the invariant

  const FREE := -1

  ghost predicate SideOk(a: seq<PriceLevel>, bid: bool, symbol: nat, levels: seq<Level>, owner: seq<int>)
    requires |owner| == |levels|
  {
    Ascending(a) && forall i :: 0 <= i < |a| ==> EntryOk(a[i], bid, symbol, levels, owner)
  }

  predicate EntryOk(e: PriceLevel, bid: bool, symbol: nat, levels: seq<Level>, owner: seq<int>)
    requires |owner| == |levels|
  {
    e.level < |levels| && levels[e.level].price == e.price && owner[e.level] == symbol && (e.price > 0 <==> bid)
  }

  ghost predicate BooksOk(books: seq<Sides>, levels: seq<Level>, owner: seq<int>)
    requires |owner| == |levels|
  {
    forall s :: 0 <= s < |books| ==> BookOk(books[s], s, levels, owner)
  }

  ghost predicate BookOk(v: Sides, symbol: nat, levels: seq<Level>, owner: seq<int>)
    requires |owner| == |levels|
  {
    SideOk(v.bids, true, symbol, levels, owner) && SideOk(v.asks, false, symbol, levels, owner)
  }

  ghost predicate FreeOk(free: seq<nat>, owner: seq<int>) {
    (forall i :: 0 <= i < |free| ==> free[i] < |owner| && owner[free[i]] == FREE) &&
    (forall i, j :: 0 <= i < j < |free| ==> free[i] != free[j]) &&
    (forall i :: 0 <= i < |owner| && owner[i] == FREE ==> i in free)
  }

  ghost predicate Covered(books: seq<Sides>, levels: seq<Level>, owner: seq<int>)
    requires |owner| == |levels|
  {
    forall i :: 0 <= i < |owner| && owner[i] != FREE ==>
      0 <= owner[i] < |books| && InBook(books[owner[i]], levels[i].price, i)
  }

  /** Every pool index is either free, and then once in the free list, or in one array of one book. */
  ghost predicate Shape(books: seq<Sides>, p: Pool, owner: seq<int>) {
    |owner| == |p.levels| && BooksOk(books, p.levels, owner) && FreeOk(p.free, owner) && Covered(books, p.levels, owner)
  }

  predicate InBook(v: Sides, price: int, level: nat) {
    Lists(v.Of(price), price) && v.Of(price)[Rank(v.Of(price), price)].level == level
  }

  ghost predicate Volumes(levels: seq<Level>, owner: seq<int>, live: seq<Option<Live>>) {
    |owner| == |levels| &&
    forall i :: 0 <= i < |owner| && owner[i] != FREE ==> VolumeOk(levels[i], owner[i], live)
  }

  predicate VolumeOk(l: Level, owner: int, live: seq<Option<Live>>) {
    0 <= owner && 0 < l.volume == Volume(live, owner, l.price) < TWO32
  }

  ghost predicate OrdersOk(levels: seq<Level>, owner: seq<int>, orders: seq<Order>, live: seq<Option<Live>>) {
    |owner| == |levels| && |orders| == |live| &&
    forall id :: 0 <= id < |live| && live[id].Some? ==> OrderOk(levels, owner, orders[id], live[id].value)
  }

  predicate OrderOk(levels: seq<Level>, owner: seq<int>, o: Order, l: Live)
    requires |owner| == |levels|
  {
    o.symbol == l.symbol && o.quantity == l.quantity > 0 &&
    o.level < |levels| && owner[o.level] == l.symbol && levels[o.level].price == l.price
  }

  ghost predicate Inv(books: seq<Sides>, p: Pool, owner: seq<int>, orders: seq<Order>, live: seq<Option<Live>>) {
    Shape(books, p, owner) && Volumes(p.levels, owner, live) && OrdersOk(p.levels, owner, orders, live)
  }

  // ---------- the book is the plain book

  function VolumeAt(v: Sides, p: Pool, price: int): nat {
    var a, r := v.Of(price), Rank(v.Of(price), price);
    if Lists(a, price) && a[r].level < |p.levels| then p.levels[a[r].level].volume else 0
  }

  /** At every symbol and signed price the book has the volume of the plain book, and a level exactly
      when there is any. */
  lemma RefinesThePlainBook(books: seq<Sides>, p: Pool, owner: seq<int>, orders: seq<Order>, live: seq<Option<Live>>,
                            symbol: nat, price: int)
    requires Inv(books, p, owner, orders, live) && symbol < |books|
    ensures VolumeAt(books[symbol], p, price) == Volume(live, symbol, price)
    ensures Lists(books[symbol].Of(price), price) <==> Volume(live, symbol, price) > 0
  {
    var a, r := books[symbol].Of(price), Rank(books[symbol].Of(price), price);
    if Lists(a, price) {
      assert SideOk(a, price > 0, symbol, p.levels, owner);
    } else {
      NoLevelNoVolume(books, p, owner, orders, live, symbol, price);
    }
  }

  lemma NoLevelNoVolume(books: seq<Sides>, p: Pool, owner: seq<int>, orders: seq<Order>, live: seq<Option<Live>>,
                        symbol: nat, price: int)
    requires Shape(books, p, owner) && OrdersOk(p.levels, owner, orders, live)
    requires symbol < |books| && !Lists(books[symbol].Of(price), price)
    ensures Volume(live, symbol, price) == 0
  {
    forall id | 0 <= id < |live| ensures Part(live[id], symbol, price) == 0 {
      if live[id].Some? { LiveIsListed(books, p, owner, orders, live, id); }
    }
    VolumeIsZero(live, symbol, price);
  }

  // The pool index an order remembers is that of the level at its price.
  lemma LiveIsListed(books: seq<Sides>, p: Pool, owner: seq<int>, orders: seq<Order>, live: seq<Option<Live>>, id: nat)
    requires Shape(books, p, owner) && OrdersOk(p.levels, owner, orders, live)
    requires id < |live| && live[id].Some?
    ensures var l := live[id].value; l.symbol < |books| && InBook(books[l.symbol], l.price, orders[id].level)
  {
    assert OrderOk(p.levels, owner, orders[id], live[id].value);
  }

  /** The last level of an array is the best price that has volume. */
  lemma LastIsBest(books: seq<Sides>, p: Pool, owner: seq<int>, orders: seq<Order>, live: seq<Option<Live>>,
                   symbol: nat, bid: bool, price: int)
    requires Inv(books, p, owner, orders, live) && symbol < |books| && (price > 0 <==> bid) &&
             Volume(live, symbol, price) > 0
    ensures var a := if bid then books[symbol].bids else books[symbol].asks;
            a != [] && price <= a[|a| - 1].price && Volume(live, symbol, a[|a| - 1].price) > 0
  {
    RefinesThePlainBook(books, p, owner, orders, live, symbol, price);
    var a := books[symbol].Of(price);
    assert SideOk(a, bid, symbol, p.levels, owner);
    var last := a[|a| - 1].price;
    RankSplits(a, last);
    RefinesThePlainBook(books, p, owner, orders, live, symbol, last);
  }

  /** The free list and the level arrays of all books divide the pool among themselves. */
  lemma PoolIsDivided(books: seq<Sides>, p: Pool, owner: seq<int>, index: nat)
    requires Shape(books, p, owner) && index < |p.levels|
    ensures index in p.free <==> !exists s :: 0 <= s < |books| && InBook(books[s], p.levels[index].price, index)
    ensures forall s, t :: (0 <= s < |books| && InBook(books[s], p.levels[index].price, index) &&
                            0 <= t < |books| && InBook(books[t], p.levels[index].price, index)) ==> s == t
  {
    var price := p.levels[index].price;
    forall s | 0 <= s < |books| && InBook(books[s], price, index) ensures owner[index] == s {
      assert SideOk(books[s].Of(price), price > 0, s, p.levels, owner);
    }
    if owner[index] != FREE { assert InBook(books[owner[index]], price, index); }
  }

  // ---------- every step keeps the invariant

  // Two pool indices in one book are at different prices.
  lemma OneIndexPerPrice(books: seq<Sides>, p: Pool, owner: seq<int>, i: nat, j: nat)
    requires Shape(books, p, owner) && i < |owner| && j < |owner|
    ensures owner[i] == owner[j] != FREE && p.levels[i].price == p.levels[j].price ==> i == j
  {
    if owner[i] == owner[j] != FREE {
      assert InBook(books[owner[i]], p.levels[i].price, i) && InBook(books[owner[j]], p.levels[j].price, j);
    }
  }

  function Owned(owner: seq<int>, level: nat, symbol: nat): seq<int>
    requires level <= |owner|
  {
    if level == |owner| then owner + [symbol] else owner[level := symbol]
  }

  // Array b has the levels of array a, found by the same prices, except perhaps for one price.
  ghost predicate Found(a: seq<PriceLevel>, b: seq<PriceLevel>, price: int) {
    forall q :: q != price && Lists(a, q) ==> Lists(b, q) && b[Rank(b, q)] == a[Rank(a, q)]
  }

  function Inserted(a: seq<PriceLevel>, price: int, level: nat): seq<PriceLevel> {
    a[..Rank(a, price)] + [PriceLevel(price, level)] + a[Rank(a, price)..]
  }

  function Erased(a: seq<PriceLevel>, price: int): seq<PriceLevel>
    requires Lists(a, price)
  {
    a[..Rank(a, price)] + a[Rank(a, price) + 1..]
  }

  lemma InsertedAscending(a: seq<PriceLevel>, price: int, level: nat)
    requires Ascending(a) && !Lists(a, price)
    ensures Ascending(Inserted(a, price, level))
  {
    RankSplits(a, price);
    var r, b := Rank(a, price), Inserted(a, price, level);
    forall i, j | 0 <= i < j < |b| ensures b[i].price < b[j].price {
      assert b[i] == if i < r then a[i] else if i == r then PriceLevel(price, level) else a[i - 1];
      assert b[j] == if j < r then a[j] else if j == r then PriceLevel(price, level) else a[j - 1];
    }
  }

  lemma InsertedArray(a: seq<PriceLevel>, price: int, level: nat)
    requires Ascending(a) && !Lists(a, price)
    ensures var b := Inserted(a, price, level);
            Ascending(b) && Lists(b, price) && b[Rank(b, price)].level == level && Found(a, b, price)
  {
    hide Rank, Ascending;
    var r, b := Rank(a, price), Inserted(a, price, level);
    InsertedAscending(a, price, level);
    assert b[r] == PriceLevel(price, level);
    ListsAt(b, r);
    forall q | q != price && Lists(a, q) ensures Lists(b, q) && b[Rank(b, q)] == a[Rank(a, q)] {
      var k := Rank(a, q);
      ListsAt(b, if k < r then k else k + 1);
    }
  }

  lemma ErasedAscending(a: seq<PriceLevel>, price: int)
    requires Ascending(a) && Lists(a, price)
    ensures Ascending(Erased(a, price))
    ensures forall i :: 0 <= i < |Erased(a, price)| ==> Erased(a, price)[i].price != price
  {
    var r, b := Rank(a, price), Erased(a, price);
    forall i | 0 <= i < |b| ensures b[i].price != price {
      assert b[i] == a[if i < r then i else i + 1];
    }
    forall i, j | 0 <= i < j < |b| ensures b[i].price < b[j].price {
      assert b[i] == a[if i < r then i else i + 1] && b[j] == a[if j < r then j else j + 1];
    }
  }

  lemma ErasedArray(a: seq<PriceLevel>, price: int)
    requires Ascending(a) && Lists(a, price)
    ensures var b := Erased(a, price);
            Ascending(b) && !Lists(b, price) && Found(a, b, price)
  {
    hide Rank, Ascending;
    var r, b := Rank(a, price), Erased(a, price);
    ErasedAscending(a, price);
    forall q | q != price && Lists(a, q) ensures Lists(b, q) && b[Rank(b, q)] == a[Rank(a, q)] {
      var k := Rank(a, q);
      ListsAt(b, if k < r then k else k - 1);
    }
  }

  lemma InsertedSide(a: seq<PriceLevel>, bid: bool, symbol: nat, levels: seq<Level>, owner: seq<int>,
                     price: int, level: nat, levels': seq<Level>, owner': seq<int>)
    requires |owner| == |levels| && |owner'| == |levels'| >= |levels| && SideOk(a, bid, symbol, levels, owner)
    requires !Lists(a, price) && (price > 0 <==> bid)
    requires level < |levels'| && levels'[level].price == price && owner'[level] == symbol
    requires level < |owner| ==> owner[level] == FREE
    requires forall i :: 0 <= i < |levels| && i != level ==> levels'[i] == levels[i] && owner'[i] == owner[i]
    ensures SideOk(Inserted(a, price, level), bid, symbol, levels', owner')
  {
    InsertedArray(a, price, level);
    hide Rank, Ascending, Found;
    var r, b := Rank(a, price), Inserted(a, price, level);
    forall i | 0 <= i < |b| ensures EntryOk(b[i], bid, symbol, levels', owner') {
      if i != r { assert b[i] == a[if i < r then i else i - 1]; }
    }
  }

  lemma ErasedSide(a: seq<PriceLevel>, bid: bool, symbol: nat, levels: seq<Level>, owner: seq<int>, price: int)
    requires |owner| == |levels| && SideOk(a, bid, symbol, levels, owner) && Lists(a, price)
    ensures SideOk(Erased(a, price), bid, symbol, levels, owner[a[Rank(a, price)].level := FREE])
  {
    ErasedArray(a, price);
    var r, b := Rank(a, price), Erased(a, price);
    assert Ascending(a);
    hide Rank, Ascending, Found;
    assert EntryOk(a[r], bid, symbol, levels, owner);
    forall i | 0 <= i < |b| ensures EntryOk(b[i], bid, symbol, levels, owner[a[r].level := FREE]) {
      var k := if i < r then i else i + 1;
      assert b[i] == a[k] && EntryOk(a[k], bid, symbol, levels, owner);
      OtherPrice(a, k, r);
    }
  }

  lemma OtherPrice(a: seq<PriceLevel>, i: nat, j: nat)
    requires Ascending(a) && i < |a| && j < |a| && i != j
    ensures a[i].price != a[j].price
  {
  }

  lemma SideStays(a: seq<PriceLevel>, bid: bool, symbol: nat, levels: seq<Level>, owner: seq<int>,
                  level: nat, levels': seq<Level>, owner': seq<int>)
    requires |owner| == |levels| && |owner'| == |levels'| >= |levels| && SideOk(a, bid, symbol, levels, owner)
    requires level < |owner| ==> owner[level] != symbol
    requires forall i :: 0 <= i < |levels| && i != level ==> levels'[i] == levels[i] && owner'[i] == owner[i]
    ensures SideOk(a, bid, symbol, levels', owner')
  {
    hide Ascending;
    forall i | 0 <= i < |a| ensures EntryOk(a[i], bid, symbol, levels', owner') {
      assert EntryOk(a[i], bid, symbol, levels, owner);
    }
  }

  // ---- a book that gains a level

  function Gains(books: seq<Sides>, symbol: nat, price: int, n: nat): seq<Sides>
    requires symbol < |books|
  {
    books[symbol := books[symbol].With(price, Inserted(books[symbol].Of(price), price, n))]
  }

  lemma InsertedShape(books: seq<Sides>, p: Pool, owner: seq<int>, symbol: nat, price: int)
    requires Shape(books, p, owner) && symbol < |books| && !Lists(books[symbol].Of(price), price)
    ensures PoolOk(p) && Taken(p) <= |owner| && (Taken(p) < |owner| ==> owner[Taken(p)] == FREE)
    ensures Shape(Gains(books, symbol, price, Taken(p)), Taking(p, Level(price, 0)), Owned(owner, Taken(p), symbol))
  {
    FreeTaken(p, owner, symbol);
    InsertedBooks(books, p, owner, symbol, price);
    InsertedCovered(books, p, owner, symbol, price);
  }

  lemma InsertedBooks(books: seq<Sides>, p: Pool, owner: seq<int>, symbol: nat, price: int)
    requires Shape(books, p, owner) && PoolOk(p) && symbol < |books| && !Lists(books[symbol].Of(price), price)
    ensures BooksOk(Gains(books, symbol, price, Taken(p)), Taking(p, Level(price, 0)).levels,
                    Owned(owner, Taken(p), symbol))
  {
    var n, levels, owner' := Taken(p), Taking(p, Level(price, 0)).levels, Owned(owner, Taken(p), symbol);
    var books' := Gains(books, symbol, price, n);
    assert BookOk(books[symbol], symbol, p.levels, owner);
    InsertedSide(books[symbol].Of(price), price > 0, symbol, p.levels, owner, price, n, levels, owner');
    hide SideOk, Lists, Rank, Inserted, Covered;
    forall s | 0 <= s < |books| ensures BookOk(books'[s], s, levels, owner') {
      assert BookOk(books[s], s, p.levels, owner);
      SideStays(books[s].bids, true, s, p.levels, owner, n, levels, owner');
      SideStays(books[s].asks, false, s, p.levels, owner, n, levels, owner');
    }
  }

  lemma InsertedCovered(books: seq<Sides>, p: Pool, owner: seq<int>, symbol: nat, price: int)
    requires Shape(books, p, owner) && PoolOk(p) && symbol < |books| && !Lists(books[symbol].Of(price), price)
    ensures Covered(Gains(books, symbol, price, Taken(p)), Taking(p, Level(price, 0)).levels,
                    Owned(owner, Taken(p), symbol))
  {
    var n, levels, owner' := Taken(p), Taking(p, Level(price, 0)).levels, Owned(owner, Taken(p), symbol);
    hide SideOk, Lists, Rank, Inserted, BooksOk, Found;
    var books' := Gains(books, symbol, price, n);
    GainedBook(books, p.levels, owner, symbol, price, n);
    forall i | 0 <= i < |owner'| && owner'[i] != FREE
      ensures 0 <= owner'[i] < |books'| && InBook(books'[owner'[i]], levels[i].price, i)
    {
      if i != n { KeptInBook(books, p.levels, owner, symbol, price, n, i); }
    }
  }

  // A book that gains a level has it, and those it had.
  lemma GainedBook(books: seq<Sides>, levels: seq<Level>, owner: seq<int>, symbol: nat, price: int, n: nat)
    requires |owner| == |levels| && BooksOk(books, levels, owner) && symbol < |books| &&
             !Lists(books[symbol].Of(price), price)
    ensures InBook(Gains(books, symbol, price, n)[symbol], price, n)
    ensures Found(books[symbol].Of(price), Inserted(books[symbol].Of(price), price, n), price)
  {
    hide Rank, Inserted, Found, Ascending;
    assert BookOk(books[symbol], symbol, levels, owner);
    InsertedArray(books[symbol].Of(price), price, n);
  }

  lemma KeptInBook(books: seq<Sides>, levels: seq<Level>, owner: seq<int>, symbol: nat, price: int, n: nat, i: nat)
    requires |owner| == |levels| && Covered(books, levels, owner) && symbol < |books| && i < |owner| && owner[i] != FREE
    requires !Lists(books[symbol].Of(price), price)
    requires Found(books[symbol].Of(price), Inserted(books[symbol].Of(price), price, n), price)
    ensures 0 <= owner[i] < |books| && InBook(Gains(books, symbol, price, n)[owner[i]], levels[i].price, i)
  {
    hide Rank, Inserted;
    assert InBook(books[owner[i]], levels[i].price, i);
  }

  lemma FreeTaken(p: Pool, owner: seq<int>, symbol: nat)
    requires |owner| == |p.levels| && FreeOk(p.free, owner)
    ensures PoolOk(p) && FreeOk(Taking(p, Level(0, 0)).free, Owned(owner, Taken(p), symbol))
  {
    var n := Taken(p);
    if p.free != [] {
      var last := |p.free| - 1;
      var rest, owner' := p.free[..last], owner[n := symbol];
      forall i | 0 <= i < |owner'| && owner'[i] == FREE ensures i in rest {
        assert i in p.free && i != p.free[last];
        var k :| 0 <= k < |p.free| && p.free[k] == i;
        assert rest[k] == i;
      }
    }
  }

  // ---- a book that loses a level

  lemma ErasedShape(books: seq<Sides>, p: Pool, owner: seq<int>, level: nat)
    requires Shape(books, p, owner) && level < |owner| && owner[level] != FREE
    ensures 0 <= owner[level] < |books| &&
            var (w, q) := Drop(books[owner[level]], p, level);
            Shape(books[owner[level] := w], q, owner[level := FREE])
  {
    assert InBook(books[owner[level]], p.levels[level].price, level);
    ErasedBooks(books, p, owner, level);
    ErasedCovered(books, p, owner, level);
    FreeGiven(p.free, owner, level);
  }

  lemma FreeGiven(free: seq<nat>, owner: seq<int>, level: nat)
    requires FreeOk(free, owner) && level < |owner| && owner[level] != FREE
    ensures FreeOk(free + [level], owner[level := FREE])
  {
    var g := free + [level];
    assert g[|free|] == level;
    forall i | 0 <= i < |owner| && owner[level := FREE][i] == FREE ensures i in g {
      if i != level { assert i in free; }
    }
  }

  lemma ErasedBooks(books: seq<Sides>, p: Pool, owner: seq<int>, level: nat)
    requires Shape(books, p, owner) && level < |owner| && 0 <= owner[level] < |books|
    requires InBook(books[owner[level]], p.levels[level].price, level)
    ensures BooksOk(books[owner[level] := Drop(books[owner[level]], p, level).0], p.levels, owner[level := FREE])
  {
    var symbol, price := owner[level], p.levels[level].price;
    var books', owner' := books[symbol := Drop(books[symbol], p, level).0], owner[level := FREE];
    assert BookOk(books[symbol], symbol, p.levels, owner);
    ErasedSide(books[symbol].Of(price), price > 0, symbol, p.levels, owner, price);
    OtherSideStays(books[symbol], symbol, price, p.levels, owner, level);
    hide SideOk, Rank, Erased, Covered;
    forall s | 0 <= s < |books| ensures BookOk(books'[s], s, p.levels, owner') {
      assert BookOk(books[s], s, p.levels, owner);
      if s != symbol {
        SideStays(books[s].bids, true, s, p.levels, owner, level, p.levels, owner');
        SideStays(books[s].asks, false, s, p.levels, owner, level, p.levels, owner');
      }
    }
  }

  lemma ErasedCovered(books: seq<Sides>, p: Pool, owner: seq<int>, level: nat)
    requires Shape(books, p, owner) && level < |owner| && 0 <= owner[level] < |books|
    requires InBook(books[owner[level]], p.levels[level].price, level)
    ensures Covered(books[owner[level] := Drop(books[owner[level]], p, level).0], p.levels, owner[level := FREE])
  {
    var symbol, price := owner[level], p.levels[level].price;
    var books', owner' := books[symbol := Drop(books[symbol], p, level).0], owner[level := FREE];
    assert BookOk(books[symbol], symbol, p.levels, owner);
    ErasedArray(books[symbol].Of(price), price);
    hide SideOk, Rank, Erased, BooksOk, FreeOk;
    forall i | 0 <= i < |owner'| && owner'[i] != FREE
      ensures 0 <= owner'[i] < |books'| && InBook(books'[owner'[i]], p.levels[i].price, i)
    {
      assert InBook(books[owner[i]], p.levels[i].price, i);
      OneIndexPerPrice(books, p, owner, i, level);
    }
  }

  lemma OtherSideStays(v: Sides, symbol: nat, price: int, levels: seq<Level>, owner: seq<int>, level: nat)
    requires |owner| == |levels| && BookOk(v, symbol, levels, owner) && level < |levels| && levels[level].price == price
    ensures price > 0 ==> SideOk(v.asks, false, symbol, levels, owner[level := FREE])
    ensures price <= 0 ==> SideOk(v.bids, true, symbol, levels, owner[level := FREE])
  {
    hide Ascending;
    var a := if price > 0 then v.asks else v.bids;
    forall i | 0 <= i < |a| ensures EntryOk(a[i], price <= 0, symbol, levels, owner[level := FREE]) {
      assert EntryOk(a[i], price <= 0, symbol, levels, owner);
    }
  }

  // ---- adding a live order

  // Who owns the pool indices after Find.
  function FindOwner(v: Sides, p: Pool, owner: seq<int>, symbol: nat, price: int): seq<int>
    requires PoolOk(p) && |owner| == |p.levels|
  {
    if Lists(v.Of(price), price) then owner else Owned(owner, Taken(p), symbol)
  }

  lemma FindShape(books: seq<Sides>, p: Pool, owner: seq<int>, symbol: nat, price: int)
    requires Shape(books, p, owner) && symbol < |books|
    ensures Ready(books[symbol], p, price)
    ensures var (v, q, n) := Find(books[symbol], p, price);
            var owner' := FindOwner(books[symbol], p, owner, symbol, price);
            Shape(books[symbol := v], q, owner') && Extends(p.levels, owner, q.levels, owner', n) &&
            owner'[n] == symbol && q.levels[n].price == price &&
            if Lists(books[symbol].Of(price), price) then q == p && owner' == owner
            else q.levels[n].volume == 0 && (n < |owner| ==> owner[n] == FREE)
  {
    var v := books[symbol];
    assert BookOk(v, symbol, p.levels, owner);
    assert books[symbol := v] == books;
    FreeTaken(p, owner, symbol);
    if !Lists(v.Of(price), price) {
      InsertedShape(books, p, owner, symbol, price);
    }
  }

  // Pool and owners change at one index at most.
  ghost predicate Extends(levels: seq<Level>, owner: seq<int>, levels': seq<Level>, owner': seq<int>, n: nat) {
    |owner| == |levels| && |owner'| == |levels'| && |owner| <= |owner'| <= |owner| + 1 && n < |owner'| &&
    (|owner'| > |owner| ==> n == |owner|) &&
    forall i :: 0 <= i < |owner| && i != n ==> levels'[i] == levels[i] && owner'[i] == owner[i]
  }

  // Volumes do not matter to the shape.
  lemma SetVolumeShape(books: seq<Sides>, p: Pool, owner: seq<int>, level: nat, volume: nat)
    requires Shape(books, p, owner) && level < |p.levels|
    ensures Shape(books, SetVolume(p, level, volume), owner)
  {
    var q := SetVolume(p, level, volume);
    hide Ascending, FreeOk, Lists;
    forall s | 0 <= s < |books| ensures BookOk(books[s], s, q.levels, owner) {
      assert BookOk(books[s], s, p.levels, owner);
      SidePrices(books[s].bids, true, s, p.levels, owner, q.levels);
      SidePrices(books[s].asks, false, s, p.levels, owner, q.levels);
    }
  }

  lemma SidePrices(a: seq<PriceLevel>, bid: bool, symbol: nat, levels: seq<Level>, owner: seq<int>, levels': seq<Level>)
    requires |owner| == |levels| == |levels'| && SideOk(a, bid, symbol, levels, owner)
    requires forall i :: 0 <= i < |levels| ==> levels'[i].price == levels[i].price
    ensures SideOk(a, bid, symbol, levels', owner)
  {
    hide Ascending;
    forall i | 0 <= i < |a| ensures EntryOk(a[i], bid, symbol, levels', owner) {
      assert EntryOk(a[i], bid, symbol, levels, owner);
    }
  }

  lemma FoundVolume(books: seq<Sides>, p: Pool, owner: seq<int>, orders: seq<Order>, live: seq<Option<Live>>,
                    symbol: nat, price: int)
    requires Inv(books, p, owner, orders, live) && symbol < |books| && Ready(books[symbol], p, price)
    ensures var (v, q, n) := Find(books[symbol], p, price);
            n < |q.levels| && q.levels[n].volume == Volume(live, symbol, price)
  {
    RefinesThePlainBook(books, p, owner, orders, live, symbol, price);
    if !Lists(books[symbol].Of(price), price) {
      NoLevelNoVolume(books, p, owner, orders, live, symbol, price);
    }
  }

  lemma AddKeeps(books: seq<Sides>, p: Pool, owner: seq<int>, orders: seq<Order>, live: seq<Option<Live>>, id: nat,
                 l: Live)
    requires Inv(books, p, owner, orders, live) && l.symbol < |books| && id < |live| && live[id].None?
    requires l.quantity > 0 && Volume(live, l.symbol, l.price) + l.quantity < TWO32
    ensures Ready(books[l.symbol], p, l.price)
    ensures var (w, q, level) := Add(books[l.symbol], p, l.price, l.quantity);
            var owner' := FindOwner(books[l.symbol], p, owner, l.symbol, l.price);
            Inv(books[l.symbol := w], q, owner', orders[id := Order(l.symbol, l.quantity, level)], live[id := Some(l)])
  {
    hide Shape, Volume, Volumes, OrdersOk, Find, FindOwner, Extends, Lists, Ready, Add, SetVolume;
    FindShape(books, p, owner, l.symbol, l.price);
    FoundVolume(books, p, owner, orders, live, l.symbol, l.price);
    var owner' := FindOwner(books[l.symbol], p, owner, l.symbol, l.price);
    var (v, q, n) := Find(books[l.symbol], p, l.price);
    var books' := books[l.symbol := v];
    var volume := Volume(live, l.symbol, l.price) + l.quantity;
    AddIs(books[l.symbol], p, l.price, l.quantity);
    SetVolumeShape(books', q, owner', n, volume);
    AddedVolumes(books', p, owner, q, owner', live, id, l, n);
    AddedOrders(p.levels, owner, q, owner', orders, live, id, l, n, volume);
  }

  // Without wrap-around.
  lemma AddIs(v: Sides, p: Pool, price: int, quantity: nat)
    requires Ready(v, p, price)
    requires var (w, q, n) := Find(v, p, price); n < |q.levels| && q.levels[n].volume + quantity < TWO32
    ensures var (w, q, n) := Find(v, p, price);
            Add(v, p, price, quantity) == (w, SetVolume(q, n, q.levels[n].volume + quantity), n)
  {
    var (w, q, n) := Find(v, p, price);
    var volume := q.levels[n].volume + quantity;
    assert volume % TWO32 == volume;
  }

  lemma AddedVolumes(books: seq<Sides>, p: Pool, owner: seq<int>, q: Pool, owner': seq<int>, live: seq<Option<Live>>,
                     id: nat, l: Live, n: nat)
    requires Volumes(p.levels, owner, live) && Shape(books, q, owner') && Extends(p.levels, owner, q.levels, owner', n)
    requires owner'[n] == l.symbol && q.levels[n].price == l.price && id < |live| && live[id].None?
    requires l.quantity > 0 && Volume(live, l.symbol, l.price) + l.quantity < TWO32
    ensures Volumes(SetVolume(q, n, Volume(live, l.symbol, l.price) + l.quantity).levels, owner', live[id := Some(l)])
  {
    var volume := Volume(live, l.symbol, l.price) + l.quantity;
    hide Shape, Volume, VolumeOk;
    AddedVolume(Level(l.price, volume), live, id, l);
    forall i | 0 <= i < |owner'| && i != n && owner'[i] != FREE
      ensures VolumeOk(q.levels[i], owner'[i], live[id := Some(l)])
    {
      assert VolumeOk(p.levels[i], owner[i], live);
      OneIndexPerPrice(books, q, owner', i, n);
      OtherVolume(q.levels[i], owner[i], live, id, Some(l), l);
    }
  }

  lemma AddedVolume(level: Level, live: seq<Option<Live>>, id: nat, l: Live)
    requires id < |live| && live[id].None? && l.quantity > 0 && Volume(live, l.symbol, l.price) + l.quantity < TWO32
    requires level == Level(l.price, Volume(live, l.symbol, l.price) + l.quantity)
    ensures VolumeOk(level, l.symbol, live[id := Some(l)])
  {
    VolumeAfter(live, id, Some(l), l.symbol, l.price);
  }

  // A change to an order leaves the levels at other symbols and prices alone.
  lemma OtherVolume(level: Level, owner: int, live: seq<Option<Live>>, id: nat, o: Option<Live>, l: Live)
    requires VolumeOk(level, owner, live) && id < |live|
    requires live[id].Some? ==> live[id].value.symbol == l.symbol && live[id].value.price == l.price
    requires o.Some? ==> o.value.symbol == l.symbol && o.value.price == l.price
    requires owner != l.symbol || level.price != l.price
    ensures VolumeOk(level, owner, live[id := o])
  {
    VolumeAfter(live, id, o, owner, level.price);
  }

  lemma AddedOrders(levels: seq<Level>, owner: seq<int>, q: Pool, owner': seq<int>, orders: seq<Order>,
                    live: seq<Option<Live>>, id: nat, l: Live, n: nat, volume: nat)
    requires OrdersOk(levels, owner, orders, live) && Extends(levels, owner, q.levels, owner', n)
    requires n < |owner| ==> owner[n] == FREE || (q.levels == levels && owner' == owner)
    requires owner'[n] == l.symbol && q.levels[n].price == l.price && id < |live| && l.quantity > 0
    ensures OrdersOk(SetVolume(q, n, volume).levels, owner', orders[id := Order(l.symbol, l.quantity, n)],
                     live[id := Some(l)])
  {
    var orders', live' := orders[id := Order(l.symbol, l.quantity, n)], live[id := Some(l)];
    forall i | 0 <= i < |live'| && live'[i].Some?
      ensures OrderOk(SetVolume(q, n, volume).levels, owner', orders'[i], live'[i].value)
    {
      if i != id { assert OrderOk(levels, owner, orders[i], live[i].value); }
    }
  }

  // ---- taking quantity away from a live order

  // What is left of a live order.
  function Rest(l: Live, quantity: nat): Option<Live>
    requires quantity <= l.quantity
  {
    if quantity == l.quantity then None else Some(l.(quantity := l.quantity - quantity))
  }

  function CutOwner(p: Pool, owner: seq<int>, level: nat, quantity: nat): seq<int>
    requires level < |p.levels| == |owner|
  {
    if p.levels[level].volume == quantity then owner[level := FREE] else owner
  }

  lemma CutKeeps(books: seq<Sides>, p: Pool, owner: seq<int>, orders: seq<Order>, live: seq<Option<Live>>,
                 id: nat, quantity: nat, orders': seq<Order>)
    requires Inv(books, p, owner, orders, live) && id < |live| == |orders| && live[id].Some? &&
             quantity <= live[id].value.quantity
    requires |orders'| == |orders| && forall i :: 0 <= i < |orders| && i != id ==> orders'[i] == orders[i]
    requires quantity < orders[id].quantity ==> orders'[id] == orders[id].(quantity := orders[id].quantity - quantity)
    ensures var o := orders[id];
            o.symbol == live[id].value.symbol < |books| && o.level < |p.levels| &&
            p.levels[o.level].price == live[id].value.price && o.quantity == live[id].value.quantity
    ensures var o := orders[id];
            var (w, q) := Cut(books[o.symbol], p, o.level, quantity);
            Inv(books[o.symbol := w], q, CutOwner(p, owner, o.level, quantity), orders',
                live[id := Rest(live[id].value, quantity)])
  {
    hide Inv, Shape, Volumes, OrdersOk, Cut, CutOwner, SetVolume, Volume;
    var o := orders[id];
    LiveQuantity(books, p, owner, orders, live, id);
    CutParts(books, p, owner, orders, live, id, quantity, orders');
    CutIs(books[o.symbol], p, o.level, quantity);
    InvOf(books[o.symbol := Cut(books[o.symbol], p, o.level, quantity).0], Cut(books[o.symbol], p, o.level, quantity).1,
          CutOwner(p, owner, o.level, quantity), orders', live[id := Rest(live[id].value, quantity)]);
  }

  lemma InvOf(books: seq<Sides>, p: Pool, owner: seq<int>, orders: seq<Order>, live: seq<Option<Live>>)
    requires Shape(books, p, owner) && Volumes(p.levels, owner, live) && OrdersOk(p.levels, owner, orders, live)
    ensures Inv(books, p, owner, orders, live)
  {
  }

  lemma CutParts(books: seq<Sides>, p: Pool, owner: seq<int>, orders: seq<Order>, live: seq<Option<Live>>,
                 id: nat, quantity: nat, orders': seq<Order>)
    requires Inv(books, p, owner, orders, live) && id < |live| == |orders| && live[id].Some? &&
             quantity <= live[id].value.quantity
    requires |orders'| == |orders| && forall i :: 0 <= i < |orders| && i != id ==> orders'[i] == orders[i]
    requires quantity < orders[id].quantity ==> orders'[id] == orders[id].(quantity := orders[id].quantity - quantity)
    ensures var o := orders[id];
            o.symbol < |books| && o.level < |p.levels| == |owner| && quantity <= p.levels[o.level].volume &&
            var (w, q) := Cut(books[o.symbol], p, o.level, quantity);
            var owner' := CutOwner(p, owner, o.level, quantity);
            var levels := SetVolume(p, o.level, p.levels[o.level].volume - quantity).levels;
            var live' := live[id := Rest(live[id].value, quantity)];
            Shape(books[o.symbol := w], q, owner') && Volumes(levels, owner', live') &&
            OrdersOk(levels, owner', orders', live')
  {
    hide Shape, Volumes, OrdersOk, Cut, CutOwner, SetVolume, Volume;
    var o := orders[id];
    LiveQuantity(books, p, owner, orders, live, id);
    CutShape(books, p, owner, o.level, quantity);
    CutVolumes(books, p, owner, live, id, quantity, o.level);
    CutOrders(books, p, owner, orders, live, id, quantity, orders');
  }

  lemma CutIs(v: Sides, p: Pool, level: nat, quantity: nat)
    requires level < |p.levels| && quantity <= p.levels[level].volume < TWO32
    ensures var volume := p.levels[level].volume - quantity;
            var q := SetVolume(p, level, volume);
            Cut(v, p, level, quantity) == (if volume != 0 then (v, q) else Drop(v, q, level)) &&
            Cut(v, p, level, quantity).1.levels == q.levels
  {
  }

  lemma CutShape(books: seq<Sides>, p: Pool, owner: seq<int>, level: nat, quantity: nat)
    requires Shape(books, p, owner) && level < |owner| == |p.levels| && 0 <= owner[level] < |books|
    requires quantity <= p.levels[level].volume < TWO32
    ensures var (w, q) := Cut(books[owner[level]], p, level, quantity);
            Shape(books[owner[level] := w], q, CutOwner(p, owner, level, quantity))
  {
    hide Shape, Drop, Cut;
    var volume := p.levels[level].volume - quantity;
    var q := SetVolume(p, level, volume);
    CutIs(books[owner[level]], p, level, quantity);
    SetVolumeShape(books, p, owner, level, volume);
    if volume == 0 {
      ErasedShape(books, q, owner, level);
    } else {
      assert books[owner[level] := books[owner[level]]] == books;
    }
  }

  lemma CutVolumes(books: seq<Sides>, p: Pool, owner: seq<int>, live: seq<Option<Live>>, id: nat, quantity: nat, n: nat)
    requires Volumes(p.levels, owner, live) && Shape(books, p, owner) && n < |owner|
    requires id < |live| && live[id].Some? && quantity <= live[id].value.quantity <= p.levels[n].volume
    requires owner[n] == live[id].value.symbol && p.levels[n].price == live[id].value.price
    ensures Volumes(SetVolume(p, n, p.levels[n].volume - quantity).levels, CutOwner(p, owner, n, quantity),
                    live[id := Rest(live[id].value, quantity)])
  {
    var l, volume := live[id].value, p.levels[n].volume - quantity;
    var levels, owner' := SetVolume(p, n, volume).levels, CutOwner(p, owner, n, quantity);
    var live' := live[id := Rest(l, quantity)];
    hide Shape, Volume, VolumeOk;
    forall i | 0 <= i < |owner'| && owner'[i] != FREE ensures VolumeOk(levels[i], owner'[i], live') {
      assert VolumeOk(p.levels[i], owner[i], live);
      if i != n {
        OneIndexPerPrice(books, p, owner, i, n);
        OtherVolume(levels[i], owner[i], live, id, Rest(l, quantity), l);
      } else {
        CutVolume(p.levels[n], owner[n], live, id, quantity);
      }
    }
  }

  lemma CutVolume(level: Level, owner: int, live: seq<Option<Live>>, id: nat, quantity: nat)
    requires VolumeOk(level, owner, live) && id < |live| && live[id].Some? && quantity <= live[id].value.quantity
    requires owner == live[id].value.symbol && level.price == live[id].value.price
    ensures live[id].value.quantity <= level.volume
    ensures quantity != level.volume ==>
              VolumeOk(level.(volume := level.volume - quantity), owner, live[id := Rest(live[id].value, quantity)])
  {
    VolumeAfter(live, id, Rest(live[id].value, quantity), owner, level.price);
  }

  lemma CutOrders(books: seq<Sides>, p: Pool, owner: seq<int>, orders: seq<Order>, live: seq<Option<Live>>,
                  id: nat, quantity: nat, orders': seq<Order>)
    requires Inv(books, p, owner, orders, live) && id < |live| && live[id].Some? && quantity <= live[id].value.quantity
    requires |live| == |orders| && orders[id].level < |p.levels| == |owner| &&
             quantity <= p.levels[orders[id].level].volume
    requires |orders'| == |orders| && forall i :: 0 <= i < |orders| && i != id ==> orders'[i] == orders[i]
    requires quantity < orders[id].quantity ==> orders'[id] == orders[id].(quantity := orders[id].quantity - quantity)
    ensures OrdersOk(SetVolume(p, orders[id].level, p.levels[orders[id].level].volume - quantity).levels,
                     CutOwner(p, owner, orders[id].level, quantity), orders',
                     live[id := Rest(live[id].value, quantity)])
  {
    var l, n := live[id].value, orders[id].level;
    var levels, owner' := SetVolume(p, n, p.levels[n].volume - quantity).levels, CutOwner(p, owner, n, quantity);
    var live' := live[id := Rest(l, quantity)];
    hide Inv, Volume;
    forall i | 0 <= i < |live'| && live'[i].Some? ensures OrderOk(levels, owner', orders'[i], live'[i].value) {
      CutFacts(books, p, owner, orders, live, id, quantity, i);
    }
  }

  // Another order at a level that is emptied would have had part of its volume.
  lemma CutFacts(books: seq<Sides>, p: Pool, owner: seq<int>, orders: seq<Order>, live: seq<Option<Live>>,
                 id: nat, quantity: nat, i: nat)
    requires Inv(books, p, owner, orders, live) && id < |live| && live[id].Some? && quantity <= live[id].value.quantity
    requires i < |live| && live[i].Some?
    ensures |owner| == |p.levels| && |orders| == |live|
    ensures OrderOk(p.levels, owner, orders[id], live[id].value) && OrderOk(p.levels, owner, orders[i], live[i].value)
    ensures quantity == p.levels[orders[id].level].volume ==>
              quantity == live[id].value.quantity && (i == id || orders[i].level != orders[id].level)
  {
    hide Shape, Volume;
    assert OrderOk(p.levels, owner, orders[id], live[id].value) && OrderOk(p.levels, owner, orders[i], live[i].value);
    var n := orders[id].level;
    assert VolumeOk(p.levels[n], owner[n], live);
    CutVolume(p.levels[n], owner[n], live, id, quantity);
    if i != id { TwoParts(live, i, id); }
  }

  lemma TwoParts(live: seq<Option<Live>>, i: nat, j: nat)
    requires i < |live| && j < |live| && i != j && live[i].Some? && live[j].Some?
    ensures live[i].value.symbol == live[j].value.symbol && live[i].value.price == live[j].value.price ==>
              live[i].value.quantity + live[j].value.quantity <= Volume(live, live[i].value.symbol, live[i].value.price)
  {
    var s, p := live[i].value.symbol, live[i].value.price;
    VolumeAfter(live, j, None, s, p);
    VolumeAfter(live[j := None], i, None, s, p);
  }

  // ---------- the classes

  class LevelPool {
    var levels: seq<Level>
    var free: seq<nat>

    function View(): Pool
      reads this
    {
      Pool(levels, free)
    }

    constructor ()
      ensures levels == [] && free == []
    {
      levels, free := [], [];
    }

    method Allocate() returns (index: nat)
      modifies this
      ensures index == Taken(old(View()))
      ensures levels == if old(free) == [] then old(levels) + [Level(0, 0)] else old(levels)
      ensures free == if old(free) == [] then [] else old(free)[..|old(free)| - 1]
    {
      if free == [] {
        index := |levels|;
        levels := levels + [Level(0, 0)];
      } else {
        index := free[|free| - 1];
        free := free[..|free| - 1];
      }
    }

    method Free(index: nat)
      modifies this`free
      ensures free == old(free) + [index]
    {
      free := free + [index];
    }

    method SetLevel(index: nat, level: Level)
      requires index < |levels|
      modifies this`levels
      ensures levels == old(levels)[index := level]
    {
      levels := levels[index := level];
    }
  }

  class OrderBook {
    const pool: LevelPool
    var bids: seq<PriceLevel>
    var asks: seq<PriceLevel>

    function View(): Sides
      reads this
    {
      Sides(bids, asks)
    }

    constructor (pool: LevelPool)
      ensures this.pool == pool && View() == Sides([], [])
    {
      this.pool := pool;
      bids, asks := [], [];
    }

    // The level of a price: searched for from the end of the array, and inserted where the search ends.
    method FindLevel(price: int) returns (index: nat)
      requires Ascending(View().Of(price)) && Ready(View(), pool.View(), price)
      modifies this, pool
      ensures (View(), pool.View(), index) == Find(old(View()), old(pool.View()), price)
    {
      var levels := if price > 0 then bids else asks;
      hide Rank;
      var it := |levels| - 1;
      while it >= 0
        invariant -1 <= it < |levels|
        invariant forall i :: it < i < |levels| ==> levels[i].price > price
      {
        if levels[it].price == price {
          RankIs(levels, price, it);
          return levels[it].level;
        }
        if levels[it].price < price {
          break;
        }
        it := it - 1;
      }
      RankIs(levels, price, it + 1);
      assert Find(View(), pool.View(), price) ==
             (View().With(price, Inserted(levels, price, Taken(pool.View()))), Taking(pool.View(), Level(price, 0)),
              Taken(pool.View()));
      index := pool.Allocate();
      pool.SetLevel(index, Level(price, 0));
      levels := levels[..it + 1] + [PriceLevel(price, index)] + levels[it + 1..];
      assert levels == Inserted(old(View()).Of(price), price, index);
      if price > 0 { bids := levels; } else { asks := levels; }
      assert pool.View() == Taking(old(pool.View()), Level(price, 0));
    }

    method DeleteLevel(level: nat)
      requires level < |pool.levels| && Ascending(View().Of(pool.levels[level].price))
      modifies this, pool`free
      ensures (View(), pool.View()) == Drop(old(View()), old(pool.View()), level)
    {
      var price := pool.levels[level].price;
      var levels := if price > 0 then bids else asks;
      var it := |levels| - 1;
      RankSplits(levels, price);
      while it >= 0
        invariant -1 <= it < |levels|
        invariant forall i :: it < i < |levels| ==> levels[i].price != price
        invariant levels == if price > 0 then bids else asks
        invariant View() == old(View())
      {
        if levels[it].price == price {
          levels := levels[..it] + levels[it + 1..];
          if price > 0 { bids := levels; } else { asks := levels; }
          break;
        }
        it := it - 1;
      }
      pool.Free(level);
    }

    // The pool index of the level is what the order remembers.
    method AddOrder(quantity: nat, price: int) returns (level: nat)
      requires Ascending(View().Of(price)) && Ready(View(), pool.View(), price)
      modifies this, pool
      ensures (View(), pool.View(), level) == Add(old(View()), old(pool.View()), price, quantity)
    {
      level := FindLevel(price);
      var l := pool.levels[level];
      pool.SetLevel(level, l.(volume := (l.volume + quantity) % TWO32));
    }

    method ReduceOrder(order: Order, quantity: nat)
      requires order.level < |pool.levels| && Ascending(View().Of(pool.levels[order.level].price))
      modifies this, pool
      ensures (View(), pool.View()) == Cut(old(View()), old(pool.View()), order.level, quantity)
    {
      var l := pool.levels[order.level];
      pool.SetLevel(order.level, l.(volume := (l.volume - quantity) % TWO32));
      if pool.levels[order.level].volume == 0 {
        DeleteLevel(order.level);
      }
    }

    method DeleteOrder(order: Order)
      requires order.level < |pool.levels| && Ascending(View().Of(pool.levels[order.level].price))
      modifies this, pool
      ensures (View(), pool.View()) == Cut(old(View()), old(pool.View()), order.level, order.quantity)
    {
      var l := pool.levels[order.level];
      pool.SetLevel(order.level, l.(volume := (l.volume - order.quantity) % TWO32));
      if pool.levels[order.level].volume == 0 {
        DeleteLevel(order.level);
      }
    }
  }

  // The new price of an order keeps the sign of the old one.
  function Signed(old_: int, price: int): int { if old_ < 0 then -price else price }

  lemma NoWrap(a: nat, b: nat)
    requires b <= a < TWO32
    ensures (a - b) % TWO32 == a - b
  {
  }

  class MarketManagerOptimized {
    const pool: LevelPool
    const books: seq<OrderBook>
    var orders: seq<Order>

    // The live orders, and the owner of every pool index.
    ghost var live: seq<Option<Live>>
    ghost var owner: seq<int>

    ghost function Views(): seq<Sides>
      reads books
    {
      seq(|books|, i requires 0 <= i < |books| reads books => books[i].View())
    }

    ghost predicate Valid()
      reads this, books, pool
    {
      (forall s :: 0 <= s < |books| ==> books[s].pool == pool) &&
      (forall s, t :: 0 <= s < t < |books| ==> books[s] != books[t]) &&
      |live| == |orders| && Inv(Views(), pool.View(), owner, orders, live)
    }

    constructor (bookCount: nat, orderCount: nat)
      ensures Valid() && |books| == bookCount && live == seq(orderCount, _ => None)
      ensures fresh(pool) && forall s :: 0 <= s < |books| ==> fresh(books[s])
    {
      var levels := new LevelPool();
      var bs: seq<OrderBook> := [];
      while |bs| < bookCount
        invariant |bs| <= bookCount && levels.View() == Pool([], [])
        invariant forall s :: 0 <= s < |bs| ==> fresh(bs[s]) && bs[s].pool == levels && bs[s].View() == Sides([], [])
        invariant forall s, t :: 0 <= s < t < |bs| ==> bs[s] != bs[t]
      {
        var b := new OrderBook(levels);
        bs := bs + [b];
      }
      pool, books := levels, bs;
      orders := seq(orderCount, _ => Order(0, 0, 0));
      live, owner := seq(orderCount, _ => None), [];
    }

    lemma BookFacts(symbol: nat, price: int)
      requires Valid() && symbol < |books|
      ensures Views()[symbol] == books[symbol].View() && Ascending(books[symbol].View().Of(price))
      ensures PoolOk(pool.View()) && |owner| == |pool.levels|
    {
      FreeTaken(pool.View(), owner, symbol);
      assert BookOk(Views()[symbol], symbol, pool.levels, owner);
    }

    method AddOrder(id: nat, symbol: nat, price: int, quantity: nat)
      requires Valid() && id < |orders| && live[id].None? && symbol < |books|
      requires quantity > 0 && Volume(live, symbol, price) + quantity < TWO32
      modifies this, books, pool
      ensures Valid() && live == old(live)[id := Some(Live(symbol, price, quantity))]
    {
      hide Inv, Add, FindOwner, Ready, Ascending, Volume, PoolOk;
      var l := Live(symbol, price, quantity);
      BookFacts(symbol, price);
      AddKeeps(Views(), pool.View(), owner, orders, live, id, l);
      ghost var owner' := FindOwner(Views()[symbol], pool.View(), owner, symbol, price);
      var level := books[symbol].AddOrder(quantity, price);
      orders := orders[id := Order(symbol, quantity, level)];
      owner, live := owner', live[id := Some(l)];
      assert Views() == old(Views())[symbol := books[symbol].View()];
    }

    method ReduceOrder(id: nat, quantity: nat)
      requires Valid() && id < |orders| && live[id].Some? && quantity <= live[id].value.quantity
      modifies this, books, pool
      ensures Valid() && live == old(live)[id := Rest(old(live)[id].value, quantity)]
    {
      hide Inv, Cut, CutOwner, Ascending;
      LiveQuantity(Views(), pool.View(), owner, orders, live, id);
      NoWrap(orders[id].quantity, quantity);
      var left := (orders[id].quantity - quantity) % TWO32;
      var order := orders[id].(quantity := left);
      var orders' := orders[id := order];
      CutKeeps(Views(), pool.View(), owner, orders, live, id, quantity, orders');
      ghost var owner' := CutOwner(pool.View(), owner, order.level, quantity);
      BookFacts(order.symbol, pool.levels[order.level].price);
      orders := orders';
      books[order.symbol].ReduceOrder(order, quantity);
      owner, live := owner', live[id := Rest(live[id].value, quantity)];
      assert Views() == old(Views())[order.symbol := books[order.symbol].View()];
    }

    method DeleteOrder(id: nat)
      requires Valid() && id < |orders| && live[id].Some?
      modifies this, books, pool
      ensures Valid() && live == old(live)[id := None] && orders == old(orders)
    {
      hide Inv, Cut, CutOwner, Ascending;
      LiveQuantity(Views(), pool.View(), owner, orders, live, id);
      var order := orders[id];
      CutKeeps(Views(), pool.View(), owner, orders, live, id, live[id].value.quantity, orders);
      ghost var owner' := CutOwner(pool.View(), owner, order.level, order.quantity);
      BookFacts(order.symbol, pool.levels[order.level].price);
      books[order.symbol].DeleteOrder(order);
      owner, live := owner', live[id := None];
      assert Views() == old(Views())[order.symbol := books[order.symbol].View()];
    }

    // A dead order's quantity.
    method SetQuantity(id: nat, quantity: nat)
      requires Valid() && id < |orders| && live[id].None?
      modifies this`orders
      ensures Valid() && |orders| == old(|orders|)
    {
      hide Inv;
      DeadOrder(Views(), pool.View(), owner, orders, orders[id := orders[id].(quantity := quantity)], live, id);
      orders := orders[id := orders[id].(quantity := quantity)];
    }

    method ModifyOrder(id: nat, price: int, quantity: nat)
      requires Valid() && id < |orders| && live[id].Some?
      requires var l := live[id].value;
               Volume(live[id := None], l.symbol, Signed(l.price, price)) + quantity < TWO32
      modifies this, books, pool
      ensures Valid()
      ensures var l := old(live)[id].value;
              live ==
              old(live)[id := if quantity > 0 then Some(Live(l.symbol, Signed(l.price, price), quantity)) else None]
    {
      hide Inv, Volume;
      var order := orders[id];
      LiveQuantity(Views(), pool.View(), owner, orders, live, id);
      var newPrice := Signed(pool.levels[order.level].price, price);
      DeleteOrder(id);
      SetQuantity(id, quantity);
      if quantity > 0 {
        AddOrder(id, order.symbol, newPrice, quantity);
      }
    }

    method ReplaceOrder(id: nat, newId: nat, symbol: nat, price: int, quantity: nat)
      requires Valid() && id < |orders| && live[id].Some? && newId < |orders| && (newId == id || live[newId].None?)
      requires symbol < |books| &&
               Volume(live[id := None], symbol, Signed(live[id].value.price, price)) + quantity < TWO32
      modifies this, books, pool
      ensures Valid()
      ensures live == if quantity > 0 then
                        old(live)[id := None][newId := Some(Live(symbol, Signed(old(live)[id].value.price, price),
                                                                 quantity))]
                      else old(live)[id := None]
    {
      hide Inv, Volume;
      var order := orders[id];
      LiveQuantity(Views(), pool.View(), owner, orders, live, id);
      var newPrice := Signed(pool.levels[order.level].price, price);
      DeleteOrder(id);
      if quantity > 0 {
        AddOrder(newId, symbol, newPrice, quantity);
      }
    }

    /** The best level of a side: the last one of its array. */
    method Best(symbol: nat, bid: bool) returns (best: Option<Level>)
      requires Valid() && symbol < |books|
      ensures match best
              case None => forall p :: (p > 0 <==> bid) ==> Volume(live, symbol, p) == 0
              case Some(l) => (l.price > 0 <==> bid) && 0 < l.volume == Volume(live, symbol, l.price) &&
                              forall p :: (p > 0 <==> bid) && Volume(live, symbol, p) > 0 ==> p <= l.price
    {
      var levels := if bid then books[symbol].bids else books[symbol].asks;
      BestIs(Views(), pool.View(), owner, orders, live, symbol, bid);
      best := if levels == [] then None else Some(pool.levels[levels[|levels| - 1].level]);
    }
  }

  lemma BestEntry(books: seq<Sides>, p: Pool, owner: seq<int>, orders: seq<Order>, live: seq<Option<Live>>,
                  symbol: nat, bid: bool)
    requires Inv(books, p, owner, orders, live) && symbol < |books|
    ensures var a := if bid then books[symbol].bids else books[symbol].asks;
            a != [] ==> var e := a[|a| - 1];
                        e.level < |p.levels| && p.levels[e.level].price == e.price && (e.price > 0 <==> bid) &&
                        0 < p.levels[e.level].volume == Volume(live, symbol, e.price)
  {
    var a := if bid then books[symbol].bids else books[symbol].asks;
    assert BookOk(books[symbol], symbol, p.levels, owner);
    if a != [] {
      var e := a[|a| - 1];
      assert EntryOk(e, bid, symbol, p.levels, owner);
      assert VolumeOk(p.levels[e.level], owner[e.level], live);
    }
  }

  lemma BestIs(books: seq<Sides>, p: Pool, owner: seq<int>, orders: seq<Order>, live: seq<Option<Live>>,
               symbol: nat, bid: bool)
    requires Inv(books, p, owner, orders, live) && symbol < |books|
    ensures var a := if bid then books[symbol].bids else books[symbol].asks;
            if a == [] then forall price :: (price > 0 <==> bid) ==> Volume(live, symbol, price) == 0
            else var e := a[|a| - 1];
                 e.level < |p.levels| && p.levels[e.level].price == e.price && (e.price > 0 <==> bid) &&
                 0 < p.levels[e.level].volume == Volume(live, symbol, e.price) &&
                 forall price :: (price > 0 <==> bid) && Volume(live, symbol, price) > 0 ==> price <= e.price
  {
    hide Inv, Volume;
    var a := if bid then books[symbol].bids else books[symbol].asks;
    BestEntry(books, p, owner, orders, live, symbol, bid);
    forall price | (price > 0 <==> bid) && Volume(live, symbol, price) > 0
      ensures a != [] && price <= a[|a| - 1].price
    {
      LastIsBest(books, p, owner, orders, live, symbol, bid, price);
    }
  }

  lemma LiveQuantity(books: seq<Sides>, p: Pool, owner: seq<int>, orders: seq<Order>, live: seq<Option<Live>>, id: nat)
    requires Inv(books, p, owner, orders, live) && id < |live| && live[id].Some?
    ensures orders[id].symbol == live[id].value.symbol < |books| && orders[id].level < |p.levels| == |owner|
    ensures p.levels[orders[id].level].price == live[id].value.price
    ensures 0 < orders[id].quantity == live[id].value.quantity <= p.levels[orders[id].level].volume < TWO32
    ensures owner[orders[id].level] == orders[id].symbol
  {
    assert OrderOk(p.levels, owner, orders[id], live[id].value);
    LiveIsListed(books, p, owner, orders, live, id);
    assert VolumeOk(p.levels[orders[id].level], owner[orders[id].level], live);
    CutVolume(p.levels[orders[id].level], owner[orders[id].level], live, id, 0);
  }

  // What a dead order says does not matter.
  lemma DeadOrder(books: seq<Sides>, p: Pool, owner: seq<int>, orders: seq<Order>, orders': seq<Order>,
                  live: seq<Option<Live>>, id: nat)
    requires Inv(books, p, owner, orders, live) && id < |live| && live[id].None?
    requires |orders'| == |orders| && forall i :: 0 <= i < |orders| && i != id ==> orders'[i] == orders[i]
    ensures |live| == |orders| && Inv(books, p, owner, orders', live)
  {
    hide Shape, Volumes;
    forall i | 0 <= i < |live| && live[i].Some? ensures OrderOk(p.levels, owner, orders'[i], live[i].value) {
      assert OrderOk(p.levels, owner, orders[i], live[i].value);
    }
  }
}
