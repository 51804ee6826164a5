/** The cached best level of a balanced tree of price levels. When the best level is deleted its
    successor is read off its own links in constant time; that this is the next best level rests on
    the balance of the tree. */
module BestLevels {
  import opened Options
  import opened Orders

  datatype Tree = Leaf | Node(left: Tree, price: nat, right: Tree)
  {
    // Best levels lie to the right for bids and to the left for asks.
    function Outer(bid: bool): Tree
      requires Node?
    {
      if bid then right else left
    }

    function Inner(bid: bool): Tree
      requires Node?
    {
      if bid then left else right
    }

    function Height(): nat {
      match this case Leaf => 0 case Node(l, _, r) => 1 + Max(l.Height(), r.Height())
    }

    predicate Balanced() {
      match this
      case Leaf => true
      case Node(l, _, r) =>
        l.Balanced() && r.Balanced() && l.Height() <= r.Height() + 1 && r.Height() <= l.Height() + 1
    }

    // The prices, best first.
    function Levels(bid: bool): seq<nat> {
      match this case Leaf => [] case Node(_, p, _) => Outer(bid).Levels(bid) + [p] + Inner(bid).Levels(bid)
    }
  }

  predicate Beats(bid: bool, p: nat, q: nat) { if bid then p > q else p < q }

  ghost predicate Ordered(bid: bool, s: seq<nat>) { forall i, j :: 0 <= i < j < |s| ==> Beats(bid, s[i], s[j]) }

  function Best(bid: bool, t: Tree): Option<nat> { if t.Levels(bid) == [] then None else Some(t.Levels(bid)[0]) }

  function Root(t: Tree): Option<nat> { if t.Node? then Some(t.price) else None }

  /** What DeleteLevel makes the best level before it erases the old one: the inner child of the best
      node if there is one, else its parent if there is one, else its outer child. */
  function AfterBest(bid: bool, t: Tree, parent: Option<nat>): Option<nat>
    requires t.Node?
  {
    if t.Outer(bid).Node? then AfterBest(bid, t.Outer(bid), Some(t.price))
    else if t.Inner(bid).Node? then Root(t.Inner(bid))
    else if parent.Some? then parent
    else Root(t.Outer(bid))
  }

  // The next best of all levels.
  function Second(bid: bool, t: Tree, parent: Option<nat>): Option<nat> {
    if |t.Levels(bid)| > 1 then Some(t.Levels(bid)[1]) else parent
  }

  lemma {:induction false} LevelsOfNode(bid: bool, t: Tree)
    ensures t.Levels(bid) == [] <==> t.Leaf?
    ensures t.Height() <= 1 && t.Node? ==> t.Levels(bid) == [t.price]
  {
    if t.Node? && t.Height() <= 1 {
      assert t.left.Height() == 0 && t.right.Height() == 0;
      assert t.left.Leaf? && t.right.Leaf?;
    }
  }

  /** In a balanced tree the constant-time choice is the next best level. */
  lemma {:induction false} AfterBestIsSecond(bid: bool, t: Tree, parent: Option<nat>)
    requires t.Node? && t.Balanced()
    ensures AfterBest(bid, t, parent) == Second(bid, t, parent)
  {
    LevelsOfNode(bid, t.Outer(bid));
    LevelsOfNode(bid, t.Inner(bid));
    if t.Outer(bid).Node? {
      AfterBestIsSecond(bid, t.Outer(bid), Some(t.price));
    }
  }

  // The inner child of the best node has no outer child of its own.
  predicate BestIsShallow(bid: bool, t: Tree)
    requires t.Node?
  {
    if t.Outer(bid).Node? then BestIsShallow(bid, t.Outer(bid))
    else t.Inner(bid).Node? ==> t.Inner(bid).Outer(bid).Leaf?
  }

  /** In any search tree, balanced or not, the choice is right exactly when the inner child of the best
      node is itself the best of its subtree. */
  lemma {:induction false} AfterBestIff(bid: bool, t: Tree, parent: Option<nat>)
    requires t.Node? && Ordered(bid, t.Levels(bid))
    ensures AfterBest(bid, t, parent) == Second(bid, t, parent) <==> BestIsShallow(bid, t)
  {
    var o, i := t.Outer(bid), t.Inner(bid);
    LevelsOfNode(bid, o);
    LevelsOfNode(bid, i);
    var s := t.Levels(bid);
    if o.Node? {
      assert Ordered(bid, o.Levels(bid)) by { assert o.Levels(bid) == s[..|o.Levels(bid)|]; }
      AfterBestIff(bid, o, Some(t.price));
    } else if i.Node? {
      LevelsOfNode(bid, i.Outer(bid));
      var inner := i.Levels(bid);
      assert inner == i.Outer(bid).Levels(bid) + [i.price] + i.Inner(bid).Levels(bid);
      assert s[1..] == inner;
      var n := |i.Outer(bid).Levels(bid)|;
      assert s[1 + n] == i.price;
      if n > 0 { assert Beats(bid, s[1], s[1 + n]); }
    }
  }

  // ---------- runs of AddLevel and DeleteLevel

  /** A tree with its cached best level. Erasing and inserting rebalance the tree in any way that keeps
      it balanced and ordered. */
  datatype Book = Book(tree: Tree, best: Option<nat>)

  ghost predicate Ok(bid: bool, b: Book) {
    b.tree.Balanced() && Ordered(bid, b.tree.Levels(bid)) && b.best == Best(bid, b.tree)
  }

  ghost predicate AddLevel(bid: bool, b: Book, b': Book, price: nat, i: nat) {
    var s := b.tree.Levels(bid);
    b'.tree.Balanced() && Ordered(bid, b'.tree.Levels(bid)) &&
    i <= |s| && b'.tree.Levels(bid) == s[..i] + [price] + s[i..] &&
    b'.best == if b.best == None || Beats(bid, price, b.best.value) then Some(price) else b.best
  }

  ghost predicate DeleteLevel(bid: bool, b: Book, b': Book, price: nat, i: nat) {
    var s := b.tree.Levels(bid);
    b'.tree.Balanced() && b.tree.Node? &&
    i < |s| && s[i] == price && b'.tree.Levels(bid) == s[..i] + s[i + 1..] &&
    b'.best == if b.best == Some(price) then AfterBest(bid, b.tree, None) else b.best
  }

  lemma AddLevelKeepsBest(bid: bool, b: Book, b': Book, price: nat, i: nat)
    requires Ok(bid, b) && AddLevel(bid, b, b', price, i)
    ensures Ok(bid, b')
  {
    var s, t := b.tree.Levels(bid), b'.tree.Levels(bid);
    if i == 0 {
      assert t[0] == price;
      if s != [] { assert t[1] == s[0] && Beats(bid, t[0], t[1]); }
    } else {
      assert t[0] == s[0] && t[i] == price;
      assert Beats(bid, t[0], t[i]);
    }
  }

  lemma DeleteLevelKeepsBest(bid: bool, b: Book, b': Book, price: nat, i: nat)
    requires Ok(bid, b) && DeleteLevel(bid, b, b', price, i)
    ensures Ok(bid, b')
  {
    var s, t := b.tree.Levels(bid), b'.tree.Levels(bid);
    AfterBestIsSecond(bid, b.tree, None);
    assert forall j :: 0 <= j < |t| ==> t[j] == s[if j < i then j else j + 1];
    if i > 0 { assert Beats(bid, s[0], s[i]); }
  }

  ghost predicate Step(bid: bool, b: Book, b': Book) {
    exists price, i :: AddLevel(bid, b, b', price, i) || DeleteLevel(bid, b, b', price, i)
  }

  /** Over every run from the empty tree the cached best level is the best level. */
  lemma {:induction false} CachedBestIsBest(bid: bool, run: seq<Book>)
    requires |run| > 0 && run[0] == Book(Leaf, None)
    requires forall n :: 0 <= n < |run| - 1 ==> Step(bid, run[n], run[n + 1])
    ensures forall n :: 0 <= n < |run| ==> Ok(bid, run[n])
  {
    if |run| > 1 {
      var m := |run| - 2;
      CachedBestIsBest(bid, run[..m + 1]);
      assert Ok(bid, run[..m + 1][m]);
      var price, i :| AddLevel(bid, run[m], run[m + 1], price, i) || DeleteLevel(bid, run[m], run[m + 1], price, i);
      if AddLevel(bid, run[m], run[m + 1], price, i) {
        AddLevelKeepsBest(bid, run[m], run[m + 1], price, i);
      } else {
        DeleteLevelKeepsBest(bid, run[m], run[m + 1], price, i);
      }
      forall n | 0 <= n < |run| ensures Ok(bid, run[n]) {
        if n <= m { assert run[..m + 1][n] == run[n]; }
      }
    }
  }
}
