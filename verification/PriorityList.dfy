/** A flat list of orders in price-time priority: what a level tree looks like once its levels
    and cached sums are forgotten. */
module PriorityList {
  import opened Options
  import opened Orders

  function Leaves(s: seq<Order>): nat {
    if s == [] then 0 else s[0].leaves + Leaves(s[1..])
  }

  // After every order whose price is at least as good.
  function Insert(k: Kind, s: seq<Order>, o: Order): seq<Order> {
    if s == [] || Better(k, Key(k, o), Key(k, s[0])) then [o] + s else [s[0]] + Insert(k, s[1..], o)
  }

  predicate Has(s: seq<Order>, id: nat) { exists i :: 0 <= i < |s| && s[i].id == id }

  function IndexOf(s: seq<Order>, id: nat): (i: nat)
    requires Has(s, id)
    ensures i < |s| && s[i].id == id && forall j :: 0 <= j < i ==> s[j].id != id
  {
    if s[0].id == id then 0
    else
      assert Has(s[1..], id) by { var i :| 0 <= i < |s| && s[i].id == id; assert s[1..][i - 1] == s[i]; }
      1 + IndexOf(s[1..], id)
  }

  function Find(s: seq<Order>, id: nat): Order
    requires Has(s, id)
  {
    s[IndexOf(s, id)]
  }

  function RemoveAt(s: seq<Order>, i: nat): seq<Order>
    requires i < |s|
  {
    s[..i] + s[i + 1..]
  }

  // An order whose quantity is used up leaves the list.
  function Put(s: seq<Order>, i: nat, o: Order): seq<Order>
    requires i < |s|
  {
    if o.leaves == 0 then RemoveAt(s, i) else s[i := o]
  }

  ghost predicate Sorted(k: Kind, s: seq<Order>) {
    forall i, j :: 0 <= i < j < |s| ==> !Better(k, Key(k, s[j]), Key(k, s[i]))
  }

  ghost predicate Distinct(s: seq<Order>) {
    forall i, j :: 0 <= i < j < |s| ==> s[i].id != s[j].id
  }

  // An order that may wait in a list: it has something left, and a limit order can wait.
  predicate Resting(k: Kind, o: Order) {
    KindOf(o) == k && o.typ != Market && o.leaves > 0 && (o.typ == Limit ==> o.tif == GTC || o.tif == AON)
  }

  ghost predicate OfKind(k: Kind, s: seq<Order>) {
    forall i :: 0 <= i < |s| ==> Resting(k, s[i])
  }

  // What each list of a book satisfies.
  ghost predicate ListOk(k: Kind, s: seq<Order>) { Sorted(k, s) && OfKind(k, s) }

  /** The order after position i if it has the same price: the next node in the queue of a level. */
  function NextInLevel(k: Kind, s: seq<Order>, i: nat): Option<nat>
    requires i < |s|
  {
    if i + 1 < |s| && Key(k, s[i + 1]) == Key(k, s[i]) then Some(s[i + 1].id) else None
  }

  /** The best price strictly worse than `price`. */
  function NextPrice(k: Kind, s: seq<Order>, price: nat): Option<nat> {
    if s == [] then None
    else if Better(k, price, Key(k, s[0])) then Some(Key(k, s[0]))
    else NextPrice(k, s[1..], price)
  }

  predicate HasPrice(k: Kind, s: seq<Order>, price: nat) { exists i :: 0 <= i < |s| && Key(k, s[i]) == price }

  /** How many orders at the front share one price. */
  function RunLength(k: Kind, s: seq<Order>): (n: nat)
    ensures n <= |s| && (s != [] ==> n > 0)
  {
    if s == [] then 0
    else if |s| > 1 && Key(k, s[1]) == Key(k, s[0]) then 1 + RunLength(k, s[1..])
    else 1
  }

  // The orders at one price, in time priority.
  function Queue(k: Kind, s: seq<Order>, price: nat): seq<Order> {
    if s == [] then [] else (if Key(k, s[0]) == price then [s[0]] else []) + Queue(k, s[1..], price)
  }

  // ---------- where levels begin and end in the list

  lemma {:induction false} LevelStart(k: Kind, s: seq<Order>, n: nat)
    requires Sorted(k, s) && n < |s| && (n > 0 ==> Key(k, s[n - 1]) != Key(k, s[n]))
    ensures var q := Queue(k, s, Key(k, s[n])); q != [] && q[0] == s[n]
    ensures HasPrice(k, s, Key(k, s[n]))
  {
    if n > 0 {
      assert Better(k, Key(k, s[0]), Key(k, s[n])) by {
        assert !Better(k, Key(k, s[n]), Key(k, s[n - 1]));
        assert n > 1 ==> !Better(k, Key(k, s[n - 1]), Key(k, s[0]));
      }
      SortedTail(k, s);
      LevelStart(k, s[1..], n - 1);
    }
  }

  // The queue of a level is the run of its price.
  lemma {:induction false} QueueIsRun(k: Kind, s: seq<Order>, n: nat)
    requires Sorted(k, s) && n < |s| && (n > 0 ==> Key(k, s[n - 1]) != Key(k, s[n]))
    ensures var q := Queue(k, s, Key(k, s[n]));
            n + |q| <= |s| && (n + |q| < |s| ==> Key(k, s[n + |q|]) != Key(k, s[n])) &&
            forall j :: 0 <= j < |q| ==> q[j] == s[n + j] && Key(k, q[j]) == Key(k, s[n])
  {
    if n == 0 {
      BestQueue(k, s);
    } else {
      SortedTail(k, s);
      assert Key(k, s[0]) != Key(k, s[n]) by {
        assert !Better(k, Key(k, s[n]), Key(k, s[n - 1]));
        assert n > 1 ==> !Better(k, Key(k, s[n - 1]), Key(k, s[0]));
      }
      QueueIsRun(k, s[1..], n - 1);
    }
  }

  lemma {:induction false} BestQueue(k: Kind, s: seq<Order>)
    requires Sorted(k, s) && s != []
    ensures var q := Queue(k, s, Key(k, s[0]));
            |q| <= |s| && q == s[..|q|] && (|q| < |s| ==> Key(k, s[|q|]) != Key(k, s[0])) &&
            forall j :: 0 <= j < |q| ==> Key(k, q[j]) == Key(k, s[0])
  {
    SortedTail(k, s);
    if |s| > 1 && Key(k, s[1]) == Key(k, s[0]) {
      BestQueue(k, s[1..]);
      hide Sorted, Key;
      var r := Queue(k, s[1..], Key(k, s[0]));
      assert Queue(k, s, Key(k, s[0])) == [s[0]] + r;
    } else {
      QueueWorse(k, s[1..], Key(k, s[0]));
    }
  }

  // The best order heads the queue of its price.
  lemma FirstOfList(k: Kind, s: seq<Order>)
    requires ListOk(k, s) && s != []
    ensures var q := Queue(k, s, Key(k, s[0])); q != [] && q[0] == s[0]
    ensures HasPrice(k, s, Key(k, s[0]))
  {
  }

  lemma {:induction false} QueueWorse(k: Kind, s: seq<Order>, price: nat)
    requires Sorted(k, s) && (s != [] ==> Better(k, price, Key(k, s[0])))
    ensures Queue(k, s, price) == []
  {
    if s != [] {
      SortedTail(k, s);
      if |s| > 1 { assert !Better(k, Key(k, s[1]), Key(k, s[0])); }
      QueueWorse(k, s[1..], price);
    }
  }

  lemma SortedTail(k: Kind, s: seq<Order>)
    requires Sorted(k, s) && s != []
    ensures Sorted(k, s[1..])
  {
    assert forall i :: 0 <= i < |s[1..]| ==> s[1..][i] == s[i + 1];
  }

  lemma {:induction false} LevelEnd(k: Kind, s: seq<Order>, n: nat)
    requires Sorted(k, s) && 0 < n <= |s| && (n < |s| ==> Key(k, s[n]) != Key(k, s[n - 1]))
    ensures NextPrice(k, s, Key(k, s[n - 1])) == if n < |s| then Some(Key(k, s[n])) else None
  {
    var p := Key(k, s[n - 1]);
    assert !Better(k, p, Key(k, s[0])) by { assert n > 1 ==> !Better(k, Key(k, s[n - 1]), Key(k, s[0])); }
    SortedTail(k, s);
    if n > 1 {
      LevelEnd(k, s[1..], n - 1);
    } else if n < |s| {
      assert !Better(k, Key(k, s[1]), Key(k, s[0]));
    }
  }

  // The first order of the best level leaves the list.
  lemma LevelStep(k: Kind, s: seq<Order>)
    requires Sorted(k, s) && s != []
    ensures var p := Key(k, s[0]);
            NextPrice(k, s[1..], p) == NextPrice(k, s, p) &&
            match NextInLevel(k, s, 0)
            case Some(id) => s[1..] != [] && s[1..][0].id == id && Key(k, s[1..][0]) == p
            case None => NextPrice(k, s, p) == if s[1..] == [] then None else Some(Key(k, s[1..][0]))
  {
    if |s| > 1 { assert !Better(k, Key(k, s[1]), Key(k, s[0])); }
  }

  // ---------- positions and sums

  lemma {:induction false} LeavesConcat(s: seq<Order>, t: seq<Order>)
    ensures Leaves(s + t) == Leaves(s) + Leaves(t)
  {
    if s == [] {
      assert s + t == t;
    } else {
      assert (s + t)[1..] == s[1..] + t;
      LeavesConcat(s[1..], t);
    }
  }

  lemma LeavesSplit(s: seq<Order>, i: nat)
    requires i < |s|
    ensures Leaves(s) == Leaves(s[..i]) + s[i].leaves + Leaves(s[i + 1..])
  {
    assert s == s[..i] + s[i..] && s[i..][1..] == s[i + 1..] && s[i..][0] == s[i];
    LeavesConcat(s[..i], s[i..]);
    assert Leaves(s[i..]) == s[i].leaves + Leaves(s[i + 1..]);
  }

  lemma LeavesPut(s: seq<Order>, i: nat, o: Order)
    requires i < |s|
    ensures Leaves(Put(s, i, o)) == Leaves(s) - s[i].leaves + o.leaves
  {
    LeavesSplit(s, i);
    if o.leaves == 0 {
      LeavesConcat(s[..i], s[i + 1..]);
    } else {
      var t := s[i := o];
      LeavesSplit(t, i);
      assert t[..i] == s[..i] && t[i + 1..] == s[i + 1..];
    }
  }

  lemma {:induction false} LeavesPositive(k: Kind, s: seq<Order>)
    requires OfKind(k, s)
    ensures Leaves(s) == 0 <==> s == []
  {
    if s != [] { assert s[0].leaves > 0; }
  }

  // ---------- the three list operations keep the list in order

  lemma {:induction false} InsertAt(k: Kind, s: seq<Order>, o: Order) returns (n: nat)
    requires Sorted(k, s)
    ensures n <= |s| && Insert(k, s, o) == s[..n] + [o] + s[n..]
    ensures forall i :: 0 <= i < n ==> !Better(k, Key(k, o), Key(k, s[i]))
    ensures forall i :: n <= i < |s| ==> Better(k, Key(k, o), Key(k, s[i]))
  {
    if s == [] || Better(k, Key(k, o), Key(k, s[0])) {
      n := 0;
      assert forall i :: 0 < i < |s| ==> !Better(k, Key(k, s[i]), Key(k, s[0]));
    } else {
      assert Sorted(k, s[1..]) by {
        forall i, j | 0 <= i < j < |s[1..]| ensures !Better(k, Key(k, s[1..][j]), Key(k, s[1..][i])) {
          assert s[1..][j] == s[j + 1] && s[1..][i] == s[i + 1];
        }
      }
      var m := InsertAt(k, s[1..], o);
      n := m + 1;
      assert s[1..][..m] == s[1..n] && s[1..][m..] == s[n..];
      assert s[..n] == [s[0]] + s[1..n];
      forall i | 0 <= i < n ensures !Better(k, Key(k, o), Key(k, s[i])) {
        if i > 0 { assert s[1..][i - 1] == s[i]; }
      }
      forall i | n <= i < |s| ensures Better(k, Key(k, o), Key(k, s[i])) {
        assert s[1..][i - 1] == s[i];
      }
    }
  }

  lemma InsertOk(k: Kind, s: seq<Order>, o: Order)
    requires ListOk(k, s) && Resting(k, o)
    ensures ListOk(k, Insert(k, s, o))
  {
    hide Insert, Resting, Key, Better;
    var n := InsertAt(k, s, o);
    var t := Insert(k, s, o);
    forall i | 0 <= i < |t| ensures Resting(k, t[i]) {
      assert t[i] == if i < n then s[i] else if i == n then o else s[i - 1];
    }
    forall i, j | 0 <= i < j < |t| ensures !Better(k, Key(k, t[j]), Key(k, t[i])) {
      assert t[i] == if i < n then s[i] else if i == n then o else s[i - 1];
      assert t[j] == if j < n then s[j] else if j == n then o else s[j - 1];
      if i == n { BetterAsymmetric(k, Key(k, o), Key(k, t[j])); }
    }
  }

  lemma BetterAsymmetric(k: Kind, p: nat, q: nat)
    ensures Better(k, p, q) ==> !Better(k, q, p)
  {
  }

  lemma InsertIds(k: Kind, s: seq<Order>, o: Order)
    requires Sorted(k, s)
    ensures |Insert(k, s, o)| == |s| + 1
    ensures forall id :: Has(Insert(k, s, o), id) <==> Has(s, id) || id == o.id
    ensures Distinct(s) && !Has(s, o.id) ==> Distinct(Insert(k, s, o))
  {
    var n := InsertAt(k, s, o);
    hide Insert, Sorted;
    AddedIds(s, n, o, Insert(k, s, o));
    if Distinct(s) && !Has(s, o.id) { AddedDistinct(s, n, o, Insert(k, s, o)); }
  }

  lemma AddedIds(s: seq<Order>, n: nat, o: Order, t: seq<Order>)
    requires n <= |s| && t == s[..n] + [o] + s[n..]
    ensures forall id :: Has(t, id) <==> Has(s, id) || id == o.id
  {
    forall id | Has(s, id) ensures Has(t, id) {
      var i :| 0 <= i < |s| && s[i].id == id;
      assert t[if i < n then i else i + 1].id == id;
    }
    assert t[n].id == o.id;
    forall id | Has(t, id) ensures Has(s, id) || id == o.id {
      var i :| 0 <= i < |t| && t[i].id == id;
      if i != n { assert s[if i < n then i else i - 1].id == id; }
    }
  }

  lemma AddedDistinct(s: seq<Order>, n: nat, o: Order, t: seq<Order>)
    requires n <= |s| && t == s[..n] + [o] + s[n..] && Distinct(s) && !Has(s, o.id)
    ensures Distinct(t)
  {
    forall i, j | 0 <= i < j < |t| ensures t[i].id != t[j].id {
      if i == n {
        assert t[j] == s[j - 1];
      } else if j == n {
        assert t[i] == s[i];
      } else {
        assert t[i] == s[if i < n then i else i - 1] && t[j] == s[if j < n then j else j - 1];
      }
    }
  }

  lemma PutOk(k: Kind, s: seq<Order>, i: nat, o: Order)
    requires ListOk(k, s) && i < |s| && (o.leaves > 0 ==> Resting(k, o)) && Key(k, o) == Key(k, s[i]) && o.id == s[i].id
    ensures ListOk(k, Put(s, i, o))
    ensures Distinct(s) ==> Distinct(Put(s, i, o))
    ensures Distinct(s) ==> forall id :: Has(Put(s, i, o), id) <==> Has(s, id) && (id != o.id || o.leaves > 0)
  {
    var t := Put(s, i, o);
    if o.leaves == 0 {
      assert forall j :: 0 <= j < i ==> t[j] == s[j];
      assert forall j :: i <= j < |t| ==> t[j] == s[j + 1];
      if Distinct(s) {
        forall id ensures Has(t, id) <==> Has(s, id) && id != o.id {
          if Has(s, id) && id != o.id {
            var j :| 0 <= j < |s| && s[j].id == id;
            assert t[if j < i then j else j - 1].id == id;
          }
        }
      }
    } else {
      forall id ensures Has(t, id) <==> Has(s, id) {
        if Has(s, id) {
          var j :| 0 <= j < |s| && s[j].id == id;
          assert t[j].id == id;
        }
      }
    }
  }
}
