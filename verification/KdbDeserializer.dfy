/** deserialize: a recursive reader with one position in a buffer. */
module KdbDeserializer {
  import opened KdbIpc
  import opened KdbText
  import opened Options

  lemma TerminatedOn(b: seq<Byte>, from: nat, at: nat)
    requires from <= at < |b| && 0 !in b[from..at]
    ensures b[at] == 0 ==> Terminated(b[from..]) == Some((b[from..at], b[at + 1..]))
    ensures b[at] != 0 ==> b[from..at + 1] == b[from..at] + [b[at]]
  {
    assert b[from..] == b[from..at] + b[at..];
    TerminatedAfter(b[from..at], b[at..]);
    assert b[at..][1..] == b[at + 1..];
    if b[at] == 0 { assert Terminated(b[at..]) == Some(([], b[at + 1..])) && b[from..at] + [] == b[from..at]; }
  }

  lemma {:induction false} NotTerminated(b: seq<Byte>)
    requires 0 !in b
    ensures Terminated(b).None?
  {
    if b != [] { NotTerminated(b[1..]); }
  }

  // The first n values of a list and the rest of it.
  ghost predicate ListSoFar(b: seq<Byte>, n: nat, items: seq<Value>, rest: seq<Byte>) {
    |items| <= n &&
    var r := ParseList(rest, n - |items|);
    ParseList(b, n) == if r.Some? then Some((items + r.value.0, r.value.1)) else None
  }

  lemma ListBegins(b: seq<Byte>, n: nat)
    ensures ListSoFar(b, n, [], b)
  {
    var r := ParseList(b, n);
    if r.Some? { assert [] + r.value.0 == r.value.0; }
  }

  lemma ListGoesOn(b: seq<Byte>, n: nat, items: seq<Value>, rest: seq<Byte>)
    requires ListSoFar(b, n, items, rest) && |items| < n
    ensures var r := Parse(rest);
            if r.Some? then ListSoFar(b, n, items + [r.value.0], r.value.1) else ParseList(b, n).None?
  {
    hide Parse, ParseList;
    ListOf(rest, n - |items|);
    var r := Parse(rest);
    if r.Some? {
      var q := ParseList(r.value.1, n - |items| - 1);
      if q.Some? { Append(items, [r.value.0], q.value.0); }
    }
  }

  lemma ListEnds(b: seq<Byte>, n: nat, items: seq<Value>, rest: seq<Byte>)
    requires ListSoFar(b, n, items, rest) && |items| == n
    ensures ParseList(b, n) == Some((items, rest))
  {
    assert items + [] == items;
  }

  method Assign(keys: seq<Units>, vals: seq<Value>) returns (ks: seq<Units>, vs: seq<Value>)
    requires |keys| <= |vals|
    ensures (ks, vs) == Assigned(keys, vals)
  {
    ks, vs := [], [];
    for i := 0 to |keys|
      invariant (ks, vs) == Assigned(keys[..i], vals)
    {
      assert keys[..i + 1][..i] == keys[..i];
      var k := IndexOf(ks, keys[i]);
      if k < |ks| { vs := vs[k := vals[i]]; } else { ks, vs := ks + [keys[i]], vs + [vals[i]]; }
    }
    assert keys[..|keys|] == keys;
  }

  /** Reads values off a buffer. Where Parse gives None, nothing is said about how far the reading went. */
  class Deserializer {
    const ub: seq<Byte>
    var pos: nat

    constructor (ub: seq<Byte>, pos: nat)
      ensures this.ub == ub && this.pos == pos
    {
      this.ub, this.pos := ub, pos;
    }

    method RSymbol() returns (s: Option<Units>)
      requires pos <= |ub|
      modifies this
      ensures old(pos) <= pos <= |ub|
      ensures Terminated(old(ub[pos..])) == None ==> s == None
      ensures Terminated(old(ub[pos..])).Some? ==>
                s == Some(Utf16(Terminated(old(ub[pos..])).value.0)) &&
                ub[pos..] == Terminated(old(ub[pos..])).value.1 && pos > old(pos)
    {
      hide Terminated;
      var u: seq<Byte> := [];
      while true
        invariant old(pos) <= pos <= |ub| && u == ub[old(pos)..pos] && 0 !in u
        decreases |ub| - pos
      {
        if pos == |ub| {
          NotTerminated(ub[old(pos)..]);
          return None;
        }
        TerminatedOn(ub, old(pos), pos);
        var c := ub[pos];
        pos := pos + 1;
        if c == 0 { break; }
        u := u + [c];
      }
      var t := U16U8(u);
      s := Some(t);
    }

    // A signed count.
    method RInt32() returns (n: int)
      requires pos + 4 <= |ub|
      modifies this
      ensures n == ReadInt32(old(ub[pos..])) && pos == old(pos) + 4
    {
      n := ReadInt32(ub[pos..pos + 4]);
      pos := pos + 4;
    }

    method RBytes(n: nat) returns (b: seq<Byte>)
      requires pos + n <= |ub|
      modifies this
      ensures pos == old(pos) + n && b == ub[old(pos)..pos]
    {
      b := [];
      for i := 0 to n
        invariant pos == old(pos) + i && b == ub[old(pos)..pos]
      {
        b := b + [ub[pos]];
        pos := pos + 1;
      }
    }

    method RString(n: int) returns (x: Option<Value>)
      requires pos <= |ub|
      modifies this
      ensures old(pos) <= pos <= |ub|
      ensures var b := old(ub[pos..]);
              if n < 0 then x == Some(Text([])) && ub[pos..] == b
              else if n == INT32_MAX || |b| < n then x == None
              else x == Some(Text(Utf16(b[..n]))) && ub[pos..] == b[n..]
    {
      hide Utf16;
      if n < 0 { return Some(Text([])); }
      if n == INT32_MAX || pos + n > |ub| { return None; }
      ghost var b := ub[pos..];
      var u := RBytes(n);
      assert u == b[..n] && ub[pos..] == b[n..];
      var t := U16U8(u);
      x := Some(Text(t));
    }

    // Two lists, the second assigned to the first key by key.
    method RObject() returns (x: Option<Value>)
      requires pos <= |ub|
      modifies this
      ensures old(pos) <= pos <= |ub|
      ensures match Parse([99] + old(ub[pos..]))
              case None => x == None
              case Some((v, t)) => x == Some(v) && ub[pos..] == t
      decreases |ub| - pos, 1
    {
      ghost var b := ub[pos..];
      assert ([99] + b)[1..] == b;
      ObjectIsParsed([99] + b, b);
      hide Parse, Assigned;
      var keys := R();
      if keys.None? { return None; }
      var vals := R();
      if vals.None? { return None; }
      if keys.value.List? && vals.value.List? && TextsOf(keys.value.items).Some? &&
         |TextsOf(keys.value.items).value| <= |vals.value.items|
      {
        var ks, vs := Assign(TextsOf(keys.value.items).value, vals.value.items);
        x := Some(Object(ks, vs));
      } else {
        x := None;
      }
    }

    method RList(n: nat) returns (items: Option<seq<Value>>)
      requires pos <= |ub|
      modifies this
      ensures old(pos) <= pos <= |ub|
      ensures match ParseList(old(ub[pos..]), n)
              case None => items == None
              case Some((s, t)) => items == Some(s) && ub[pos..] == t
      decreases |ub| - pos, 1
    {
      hide Parse, ParseList, ListSoFar;
      ghost var b := ub[pos..];
      var a := [];
      ListBegins(b, n);
      for i := 0 to n
        invariant old(pos) <= pos <= |ub| && |a| == i && ListSoFar(b, n, a, ub[pos..])
      {
        ListGoesOn(b, n, a, ub[pos..]);
        var x := R();
        if x.None? { return None; }
        a := a + [x.value];
      }
      ListEnds(b, n, a, ub[pos..]);
      items := Some(a);
    }

    /** The recursive reader: it dispatches on the type byte and reads what Parse says. */
    method R() returns (x: Option<Value>)
      requires pos <= |ub|
      modifies this
      ensures old(pos) <= pos <= |ub|
      ensures match Parse(old(ub[pos..]))
              case None => x == None
              case Some((v, t)) => x == Some(v) && ub[pos..] == t && pos > old(pos)
      decreases |ub| - pos, 0
    {
      if pos == |ub| { return None; }
      ghost var b := ub[pos..];
      var t := ub[pos];
      pos := pos + 1;
      assert ub[pos..] == b[1..];
      hide Terminated, Utf16, ParseList, ReadInt32;
      if t == 256 - 11 {
        var s := RSymbol();
        x := if s.Some? then Some(Text(s.value)) else None;
      } else if t == 255 {
        if pos == |ub| { return None; }
        pos := pos + 1;
        x := Some(Boolean(ub[pos - 1] == 1));
      } else if t == 256 - 9 {
        if pos + 8 > |ub| { return None; }
        var f := RBytes(8);
        assert f == b[1..9] && ub[pos..] == b[9..];
        x := Some(Number(f));
      } else if t == 101 {
        if pos == |ub| { return None; }
        pos := pos + 1;
        x := if ub[pos - 1] == 0 then Some(Null) else None;
      } else if t == 99 {
        assert b == [99] + ub[pos..];
        x := RObject();
      } else if (t == 0 || t == 10) && pos + 5 <= |ub| {
        assert b == [t] + ub[pos..];
        x := RCounted(t);
      } else {
        x := None;
      }
    }

    // A byte that is skipped, a count, and then text or a list.
    method RCounted(t: Byte) returns (x: Option<Value>)
      requires pos + 5 <= |ub| && (t == 0 || t == 10)
      modifies this
      ensures old(pos) < pos <= |ub|
      ensures match Parse([t] + old(ub[pos..]))
              case None => x == None
              case Some((v, u)) => x == Some(v) && ub[pos..] == u
      decreases |ub| - pos, 1
    {
      ghost var b := [t] + ub[pos..];
      CountedIsParsed(b);
      hide Utf16, Parse, ParseList, ReadInt32;
      assert ub[pos + 1..] == b[2..] && ub[pos + 5..] == b[6..];
      pos := pos + 1;
      var n := RInt32();
      if t == 0 {
        if n < 0 || n == INT32_MAX { return None; }
        var items := RList(n);
        x := if items.Some? then Some(List(items.value)) else None;
      } else {
        x := RString(n);
      }
    }
  }

  lemma CountedIsParsed(b: seq<Byte>)
    requires |b| >= 6 && (b[0] == 0 || b[0] == 10)
    ensures var n := ReadInt32(b[2..]);
            b[0] == 0 ==> Parse(b) == if n < 0 || n == INT32_MAX then None
                                      else match ParseList(b[6..], n)
                                           case None => None
                                           case Some((items, t)) => Some((List(items), t))
    ensures var n := ReadInt32(b[2..]);
            b[0] == 10 ==> Parse(b) == if n < 0 then Some((Text([]), b[6..]))
                                       else if n == INT32_MAX || |b[6..]| < n then None
                                       else Some((Text(Utf16(b[6..][..n])), b[6..][n..]))
  {
    var n := ReadInt32(b[2..]);
    if 0 <= n <= |b[6..]| { assert b[6..][..n] == b[6..6 + n] && b[6..][n..] == b[6 + n..]; }
  }

  // Compressed messages and messages without a header are not read.
  method DeserializeMessage(b: seq<Byte>) returns (x: Option<Value>)
    ensures x == Deserialize(b)
  {
    if |b| < 8 || b[2] == 1 { return None; }
    var d := new Deserializer(b, 8);
    x := d.R();
  }
}
