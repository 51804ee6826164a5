/** serialize: the size of a message is computed in advance, and a buffer of that size is filled. */
module KdbSerializer {
  import opened KdbIpc
  import opened KdbText

  // Bytes written over a part of a buffer.
  function Written(a: seq<Byte>, at: nat, b: seq<Byte>): (r: seq<Byte>)
    requires at + |b| <= |a|
    ensures |r| == |a|
  {
    a[..at] + b + a[at + |b|..]
  }

  lemma WrittenOn(a: seq<Byte>, at: nat, b: seq<Byte>, c: seq<Byte>)
    requires at + |b| + |c| <= |a|
    ensures Written(Written(a, at, b), at + |b|, c) == Written(a, at, b + c)
  {
  }

  lemma WrittenNothing(a: seq<Byte>, at: nat)
    requires at <= |a|
    ensures Written(a, at, []) == a
  {
  }

  lemma WrittenMore(a: seq<Byte>, at: nat, h: seq<Byte>, b: seq<Byte>, c: seq<Byte>)
    requires at + |h| + |b| + |c| <= |a|
    ensures Written(Written(a, at, h + b), at + |h| + |b|, c) == Written(a, at, h + (b + c))
  {
    assert h + (b + c) == h + b + c;
    WrittenOn(a, at, h + b, c);
  }

  lemma {:induction false} ListBytesOn(items: seq<Value>, i: nat)
    requires i < |items|
    ensures ListBytes(items[..i + 1]) == ListBytes(items[..i]) + Bytes(items[i])
  {
    if i == 0 {
      assert items[..1][1..] == [] && items[..1][0] == items[0] && items[..0] == [];
      assert ListBytes(items[..1]) == Bytes(items[0]) + [];
    } else {
      ListBytesOn(items[1..], i - 1);
      assert items[..i + 1][1..] == items[1..][..i] && items[..i][1..] == items[1..][..i - 1];
    }
  }

  lemma {:induction false} KeysBytesOn(keys: seq<Units>, i: nat)
    requires i < |keys|
    ensures KeysBytes(keys[..i + 1]) == KeysBytes(keys[..i]) + SymbolBytes(keys[i])
  {
    if i == 0 {
      assert keys[..1][1..] == [] && keys[..1][0] == keys[0] && keys[..0] == [];
      assert KeysBytes(keys[..1]) == SymbolBytes(keys[0]) + [];
    } else {
      KeysBytesOn(keys[1..], i - 1);
      assert keys[..i + 1][1..] == keys[1..][..i] && keys[..i][1..] == keys[1..][..i - 1];
    }
  }

  /** The size computed in advance is the number of bytes that will be written. */
  method CalcN(x: Value) returns (n: nat)
    ensures n == |Bytes(x)|
    decreases x
  {
    match x
    case Null => n := 2;
    case Boolean(_) => n := 2;
    case Number(_) => n := 9;
    case Text(s) =>
      var u := U8U16(s);
      n := |u| + if s != [] && s[0] == BACKTICK then 1 else 6;
      TextSize(s);
    case List(items) => n := CalcList(items);
    case Object(keys, vals) =>
      var k := CalcKeys(keys);
      var v := CalcList(vals);
      n := 1 + k + v;
  }

  // A backtick is one byte, which a symbol does without.
  lemma TextSize(s: Units)
    ensures |TextBytes(s)| == |Utf8(s)| + if IsSymbol(s) then 1 else 6
  {
    if IsSymbol(s) { assert Utf8(s) == [BACKTICK] + Utf8(s[1..]); }
  }

  method CalcList(items: seq<Value>) returns (n: nat)
    ensures n == 6 + |ListBytes(items)|
    decreases items
  {
    n := 6;
    for i := 0 to |items|
      invariant n == 6 + |ListBytes(items[..i])|
    {
      var m := CalcN(items[i]);
      n := n + m;
      ListBytesOn(items, i);
    }
    assert items[..|items|] == items;
  }

  method CalcKeys(keys: seq<Units>) returns (n: nat)
    ensures n == 6 + |KeysBytes(keys)|
  {
    n := 6;
    for i := 0 to |keys|
      invariant n == 6 + |KeysBytes(keys[..i])|
    {
      var u := U8U16(keys[i]);
      n := n + 2 + |u|;
      KeysBytesOn(keys, i);
    }
    assert keys[..|keys|] == keys;
  }

  class Serializer {
    const ub: array<Byte>
    var pos: nat

    constructor (n: nat)
      ensures fresh(ub) && ub.Length == n && pos == 0
    {
      ub := new Byte[n];
      pos := 0;
    }

    method Wb(b: Byte)
      requires pos < ub.Length
      modifies this, ub
      ensures ub[..] == Written(old(ub[..]), old(pos), [b]) && pos == old(pos) + 1
    {
      ub[pos] := b;
      pos := pos + 1;
    }

    method Wn(bb: seq<Byte>)
      requires pos + |bb| <= ub.Length
      modifies this, ub
      ensures ub[..] == Written(old(ub[..]), old(pos), bb) && pos == old(pos) + |bb|
    {
      hide Written;
      WrittenNothing(ub[..], pos);
      assert bb[..0] == [];
      for i := 0 to |bb|
        invariant ub[..] == Written(old(ub[..]), old(pos), bb[..i]) && pos == old(pos) + i
      {
        WrittenOn(old(ub[..]), old(pos), bb[..i], [bb[i]]);
        Wb(bb[i]);
        assert bb[..i + 1] == bb[..i] + [bb[i]];
      }
      assert bb[..|bb|] == bb;
    }

    method WSymbol(s: Units)
      requires pos + |SymbolBytes(s)| <= ub.Length
      modifies this, ub
      ensures ub[..] == Written(old(ub[..]), old(pos), SymbolBytes(s)) && pos == old(pos) + |SymbolBytes(s)|
    {
      Wb(256 - 11);
      var u := U8U16(s);
      WrittenOn(old(ub[..]), old(pos), [256 - 11], u);
      Wn(u);
      WrittenOn(old(ub[..]), old(pos), [256 - 11] + u, [0]);
      Wb(0);
    }

    method WHeader(t: Byte, n: nat)
      requires pos + 6 <= ub.Length
      modifies this, ub
      ensures ub[..] == Written(old(ub[..]), old(pos), [t, 0] + Int32(n)) && pos == old(pos) + 6
    {
      Wb(t);
      WrittenOn(old(ub[..]), old(pos), [t], [0]);
      Wb(0);
      assert [t] + [0] == [t, 0];
      WrittenOn(old(ub[..]), old(pos), [t, 0], Int32(n));
      Wn(Int32(n));
    }

    /** Writes exactly the bytes of a value, and nothing else. */
    method W(x: Value)
      requires pos + |Bytes(x)| <= ub.Length
      modifies this, ub
      ensures ub[..] == Written(old(ub[..]), old(pos), Bytes(x)) && pos == old(pos) + |Bytes(x)|
      decreases x
    {
      hide Written, Int32, ListBytes, KeysBytes, SymbolBytes, Utf8;
      match x
      case Null => Wn([101, 0]);
      case Boolean(b) => Wn([255, if b then 1 else 0]);
      case Number(bytes) =>
        WrittenOn(ub[..], pos, [256 - 9], bytes);
        Wb(256 - 9);
        Wn(bytes);
      case Text(s) =>
        if s != [] && s[0] == BACKTICK {
          WSymbol(s[1..]);
        } else {
          var u := U8U16(s);
          WrittenOn(ub[..], pos, [10, 0] + Int32(|u|), u);
          WHeader(10, |u|);
          Wn(u);
        }
      case List(items) => WList(items);
      case Object(keys, vals) => WObject(keys, vals);
    }

    method WObject(keys: seq<Units>, vals: seq<Value>)
      requires pos + |Bytes(Object(keys, vals))| <= ub.Length
      modifies this, ub
      ensures ub[..] == Written(old(ub[..]), old(pos), Bytes(Object(keys, vals))) &&
              pos == old(pos) + |Bytes(Object(keys, vals))|
      decreases vals, 1
    {
      ghost var k, v := [0, 0] + Int32(|keys|) + KeysBytes(keys), [0, 0] + Int32(|vals|) + ListBytes(vals);
      assert Bytes(Object(keys, vals)) == [99] + k + v && |k| == 6 + |KeysBytes(keys)| && |v| == 6 + |ListBytes(vals)|;
      hide Written, Int32, ListBytes, KeysBytes, Bytes;
      WrittenOn(ub[..], pos, [99], k);
      WrittenOn(ub[..], pos, [99] + k, v);
      Wb(99);
      WKeys(keys);
      WList(vals);
    }

    method WList(items: seq<Value>)
      requires pos + 6 + |ListBytes(items)| <= ub.Length
      modifies this, ub
      ensures ub[..] == Written(old(ub[..]), old(pos), [0, 0] + Int32(|items|) + ListBytes(items))
      ensures pos == old(pos) + 6 + |ListBytes(items)|
      decreases items, 0
    {
      hide Written, Int32, Bytes, ListBytes, SymbolBytes;
      ghost var h, all := [0, 0] + Int32(|items|), old(ub[..]);
      WHeader(0, |items|);
      NothingListBytes(items);
      assert h + ListBytes(items[..0]) == h;
      for i := 0 to |items|
        invariant |ListBytes(items[..i])| <= |ListBytes(items)|
        invariant ub[..] == Written(all, old(pos), h + ListBytes(items[..i]))
        invariant pos == old(pos) + 6 + |ListBytes(items[..i])|
      {
        ListBytesOn(items, i);
        ListBytesMore(items, i + 1);
        WrittenMore(all, old(pos), h, ListBytes(items[..i]), Bytes(items[i]));
        W(items[i]);
      }
      assert items[..|items|] == items;
    }

    method WKeys(keys: seq<Units>)
      requires pos + 6 + |KeysBytes(keys)| <= ub.Length
      modifies this, ub
      ensures ub[..] == Written(old(ub[..]), old(pos), [0, 0] + Int32(|keys|) + KeysBytes(keys))
      ensures pos == old(pos) + 6 + |KeysBytes(keys)|
    {
      hide Written, Int32, Bytes, KeysBytes, SymbolBytes;
      ghost var h, all := [0, 0] + Int32(|keys|), old(ub[..]);
      WHeader(0, |keys|);
      NothingKeysBytes(keys);
      assert h + KeysBytes(keys[..0]) == h;
      for i := 0 to |keys|
        invariant |KeysBytes(keys[..i])| <= |KeysBytes(keys)|
        invariant ub[..] == Written(all, old(pos), h + KeysBytes(keys[..i]))
        invariant pos == old(pos) + 6 + |KeysBytes(keys[..i])|
      {
        KeysBytesOn(keys, i);
        KeysBytesMore(keys, i + 1);
        WrittenMore(all, old(pos), h, KeysBytes(keys[..i]), SymbolBytes(keys[i]));
        WSymbol(keys[i]);
      }
      assert keys[..|keys|] == keys;
    }
  }

  lemma NothingListBytes(items: seq<Value>)
    ensures ListBytes(items[..0]) == []
  {
  }

  lemma NothingKeysBytes(keys: seq<Units>)
    ensures KeysBytes(keys[..0]) == []
  {
  }

  lemma {:induction false} ListBytesMore(items: seq<Value>, i: nat)
    requires i <= |items|
    ensures |ListBytes(items[..i])| <= |ListBytes(items)|
    decreases |items| - i
  {
    if i < |items| {
      ListBytesOn(items, i);
      ListBytesMore(items, i + 1);
    } else {
      assert items[..i] == items;
    }
  }

  lemma {:induction false} KeysBytesMore(keys: seq<Units>, i: nat)
    requires i <= |keys|
    ensures |KeysBytes(keys[..i])| <= |KeysBytes(keys)|
    decreases |keys| - i
  {
    if i < |keys| {
      KeysBytesOn(keys, i);
      KeysBytesMore(keys, i + 1);
    } else {
      assert keys[..i] == keys;
    }
  }

  /** The message fills the buffer that was made for it. */
  method Serialize(x: Value) returns (message: array<Byte>)
    ensures message[..] == Message(x) && fresh(message)
    ensures message.Length == 8 + |Bytes(x)| && message[..4] == [1, 0, 0, 0]
    ensures message.Length < INT32_MAX ==> ReadInt32(message[4..]) == message.Length
  {
    hide Int32, ReadInt32, Bytes, Written;
    HeaderOf(x);
    var n := CalcN(x);
    var s := new Serializer(8 + n);
    ghost var empty := s.ub[..];
    s.Wn([1, 0, 0, 0]);
    s.Wn(Int32(s.ub.Length));
    s.W(x);
    WholeBuffer(empty, [1, 0, 0, 0], Int32(8 + n), Bytes(x));
    message := s.ub;
    assert message[..] == Message(x) && message[..4] == message[..][..4] && message[4..] == message[..][4..];
  }

  lemma WholeBuffer(a: seq<Byte>, h: seq<Byte>, b: seq<Byte>, c: seq<Byte>)
    requires |a| == |h| + |b| + |c|
    ensures Written(Written(Written(a, 0, h), |h|, b), |h| + |b|, c) == h + b + c
  {
  }
}
