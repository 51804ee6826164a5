/** The kdb+ IPC format as the JavaScript client writes and reads it: the bytes of a value, the reading
    of bytes, and the round trip. Values are trees of null, booleans, numbers, text, arrays and objects. */
module KdbIpc {
  import opened Options

  import opened KdbText

  // The eight bytes of a number.
  type Float64 = b: seq<Byte> | |b| == 8 witness [0, 0, 0, 0, 0, 0, 0, 0]

  // An object has its keys in the order in which they are enumerated.
  datatype Value =
    | Null
    | Boolean(b: bool)
    | Number(bytes: Float64)
    | Text(s: Units)
    | List(items: seq<Value>)
    | Object(keys: seq<Units>, vals: seq<Value>)

  const BACKTICK := 96
  const INT32_MAX := 0x7FFF_FFFF

  // ---------- the format

  function Int32(n: nat): (b: seq<Byte>)
    ensures |b| == 4
  {
    [n % 256, n / 256 % 256, n / 65536 % 256, n / 16777216 % 256]
  }

  function SymbolBytes(s: Units): seq<Byte> { [256 - 11] + Utf8(s) + [0] }

  predicate IsSymbol(s: Units) { s != [] && s[0] == BACKTICK }

  function TextBytes(s: Units): seq<Byte> {
    if IsSymbol(s) then SymbolBytes(s[1..]) else [10, 0] + Int32(|Utf8(s)|) + Utf8(s)
  }

  function KeysBytes(keys: seq<Units>): seq<Byte> {
    if keys == [] then [] else SymbolBytes(keys[0]) + KeysBytes(keys[1..])
  }

  function Bytes(x: Value): (b: seq<Byte>)
    ensures |b| > 0
    decreases x
  {
    match x
    case Null => [101, 0]
    case Boolean(b) => [255, if b then 1 else 0]
    case Number(bytes) => [256 - 9] + bytes
    case Text(s) => TextBytes(s)
    case List(items) => [0, 0] + Int32(|items|) + ListBytes(items)
    case Object(keys, vals) =>
      [99] + ([0, 0] + Int32(|keys|) + KeysBytes(keys)) + ([0, 0] + Int32(|vals|) + ListBytes(vals))
  }

  function ListBytes(items: seq<Value>): (b: seq<Byte>)
    ensures |b| >= |items|
    decreases items
  {
    if items == [] then [] else Bytes(items[0]) + ListBytes(items[1..])
  }

  // The header: little-endian, asynchronous, not compressed, and the size of the message.
  function Message(x: Value): seq<Byte> { [1, 0, 0, 0] + Int32(8 + |Bytes(x)|) + Bytes(x) }

  // ---------- reading

  // A count that is one of the special values of the format is no number.
  function ReadInt32(b: seq<Byte>): (n: int)
    requires |b| >= 4
  {
    var u := b[0] as int + 256 * b[1] as int + 65536 * b[2] as int + 16777216 * b[3] as int;
    if u > INT32_MAX then u - 0x1_0000_0000 else u
  }

  function Terminated(b: seq<Byte>): (r: Option<(seq<Byte>, seq<Byte>)>)
    ensures r.Some? ==> |r.value.1| < |b|
  {
    if b == [] then None
    else if b[0] == 0 then Some(([], b[1..]))
    else match Terminated(b[1..])
      case None => None
      case Some((s, t)) => Some(([b[0]] + s, t))
  }

  function TextsOf(items: seq<Value>): Option<seq<Units>> {
    if items == [] then Some([])
    else if items[0].Text? && TextsOf(items[1..]).Some? then Some([items[0].s] + TextsOf(items[1..]).value)
    else None
  }

  function IndexOf(keys: seq<Units>, key: Units): (i: nat)
    ensures i <= |keys| && (i < |keys| ==> keys[i] == key)
  {
    if keys == [] || keys[0] == key then 0 else 1 + IndexOf(keys[1..], key)
  }

  // Assigning the values to the keys one after the other.
  function Assigned(keys: seq<Units>, vals: seq<Value>): (o: (seq<Units>, seq<Value>))
    requires |keys| <= |vals|
    ensures |o.0| == |o.1| <= |keys|
  {
    if keys == [] then ([], [])
    else
      var n := |keys| - 1;
      var (ks, vs) := Assigned(keys[..n], vals);
      var i := IndexOf(ks, keys[n]);
      if i < |ks| then (ks, vs[i := vals[n]]) else (ks + [keys[n]], vs + [vals[n]])
  }

  function ObjectOf(keys: Value, vals: Value): Option<Value> {
    if keys.List? && vals.List? && TextsOf(keys.items).Some? && |TextsOf(keys.items).value| <= |vals.items| then
      var (ks, vs) := Assigned(TextsOf(keys.items).value, vals.items);
      Some(Object(ks, vs))
    else None
  }

  /** A value and what follows it, or None if the bytes end too early, if the reader throws or does not
      return, or if they use a part of the format that serialize does not. */
  function Parse(b: seq<Byte>): (r: Option<(Value, seq<Byte>)>)
    ensures r.Some? ==> |r.value.1| < |b|
    decreases |b|, 0
  {
    if b == [] then None
    else if b[0] == 256 - 11 then
      match Terminated(b[1..])
      case None => None
      case Some((s, t)) => Some((Text(Utf16(s)), t))
    else if b[0] == 255 then
      if |b| < 2 then None else Some((Boolean(b[1] == 1), b[2..]))
    else if b[0] == 256 - 9 then
      if |b| < 9 then None else Some((Number(b[1..9]), b[9..]))
    else if b[0] == 101 then
      if |b| < 2 || b[1] != 0 then None else Some((Null, b[2..]))
    else if b[0] == 99 then
      match Parse(b[1..])
      case None => None
      case Some((keys, t)) =>
        match Parse(t)
        case None => None
        case Some((vals, u)) => if ObjectOf(keys, vals).None? then None else Some((ObjectOf(keys, vals).value, u))
    else if (b[0] == 0 || b[0] == 10) && |b| >= 6 then
      var n := ReadInt32(b[2..]);
      if b[0] == 0 then
        if n < 0 || n == INT32_MAX then None
        else match ParseList(b[6..], n)
          case None => None
          case Some((items, t)) => Some((List(items), t))
      else if n < 0 then Some((Text([]), b[6..]))
      else if n == INT32_MAX || |b| < 6 + n then None
      else Some((Text(Utf16(b[6..6 + n])), b[6 + n..]))
    else None
  }

  function ParseList(b: seq<Byte>, n: nat): (r: Option<(seq<Value>, seq<Byte>)>)
    ensures r.Some? ==> |r.value.1| <= |b| && |r.value.0| == n
    decreases |b|, 1
  {
    if n == 0 then Some(([], b))
    else match Parse(b)
      case None => None
      case Some((x, t)) =>
        match ParseList(t, n - 1)
        case None => None
        case Some((items, u)) => Some(([x] + items, u))
  }

  // deserialize, for messages that are not compressed.
  function Deserialize(b: seq<Byte>): Option<Value> {
    if |b| < 8 || b[2] == 1 || Parse(b[8..]).None? then None else Some(Parse(b[8..]).value.0)
  }

  // ---------- the round trip

  // An object's keys are distinct.
  ghost predicate Proper(x: Value)
    decreases x
  {
    match x
    case List(items) => ProperList(items)
    case Object(keys, vals) => |keys| == |vals| && Distinct(keys) && ProperList(vals)
    case _ => true
  }

  ghost predicate ProperList(items: seq<Value>)
    decreases items
  {
    items != [] ==> Proper(items[0]) && ProperList(items[1..])
  }

  ghost predicate Distinct(keys: seq<Units>) { forall i, j :: 0 <= i < j < |keys| ==> keys[i] != keys[j] }

  ghost predicate PlainKey(s: Units) { NoSurrogates(s) && 0 !in s }

  ghost predicate PlainKeys(keys: seq<Units>) { keys != [] ==> PlainKey(keys[0]) && PlainKeys(keys[1..]) }

  /** Text is plain without surrogates and without a leading backtick; so is a key without surrogates
      and without a NUL. */
  ghost predicate Plain(x: Value)
    decreases x
  {
    match x
    case Text(s) => NoSurrogates(s) && !IsSymbol(s)
    case List(items) => PlainList(items)
    case Object(keys, vals) => PlainKeys(keys) && PlainList(vals)
    case _ => true
  }

  ghost predicate PlainList(items: seq<Value>)
    decreases items
  {
    items != [] ==> Plain(items[0]) && PlainList(items[1..])
  }

  lemma Int32IsRead(n: nat, t: seq<Byte>)
    requires n <= INT32_MAX
    ensures ReadInt32(Int32(n) + t) == n
  {
    var b := Int32(n) + t;
    assert n / 65536 == n / 16777216 * 256 + n / 65536 % 256;
    assert n / 256 == n / 65536 * 256 + n / 256 % 256;
  }

  // Bytes before the first zero do not matter to where it is.
  lemma {:induction false} TerminatedAfter(p: seq<Byte>, b: seq<Byte>)
    requires 0 !in p
    ensures Terminated(p + b) == match Terminated(b) case None => None case Some((s, t)) => Some((p + s, t))
  {
    if p == [] {
      assert p + b == b;
      if Terminated(b).Some? { assert p + Terminated(b).value.0 == Terminated(b).value.0; }
    } else {
      assert (p + b)[1..] == p[1..] + b;
      TerminatedAfter(p[1..], b);
      if Terminated(b).Some? { assert [p[0]] + (p[1..] + Terminated(b).value.0) == p + Terminated(b).value.0; }
    }
  }

  lemma NoZero(c: Unit, d: Unit)
    ensures 0 !in Four(c, d) && (c != 0 && !Surrogate(c) ==> 0 !in One(c))
  {
  }

  /** A symbol is read back when it is plain, and otherwise as something shorter. */
  lemma {:induction false} SymbolIsRead(s: Units, t: seq<Byte>)
    ensures var r := Terminated(Utf8(s) + ([0] + t));
            r.Some? && if PlainKey(s) then r.value == (Utf8(s), t) && Utf16(Utf8(s)) == s else |Utf16(r.value.0)| < |s|
    decreases |s|
  {
    if s == [] || s[0] == 0 {
      EmptySymbol(s, t);
    } else if Surrogate(s[0]) {
      SymbolIsRead(Drop(s, 2), t);
      hide Terminated, Utf8, Utf16, PlainKey, Four;
      NoZero(s[0], At(s, 1));
      var b := Utf8(Drop(s, 2)) + ([0] + t);
      SymbolStep(s, t, b, Four(s[0], At(s, 1)));
      FourIsSkipped(s[0], At(s, 1), Terminated(b).value.0);
      PlainKeyStep(s);
    } else {
      SymbolIsRead(s[1..], t);
      hide Terminated, Utf8, Utf16, PlainKey, One;
      NoZero(s[0], 0);
      var b := Utf8(s[1..]) + ([0] + t);
      SymbolStep(s, t, b, One(s[0]));
      OneIsRead(s[0], Terminated(b).value.0);
      PlainKeyStep(s);
    }
  }

  lemma EmptySymbol(s: Units, t: seq<Byte>)
    requires s == [] || s[0] == 0
    ensures var r := Terminated(Utf8(s) + ([0] + t)); r.Some? && r.value.0 == [] && (s == [] ==> r.value.1 == t)
  {
    var b := Utf8(s) + ([0] + t);
    assert b[0] == 0 && (s == [] ==> b[1..] == t);
  }

  lemma SymbolStep(s: Units, t: seq<Byte>, b: seq<Byte>, p: seq<Byte>)
    requires s != [] && 0 !in p && p == (if Surrogate(s[0]) then Four(s[0], At(s, 1)) else One(s[0]))
    requires b == Utf8(if Surrogate(s[0]) then Drop(s, 2) else s[1..]) + ([0] + t) && Terminated(b).Some?
    ensures Terminated(Utf8(s) + ([0] + t)) == Some((p + Terminated(b).value.0, Terminated(b).value.1))
    ensures Utf8(s) == p + Utf8(if Surrogate(s[0]) then Drop(s, 2) else s[1..])
  {
    hide Terminated, Utf8, Four, One, At;
    var u := Utf8(if Surrogate(s[0]) then Drop(s, 2) else s[1..]);
    Utf8Step(s);
    Append(p, u, [0] + t);
    TerminatedAfter(p, b);
  }

  lemma Utf8Step(s: Units)
    requires s != []
    ensures Utf8(s) == if Surrogate(s[0]) then Four(s[0], At(s, 1)) + Utf8(Drop(s, 2)) else One(s[0]) + Utf8(s[1..])
  {
  }

  lemma PlainKeyStep(s: Units)
    requires s != [] && s[0] != 0
    ensures PlainKey(s) <==> !Surrogate(s[0]) && PlainKey(s[1..])
  {
    assert s == [s[0]] + s[1..];
  }

  lemma TextIsRead(s: Units, t: seq<Byte>)
    requires |TextBytes(s)| < INT32_MAX
    ensures var r := Parse(TextBytes(s) + t);
            if Plain(Text(s)) then r == Some((Text(s), t)) else r.None? || r.value.0 != Text(s)
  {
    hide Utf8, Utf16, Terminated;
    if IsSymbol(s) {
      SymbolIsParsed(s[1..], t);
      SymbolIsRead(s[1..], t);
    } else {
      StringIsParsed(Utf8(s), t);
      DecodeEncodeIff(s);
    }
  }

  lemma SymbolIsParsed(s: Units, t: seq<Byte>)
    ensures Parse(SymbolBytes(s) + t) == match Terminated(Utf8(s) + ([0] + t))
                                         case None => None
                                         case Some((u, v)) => Some((Text(Utf16(u)), v))
  {
    var b := SymbolBytes(s) + t;
    assert b[0] == 256 - 11 && b[1..] == Utf8(s) + ([0] + t);
  }

  lemma StringIsParsed(u: seq<Byte>, t: seq<Byte>)
    requires |u| < INT32_MAX
    ensures Parse([10, 0] + Int32(|u|) + u + t) == Some((Text(Utf16(u)), t))
  {
    var b, n := [10, 0] + Int32(|u|) + u + t, |u|;
    assert b[2..] == Int32(n) + (u + t);
    Int32IsRead(n, u + t);
    assert b[0] == 10 && b[6..6 + n] == u && b[6 + n..] == t;
  }

  // ---- keys

  function Texts(keys: seq<Units>): seq<Value> { if keys == [] then [] else [Text(keys[0])] + Texts(keys[1..]) }

  lemma {:induction false} TextsAreKeys(keys: seq<Units>)
    ensures TextsOf(Texts(keys)) == Some(keys) && |Texts(keys)| == |keys|
  {
    if keys != [] {
      TextsAreKeys(keys[1..]);
      assert Texts(keys)[1..] == Texts(keys[1..]) && [keys[0]] + keys[1..] == keys;
    }
  }

  lemma {:induction false} OtherTexts(items: seq<Value>)
    ensures TextsOf(items).Some? ==> Texts(TextsOf(items).value) == items && |TextsOf(items).value| == |items|
  {
    if items != [] { OtherTexts(items[1..]); }
  }

  lemma {:induction false} KeysAreRead(keys: seq<Units>, t: seq<Byte>)
    ensures var r := ParseList(KeysBytes(keys) + t, |keys|);
            if PlainKeys(keys) then r == Some((Texts(keys), t)) else r.None? || r.value.0 != Texts(keys)
  {
    if keys == [] {
      assert KeysBytes(keys) + t == t;
    } else {
      var u := KeysBytes(keys[1..]) + t;
      var b := KeysBytes(keys) + t;
      hide Utf8, Utf16, Terminated, SymbolBytes, PlainKey, Parse;
      assert b == SymbolBytes(keys[0]) + u;
      SymbolIsParsed(keys[0], u);
      SymbolIsRead(keys[0], u);
      KeysAreRead(keys[1..], t);
      ListOf(b, |keys|);
      var r := ParseList(b, |keys|);
      if r.Some? { SameCons(Parse(b).value.0, r.value.0[1..], Text(keys[0]), Texts(keys[1..])); }
    }
  }

  lemma SameCons<T>(a: T, s: seq<T>, b: T, t: seq<T>)
    ensures [a] + s == [b] + t <==> a == b && s == t
  {
    assert ([a] + s)[0] == a && ([a] + s)[1..] == s && ([b] + t)[0] == b && ([b] + t)[1..] == t;
  }

  lemma ListOf(b: seq<Byte>, n: nat)
    requires n > 0
    ensures var r := Parse(b);
            var q := if r.Some? then ParseList(r.value.1, n - 1) else None;
            ParseList(b, n) == if q.Some? then Some(([r.value.0] + q.value.0, q.value.1)) else None
  {
  }

  // ---- objects

  lemma {:induction false} AssignedDistinct(keys: seq<Units>, vals: seq<Value>)
    requires |keys| <= |vals| && Distinct(keys)
    ensures Assigned(keys, vals) == (keys, vals[..|keys|])
  {
    if keys != [] {
      var n := |keys| - 1;
      AssignedDistinct(keys[..n], vals);
      assert keys == keys[..n] + [keys[n]] && vals[..n + 1] == vals[..n] + [vals[n]];
    }
  }

  // A key that is assigned twice is not listed twice.
  lemma {:induction false} AssignedAll(keys: seq<Units>, vals: seq<Value>)
    requires |keys| <= |vals| && |Assigned(keys, vals).0| == |keys|
    ensures Assigned(keys, vals).0 == keys
  {
    if keys != [] {
      var n := |keys| - 1;
      AssignedAll(keys[..n], vals);
      assert keys == keys[..n] + [keys[n]];
    }
  }

  // Only its own keys and values give an object.
  lemma ObjectIs(keys: seq<Units>, vals: seq<Value>, ks: seq<Value>, v: Value)
    requires |keys| == |vals| == |ks| && Distinct(keys)
    ensures var o := ObjectOf(List(ks), v);
            if ks != Texts(keys) then o != Some(Object(keys, vals))
            else v.List? && |v.items| == |vals| ==> o == Some(Object(keys, v.items))
  {
    TextsAreKeys(keys);
    OtherTexts(ks);
    if TextsOf(ks).Some? && v.List? && |ks| <= |v.items| {
      var k := TextsOf(ks).value;
      if Assigned(k, v.items).0 == keys { AssignedAll(k, v.items); }
      if k == keys {
        AssignedDistinct(keys, v.items);
        assert |v.items| == |keys| ==> v.items[..|keys|] == v.items;
      }
    }
  }

  lemma ListIsParsed(n: nat, b: seq<Byte>)
    requires n < INT32_MAX
    ensures Parse([0, 0] + Int32(n) + b) ==
            match ParseList(b, n) case None => None case Some((items, t)) => Some((List(items), t))
  {
    var c := [0, 0] + Int32(n) + b;
    assert c[2..] == Int32(n) + b && c[6..] == b;
    Int32IsRead(n, b);
  }

  lemma ObjectBytes(keys: seq<Units>, vals: seq<Value>, t: seq<Byte>)
    requires |keys| == |vals|
    ensures var v := [0, 0] + Int32(|vals|) + (ListBytes(vals) + t);
            Bytes(Object(keys, vals)) + t == [99] + ([0, 0] + Int32(|keys|) + (KeysBytes(keys) + v))
  {
    Regroup([99], [0, 0] + Int32(|keys|), KeysBytes(keys), [0, 0] + Int32(|vals|), ListBytes(vals), t);
    hide Int32, KeysBytes, ListBytes;
  }

  lemma Regroup(a: seq<Byte>, b: seq<Byte>, c: seq<Byte>, d: seq<Byte>, e: seq<Byte>, t: seq<Byte>)
    ensures a + (b + c) + (d + e) + t == a + (b + (c + (d + (e + t))))
  {
    assert (d + e) + t == d + (e + t);
    assert a + (b + c) + (d + e) + t == a + (b + c) + ((d + e) + t);
    assert (b + c) + (d + (e + t)) == b + (c + (d + (e + t)));
    assert a + (b + c) + (d + (e + t)) == a + ((b + c) + (d + (e + t)));
  }

  lemma ObjectIsRead(keys: seq<Units>, vals: seq<Value>, t: seq<Byte>)
    requires |keys| == |vals| < INT32_MAX && Distinct(keys)
    requires var r := ParseList(ListBytes(vals) + t, |vals|);
             if PlainList(vals) then r == Some((vals, t)) else r.None? || r.value.0 != vals
    ensures var x := Object(keys, vals);
            var r := Parse(Bytes(x) + t);
            if Plain(x) then r == Some((x, t)) else r.None? || r.value.0 != x
  {
    var n := |keys|;
    var v := [0, 0] + Int32(n) + (ListBytes(vals) + t);
    var k := [0, 0] + Int32(n) + (KeysBytes(keys) + v);
    var b := Bytes(Object(keys, vals)) + t;
    ObjectBytes(keys, vals, t);
    hide Parse, ParseList, ObjectOf, Int32, KeysBytes, ListBytes, Bytes, PlainKeys, PlainList, Distinct, Texts;
    assert ([99] + k)[1..] == k;
    ListIsParsed(n, KeysBytes(keys) + v);
    ListIsParsed(n, ListBytes(vals) + t);
    KeysAreRead(keys, v);
    ObjectIsParsed(b, k);
    var r := Parse(k);
    if r.Some? {
      var q := Parse(r.value.1);
      if q.Some? { ObjectIs(keys, vals, r.value.0.items, q.value.0); }
    }
  }

  lemma ObjectIsParsed(b: seq<Byte>, k: seq<Byte>)
    requires b != [] && b[0] == 99 && b[1..] == k
    ensures var r := Parse(k);
            var q := if r.Some? then Parse(r.value.1) else None;
            var o := if q.Some? then ObjectOf(r.value.0, q.value.0) else None;
            Parse(b) == if o.Some? then Some((o.value, q.value.1)) else None
  {
  }

  // ---- all values

  /** A value is read back exactly when it is plain, whatever follows it. */
  lemma {:induction false} ValueIsRead(x: Value, t: seq<Byte>)
    requires Proper(x) && |Bytes(x)| < INT32_MAX
    ensures var r := Parse(Bytes(x) + t);
            if Plain(x) then r == Some((x, t)) else r.None? || r.value.0 != x
    decreases x
  {
    var b := Bytes(x) + t;
    match x
    case Null => assert b[2..] == t;
    case Boolean(_) => assert b[2..] == t;
    case Number(bytes) => assert b[1..9] == bytes && b[9..] == t;
    case Text(s) => TextIsRead(s, t);
    case List(items) =>
      assert b == [0, 0] + Int32(|items|) + (ListBytes(items) + t);
      ListIsParsed(|items|, ListBytes(items) + t);
      ListIsRead(items, t);
    case Object(keys, vals) =>
      ListIsRead(vals, t);
      ObjectIsRead(keys, vals, t);
  }

  lemma {:induction false} ListIsRead(items: seq<Value>, t: seq<Byte>)
    requires ProperList(items) && |ListBytes(items)| < INT32_MAX
    ensures var r := ParseList(ListBytes(items) + t, |items|);
            if PlainList(items) then r == Some((items, t)) else r.None? || r.value.0 != items
    decreases items
  {
    if items == [] {
      assert ListBytes(items) + t == t;
    } else {
      assert ListBytes(items) + t == Bytes(items[0]) + (ListBytes(items[1..]) + t);
      ValueIsRead(items[0], ListBytes(items[1..]) + t);
      ListIsRead(items[1..], t);
      assert items == [items[0]] + items[1..];
    }
  }

  /** deserialize inverts serialize exactly on plain values. */
  lemma RoundTripIff(x: Value)
    requires Proper(x) && |Message(x)| < INT32_MAX
    ensures Deserialize(Message(x)) == Some(x) <==> Plain(x)
  {
    assert Message(x)[8..] == Bytes(x) && Bytes(x) + [] == Bytes(x);
    ValueIsRead(x, []);
  }

  // ---------- the bytes themselves

  /** A count is written with its least significant byte first. */
  lemma Int32Value(n: nat)
    requires n < 0x1_0000_0000
    ensures var b := Int32(n);
            b[0] as int + 0x100 * b[1] as int + 0x1_0000 * b[2] as int + 0x100_0000 * b[3] as int == n
  {
    assert n / 65536 == n / 16777216 * 256 + n / 65536 % 256;
    assert n / 256 == n / 65536 * 256 + n / 256 % 256;
  }

  /** A message announces its own size, header included, behind four bytes that say little-endian, asynchronous
      and not compressed; then comes the value. */
  lemma HeaderOf(x: Value)
    ensures |Message(x)| == 8 + |Bytes(x)| && Message(x)[..4] == [1, 0, 0, 0] && Message(x)[8..] == Bytes(x)
    ensures |Message(x)| < 0x1_0000_0000 ==>
              var m := Message(x);
              m[4] as int + 0x100 * m[5] as int + 0x1_0000 * m[6] as int + 0x100_0000 * m[7] as int == |m|
    ensures |Message(x)| < INT32_MAX ==> ReadInt32(Message(x)[4..]) == |Message(x)|
  {
    var n := |Message(x)|;
    assert Message(x)[4..] == Int32(n) + Bytes(x);
    if n < 0x1_0000_0000 { Int32Value(n); }
    if n < INT32_MAX { Int32IsRead(n, Bytes(x)); }
  }

  /** The text "hi", the symbol "s", and a list of null and true, byte by byte. */
  lemma ExampleBytes()
    ensures Bytes(Text([104, 105])) == [10, 0, 2, 0, 0, 0, 104, 105]
    ensures Bytes(Text([BACKTICK, 115])) == [245, 115, 0]
    ensures Bytes(List([Null, Boolean(true)])) == [0, 0, 2, 0, 0, 0, 101, 0, 255, 1]
  {
    AsciiBytes(104, 105);
    AsciiBytes(115, 115);
    assert [BACKTICK, 115][1..] == [115];
    PairBytes(Null, Boolean(true));
  }

  /** An object with a number at the key "a". */
  lemma ExampleObject(n: Float64)
    ensures Bytes(Object([[97]], [Number(n)])) ==
            [99, 0, 0, 1, 0, 0, 0, 245, 97, 0, 0, 0, 1, 0, 0, 0, 247] + n
  {
    hide ListBytes, Utf8;
    AsciiBytes(97, 97);
    OneItem(Number(n));
    assert KeysBytes([[97]]) == SymbolBytes([97]) + KeysBytes([]);
  }

  lemma AsciiBytes(c: Unit, d: Unit)
    requires c < 0x80 && d < 0x80
    ensures Utf8([c]) == [c] && Utf8([c, d]) == [c, d]
  {
    assert [c][1..] == [] && [c, d][1..] == [d] && [d][1..] == [];
    assert Utf8([d]) == One(d) + Utf8([]);
    assert Utf8([c]) == One(c) + Utf8([]);
  }

  lemma OneItem(x: Value)
    ensures ListBytes([x]) == Bytes(x)
  {
    assert [x][1..] == [] && ListBytes([x]) == Bytes(x) + ListBytes([]);
  }

  lemma PairBytes(x: Value, y: Value)
    ensures ListBytes([x, y]) == Bytes(x) + Bytes(y)
  {
    assert [x, y][1..] == [y];
    OneItem(y);
  }
}
