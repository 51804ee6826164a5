/** Text between JavaScript's 16-bit code units and UTF-8 (section 3 of RFC 3629). */
module KdbText {
  type Byte = x: int | 0 <= x < 256

  type Unit = x: int | 0 <= x < 0x10000

  type Units = seq<Unit>

  predicate Surrogate(c: Unit) { 0xD800 <= c < 0xE000 }

  // The character code at an index; zero, as the masks make it, when there is none.
  function At(s: seq<Unit>, i: nat): Unit { if i < |s| then s[i] else 0 }

  function ByteAt(b: seq<Byte>, i: nat): Byte { if i < |b| then b[i] else 0 }

  function Drop<T>(s: seq<T>, n: nat): seq<T> { if n <= |s| then s[n..] else [] }

  function One(c: Unit): (b: seq<Byte>)
    requires !Surrogate(c)
  {
    if c < 0x80 then [c]
    else if c < 0x800 then [0xC0 + c / 64, 0x80 + c % 64]
    else [0xE0 + c / 4096, 0x80 + c / 64 % 64, 0x80 + c % 64]
  }

  // A surrogate with whatever follows it.
  function Four(c: Unit, d: Unit): seq<Byte> {
    var code := 0x10000 + c % 1024 * 1024 + d % 1024;
    [0xF0 + code / 0x40000, 0x80 + code / 4096 % 64, 0x80 + code / 64 % 64, 0x80 + code % 64]
  }

  function Utf8(s: seq<Unit>): seq<Byte>
    decreases |s|
  {
    if s == [] then []
    else if Surrogate(s[0]) then Four(s[0], At(s, 1)) + Utf8(Drop(s, 2))
    else One(s[0]) + Utf8(s[1..])
  }

  // The decoder knows one to three bytes and skips every other byte.
  function Width(c: Byte): nat { if c / 16 == 12 || c / 16 == 13 then 2 else if c / 16 == 14 then 3 else 1 }

  function Decoded(b: seq<Byte>, i: nat): seq<Unit>
    requires i < |b|
  {
    var c := b[i];
    if c / 16 < 8 then [c]
    else if c / 16 == 12 || c / 16 == 13 then [c % 32 * 64 + ByteAt(b, i + 1) % 64]
    else if c / 16 == 14 then [c % 16 * 4096 + ByteAt(b, i + 1) % 64 * 64 + ByteAt(b, i + 2) % 64]
    else []
  }

  function Utf16(b: seq<Byte>): seq<Unit>
    decreases |b|
  {
    if b == [] then [] else Decoded(b, 0) + Utf16(Drop(b, Width(b[0])))
  }

  ghost predicate NoSurrogates(s: seq<Unit>) { forall i :: 0 <= i < |s| ==> !Surrogate(s[i]) }

  // Without the surrogates and what follows each of them.
  function Kept(s: seq<Unit>): seq<Unit>
    decreases |s|
  {
    if s == [] then [] else if Surrogate(s[0]) then Kept(Drop(s, 2)) else [s[0]] + Kept(s[1..])
  }

  // Six bits at a time.
  lemma TwoBytes(c: Unit)
    requires 0x80 <= c < 0x800
    ensures 12 <= (0xC0 + c / 64) / 16 <= 13 && (0xC0 + c / 64) % 32 == c / 64
    ensures c / 64 * 64 + c % 64 == c && (0x80 + c % 64) % 64 == c % 64
  {
  }

  lemma ThreeBytes(c: Unit)
    requires 0x800 <= c
    ensures (0xE0 + c / 4096) / 16 == 14 && (0xE0 + c / 4096) % 16 == c / 4096
    ensures (0x80 + c / 64 % 64) % 64 == c / 64 % 64 && (0x80 + c % 64) % 64 == c % 64
    ensures c / 4096 * 4096 + c / 64 % 64 * 64 + c % 64 == c
  {
    assert c / 64 == c / 4096 * 64 + c / 64 % 64;
  }

  lemma OneDecodes(c: Unit, t: seq<Byte>)
    requires !Surrogate(c)
    ensures var b := One(c) + t; Decoded(b, 0) == [c] && Width(b[0]) == |One(c)|
  {
    var b := One(c) + t;
    if 0x800 <= c {
      ThreeBytes(c);
      assert b[0] == 0xE0 + c / 4096 && b[1] == 0x80 + c / 64 % 64 && b[2] == 0x80 + c % 64;
    } else if 0x80 <= c {
      TwoBytes(c);
      assert b[0] == 0xC0 + c / 64 && b[1] == 0x80 + c % 64;
    }
  }

  lemma OneIsRead(c: Unit, t: seq<Byte>)
    requires !Surrogate(c)
    ensures Utf16(One(c) + t) == [c] + Utf16(t)
  {
    OneDecodes(c, t);
    hide One, Decoded, Width;
    assert Drop(One(c) + t, |One(c)|) == t;
  }

  lemma FourIsSkipped(c: Unit, d: Unit, t: seq<Byte>)
    ensures Utf16(Four(c, d) + t) == Utf16(t)
  {
    hide Utf16;
    var b := Four(c, d) + t;
    assert b[0] / 16 == 15 && 8 <= b[1] / 16 < 12 && 8 <= b[2] / 16 < 12 && 8 <= b[3] / 16 < 12;
    hide Four;
    ByteIsSkipped(b, 0);
    ByteIsSkipped(b, 1);
    ByteIsSkipped(b, 2);
    ByteIsSkipped(b, 3);
    assert b[0..] == b && b[4..] == t;
  }

  lemma ByteIsSkipped(b: seq<Byte>, i: nat)
    requires i < |b| && (b[i] / 16 == 15 || 8 <= b[i] / 16 < 12)
    ensures Utf16(b[i..]) == Utf16(b[i + 1..])
  {
    assert b[i..][1..] == b[i + 1..];
  }

  /** Decoding gives the text back without its surrogates. */
  lemma {:induction false} DecodesToKept(s: seq<Unit>)
    ensures Utf16(Utf8(s)) == Kept(s)
    decreases |s|
  {
    if s != [] {
      if Surrogate(s[0]) {
        FourIsSkipped(s[0], At(s, 1), Utf8(Drop(s, 2)));
        DecodesToKept(Drop(s, 2));
      } else {
        OneIsRead(s[0], Utf8(s[1..]));
        DecodesToKept(s[1..]);
      }
    }
  }

  lemma {:induction false} KeptIff(s: seq<Unit>)
    ensures |Kept(s)| <= |s|
    ensures NoSurrogates(s) <==> Kept(s) == s
    ensures !NoSurrogates(s) ==> |Kept(s)| < |s|
    decreases |s|
  {
    if s != [] {
      if Surrogate(s[0]) {
        KeptIff(Drop(s, 2));
      } else {
        KeptIff(s[1..]);
        assert NoSurrogates(s) <==> NoSurrogates(s[1..]) by {
          assert forall i :: 0 < i < |s| ==> s[i] == s[1..][i - 1];
        }
      }
    }
  }

  /** Encoding and decoding give a text back exactly when it has no surrogates. */
  lemma DecodeEncodeIff(s: seq<Unit>)
    ensures Utf16(Utf8(s)) == s <==> NoSurrogates(s)
  {
    DecodesToKept(s);
    KeptIff(s);
  }

  // A byte that goes on with a character, and the six bits it has of it.
  predicate Continues(b: Byte) { 0x80 <= b < 0xC0 }

  /** The bytes are those of section 3 of RFC 3629: the first says how many there are, each of the others has six
      bits, and together they are the character, or, for a surrogate and the code unit behind it, the character
      of the pair. */
  lemma IsUtf8(c: Unit, d: Unit)
    ensures !Surrogate(c) ==>
              var b := One(c);
              if c < 0x80 then b == [c]
              else if c < 0x800 then
                |b| == 2 && 0xC0 <= b[0] < 0xE0 && Continues(b[1]) &&
                c == (b[0] as int - 0xC0) * 0x40 + (b[1] as int - 0x80)
              else
                |b| == 3 && 0xE0 <= b[0] < 0xF0 && Continues(b[1]) && Continues(b[2]) &&
                c == (b[0] as int - 0xE0) * 0x1000 + (b[1] as int - 0x80) * 0x40 + (b[2] as int - 0x80)
    ensures 0xD800 <= c < 0xDC00 <= d < 0xE000 ==>
              var b := Four(c, d);
              |b| == 4 && 0xF0 <= b[0] < 0xF8 && Continues(b[1]) && Continues(b[2]) && Continues(b[3]) &&
              0x1_0000 + (c - 0xD800) * 0x400 + (d - 0xDC00) ==
              (b[0] as int - 0xF0) * 0x4_0000 + (b[1] as int - 0x80) * 0x1000 +
              (b[2] as int - 0x80) * 0x40 + (b[3] as int - 0x80)
  {
    hide One, Four;
    if !Surrogate(c) { OneIsUtf8(c); }
    if 0xD800 <= c < 0xDC00 <= d < 0xE000 { FourIsUtf8(c, d); }
  }

  lemma OneIsUtf8(c: Unit)
    requires !Surrogate(c)
    ensures var b := One(c);
            if c < 0x80 then b == [c]
            else if c < 0x800 then
              |b| == 2 && 0xC0 <= b[0] < 0xE0 && Continues(b[1]) &&
              c == (b[0] as int - 0xC0) * 0x40 + (b[1] as int - 0x80)
            else
              |b| == 3 && 0xE0 <= b[0] < 0xF0 && Continues(b[1]) && Continues(b[2]) &&
              c == (b[0] as int - 0xE0) * 0x1000 + (b[1] as int - 0x80) * 0x40 + (b[2] as int - 0x80)
  {
    assert c / 64 == c / 4096 * 64 + c / 64 % 64;
  }

  lemma FourIsUtf8(c: Unit, d: Unit)
    requires 0xD800 <= c < 0xDC00 <= d < 0xE000
    ensures var b := Four(c, d);
            |b| == 4 && 0xF0 <= b[0] < 0xF8 && Continues(b[1]) && Continues(b[2]) && Continues(b[3]) &&
            0x1_0000 + (c - 0xD800) * 0x400 + (d - 0xDC00) ==
            (b[0] as int - 0xF0) * 0x4_0000 + (b[1] as int - 0x80) * 0x1000 +
            (b[2] as int - 0x80) * 0x40 + (b[3] as int - 0x80)
  {
    assert c % 1024 == c - 0xD800 && d % 1024 == d - 0xDC00;
    SixBits(0x10000 + c % 1024 * 1024 + d % 1024);
  }

  lemma SixBits(n: nat)
    ensures n == n / 0x4_0000 * 0x4_0000 + n / 4096 % 64 * 4096 + n / 64 % 64 * 64 + n % 64
  {
    assert n / 4096 == n / 0x4_0000 * 64 + n / 4096 % 64;
    assert n / 64 == n / 4096 * 64 + n / 64 % 64;
  }

  // ---------- the loops

  lemma Utf8From(s: seq<Unit>, i: nat)
    requires i < |s|
    ensures Utf8(Drop(s, i)) == if Surrogate(s[i]) then Four(s[i], At(s, i + 1)) + Utf8(Drop(s, i + 2))
                                else One(s[i]) + Utf8(Drop(s, i + 1))
  {
    hide Four, One;
    var t := Drop(s, i);
    assert t[1..] == Drop(s, i + 1) && Drop(t, 2) == Drop(s, i + 2) && At(t, 1) == At(s, i + 1);
  }

  // The bytes of the character at an index, and the index of its last code unit.
  method CharBytes(u16: seq<Unit>, i: nat) returns (u8: seq<Byte>, last: nat)
    requires i < |u16|
    ensures u8 == if Surrogate(u16[i]) then Four(u16[i], At(u16, i + 1)) else One(u16[i])
    ensures last == if Surrogate(u16[i]) then i + 1 else i
  {
    var c := u16[i];
    last := i;
    if c < 0x80 {
      u8 := [c];
    } else if c < 0x800 {
      u8 := [0xC0 + c / 64, 0x80 + c % 64];
    } else if c < 0xD800 || c >= 0xE000 {
      u8 := [0xE0 + c / 4096, 0x80 + c / 64 % 64, 0x80 + c % 64];
    } else {
      last := i + 1;
      var code := 0x10000 + c % 1024 * 1024 + At(u16, last) % 1024;
      u8 := [0xF0 + code / 0x40000, 0x80 + code / 4096 % 64, 0x80 + code / 64 % 64, 0x80 + code % 64];
    }
  }

  method U8U16(u16: seq<Unit>) returns (u8: seq<Byte>)
    ensures u8 == Utf8(u16)
  {
    hide Utf8, Four, One;
    u8 := [];
    var i := 0;
    ghost var all := Utf8(u16);
    while i < |u16|
      invariant u8 + Utf8(Drop(u16, i)) == all
    {
      hide Drop;
      Utf8From(u16, i);
      var c, last := CharBytes(u16, i);
      Append(u8, c, Utf8(Drop(u16, last + 1)));
      u8 := u8 + c;
      i := last + 1;
    }
    NothingToDrop(u16, i);
  }

  lemma Append<T>(a: seq<T>, b: seq<T>, c: seq<T>)
    ensures a + (b + c) == a + b + c
  {
  }

  lemma NothingToDrop(s: seq<Unit>, i: nat)
    requires i >= |s|
    ensures Utf8(Drop(s, i)) == []
  {
  }

  lemma Utf16From(b: seq<Byte>, i: nat)
    requires i < |b|
    ensures Utf16(Drop(b, i)) == Decoded(b, i) + Utf16(Drop(b, i + Width(b[i])))
  {
    DecodedFrom(b, i);
    hide Width, Decoded;
    var t := Drop(b, i);
    assert t == b[i..] && t[0] == b[i];
    assert Drop(t, Width(b[i])) == Drop(b, i + Width(b[i]));
  }

  lemma DecodedFrom(b: seq<Byte>, i: nat)
    requires i < |b|
    ensures Decoded(b[i..], 0) == Decoded(b, i)
  {
    ByteFrom(b, i, 1);
    ByteFrom(b, i, 2);
  }

  lemma ByteFrom(b: seq<Byte>, i: nat, n: nat)
    requires i <= |b|
    ensures ByteAt(b[i..], n) == ByteAt(b, i + n)
  {
  }

  method U16U8(u8: seq<Byte>) returns (u16: seq<Unit>)
    ensures u16 == Utf16(u8)
  {
    hide Utf16;
    u16 := [];
    var i := 0;
    ghost var all := Utf16(u8);
    while i < |u8|
      invariant u16 + Utf16(Drop(u8, i)) == all
    {
      hide Drop;
      Utf16From(u8, i);
      var c := u8[i];
      ghost var was, d, next := u16, Decoded(u8, i), i + Width(u8[i]);
      if c / 16 < 8 {
        u16 := u16 + [c];
      } else if c / 16 == 12 || c / 16 == 13 {
        i := i + 1;
        u16 := u16 + [c % 32 * 64 + ByteAt(u8, i) % 64];
      } else if c / 16 == 14 {
        i := i + 2;
        u16 := u16 + [c % 16 * 4096 + ByteAt(u8, i - 1) % 64 * 64 + ByteAt(u8, i) % 64];
      }
      i := i + 1;
      assert u16 == was + d && i == next;
      Append(was, d, Utf16(Drop(u8, i)));
    }
    AllDropped(u8, i);
  }

  lemma AllDropped(b: seq<Byte>, i: nat)
    requires i >= |b|
    ensures Utf16(Drop(b, i)) == []
  {
  }
}
