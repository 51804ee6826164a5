/** The stream framer of the ITCH handler: bytes arrive in pieces of any size, and every message is two
    bytes of big-endian size and then so many bytes of payload. */
module ItchStream {
  type Byte = x: int | 0 <= x < 256

  function Header(n: nat): seq<Byte>
    requires n < 0x10000
  {
    [n / 256, n % 256]
  }

  function ReadBigEndian(s: seq<Byte>): (n: nat)
    requires |s| >= 2
    ensures n < 0x10000
  {
    s[0] as int * 256 + s[1] as int
  }

  lemma HeaderIsRead(n: nat, s: seq<Byte>)
    requires n < 0x10000
    ensures ReadBigEndian(Header(n) + s) == n
  {
  }

  // ---------- the whole stream at once

  // The payloads of the complete messages. A size is looked at once something follows it, and an
  // empty message is no message.
  function Payloads(s: seq<Byte>): seq<seq<Byte>> {
    if |s| < 3 then []
    else
      var n := ReadBigEndian(s);
      if |s| < 2 + n then [] else (if n == 0 then [] else [s[2..2 + n]]) + Payloads(s[2 + n..])
  }

  // What is left over.
  function Rest(s: seq<Byte>): seq<Byte> {
    if |s| < 3 || |s| < 2 + ReadBigEndian(s) then s else Rest(s[2 + ReadBigEndian(s)..])
  }

  lemma {:induction false} PayloadsOfMore(s: seq<Byte>, t: seq<Byte>)
    ensures Payloads(s + t) == Payloads(s) + Payloads(Rest(s) + t)
    ensures Rest(s + t) == Rest(Rest(s) + t)
  {
    hide Payloads, Rest, ReadBigEndian;
    if |s| >= 3 && |s| >= 2 + ReadBigEndian(s) {
      var n := ReadBigEndian(s);
      PayloadsOfMore(s[2 + n..], t);
      FirstPayload(s);
      FirstStays(s, t);
      FirstPayload(s + t);
      var first := if n == 0 then [] else [s[2..2 + n]];
      assert first + (Payloads(s[2 + n..]) + Payloads(Rest(s) + t)) ==
             first + Payloads(s[2 + n..]) + Payloads(Rest(s) + t);
    } else {
      NoPayload(s);
      assert [] + Payloads(s + t) == Payloads(s + t);
    }
  }

  lemma FirstStays(s: seq<Byte>, t: seq<Byte>)
    requires |s| >= 3 && |s| >= 2 + ReadBigEndian(s)
    ensures var n := ReadBigEndian(s);
            ReadBigEndian(s + t) == n && (s + t)[2 + n..] == s[2 + n..] + t && (s + t)[2..2 + n] == s[2..2 + n]
  {
  }

  lemma NoPayload(s: seq<Byte>)
    requires |s| < 3 || |s| < 2 + ReadBigEndian(s)
    ensures Payloads(s) == [] && Rest(s) == s
  {
  }

  lemma FirstPayload(s: seq<Byte>)
    requires |s| >= 3 && |s| >= 2 + ReadBigEndian(s)
    ensures var n := ReadBigEndian(s);
            Payloads(s) == (if n == 0 then [] else [s[2..2 + n]]) + Payloads(s[2 + n..]) && Rest(s) == Rest(s[2 + n..])
  {
  }

  lemma EmptyMessage(s: seq<Byte>)
    requires |s| >= 3 && ReadBigEndian(s) == 0
    ensures Payloads(s) == Payloads(s[2..]) && Rest(s) == Rest(s[2..])
  {
  }

  lemma NextMessage(m: seq<Byte>, t: seq<Byte>)
    requires 0 < |m| < 0x10000
    ensures Payloads(Header(|m|) + m + t) == [m] + Payloads(t) && Rest(Header(|m|) + m + t) == Rest(t)
  {
    var s := Header(|m|) + m + t;
    assert ReadBigEndian(s) == |m| && s[2..2 + |m|] == m && s[2 + |m|..] == t;
  }

  // A size, once read, can be put back.
  lemma HeaderOfRead(s: seq<Byte>)
    requires |s| >= 2
    ensures Header(ReadBigEndian(s)) + s[2..] == s
  {
  }

  // ---------- what a sender writes

  ghost predicate Sendable(messages: seq<seq<Byte>>) { forall i :: 0 <= i < |messages| ==> |messages[i]| < 0x10000 }

  function Encoded(messages: seq<seq<Byte>>): seq<Byte>
    requires Sendable(messages)
  {
    if messages == [] then [] else Header(|messages[0]|) + messages[0] + Encoded(messages[1..])
  }

  function NonEmpty(messages: seq<seq<Byte>>): seq<seq<Byte>> {
    if messages == [] then []
    else (if messages[0] == [] then [] else [messages[0]]) + NonEmpty(messages[1..])
  }

  /** The messages of a sender are read back, and at most the size of a last, empty one is left over. */
  lemma {:induction false} EncodedIsRead(messages: seq<seq<Byte>>)
    requires Sendable(messages)
    ensures Payloads(Encoded(messages)) == NonEmpty(messages)
    ensures Rest(Encoded(messages)) == if messages != [] && messages[|messages| - 1] == [] then Header(0) else []
  {
    if messages != [] {
      var m, more := messages[0], Encoded(messages[1..]);
      var s, n := Encoded(messages), |m|;
      assert s == Header(n) + (m + more);
      HeaderIsRead(n, m + more);
      assert s[2..2 + n] == m && s[2 + n..] == more;
      EncodedIsRead(messages[1..]);
      if |s| < 3 {
        assert |more| < 2 && (messages[1..] != [] ==> |more| >= 2);
      }
    }
  }

  /** Two messages of two bytes and of one, and the beginning of a third. */
  lemma ExampleStream()
    ensures var s := [0, 2, 7, 8] + ([0, 1, 9] + [1, 0, 5]); Payloads(s) == [[7, 8], [9]] && Rest(s) == [1, 0, 5]
  {
    hide Payloads, Rest;
    var t := [1, 0, 5];
    var s := [0, 1, 9] + t;
    assert Header(2) + [7, 8] == [0, 2, 7, 8] && Header(1) + [9] == [0, 1, 9];
    NextMessage([7, 8], s);
    NextMessage([9], t);
    NoPayload(t);
  }

  // ---------- what is left of the stream while the data is read

  function Left(size: nat, cache: seq<Byte>, data: seq<Byte>, index: nat): seq<Byte>
    requires size < 0x10000 && index <= |data|
  {
    (if size == 0 then cache else Header(size) + cache) + data[index..]
  }

  // The same messages follow.
  predicate SameRest(size: nat, cache: seq<Byte>, data: seq<Byte>, index: nat, size': nat, cache': seq<Byte>,
                     index': nat)
    requires size < 0x10000 && size' < 0x10000 && index <= |data| && index' <= |data|
  {
    var s, t := Left(size, cache, data, index), Left(size', cache', data, index');
    Payloads(s) == Payloads(t) && Rest(s) == Rest(t)
  }

  lemma SameRestMeans(size: nat, cache: seq<Byte>, data: seq<Byte>, index: nat, size': nat, cache': seq<Byte>,
                      index': nat)
    requires size < 0x10000 && size' < 0x10000 && index <= |data| && index' <= |data|
    requires SameRest(size, cache, data, index, size', cache', index')
    ensures Payloads(Left(size, cache, data, index)) == Payloads(Left(size', cache', data, index'))
    ensures Rest(Left(size, cache, data, index)) == Rest(Left(size', cache', data, index'))
  {
  }

  lemma SizeIsRead(cache: seq<Byte>, data: seq<Byte>, index: nat)
    requires index < |data| && (|cache| == 2 || (|cache| == 0 && index + 3 <= |data|))
    ensures var n := if |cache| == 2 then ReadBigEndian(cache) else ReadBigEndian(data[index..]);
            SameRest(0, cache, data, index, n, [], if |cache| == 2 then index else index + 2)
  {
    var s, i := cache + data[index..], if |cache| == 2 then index else index + 2;
    HeaderOfRead(s);
    var n := ReadBigEndian(s);
    assert n == if |cache| == 2 then ReadBigEndian(cache) else ReadBigEndian(data[index..]);
    assert s[2..] == data[i..];
    if n == 0 { EmptyMessage(s); }
    assert Header(n) + [] + data[i..] == s && [] + data[i..] == data[i..];
  }

  lemma LeftIs(size: nat, cache: seq<Byte>, data: seq<Byte>, index: nat)
    requires size < 0x10000 && index <= |data|
    ensures index == 0 ==> Left(size, cache, data, 0) == (if size == 0 then cache else Header(size) + cache) + data
    ensures index == |data| ==> Left(size, cache, data, index) == if size == 0 then cache else Header(size) + cache
  {
  }

  lemma MessageOf(size: nat, cache: seq<Byte>, data: seq<Byte>, from: nat, index: nat, m: seq<Byte>)
    requires 0 < size < 0x10000 && from <= index <= |data| && m == cache + data[from..index]
    ensures Left(size, cache, data, from) == Left(size, m, data, index)
    ensures |m| == size ==> Payloads(Left(size, cache, data, from)) == [m] + Payloads(Left(0, [], data, index))
    ensures |m| == size ==> Rest(Left(size, cache, data, from)) == Rest(Left(0, [], data, index))
  {
    assert cache + data[from..] == m + data[index..];
    assert Header(size) + cache + data[from..] == Header(size) + (cache + data[from..]);
    assert Header(size) + m + data[index..] == Header(size) + (m + data[index..]);
    assert [] + data[index..] == data[index..];
    if |m| == size { NextMessage(m, data[index..]); }
  }

  // ---------- the handler

  /** Payloads go to one message handler, which accepts a payload or not. `stream` is all bytes since
      the last reset, and `delivered` the payloads handed over. */
  class ITCHHandler {
    const accepts: seq<Byte> -> bool
    var size: nat
    var cache: seq<Byte>
    ghost var stream: seq<Byte>
    ghost var delivered: seq<seq<Byte>>

    // Between calls: part of a size, or a size and part of the payload.
    predicate Resumable()
      reads this
    {
      if size == 0 then |cache| <= 2 else 1 <= |cache| < size < 0x10000
    }

    function Pending(): seq<Byte>
      reads this
      requires size < 0x10000
    {
      if size == 0 then cache else Header(size) + cache
    }

    ghost predicate Valid()
      reads this
    {
      Resumable() && delivered == Payloads(stream) && Pending() == Rest(stream)
    }

    constructor (accepts: seq<Byte> -> bool)
      ensures Valid() && stream == [] && this.accepts == accepts
    {
      this.accepts := accepts;
      size, cache, stream, delivered := 0, [], [], [];
    }

    method Reset()
      modifies this
      ensures Valid() && stream == []
    {
      size, cache, stream, delivered := 0, [], [], [];
    }

    method ProcessMessage(payload: seq<Byte>) returns (ok: bool)
      modifies this`delivered
      ensures delivered == old(delivered) + [payload] && ok == accepts(payload)
    {
      delivered := delivered + [payload];
      ok := accepts(payload);
    }

    // A size from two bytes of the data or of the cache, or one byte more for the cache.
    method ReadSize(data: seq<Byte>, from: nat) returns (complete: bool, index: nat)
      requires size == 0 && |cache| <= 2 && from < |data|
      modifies this`size, this`cache
      ensures from <= index <= |data| && size < 0x10000
      ensures if complete then cache == [] && (index > from || |old(cache)| == 2) && (size > 0 ==> index < |data|)
              else size == 0 && index == from + 1 && Resumable()
      ensures SameRest(old(size), old(cache), data, from, size, cache, index)
    {
      index := from;
      var remaining := |data| - index;
      if (|cache| == 0 && remaining < 3) || |cache| == 1 {
        assert data[index..] == [data[index]] + data[index + 1..];
        assert cache + data[index..] == cache + [data[index]] + data[index + 1..];
        cache := cache + [data[index]];
        index := index + 1;
        return false, index;
      }
      complete := true;
      SizeIsRead(cache, data, index);
      if cache == [] {
        size := ReadBigEndian(data[index..]);
        index := index + 2;
      } else {
        size := ReadBigEndian(cache);
        cache := [];
      }
    }

    // A message that is complete is delivered, and else the rest of the data goes to the cache.
    method ReadMessage(data: seq<Byte>, from: nat) returns (complete: bool, index: nat, ok: bool, ghost m: seq<Byte>)
      requires 0 < size < 0x10000 && |cache| < size && from < |data|
      modifies this`size, this`cache, this`delivered
      ensures from < index <= |data| && m == old(cache) + data[from..index]
      ensures complete ==> |m| == old(size) && delivered == old(delivered) + [m] && ok == accepts(m)
      ensures complete && ok ==> size == 0 && cache == []
      ensures !complete ==> index == |data| && |m| < size == old(size) && cache == m && delivered == old(delivered)
    {
      index, ok, complete := from, true, false;
      var remaining := |data| - index;
      if cache != [] {
        var tail := size - |cache|;
        if tail > remaining { tail := remaining; }
        cache := cache + data[index..index + tail];
        index := index + tail;
        m := cache;
        if |cache| < size { return; }
      } else if size > remaining {
        cache := data[index..];
        index := |data|;
        m := cache;
        return;
      }
      complete := true;
      if cache == [] {
        m := data[index..index + size];
        ok := ProcessMessage(data[index..index + size]);
        index := index + size;
        if !ok { return; }
      } else {
        ok := ProcessMessage(cache);
        if !ok { return; }
        cache := [];
      }
      size := 0;
    }

    /** Delivers the payloads of the stream so far that have not been delivered, up to one that is not
        accepted. */
    method Process(data: seq<Byte>) returns (ok: bool)
      requires Valid()
      modifies this
      ensures stream == old(stream) + data
      ensures ok ==> Valid()
      ensures var all := Payloads(stream);
              old(delivered) <= delivered <= all &&
              if ok then delivered == all && forall i :: |old(delivered)| <= i < |all| ==> accepts(all[i])
              else |old(delivered)| < |delivered| && !accepts(delivered[|delivered| - 1]) &&
                   forall i :: |old(delivered)| <= i < |delivered| - 1 ==> accepts(all[i])
    {
      hide Payloads, Rest, Left, SameRest;
      var index := 0;
      ghost var all, rest := Payloads(stream + data), Rest(stream + data);
      PayloadsOfMore(stream, data);
      LeftIs(size, cache, data, 0);
      stream := stream + data;
      while index < |data|
        invariant 0 <= index <= |data| && Resumable() && stream == old(stream) + data
        invariant delivered + Payloads(Left(size, cache, data, index)) == all &&
                  Rest(Left(size, cache, data, index)) == rest
        invariant old(delivered) <= delivered
        invariant forall i :: |old(delivered)| <= i < |delivered| ==> accepts(delivered[i])
        decreases |data| - index, |cache|
      {
        ghost var s, c, from := size, cache, index;
        var complete;
        if size == 0 {
          complete, index := ReadSize(data, index);
          SameRestMeans(s, c, data, from, size, cache, index);
          if !complete { continue; }
        }
        if size > 0 {
          ghost var m;
          s, c, from := size, cache, index;
          complete, index, ok, m := ReadMessage(data, index);
          MessageOf(s, c, data, from, index, m);
          if !complete { continue; }
          if !ok { return; }
        }
      }
      LeftIs(size, cache, data, |data|);
      PendingIsRest();
      ok := true;
    }

    lemma PendingIsRest()
      requires Resumable()
      ensures Payloads(Pending()) == [] && Rest(Pending()) == Pending()
    {
      if size > 0 { HeaderIsRead(size, cache); }
    }
  }

  /** The state of the handler is a function of the bytes it was given: it does not matter how they
      were cut. */
  lemma SameBytesSameState(a: ITCHHandler, b: ITCHHandler)
    requires a.Valid() && b.Valid() && a.stream == b.stream
    ensures a.delivered == b.delivered && a.size == b.size && a.cache == b.cache
  {
    assert |a.Pending()| == |b.Pending()|;
    if a.size > 0 {
      HeaderIsRead(a.size, a.cache);
      HeaderIsRead(b.size, b.cache);
      assert a.cache == a.Pending()[2..] && b.cache == b.Pending()[2..];
    }
  }
}
