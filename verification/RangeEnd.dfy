/** Prefix queries to etcd: a prefix is asked for as a range of keys in byte order. */
module RangeEnd {
  import opened Bytes

  type Key = seq<Byte>

  /** Byte order, as for words in a dictionary. */
  predicate Less(a: Key, b: Key)
    decreases |a|
  {
    b != [] && (a == [] || a[0] < b[0] || (a[0] == b[0] && Less(a[1..], b[1..])))
  }

  /**
   The keys a range request returns: the key alone without an end, all keys from it on for an end
   of one zero byte, otherwise those below the end.
   */
  predicate Returned(key: Key, first: Key, end: Key) {
    if end == [] then key == first
    else !Less(key, first) && (end == [0] || Less(key, end))
  }

  /** The range gives exactly the keys that start with the prefix. */
  ghost predicate Exact(prefix: Key, end: Key) {
    forall key: Key :: Returned(key, prefix, end) <==> prefix <= key
  }

  /** The end as the client computes it: one added to the last byte, which wraps around. */
  function GetRangeEnd(prefix: Key): Key {
    if prefix == [] then []
    else
      var last: int := prefix[|prefix| - 1];
      prefix[..|prefix| - 1] + [(last + 1) % 256]
  }

  /** The end with a carry: bytes that cannot be raised are dropped. */
  function CarryEnd(prefix: Key): (end: Key)
    ensures end != []
  {
    if prefix == [] then [0]
    else
      var n := |prefix| - 1;
      if prefix[n] < 255 then prefix[..n] + [prefix[n] + 1] else CarryEnd(prefix[..n])
  }

  /** The loop of the carrying version. */
  method PrefixRangeEnd(prefix: Key) returns (end: Key)
    ensures end == CarryEnd(prefix) && Exact(prefix, end)
  {
    CarryExact(prefix);
    var i := |prefix|;
    assert prefix[..i] == prefix;
    while i > 0
      invariant 0 <= i <= |prefix| && CarryEnd(prefix) == CarryEnd(prefix[..i])
    {
      i := i - 1;
      assert prefix[..i + 1][..i] == prefix[..i];
      if prefix[i] < 255 {
        return prefix[..i] + [prefix[i] + 1];
      }
    }
    return [0];
  }

  // ---- byte order ----

  lemma {:induction false} LessAfter(f: Key, a: Key, b: Key)
    ensures Less(f + a, f + b) <==> Less(a, b)
    decreases |f|
  {
    if f == [] {
      assert f + a == a && f + b == b;
    } else {
      assert (f + a)[1..] == f[1..] + a && (f + b)[1..] == f[1..] + b;
      LessAfter(f[1..], a, b);
    }
  }

  lemma {:induction false} LessTrans(a: Key, b: Key, c: Key)
    requires Less(a, b) && !Less(c, b)
    ensures Less(a, c)
    decreases |a|
  {
    if a != [] && c != [] && a[0] == b[0] == c[0] {
      LessTrans(a[1..], b[1..], c[1..]);
    }
  }

  /** A key is never below its own prefix. */
  lemma PrefixNotAbove(p: Key, key: Key)
    requires p <= key
    ensures !Less(key, p)
  {
    assert key == p + key[|p|..] && p == p + [];
    LessAfter(p, key[|p|..], []);
  }

  // ---- exact ranges ----

  /** Raising the last byte gives the exact range. */
  lemma {:induction false} RaisedExact(front: Key, x: Byte, key: Key)
    requires x < 255
    ensures !Less(key, front + [x]) && Less(key, front + [x + 1]) <==> front + [x] <= key
    decreases |front|
  {
    if front == [] {
      assert front + [x] == [x] && front + [x + 1] == [x + 1];
    } else {
      assert (front + [x])[1..] == front[1..] + [x] && (front + [x + 1])[1..] == front[1..] + [x + 1];
      if key != [] {
        RaisedExact(front[1..], x, key[1..]);
      }
    }
  }

  lemma {:induction false} CarryReturned(prefix: Key, key: Key)
    ensures Returned(key, prefix, CarryEnd(prefix)) <==> prefix <= key
  {
    if prefix != [] {
      var n := |prefix| - 1;
      var front, x := prefix[..n], prefix[n];
      assert prefix == front + [x];
      if x < 255 {
        RaisedExact(front, x, key);
        var end := CarryEnd(prefix);
        assert end[|end| - 1] == x + 1 > 0;
      } else {
        CarryReturned(front, key);
        AboveTop(front, key);
      }
    }
  }

  /** Among the keys with a prefix, those from its extension by the top byte on are those with that extension. */
  lemma AboveTop(front: Key, key: Key)
    ensures !Less(key, front + [255]) ==> !Less(key, front)
    ensures front <= key ==> (!Less(key, front + [255]) <==> front + [255] <= key)
  {
    PrefixNotAbove(front, front + [255]);
    if Less(key, front) {
      LessTrans(key, front, front + [255]);
    }
    if front <= key {
      var rest := key[|front|..];
      assert key == front + rest;
      LessAfter(front, rest, [255]);
      if rest != [] && rest[0] == 255 {
        assert !Less(rest[1..], []);
      }
    }
  }

  /** With the carry, the range is exact for every prefix. */
  lemma CarryExact(prefix: Key)
    ensures Exact(prefix, CarryEnd(prefix))
  {
    forall key: Key
      ensures Returned(key, prefix, CarryEnd(prefix)) <==> prefix <= key
    {
      CarryReturned(prefix, key);
    }
  }

  /** As the client computes it, the range is exact unless the prefix is empty, or longer and ending in the top byte. */
  lemma GetRangeEndExactIff(prefix: Key)
    ensures Exact(prefix, GetRangeEnd(prefix)) <==> prefix != [] && (prefix[|prefix| - 1] != 255 || |prefix| == 1)
  {
    if prefix == [] {
      assert !Returned([0], prefix, GetRangeEnd(prefix));
    } else {
      var n := |prefix| - 1;
      CarryExact(prefix);
      if prefix[n] < 255 {
        assert GetRangeEnd(prefix) == CarryEnd(prefix);
      } else if n == 0 {
        assert prefix[..0] == [];
        assert GetRangeEnd(prefix) == [0] == CarryEnd(prefix);
      } else {
        assert prefix == prefix[..n] + [255];
        LessAfter(prefix[..n], [255], [0]);
        assert GetRangeEnd(prefix) != [0];
        assert !Returned(prefix, prefix, GetRangeEnd(prefix));
      }
    }
  }
}
