/** The cache key of the model list: the effective credentials, length-prefixed. */
module KeyEncoding {
  import opened Bytes
  import opened Wrappers

  const U64_MAX: nat := 0xFFFF_FFFF_FFFF_FFFF

  /** `u64::to_le_bytes`. */
  function U64(n: nat): (r: seq<Byte>)
    requires n <= U64_MAX
    ensures |r| == 8
  {
    LittleEndian(n, 8)
  }

  lemma U64IsInjective(m: nat, n: nat)
    requires m <= U64_MAX && n <= U64_MAX && U64(m) == U64(n)
    ensures m == n
  {
    assert Power256(8) == U64_MAX + 1 by {
      assert Power256(2) == 0x1_0000 && Power256(4) == 0x1_0000_0000 && Power256(6) == 0x1_0000_0000_0000;
    }
    LittleEndianRoundTrip(m, 8);
    LittleEndianRoundTrip(n, 8);
  }

  type Key = Option<seq<Byte>>

  /** No text in memory is longer than an address can say; the top value marks a missing key. */
  ghost predicate Fits(keys: seq<Key>) {
    |keys| <= U64_MAX && forall i :: 0 <= i < |keys| ==> keys[i].Some? ==> |keys[i].value| < U64_MAX
  }

  function EncodeKey(key: Key): seq<Byte>
    requires key.Some? ==> |key.value| < U64_MAX
  {
    match key
    case Some(bytes) => U64(|bytes|) + bytes
    case None => U64(U64_MAX)
  }

  function EncodeAll(keys: seq<Key>): seq<Byte>
    requires Fits(keys)
  {
    if keys == [] then [] else EncodeKey(keys[0]) + EncodeAll(keys[1..])
  }

  function Encoded(keys: seq<Key>): seq<Byte>
    requires Fits(keys)
  {
    U64(|keys|) + EncodeAll(keys)
  }

  lemma FirstEncoded(keys: seq<Key>)
    requires Fits(keys) && keys != []
    ensures EncodeAll(keys) == EncodeKey(keys[0]) + EncodeAll(keys[1..])
  {
  }

  lemma NothingEncoded()
    ensures EncodeAll([]) == []
  {
  }

  method EncodeEffectiveKeys(keys: seq<Key>) returns (buf: seq<Byte>)
    requires Fits(keys)
    ensures buf == Encoded(keys)
  {
    hide U64, EncodeAll;
    buf := U64(|keys|);
    for i := 0 to |keys|
      invariant buf + EncodeAll(keys[i..]) == Encoded(keys)
    {
      FirstEncoded(keys[i..]);
      assert keys[i..][1..] == keys[i + 1..];
      ghost var before, rest := buf, EncodeAll(keys[i + 1..]);
      match keys[i] {
        case Some(key) =>
          buf := buf + U64(|key|);
          buf := buf + key;
        case None =>
          buf := buf + U64(U64_MAX);
      }
      assert buf == before + EncodeKey(keys[i]);
      assert buf + rest == before + (EncodeKey(keys[i]) + rest);
    }
    assert keys[|keys|..] == [];
    NothingEncoded();
  }

  lemma SplitAt<T>(a: seq<T>, x: seq<T>, b: seq<T>, y: seq<T>)
    requires a + x == b + y && |a| == |b|
    ensures a == b && x == y
  {
    assert (a + x)[..|a|] == a && (b + y)[..|b|] == b;
    assert (a + x)[|a|..] == x && (b + y)[|b|..] == y;
  }

  /** An encoded key ends where its length says: what follows cannot be mistaken for it. */
  lemma KeyIsPrefixFree(a: Key, x: seq<Byte>, b: Key, y: seq<Byte>)
    requires (a.Some? ==> |a.value| < U64_MAX) && (b.Some? ==> |b.value| < U64_MAX)
    requires EncodeKey(a) + x == EncodeKey(b) + y
    ensures a == b && x == y
  {
    hide U64;
    var m := if a.Some? then |a.value| else U64_MAX;
    var n := if b.Some? then |b.value| else U64_MAX;
    var ta := (if a.Some? then a.value else []) + x;
    var tb := (if b.Some? then b.value else []) + y;
    assert EncodeKey(a) + x == U64(m) + ta;
    assert EncodeKey(b) + y == U64(n) + tb;
    SplitAt(U64(m), ta, U64(n), tb);
    U64IsInjective(m, n);
    if a.Some? {
      SplitAt(a.value, x, b.value, y);
    } else {
      SplitAt([], x, [], y);
    }
  }

  lemma {:induction false} AllIsInjective(a: seq<Key>, b: seq<Key>)
    requires Fits(a) && Fits(b) && |a| == |b| && EncodeAll(a) == EncodeAll(b)
    ensures a == b
  {
    if a != [] {
      FirstEncoded(a);
      FirstEncoded(b);
      hide EncodeKey, EncodeAll;
      KeyIsPrefixFree(a[0], EncodeAll(a[1..]), b[0], EncodeAll(b[1..]));
      AllIsInjective(a[1..], b[1..]);
      assert a == [a[0]] + a[1..] && b == [b[0]] + b[1..];
    }
  }

  /** Different credential lists never share a cache key. */
  lemma EncodingIsInjective(a: seq<Key>, b: seq<Key>)
    requires Fits(a) && Fits(b)
    ensures Encoded(a) == Encoded(b) <==> a == b
  {
    hide U64;
    if Encoded(a) == Encoded(b) {
      SplitAt(U64(|a|), EncodeAll(a), U64(|b|), EncodeAll(b));
      U64IsInjective(|a|, |b|);
      AllIsInjective(a, b);
    }
  }
}
