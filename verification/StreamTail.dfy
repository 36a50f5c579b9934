/** The debug buffer that keeps the end of a response body. */
module StreamTail {
  import opened Bytes

  const LIMIT: nat := 16 * 1024

  /** The last `LIMIT` bytes of a text, or all of it. */
  function Last(s: seq<Byte>): (r: seq<Byte>)
    ensures |r| == if |s| < LIMIT then |s| else LIMIT
  {
    if |s| <= LIMIT then s else s[|s| - LIMIT..]
  }

  /** The end of the text, and more than 16 KiB are never kept. */
  lemma LastIsTheEnd(s: seq<Byte>)
    ensures var n := if |s| < 16384 then |s| else 16384;
      Last(s) == s[|s| - n..]
  {
  }

  lemma DropFront(a: seq<Byte>, b: seq<Byte>, k: nat)
    requires k <= |a| && |a| - k + |b| >= LIMIT
    ensures Last(a[k..] + b) == Last(a + b)
  {
    var s, t := a + b, a[k..] + b;
    assert s[k..] == t;
    assert t[|t| - LIMIT..] == s[|s| - LIMIT..];
  }

  /** Only the end matters: dropping a front that is out of reach changes nothing. */
  lemma LastOfLast(a: seq<Byte>, b: seq<Byte>)
    ensures Last(Last(a) + b) == Last(a + b)
  {
    if |a| > LIMIT {
      DropFront(a, b, |a| - LIMIT);
    }
  }

  function Concat(chunks: seq<seq<Byte>>): seq<Byte> {
    if chunks == [] then [] else Concat(chunks[..|chunks| - 1]) + chunks[|chunks| - 1]
  }

  class RawBodyTail {
    var bytes: seq<Byte>

    ghost predicate Valid()
      reads this
    {
      |bytes| <= LIMIT
    }

    constructor ()
      ensures Valid() && bytes == []
    {
      bytes := [];
    }

    method Append(chunk: seq<Byte>)
      requires Valid()
      modifies this
      ensures Valid() && bytes == Last(old(bytes) + chunk)
    {
      if |chunk| >= LIMIT {
        assert (bytes + chunk)[|bytes| + |chunk| - LIMIT..] == chunk[|chunk| - LIMIT..];
        bytes := chunk[|chunk| - LIMIT..];
        return;
      }
      var overflow := if |bytes| + |chunk| > LIMIT then |bytes| + |chunk| - LIMIT else 0;
      assert (bytes + chunk)[overflow..] == bytes[overflow..] + chunk;
      if overflow > 0 {
        bytes := bytes[overflow..];
      }
      bytes := bytes + chunk;
    }

    /** However the body is cut into chunks, the buffer holds its last bytes. */
    method Capture(chunks: seq<seq<Byte>>)
      requires Valid() && bytes == []
      modifies this
      ensures Valid() && bytes == Last(Concat(chunks))
    {
      for i := 0 to |chunks|
        invariant Valid() && bytes == Last(Concat(chunks[..i]))
      {
        assert chunks[..i + 1][..i] == chunks[..i];
        LastOfLast(Concat(chunks[..i]), chunks[i]);
        Append(chunks[i]);
      }
      assert chunks[..|chunks|] == chunks;
    }
  }
}
