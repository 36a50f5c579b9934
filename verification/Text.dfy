/**
 Text as sequences of characters: substring search and the code-point order that
 SQLite's BINARY collation and Rust's `str` comparison agree on.
 */
module Text {
  import opened Wrappers

  predicate OccursAt(s: string, p: string, i: int) {
    0 <= i && i + |p| <= |s| && s[i..i + |p|] == p
  }

  ghost predicate Contains(s: string, p: string) {
    exists i :: OccursAt(s, p, i)
  }

  /** `r` is the position of the leftmost occurrence at or after `from`, if there is one. */
  ghost predicate IsFirst(s: string, p: string, from: nat, r: Option<nat>) {
    match r
    case Some(i) => from <= i && OccursAt(s, p, i) && forall j :: from <= j < i ==> !OccursAt(s, p, j)
    case None => forall j :: from <= j ==> !OccursAt(s, p, j)
  }

  function FindFrom(s: string, p: string, from: nat): (r: Option<nat>)
    requires from <= |s|
    ensures IsFirst(s, p, from, r)
    decreases |s| - from
  {
    if OccursAt(s, p, from) then Some(from)
    else if from == |s| then None
    else FindFrom(s, p, from + 1)
  }

  /** `str::find`: the leftmost occurrence. */
  function Find(s: string, p: string): (r: Option<nat>)
    ensures IsFirst(s, p, 0, r)
    ensures r.Some? ==> r.value + |p| <= |s| && s[r.value..r.value + |p|] == p
    ensures r.None? <==> !Contains(s, p)
  {
    hide FindFrom;
    FindFrom(s, p, 0)
  }

  /** A leftmost position is what `Find` returns. */
  lemma FindIs(s: string, p: string, i: nat)
    requires OccursAt(s, p, i)
    requires forall j :: 0 <= j < i ==> !OccursAt(s, p, j)
    ensures Find(s, p) == Some(i)
  {
    assert Contains(s, p);
  }

  /** An occurrence inside one part of a concatenation is an occurrence of the whole, and back. */
  lemma OccursInConcat(a: string, b: string, p: string, i: int)
    ensures 0 <= i && i + |p| <= |a| ==> (OccursAt(a + b, p, i) <==> OccursAt(a, p, i))
    ensures |a| <= i ==> (OccursAt(a + b, p, i) <==> OccursAt(b, p, i - |a|))
  {
    if 0 <= i && i + |p| <= |a| {
      assert (a + b)[i..i + |p|] == a[i..i + |p|];
    }
    if |a| <= i && i + |p| <= |a| + |b| {
      assert (a + b)[i..i + |p|] == b[i - |a|..i - |a| + |p|];
    }
  }

  /** Text in which no occurrence starts can be skipped by the search. */
  lemma FindSkips(u: string, t: string, p: string)
    requires forall j: nat :: j < |u| ==> !OccursAt(u + t, p, j)
    ensures match Find(t, p)
      case Some(i) => Find(u + t, p) == Some(|u| + i)
      case None => Find(u + t, p) == None
  {
    forall j: int ensures |u| <= j ==> (OccursAt(u + t, p, j) <==> OccursAt(t, p, j - |u|)) {
      OccursInConcat(u, t, p, j);
    }
    match Find(t, p)
    case Some(i) =>
      assert OccursAt(u + t, p, |u| + i);
      FindIs(u + t, p, |u| + i);
    case None =>
      forall i ensures !OccursAt(u + t, p, i) {
        assert !OccursAt(t, p, i - |u|);
      }
  }

  /** Text appended after the first occurrence does not move it. */
  lemma FindIgnoresTail(a: string, b: string, p: string)
    requires Find(a, p).Some?
    ensures Find(a + b, p) == Find(a, p)
  {
    var i := Find(a, p).value;
    forall j: nat | j <= i ensures OccursAt(a + b, p, j) <==> OccursAt(a, p, j) {
      OccursInConcat(a, b, p, j);
    }
    FindIs(a + b, p, i);
  }

  /** Lexicographic order by code point. */
  predicate Less(a: string, b: string) {
    if b == "" then false
    else if a == "" then true
    else a[0] < b[0] || (a[0] == b[0] && Less(a[1..], b[1..]))
  }

  /** `a` ends where `b` goes on, or has the smaller character at the first difference. */
  ghost predicate DiffersAt(a: string, b: string, k: nat) {
    k <= |a| && k < |b| && a[..k] == b[..k] && (k < |a| ==> a[k] < b[k])
  }

  lemma {:induction false} LessMeans(a: string, b: string)
    ensures Less(a, b) <==> exists k: nat :: DiffersAt(a, b, k)
  {
    if a != "" && b != "" && a[0] == b[0] {
      LessMeans(a[1..], b[1..]);
      forall k: nat | DiffersAt(a[1..], b[1..], k) ensures DiffersAt(a, b, k + 1) {
        assert a[..k + 1] == [a[0]] + a[1..][..k] && b[..k + 1] == [b[0]] + b[1..][..k];
      }
      forall k: nat | DiffersAt(a, b, k) ensures k > 0 && DiffersAt(a[1..], b[1..], k - 1) {
        assert k > 0;
        assert a[1..][..k - 1] == a[..k][1..] && b[1..][..k - 1] == b[..k][1..];
      }
    } else if Less(a, b) {
      assert DiffersAt(a, b, 0);
    } else {
      forall k: nat ensures !DiffersAt(a, b, k) {
        assert k > 0 && k <= |a| && k < |b| ==> a[..k][0] == a[0] && b[..k][0] == b[0];
      }
    }
  }

  lemma {:induction false} LessIsStrictTotal(a: string, b: string)
    ensures !Less(a, a)
    ensures !(Less(a, b) && Less(b, a))
    ensures a == b || Less(a, b) || Less(b, a)
  {
    if a != "" {
      LessIsStrictTotal(a[1..], if b == "" then "" else b[1..]);
      if b != "" && a[0] == b[0] && a[1..] == b[1..] {
        assert a == [a[0]] + a[1..] == b;
      }
    }
  }

  lemma {:induction false} LessTransitive(a: string, b: string, c: string)
    requires Less(a, b) && Less(b, c)
    ensures Less(a, c)
  {
    if a != "" && a[0] == b[0] && b[0] == c[0] {
      LessTransitive(a[1..], b[1..], c[1..]);
    }
  }

  /** The pieces of a fragmented text put back together. */
  function Concat(parts: seq<string>): string {
    if parts == [] then "" else parts[0] + Concat(parts[1..])
  }
}
