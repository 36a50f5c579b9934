/** Finding a backup name that neither a file nor a sidecar of it has taken. */
module BackupPath {
  import opened Wrappers
  import opened Numbers

  const U32_MAX: nat := 0xFFFF_FFFF

  /** What may follow a database's name: nothing, or the suffix of one of its sidecars. */
  const SUFFIXES: seq<string> := ["", "-journal", "-wal", "-shm"]

  /** The k-th name that is tried. */
  function Candidate(path: string, k: nat): string {
    if k == 0 then path + ".bak" else path + ".bak" + "." + Digits(k, 10)
  }

  predicate Taken(files: set<string>, name: string) {
    name in files || name + "-journal" in files || name + "-wal" in files || name + "-shm" in files
  }

  /** One file makes only one candidate taken. */
  lemma OneCandidate(path: string, j: nat, k: nat, s: string, t: string)
    requires s in SUFFIXES && t in SUFFIXES && Candidate(path, j) + s == Candidate(path, k) + t
    ensures j == k
  {
    hide Candidate, Tail;
    var a, b := Tail(j), Tail(k);
    TailHasNoDash(j);
    TailHasNoDash(k);
    CandidateIs(path, j, s);
    CandidateIs(path, k, t);
    SamePrefix(path + ".bak", a + s, b + t);
    SuffixesStartWithDash(s);
    SuffixesStartWithDash(t);
    SamePart(a, s, b, t);
    TailsDiffer(j, k);
  }

  lemma CandidateIs(path: string, k: nat, s: string)
    ensures Candidate(path, k) + s == path + ".bak" + (Tail(k) + s)
  {
    hide Digits;
    assert path + ".bak" + "" == path + ".bak";
    var base, t := path + ".bak", Tail(k);
    assert Candidate(path, k) == base + t;
    assert (base + t) + s == base + (t + s);
  }

  lemma SamePrefix(base: string, a: string, b: string)
    requires base + a == base + b
    ensures a == b
  {
    assert (base + a)[|base|..] == a && (base + b)[|base|..] == b;
  }

  lemma TailsDiffer(j: nat, k: nat)
    requires Tail(j) == Tail(k)
    ensures j == k
  {
    hide Digits, ParseDigits;
    DigitsParse(j, 10);
    DigitsParse(k, 10);
    assert j > 0 ==> Tail(j)[1..] == Digits(j, 10);
    assert k > 0 ==> Tail(k)[1..] == Digits(k, 10);
  }

  function Tail(k: nat): string {
    if k == 0 then "" else "." + Digits(k, 10)
  }

  lemma TailHasNoDash(k: nat)
    ensures '-' !in Tail(k)
  {
    hide Digits, DigitValue;
    DigitsParse(k, 10);
    DashIsNoDigit();
  }

  lemma DashIsNoDigit()
    ensures DigitValue('-', 10).None?
  {
  }

  lemma SuffixesStartWithDash(s: string)
    requires s in SUFFIXES
    ensures s == "" || s[0] == '-'
  {
  }

  /** Where the first dash of a text stands is where its suffix begins. */
  lemma SamePart(a: string, s: string, b: string, t: string)
    requires a + s == b + t && '-' !in a && '-' !in b && (s == "" || s[0] == '-') && (t == "" || t[0] == '-')
    ensures a == b
  {
    var x := a + s;
    assert |a| < |x| ==> x[|a|] == '-';
    assert |b| < |x| ==> x[|b|] == '-';
    assert forall i :: 0 <= i < |a| ==> x[i] == a[i] && a[i] in a;
    assert forall i :: 0 <= i < |b| ==> x[i] == b[i] && b[i] in b;
    assert |a| == |b|;
    assert a == x[..|a|] && b == x[..|b|];
  }

  /** The file that makes a candidate taken. */
  function Taker(files: set<string>, name: string): (s: string)
    requires Taken(files, name)
    ensures s in SUFFIXES && name + s in files
  {
    assert name + "" == name;
    if name in files then SUFFIXES[0]
    else if name + "-journal" in files then SUFFIXES[1]
    else if name + "-wal" in files then SUFFIXES[2]
    else SUFFIXES[3]
  }

  /** The files that made the first `n` candidates taken: one each. */
  lemma {:induction false} TakersAreMany(files: set<string>, path: string, n: nat) returns (takers: set<string>)
    requires forall k :: 0 <= k < n ==> Taken(files, Candidate(path, k))
    ensures takers <= files && |takers| == n
    ensures forall f :: f in takers ==> exists k: nat, s :: k < n && s in SUFFIXES && f == Candidate(path, k) + s
  {
    hide Candidate, Taken;
    if n == 0 {
      takers := {};
    } else {
      var rest := TakersAreMany(files, path, n - 1);
      var s := Taker(files, Candidate(path, n - 1));
      var f := Candidate(path, n - 1) + s;
      if f in rest {
        var k: nat, t :| k < n - 1 && t in SUFFIXES && f == Candidate(path, k) + t;
        OneCandidate(path, n - 1, k, s, t);
      }
      takers := rest + {f};
    }
  }

  /** The names the loop can try: the counter saturates, and then the same name is tried again and again. */
  function Tried(path: string, n: nat): string {
    Candidate(path, if n < U32_MAX then n else U32_MAX)
  }

  ghost predicate HasFreeName(files: set<string>, path: string) {
    exists k: nat :: k <= U32_MAX && !Taken(files, Candidate(path, k))
  }

  /** So the loop comes to an end exactly if one of the candidates that have a 32-bit number is free. */
  lemma LoopEndsIff(files: set<string>, path: string)
    ensures HasFreeName(files, path) <==> exists n: nat :: !Taken(files, Tried(path, n))
  {
    hide Candidate, Taken;
    if k: nat :| k <= U32_MAX && !Taken(files, Candidate(path, k)) {
      assert Tried(path, k) == Candidate(path, k);
    }
    if n: nat :| !Taken(files, Tried(path, n)) {
      var k := if n < U32_MAX then n else U32_MAX;
      assert !Taken(files, Candidate(path, k));
    }
  }

  /** Which it is unless there are as many files as such numbers. */
  lemma FewFilesLeaveAName(files: set<string>, path: string)
    requires |files| <= U32_MAX
    ensures HasFreeName(files, path)
  {
    hide Candidate, Taken;
    if !HasFreeName(files, path) {
      TooManyTaken(files, path, U32_MAX + 1);
    }
  }

  /** The loop ends with a name that is free together with its sidecars: the first such candidate. */
  method UniqueBackupPath(files: set<string>, path: string) returns (name: string)
    requires HasFreeName(files, path)
    ensures !Taken(files, name)
    ensures exists k: nat ::
      k <= U32_MAX && name == Candidate(path, k) && forall j :: 0 <= j < k ==> Taken(files, Candidate(path, j))
  {
    hide Digits, Taken;
    ghost var free: nat :| free <= U32_MAX && !Taken(files, Candidate(path, free));
    var base := path + ".bak";
    name := base;
    var suffix: nat := 1;
    ghost var k: nat := 0;
    while Taken(files, name)
      invariant k <= free && suffix == (if k < U32_MAX then k + 1 else U32_MAX) && name == Candidate(path, k)
      invariant forall j :: 0 <= j < k ==> Taken(files, Candidate(path, j))
      decreases free - k
    {
      name := base + "." + Digits(suffix, 10);
      suffix := if suffix < U32_MAX then suffix + 1 else U32_MAX;
      k := k + 1;
    }
  }

  lemma TooManyTaken(files: set<string>, path: string, n: nat)
    requires forall k :: 0 <= k < n ==> Taken(files, Candidate(path, k))
    ensures n <= |files|
  {
    var takers := TakersAreMany(files, path, n);
    SubsetIsSmaller(takers, files);
  }

  lemma {:induction false} SubsetIsSmaller(a: set<string>, b: set<string>)
    requires a <= b
    ensures |a| <= |b|
  {
    if a != {} {
      var x :| x in a;
      SubsetIsSmaller(a - {x}, b - {x});
    }
  }
}
