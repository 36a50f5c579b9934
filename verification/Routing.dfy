/** Choosing the order in which upstream clients are tried. */
module Routing {
  import opened Wrappers
  import opened Text
  import opened Sorting

  datatype Client = Client(name: string, priority: Option<nat>)

  /** A routing key and the weight of its vote. */
  type Key = (string, nat)

  /** The powered hash of a key and a client's name under a positive priority. */
  type Hash = (string, string, nat) -> real

  /** A powered hash lies in (0, 1]; the model asks only that it is not negative. */
  ghost predicate IsHash(hash: Hash) {
    forall key, name, priority :: hash(key, name, priority) >= 0.0
  }

  function Score(c: Client, key: string, hash: Hash): real {
    if OrElse(c.priority, 0) == 0 then 0.0 else hash(key, c.name, OrElse(c.priority, 0))
  }

  /** What the score is about: the key and the client's name are hashed; no or zero priority scores nothing. */
  lemma ScoreByPriority(c: Client, key: string, hash: Hash)
    ensures c.priority.None? || c.priority.value == 0 ==> Score(c, key, hash) == 0.0
    ensures c.priority.Some? && c.priority.value > 0 ==> Score(c, key, hash) == hash(key, c.name, c.priority.value)
  {
  }

  /** The running maximum over the clients: the first of the highest, or no name at all. */
  function Best(cs: seq<Client>, key: string, hash: Hash): (string, real) {
    if cs == [] then ("", -1.0)
    else
      var best := Best(cs[..|cs| - 1], key, hash);
      var c := cs[|cs| - 1];
      if Score(c, key, hash) > best.1 then (c.name, Score(c, key, hash)) else best
  }

  function Winner(cs: seq<Client>, key: string, hash: Hash): string {
    Best(cs, key, hash).0
  }

  /** The weight of all keys that a name has won. */
  function Votes(cs: seq<Client>, keys: seq<Key>, hash: Hash, name: string): nat {
    if keys == [] then 0
    else
      var last := keys[|keys| - 1];
      var w := Winner(cs, last.0, hash);
      Votes(cs, keys[..|keys| - 1], hash, name) + if w == name && w != "" then last.1 else 0
  }

  datatype Ranked = Ranked(votes: nat, client: Client)

  /** More votes first, then the name. */
  predicate VotesFirst(a: Ranked, b: Ranked) {
    a.votes > b.votes || (a.votes == b.votes && !Less(b.client.name, a.client.name))
  }

  function Rank(voters: seq<Client>, keys: seq<Key>, hash: Hash): Client -> Ranked {
    (c: Client) => Ranked(Votes(voters, keys, hash, c.name), c)
  }

  function RankedBy(cs: seq<Client>, voters: seq<Client>, keys: seq<Key>, hash: Hash): seq<Ranked> {
    Map(cs, Rank(voters, keys, hash))
  }

  function ClientOf(): Ranked -> Client {
    (r: Ranked) => r.client
  }

  function Clients(rs: seq<Ranked>): seq<Client> {
    Map(rs, ClientOf())
  }

  function ByVoting(cs: seq<Client>, keys: seq<Key>, hash: Hash): seq<Client> {
    Clients(Sort(RankedBy(cs, cs, keys, hash), VotesFirst))
  }

  method SelectClientsByVoting(cs: seq<Client>, keys: seq<Key>, hash: Hash) returns (r: seq<Client>)
    ensures r == ByVoting(cs, keys, hash)
  {
    hide Sort;
    var scores: map<string, nat> := map[];
    for i := 0 to |keys|
      invariant forall n :: (if n in scores then scores[n] else 0) == Votes(cs, keys[..i], hash, n)
    {
      var (content, weight) := keys[i];
      var bestName, maxScore := "", -1.0;
      for j := 0 to |cs|
        invariant (bestName, maxScore) == Best(cs[..j], content, hash)
      {
        assert cs[..j + 1][..j] == cs[..j];
        var score := Score(cs[j], content, hash);
        if score > maxScore {
          bestName, maxScore := cs[j].name, score;
        }
      }
      assert cs[..|cs|] == cs;
      assert keys[..i + 1][..i] == keys[..i];
      if bestName != "" {
        var entry := if bestName in scores then scores[bestName] else 0;
        scores := scores[bestName := entry + weight];
      }
    }
    assert keys[..|keys|] == keys;
    var ranked := seq(|cs|, i requires 0 <= i < |cs| =>
      Ranked(if cs[i].name in scores then scores[cs[i].name] else 0, cs[i]));
    assert ranked == RankedBy(cs, cs, keys, hash);
    r := Clients(Sort(ranked, VotesFirst));
  }

  // ---------------------------------------------------------------- who wins a key

  /** What configuration validation grants. */
  ghost predicate NamesAreGood(cs: seq<Client>) {
    (forall i :: 0 <= i < |cs| ==> cs[i].name != "") &&
    forall i, j :: 0 <= i < j < |cs| ==> cs[i].name != cs[j].name
  }

  lemma {:induction false} BestIsFirstOfHighest(cs: seq<Client>, key: string, hash: Hash) returns (i: nat)
    requires cs != [] && IsHash(hash)
    ensures i < |cs| && Best(cs, key, hash) == (cs[i].name, Score(cs[i], key, hash))
    ensures forall j :: 0 <= j < |cs| ==> Score(cs[j], key, hash) <= Score(cs[i], key, hash)
    ensures forall j :: 0 <= j < i ==> Score(cs[j], key, hash) < Score(cs[i], key, hash)
  {
    hide Score;
    var n := |cs| - 1;
    ScoreIsNatural(cs[n], key, hash);
    if n == 0 {
      assert cs[..0] == [];
      i := 0;
    } else {
      i := BestIsFirstOfHighest(cs[..n], key, hash);
      forall j | 0 <= j < n ensures Score(cs[j], key, hash) <= Score(cs[i], key, hash) {
        assert cs[j] == cs[..n][j];
      }
      forall j | 0 <= j < i ensures Score(cs[j], key, hash) < Score(cs[i], key, hash) {
        assert cs[j] == cs[..n][j];
      }
      if Score(cs[n], key, hash) > Score(cs[i], key, hash) {
        i := n;
      }
    }
  }

  lemma ScoreIsNatural(c: Client, key: string, hash: Hash)
    requires IsHash(hash)
    ensures Score(c, key, hash) >= 0.0
  {
  }

  /**
   Without scores: where some client has a priority, the winner has one, and no other client with
   one hashes higher; where none has, the first client wins.
   */
  lemma WinnerHashesHighest(cs: seq<Client>, key: string, hash: Hash) returns (i: nat)
    requires cs != [] && forall k, name, priority :: hash(k, name, priority) > 0.0
    ensures i < |cs| && Winner(cs, key, hash) == cs[i].name
    ensures forall j :: 0 <= j < |cs| && cs[j].priority.Some? && cs[j].priority.value > 0 ==>
      cs[i].priority.Some? && cs[i].priority.value > 0 &&
      hash(key, cs[j].name, cs[j].priority.value) <= hash(key, cs[i].name, cs[i].priority.value)
    ensures (forall j :: 0 <= j < |cs| ==> cs[j].priority.None? || cs[j].priority.value == 0) ==> i == 0
  {
    hide Score;
    i := BestIsFirstOfHighest(cs, key, hash);
    ScoreByPriority(cs[i], key, hash);
    ScoreByPriority(cs[0], key, hash);
    forall j | 0 <= j < |cs| && cs[j].priority.Some? && cs[j].priority.value > 0
      ensures Score(cs[j], key, hash) == hash(key, cs[j].name, cs[j].priority.value)
    {
      ScoreByPriority(cs[j], key, hash);
    }
  }

  /** A client that no other one ties or beats. */
  ghost predicate BeatsAll(cs: seq<Client>, c: Client, key: string, hash: Hash) {
    c in cs && forall d :: d in cs && d != c ==> Score(d, key, hash) < Score(c, key, hash)
  }

  lemma BestIsTheBeater(cs: seq<Client>, c: Client, key: string, hash: Hash)
    requires IsHash(hash) && BeatsAll(cs, c, key, hash)
    ensures Winner(cs, key, hash) == c.name
  {
    hide Score;
    var i := BestIsFirstOfHighest(cs, key, hash);
    var k :| 0 <= k < |cs| && cs[k] == c;
    assert Score(cs[k], key, hash) <= Score(cs[i], key, hash);
    assert cs[i] in cs;
  }

  /**
   The winner of a key is the same for every order of the clients exactly when some client beats
   all others; in a tie the order decides.
   */
  lemma WinnerIsOrderFreeIff(cs: seq<Client>, key: string, hash: Hash)
    requires cs != [] && NamesAreGood(cs) && IsHash(hash)
    ensures
      (forall p: seq<Client> :: multiset(p) == multiset(cs) ==> Winner(p, key, hash) == Winner(cs, key, hash)) <==>
      exists c :: BeatsAll(cs, c, key, hash)
  {
    hide Score, Winner, NamesAreGood;
    if c :| BeatsAll(cs, c, key, hash) {
      forall p: seq<Client> | multiset(p) == multiset(cs) ensures Winner(p, key, hash) == Winner(cs, key, hash) {
        SameBeater(p, cs, c, key, hash);
        BestIsTheBeater(p, c, key, hash);
        BestIsTheBeater(cs, c, key, hash);
      }
    } else {
      TieIsDecidedByOrder(cs, key, hash);
    }
  }

  lemma TieIsDecidedByOrder(cs: seq<Client>, key: string, hash: Hash)
    requires cs != [] && NamesAreGood(cs) && IsHash(hash) && !exists c :: BeatsAll(cs, c, key, hash)
    ensures exists p: seq<Client> :: multiset(p) == multiset(cs) && Winner(p, key, hash) != Winner(cs, key, hash)
  {
    hide Score, NamesAreGood;
    var i := BestIsFirstOfHighest(cs, key, hash);
    var k := AnotherAsHigh(cs, key, hash, i);
    var rest := cs[..k] + cs[k + 1..];
    var p := [cs[k]] + rest;
    PullOut(cs, k, ClientName());
    assert multiset(p) == multiset{cs[k]} + multiset(rest);
    FirstOfEqualsWins(p, cs, key, hash);
    DifferentNames(cs, i, k);
  }

  function ClientName(): Client -> string {
    (c: Client) => c.name
  }

  lemma DifferentNames(cs: seq<Client>, i: nat, k: nat)
    requires NamesAreGood(cs) && i < |cs| && k < |cs| && i != k
    ensures cs[i].name != cs[k].name
  {
  }

  lemma AnotherAsHigh(cs: seq<Client>, key: string, hash: Hash, i: nat) returns (k: nat)
    requires i < |cs| && !BeatsAll(cs, cs[i], key, hash)
    ensures k < |cs| && k != i && Score(cs[k], key, hash) >= Score(cs[i], key, hash)
  {
    hide Score;
    var d :| d in cs && d != cs[i] && !(Score(d, key, hash) < Score(cs[i], key, hash));
    k :| 0 <= k < |cs| && cs[k] == d;
  }

  lemma SameBeater(p: seq<Client>, cs: seq<Client>, c: Client, key: string, hash: Hash)
    requires multiset(p) == multiset(cs) && BeatsAll(cs, c, key, hash)
    ensures BeatsAll(p, c, key, hash)
  {
    hide Score;
    assert c in multiset(cs);
    forall d | d in p && d != c ensures Score(d, key, hash) < Score(c, key, hash) {
      assert d in multiset(p);
    }
  }

  lemma FirstOfEqualsWins(p: seq<Client>, cs: seq<Client>, key: string, hash: Hash)
    requires IsHash(hash) && p != [] && multiset(p) == multiset(cs)
    requires forall j :: 0 <= j < |cs| ==> Score(cs[j], key, hash) <= Score(p[0], key, hash)
    ensures Winner(p, key, hash) == p[0].name
  {
    hide Score;
    var i := BestIsFirstOfHighest(p, key, hash);
    assert p[i] in multiset(cs);
    var j :| 0 <= j < |cs| && cs[j] == p[i];
    assert Score(cs[j], key, hash) <= Score(p[0], key, hash);
    assert i == 0;
  }

  // ---------------------------------------------------------------- removing a client

  /** Removing a client leaves every key it had not won with its winner. */
  lemma {:induction false} RemovalKeepsOtherKeys(cs: seq<Client>, k: nat, key: string, hash: Hash)
    requires NamesAreGood(cs) && IsHash(hash) && k < |cs| && Winner(cs, key, hash) != cs[k].name
    ensures Best(cs[..k] + cs[k + 1..], key, hash) == Best(cs, key, hash)
    decreases |cs|
  {
    hide Score;
    var n := |cs| - 1;
    var rest := cs[..k] + cs[k + 1..];
    ScoreIsNatural(cs[n], key, hash);
    if k == n {
      assert rest == cs[..n];
    } else {
      var shorter := cs[..n];
      assert rest[..|rest| - 1] == shorter[..k] + shorter[k + 1..];
      assert rest[|rest| - 1] == cs[n];
      if Winner(shorter, key, hash) == shorter[k].name {
        NextBest(shorter, k, key, hash);
      } else {
        RemovalKeepsOtherKeys(shorter, k, key, hash);
      }
    }
  }

  /** Without one client the highest score is no higher. */
  lemma NextBest(cs: seq<Client>, k: nat, key: string, hash: Hash)
    requires IsHash(hash) && k < |cs|
    ensures Best(cs[..k] + cs[k + 1..], key, hash).1 <= Best(cs, key, hash).1
  {
    hide Score;
    var rest := cs[..k] + cs[k + 1..];
    var i := BestIsFirstOfHighest(cs, key, hash);
    ScoreIsNatural(cs[i], key, hash);
    if rest != [] {
      var j := BestIsFirstOfHighest(rest, key, hash);
      var m := if j < k then j else j + 1;
      assert rest[j] == cs[m];
    }
  }

  /** So no remaining client loses a vote, and without a key of the removed one all votes stay. */
  lemma {:induction false} RemovalTakesNoVotes(cs: seq<Client>, k: nat, keys: seq<Key>, hash: Hash, name: string)
    requires NamesAreGood(cs) && IsHash(hash) && k < |cs| && name != cs[k].name
    ensures Votes(cs[..k] + cs[k + 1..], keys, hash, name) >= Votes(cs, keys, hash, name)
    ensures Votes(cs, keys, hash, cs[k].name) == 0 && (forall i :: 0 <= i < |keys| ==> keys[i].1 > 0) ==>
      Votes(cs[..k] + cs[k + 1..], keys, hash, name) == Votes(cs, keys, hash, name)
    decreases |keys|
  {
    hide Best;
    if keys != [] {
      var n := |keys| - 1;
      RemovalTakesNoVotes(cs, k, keys[..n], hash, name);
      if Winner(cs, keys[n].0, hash) != cs[k].name {
        RemovalKeepsOtherKeys(cs, k, keys[n].0, hash);
      }
    }
  }

  // ---------------------------------------------------------------- the order

  lemma VotesFirstIsOrder()
    ensures IsOrder(VotesFirst)
  {
    hide Less;
    forall a: Ranked, b: Ranked ensures VotesFirst(a, b) || VotesFirst(b, a) {
      LessIsStrictTotal(a.client.name, b.client.name);
    }
    forall a: Ranked, b: Ranked, c: Ranked | VotesFirst(a, b) && VotesFirst(b, c) ensures VotesFirst(a, c) {
      var x, y, z := a.client.name, b.client.name, c.client.name;
      LessIsStrictTotal(x, y);
      LessIsStrictTotal(y, z);
      LessIsStrictTotal(x, z);
      if Less(x, y) && Less(y, z) {
        LessTransitive(x, y, z);
      }
    }
  }

  lemma RankUndone(cs: seq<Client>, voters: seq<Client>, keys: seq<Key>, hash: Hash)
    ensures Clients(RankedBy(cs, voters, keys, hash)) == cs
  {
    hide Votes;
    var r := RankedBy(cs, voters, keys, hash);
    forall i | 0 <= i < |cs| ensures Clients(r)[i] == cs[i] {
      assert r[i].client == cs[i];
    }
  }

  /** Main result: every client once, most votes first, names breaking ties. */
  lemma VotingRanks(cs: seq<Client>, keys: seq<Key>, hash: Hash)
    ensures var r := ByVoting(cs, keys, hash);
      multiset(r) == multiset(cs) &&
      forall i, j :: 0 <= i < j < |r| ==>
        var a, b := Votes(cs, keys, hash, r[i].name), Votes(cs, keys, hash, r[j].name);
        a > b || (a == b && !Less(r[j].name, r[i].name))
  {
    hide Votes, Less, Sort;
    var ranked := RankedBy(cs, cs, keys, hash);
    var sorted := Sort(ranked, VotesFirst);
    VotesFirstIsOrder();
    SortSorts(ranked, VotesFirst);
    MapKeepsMultiset(sorted, ranked, ClientOf());
    RankUndone(cs, cs, keys, hash);
    forall i | 0 <= i < |sorted| ensures sorted[i].votes == Votes(cs, keys, hash, sorted[i].client.name) {
      assert sorted[i] in multiset(ranked);
    }
  }

  function TotalWeight(keys: seq<Key>): nat {
    if keys == [] then 0 else TotalWeight(keys[..|keys| - 1]) + keys[|keys| - 1].1
  }

  function TotalVotes(cs: seq<Client>, voters: seq<Client>, keys: seq<Key>, hash: Hash): nat {
    if cs == [] then 0
    else TotalVotes(cs[..|cs| - 1], voters, keys, hash) + Votes(voters, keys, hash, cs[|cs| - 1].name)
  }

  /** No vote is lost or counted twice. */
  lemma {:induction false} VotesAreConserved(cs: seq<Client>, keys: seq<Key>, hash: Hash)
    requires cs != [] && NamesAreGood(cs) && IsHash(hash)
    ensures TotalVotes(cs, cs, keys, hash) == TotalWeight(keys)
    decreases |keys|
  {
    if keys == [] {
      NoKeysNoVotes(cs, cs, hash);
    } else {
      var n := |keys| - 1;
      VotesAreConserved(cs, keys[..n], hash);
      var i := BestIsFirstOfHighest(cs, keys[n].0, hash);
      OneKeyMore(cs, cs, keys, hash, i);
    }
  }

  lemma {:induction false} NoKeysNoVotes(cs: seq<Client>, voters: seq<Client>, hash: Hash)
    ensures TotalVotes(cs, voters, [], hash) == 0
  {
    if cs != [] {
      NoKeysNoVotes(cs[..|cs| - 1], voters, hash);
    }
  }

  /** The last key adds its weight once, to the `i`-th client. */
  lemma {:induction false} OneKeyMore(cs: seq<Client>, voters: seq<Client>, keys: seq<Key>, hash: Hash, i: nat)
    requires keys != [] && NamesAreGood(voters) && cs <= voters && i < |voters|
    requires Winner(voters, keys[|keys| - 1].0, hash) == voters[i].name
    ensures TotalVotes(cs, voters, keys, hash) ==
      TotalVotes(cs, voters, keys[..|keys| - 1], hash) + if i < |cs| then keys[|keys| - 1].1 else 0
  {
    hide Best;
    if cs != [] {
      var m := |cs| - 1;
      assert cs[m] == voters[m];
      OneKeyMore(cs[..m], voters, keys, hash, i);
    }
  }

  lemma {:induction false} SameWinnersSameVotes(p: seq<Client>, cs: seq<Client>, keys: seq<Key>, hash: Hash,
                                                name: string)
    requires forall i :: 0 <= i < |keys| ==> Winner(p, keys[i].0, hash) == Winner(cs, keys[i].0, hash)
    ensures Votes(p, keys, hash, name) == Votes(cs, keys, hash, name)
  {
    hide Winner;
    if keys != [] {
      var n := |keys| - 1;
      forall i | 0 <= i < n ensures Winner(p, keys[..n][i].0, hash) == Winner(cs, keys[..n][i].0, hash) {
        assert keys[..n][i] == keys[i];
      }
      SameWinnersSameVotes(p, cs, keys[..n], hash, name);
    }
  }

  /** Without ties for first place the order of the configuration does not matter. */
  lemma VotingIsOrderFree(p: seq<Client>, cs: seq<Client>, keys: seq<Key>, hash: Hash)
    requires NamesAreGood(cs) && IsHash(hash) && multiset(p) == multiset(cs)
    requires forall i :: 0 <= i < |keys| ==> exists c :: BeatsAll(cs, c, keys[i].0, hash)
    ensures ByVoting(p, keys, hash) == ByVoting(cs, keys, hash)
  {
    hide Votes, Less, Sort, Winner, BeatsAll;
    forall i | 0 <= i < |keys| ensures Winner(p, keys[i].0, hash) == Winner(cs, keys[i].0, hash) {
      var c :| BeatsAll(cs, c, keys[i].0, hash);
      SameBeater(p, cs, c, keys[i].0, hash);
      BestIsTheBeater(p, c, keys[i].0, hash);
      BestIsTheBeater(cs, c, keys[i].0, hash);
    }
    forall n ensures Votes(p, keys, hash, n) == Votes(cs, keys, hash, n) {
      SameWinnersSameVotes(p, cs, keys, hash, n);
    }
    var a, b := RankedBy(p, p, keys, hash), RankedBy(cs, cs, keys, hash);
    assert a == RankedBy(p, cs, keys, hash);
    MapKeepsMultiset(p, cs, Rank(cs, keys, hash));
    VotesFirstIsOrder();
    SortSorts(a, VotesFirst);
    SortSorts(b, VotesFirst);
    RanksDoNotTie(cs, keys, hash, Sort(b, VotesFirst));
    SortedIsUnique(Sort(b, VotesFirst), Sort(a, VotesFirst), VotesFirst);
  }

  lemma RanksDoNotTie(cs: seq<Client>, keys: seq<Key>, hash: Hash, s: seq<Ranked>)
    requires NamesAreGood(cs) && multiset(s) == multiset(RankedBy(cs, cs, keys, hash))
    ensures NoTies(s, VotesFirst)
  {
    hide Votes, Less;
    var b := RankedBy(cs, cs, keys, hash);
    forall x, y | x in s && y in s && VotesFirst(x, y) && VotesFirst(y, x) ensures x == y {
      assert x in multiset(b) && y in multiset(b);
      var i :| 0 <= i < |b| && b[i] == x;
      var j :| 0 <= j < |b| && b[j] == y;
      LessIsStrictTotal(x.client.name, y.client.name);
      assert cs[i].name == cs[j].name;
    }
  }

  // ---------------------------------------------------------------- least connections

  datatype Loaded = Loaded(load: real, client: Client)

  /** Open connections per unit of priority; a missing or zero priority counts as one. */
  function Load(c: Client, counts: map<string, int>): real {
    var active := if c.name in counts then counts[c.name] else 0;
    var priority := if c.priority.Some? && c.priority.value > 1 then c.priority.value else 1;
    if active <= 0 then 0.0 else active as real / priority as real
  }

  /** The open connections that count, and the priority they are shared by. */
  predicate IsLoadOf(c: Client, counts: map<string, int>, open: real, priority: real) {
    open == (if c.name in counts && counts[c.name] > 0 then counts[c.name] as real else 0.0) &&
    priority == (if c.priority.None? || c.priority.value == 0 then 1.0 else c.priority.value as real)
  }

  lemma LoadIs(c: Client, counts: map<string, int>, open: real, priority: real)
    requires IsLoadOf(c, counts, open, priority)
    ensures priority > 0.0 && Load(c, counts) == open / priority
  {
  }

  /** Loads compare as open connections do across priorities: `a/p < b/q` exactly if `a*q < b*p`. */
  lemma LoadsCompare(c: Client, d: Client, counts: map<string, int>, a: real, p: real, b: real, q: real)
    requires IsLoadOf(c, counts, a, p) && IsLoadOf(d, counts, b, q)
    ensures Load(c, counts) < Load(d, counts) <==> a * q < b * p
  {
    LoadIs(c, counts, a, p);
    LoadIs(d, counts, b, q);
    hide *;
    CrossMultiply(a, p, b, q);
  }

  lemma CrossMultiply(a: real, p: real, b: real, q: real)
    requires p > 0.0 && q > 0.0
    ensures a / p < b / q <==> a * q < b * p
  {
    var x, y := a / p, b / q;
    assert a == x * p && b == y * q;
    assert a * q == x * (p * q) && b * p == y * (p * q);
    if x < y {
      assert (y - x) * (p * q) > 0.0;
    } else {
      assert (x - y) * (p * q) >= 0.0;
    }
  }

  /** Less load first, then the later name. */
  predicate LoadFirst(a: Loaded, b: Loaded) {
    a.load < b.load || (a.load == b.load && !Less(a.client.name, b.client.name))
  }

  function LoadedClient(): Loaded -> Client {
    (l: Loaded) => l.client
  }

  method SelectClientsByLeastConnections(cs: seq<Client>, counts: map<string, int>) returns (r: seq<Client>)
    ensures multiset(r) == multiset(cs)
    ensures forall i, j :: 0 <= i < j < |r| ==>
      Load(r[i], counts) < Load(r[j], counts) ||
      (Load(r[i], counts) == Load(r[j], counts) && !Less(r[i].name, r[j].name))
  {
    hide Sort, Less, Load;
    var scored := seq(|cs|, i requires 0 <= i < |cs| => Loaded(Load(cs[i], counts), cs[i]));
    var sorted := Sort(scored, LoadFirst);
    LoadFirstIsOrder();
    SortSorts(scored, LoadFirst);
    r := Map(sorted, LoadedClient());
    assert forall i :: 0 <= i < |cs| ==> Map(scored, LoadedClient())[i] == cs[i];
    assert Map(scored, LoadedClient()) == cs;
    MapKeepsMultiset(sorted, scored, LoadedClient());
    forall i | 0 <= i < |sorted| ensures sorted[i].load == Load(sorted[i].client, counts) {
      assert sorted[i] in multiset(scored);
    }
  }

  lemma LoadFirstIsOrder()
    ensures IsOrder(LoadFirst)
  {
    hide Less;
    forall a: Loaded, b: Loaded ensures LoadFirst(a, b) || LoadFirst(b, a) {
      LessIsStrictTotal(a.client.name, b.client.name);
    }
    forall a: Loaded, b: Loaded, c: Loaded | LoadFirst(a, b) && LoadFirst(b, c) ensures LoadFirst(a, c) {
      var x, y, z := a.client.name, b.client.name, c.client.name;
      LessIsStrictTotal(x, y);
      LessIsStrictTotal(y, z);
      LessIsStrictTotal(x, z);
      if Less(y, x) && Less(z, y) {
        LessTransitive(z, y, x);
      }
    }
  }
}
