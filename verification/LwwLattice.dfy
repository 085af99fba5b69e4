/** Last-writer-wins merging as a lattice, for any entry type with a strict total "wins over" order. */
module LwwLattice {

  // ---------- Strict total orders ----------

  ghost predicate StrictTotal<E(!new)>(wins: (E, E) -> bool) {
    && (forall x :: !wins(x, x))
    && (forall x, y :: x == y || wins(x, y) || wins(y, x))
    && (forall x, y, z :: wins(x, y) && wins(y, z) ==> wins(x, z))
  }

  /** Lexicographic order. Rust compares UTF-8 bytes, which orders strings by code points too. */
  predicate StringLess(a: string, b: string) {
    if b == "" then false
    else if a == "" then true
    else if a[0] != b[0] then a[0] < b[0]
    else StringLess(a[1..], b[1..])
  }

  lemma {:induction false} StringLessTotal(a: string, b: string)
    ensures !StringLess(a, a)
    ensures a == b || StringLess(a, b) || StringLess(b, a)
  {
    if a != "" {
      StringLessTotal(a[1..], if b == "" then "" else b[1..]);
      if b != "" && a[0] == b[0] {
        assert a == [a[0]] + a[1..] && b == [b[0]] + b[1..];
      }
    }
  }

  lemma {:induction false} StringLessTransitive(a: string, b: string, c: string)
    requires StringLess(a, b) && StringLess(b, c)
    ensures StringLess(a, c)
  {
    if a != "" && a[0] == b[0] == c[0] {
      StringLessTransitive(a[1..], b[1..], c[1..]);
    }
  }

  /** The first difference decides; a proper prefix comes first. */
  ghost predicate ComesBefore(a: string, b: string) {
    exists n: nat :: FirstDifference(a, b, n)
  }

  predicate FirstDifference(a: string, b: string, n: nat) {
    n <= |a| && n < |b| && a[..n] == b[..n] && (n == |a| || a[n] < b[n])
  }

  lemma {:induction false} StringLessMeaning(a: string, b: string)
    ensures StringLess(a, b) <==> ComesBefore(a, b)
  {
    if a != "" && b != "" && a[0] == b[0] {
      StringLessMeaning(a[1..], b[1..]);
      assert a == [a[0]] + a[1..] && b == [b[0]] + b[1..];
      if n: nat :| FirstDifference(a[1..], b[1..], n) {
        assert a[..n + 1] == [a[0]] + a[1..][..n] && b[..n + 1] == [b[0]] + b[1..][..n];
        assert FirstDifference(a, b, n + 1);
      }
      if n: nat :| FirstDifference(a, b, n) {
        assert n > 0;
        assert a[1..][..n - 1] == a[..n][1..] && b[1..][..n - 1] == b[..n][1..];
        assert FirstDifference(a[1..], b[1..], n - 1);
      }
    } else {
      assert b != "" && (a == "" || a[0] < b[0]) ==> FirstDifference(a, b, 0);
    }
  }

  // ---------- Merging ----------

  type Entries<E> = map<string, E>

  /** Does a remote entry replace what the local side holds under its key? */
  predicate Accepts<E>(local: Entries<E>, remote: Entries<E>, k: string, wins: (E, E) -> bool) {
    k in remote && (k !in local || wins(remote[k], local[k]))
  }

  /** The remote entries that are taken over. */
  function Accepted<E>(local: Entries<E>, remote: Entries<E>, wins: (E, E) -> bool): Entries<E> {
    map k | k in remote && Accepts(local, remote, k, wins) :: remote[k]
  }

  function Merge<E>(local: Entries<E>, remote: Entries<E>, wins: (E, E) -> bool): Entries<E> {
    local + Accepted(local, remote, wins)
  }

  function MergeAll<E>(local: Entries<E>, remotes: seq<Entries<E>>, wins: (E, E) -> bool): Entries<E>
    decreases |remotes|
  {
    if remotes == [] then local else MergeAll(Merge(local, remotes[0], wins), remotes[1..], wins)
  }

  /** The part of a snapshot under some keys: what a merging loop has gone through. */
  function Only<E>(remote: Entries<E>, keys: set<string>): Entries<E> {
    map k | k in remote && k in keys :: remote[k]
  }

  lemma OnlyStep<E(!new)>(remote: Entries<E>, done: set<string>, key: string)
    requires key in remote && key !in done
    ensures Only(remote, done + {key}) == Only(remote, done)[key := remote[key]]
    ensures key !in Only(remote, done)
  {}

  lemma AcceptedStep<E(!new)>(local: Entries<E>, part: Entries<E>, key: string, e: E, wins: (E, E) -> bool)
    requires key !in part
    ensures var before := Accepted(local, part, wins);
      Accepted(local, part[key := e], wins) ==
        (if key !in local || wins(e, local[key]) then before[key := e] else before)
    ensures key !in Accepted(local, part, wins)
  {}

  lemma InsertFresh<V(!new)>(base: map<string, V>, over: map<string, V>, key: string, v: V)
    ensures base + over[key := v] == (base + over)[key := v]
    ensures key !in over ==> |over[key := v]| == |over| + 1
  {
    if key !in over {
      assert over[key := v].Keys == over.Keys + {key};
      assert |over[key := v]| == |over[key := v].Keys| && |over| == |over.Keys|;
    }
  }

  /** One more key of a merging loop. */
  lemma MergeStep<E(!new)>(local: Entries<E>, remote: Entries<E>, done: set<string>, key: string, wins: (E, E) -> bool)
    requires key in remote && key !in done
    ensures var sofar := Merge(local, Only(remote, done), wins);
      var accepts := Accepts(local, remote, key, wins);
      && Accepts(sofar, remote, key, wins) == accepts
      && Merge(local, Only(remote, done + {key}), wins) == (if accepts then sofar[key := remote[key]] else sofar)
      && |Accepted(local, Only(remote, done + {key}), wins)| ==
          |Accepted(local, Only(remote, done), wins)| + (if accepts then 1 else 0)
  {
    hide Only, Accepted;
    var part, e := Only(remote, done), remote[key];
    OnlyStep(remote, done, key);
    AcceptedStep(local, part, key, e, wins);
    InsertFresh(local, Accepted(local, part, wins), key, e);
  }

  lemma MergeEnds<E(!new)>(local: Entries<E>, remote: Entries<E>, wins: (E, E) -> bool)
    ensures Only(remote, remote.Keys) == remote
    ensures Merge(local, Only(remote, {}), wins) == local
    ensures Accepted(local, Only(remote, {}), wins) == map[]
  {}

  /** The entries another side would accept. */
  function Diff<E>(local: Entries<E>, remote: Entries<E>, wins: (E, E) -> bool): Entries<E> {
    Accepted(remote, local, wins)
  }

  lemma MergeCommutes<E(!new)>(a: Entries<E>, b: Entries<E>, wins: (E, E) -> bool)
    requires StrictTotal(wins)
    ensures Merge(a, b, wins) == Merge(b, a, wins)
  {
    var ab, ba := Merge(a, b, wins), Merge(b, a, wins);
    assert ab.Keys == ba.Keys;
    forall k | k in ab ensures ab[k] == ba[k] {
      if k in a && k in b {
        assert a[k] == b[k] || wins(a[k], b[k]) || wins(b[k], a[k]);
        assert !(wins(a[k], b[k]) && wins(b[k], a[k]));
      }
    }
  }

  lemma MergeIdempotent<E(!new)>(a: Entries<E>, b: Entries<E>, wins: (E, E) -> bool)
    requires StrictTotal(wins)
    ensures Merge(Merge(a, b, wins), b, wins) == Merge(a, b, wins)
    ensures forall k :: !Accepts(Merge(a, b, wins), b, k, wins)
  {
    var ab := Merge(a, b, wins);
    forall k ensures !Accepts(ab, b, k, wins) {
      if k in b && ab[k] != b[k] {
        assert !wins(b[k], a[k]);
      }
    }
    assert Merge(ab, b, wins).Keys == ab.Keys;
  }

  lemma MergeAssociates<E(!new)>(a: Entries<E>, b: Entries<E>, c: Entries<E>, wins: (E, E) -> bool)
    requires StrictTotal(wins)
    ensures Merge(Merge(a, b, wins), c, wins) == Merge(a, Merge(b, c, wins), wins)
  {
    hide Merge, StrictTotal;
    var l, r := Merge(Merge(a, b, wins), c, wins), Merge(a, Merge(b, c, wins), wins);
    forall k ensures (k in l <==> k in r) && (k in l ==> l[k] == r[k]) {
      AssociatesAt(a, b, c, wins, k);
    }
  }

  lemma AssociatesAt<E(!new)>(a: Entries<E>, b: Entries<E>, c: Entries<E>, wins: (E, E) -> bool, k: string)
    requires StrictTotal(wins)
    ensures var l, r := Merge(Merge(a, b, wins), c, wins), Merge(a, Merge(b, c, wins), wins);
      (k in l <==> k in r) && (k in l ==> l[k] == r[k])
  {
    if k in a && k in b && k in c {
      BestOfThree(a[k], b[k], c[k], wins);
    }
  }

  function Better<E>(x: E, y: E, wins: (E, E) -> bool): E {
    if wins(y, x) then y else x
  }

  lemma BestOfThree<E(!new)>(x: E, y: E, z: E, wins: (E, E) -> bool)
    requires StrictTotal(wins)
    ensures Better(Better(x, y, wins), z, wins) == Better(x, Better(y, z, wins), wins)
  {
    assert x == y || wins(x, y) || wins(y, x);
    assert y == z || wins(y, z) || wins(z, y);
    assert x == z || wins(x, z) || wins(z, x);
  }

  // ---------- Any number of remotes, in any order ----------

  ghost predicate IsCandidate<E>(local: Entries<E>, remotes: seq<Entries<E>>, k: string, e: E) {
    (k in local && local[k] == e) || exists m :: m in remotes && k in m && m[k] == e
  }

  lemma CandidatesAfterMerge<E(!new)>(local: Entries<E>, remotes: seq<Entries<E>>, k: string, e: E,
                               wins: (E, E) -> bool)
    requires remotes != []
    requires IsCandidate(Merge(local, remotes[0], wins), remotes[1..], k, e)
    ensures IsCandidate(local, remotes, k, e)
  {
    var merged := Merge(local, remotes[0], wins);
    assert remotes == [remotes[0]] + remotes[1..];
    if m :| m in remotes[1..] && k in m && m[k] == e {
      assert m in remotes;
    } else if Accepts(local, remotes[0], k, wins) {
      assert remotes[0] in remotes && merged[k] == remotes[0][k];
    }
  }

  lemma NotBeatenTransitive<E(!new)>(x: E, y: E, z: E, wins: (E, E) -> bool)
    requires StrictTotal(wins) && !wins(x, y) && !wins(y, z)
    ensures !wins(x, z)
  {
    assert x == y || wins(y, x);
    assert y == z || wins(z, y);
    assert x == z || wins(z, x) || wins(x, z);
  }

  /** The result holds, under each key, the best of everything on offer there. */
  lemma {:induction false} MergeAllIsBest<E(!new)>(local: Entries<E>, remotes: seq<Entries<E>>, k: string,
                                            wins: (E, E) -> bool)
    requires StrictTotal(wins)
    ensures k in MergeAll(local, remotes, wins) ==> IsCandidate(local, remotes, k, MergeAll(local, remotes, wins)[k])
    ensures forall e | IsCandidate(local, remotes, k, e) ::
      k in MergeAll(local, remotes, wins) && !wins(e, MergeAll(local, remotes, wins)[k])
    decreases |remotes|
  {
    if remotes != [] {
      var merged := Merge(local, remotes[0], wins);
      var all := MergeAll(local, remotes, wins);
      MergeAllIsBest(merged, remotes[1..], k, wins);
      if k in all {
        CandidatesAfterMerge(local, remotes, k, all[k], wins);
      }
      forall e | IsCandidate(local, remotes, k, e) ensures k in all && !wins(e, all[k]) {
        if !IsCandidate(merged, remotes[1..], k, e) {
          MergedBeats(local, remotes, k, e, wins);
          assert IsCandidate(merged, remotes[1..], k, merged[k]);
          NotBeatenTransitive(e, merged[k], all[k], wins);
        }
      }
    }
  }

  lemma MergedBeats<E(!new)>(local: Entries<E>, remotes: seq<Entries<E>>, k: string, e: E, wins: (E, E) -> bool)
    requires StrictTotal(wins) && remotes != []
    requires IsCandidate(local, remotes, k, e)
    requires !IsCandidate(Merge(local, remotes[0], wins), remotes[1..], k, e)
    ensures k in Merge(local, remotes[0], wins) && !wins(e, Merge(local, remotes[0], wins)[k])
  {
    var merged := Merge(local, remotes[0], wins);
    if m :| m in remotes && k in m && m[k] == e && (k !in local || local[k] != e) {
      if m != remotes[0] {
        assert m in remotes[1..];
      }
    }
  }

  /** Merging the same snapshots in any order gives the same entries. */
  lemma MergeAllOrderFree<E(!new)>(local: Entries<E>, remotes: seq<Entries<E>>, shuffled: seq<Entries<E>>,
                            wins: (E, E) -> bool)
    requires StrictTotal(wins) && multiset(remotes) == multiset(shuffled)
    ensures MergeAll(local, remotes, wins) == MergeAll(local, shuffled, wins)
  {
    var a, b := MergeAll(local, remotes, wins), MergeAll(local, shuffled, wins);
    forall k ensures (k in a <==> k in b) && (k in a ==> a[k] == b[k]) {
      MergeAllIsBest(local, remotes, k, wins);
      MergeAllIsBest(local, shuffled, k, wins);
      forall e ensures IsCandidate(local, remotes, k, e) <==> IsCandidate(local, shuffled, k, e) {
        SameCandidates(local, remotes, shuffled, k, e);
        SameCandidates(local, shuffled, remotes, k, e);
      }
    }
  }

  lemma SameCandidates<E(!new)>(local: Entries<E>, remotes: seq<Entries<E>>, shuffled: seq<Entries<E>>, k: string, e: E)
    requires multiset(remotes) == multiset(shuffled)
    ensures IsCandidate(local, remotes, k, e) ==> IsCandidate(local, shuffled, k, e)
  {
    if m :| m in remotes && k in m && m[k] == e {
      assert m in multiset(remotes);
      assert m in shuffled;
    }
  }

  // ---------- Sending only the difference ----------

  /** The difference holds exactly the entries whose merge changes the other side, and merging it
      does as much as merging everything; so after one round of pull and push both sides agree. */
  lemma DeltaRoundConverges<E(!new)>(a: Entries<E>, b: Entries<E>, wins: (E, E) -> bool)
    requires StrictTotal(wins)
    ensures forall k :: k in Diff(a, b, wins) <==> k in a && (k !in b || Merge(b, a, wins)[k] != b[k])
    ensures Merge(b, Diff(a, b, wins), wins) == Merge(b, a, wins)
    ensures Merge(a, b, wins) == Merge(b, Diff(a, b, wins), wins)
    ensures Diff(Merge(a, b, wins), Merge(b, a, wins), wins) == map[]
  {
    var ba := Merge(b, a, wins);
    var delta := Merge(b, Diff(a, b, wins), wins);
    assert delta.Keys == ba.Keys;
    MergeCommutes(a, b, wins);
  }
}
