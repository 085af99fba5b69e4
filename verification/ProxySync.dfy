/** Proxy assignments per account: models/sync/proxy_assignment.rs and state/proxy_sync.rs. */
module ProxySync {
  import opened Wrappers
  import opened Arithmetic
  import opened LwwLattice
  import opened MappingSync

  const MAX_PROXY_ENTRIES: nat := 10_000
  const CLOCK_SKEW: int := 86_400_000

  datatype ProxyAssignment = ProxyAssignment(proxyUrl: Option<string>, updatedAt: int)

  type Assignments = map<string, ProxyAssignment>

  /** Newer wins; on a tie a removal; on a further tie the greater URL. */
  predicate ProxyWins(x: ProxyAssignment, y: ProxyAssignment) {
    if x.updatedAt != y.updatedAt then x.updatedAt > y.updatedAt
    else
      match (x.proxyUrl, y.proxyUrl)
      case (None, Some(_)) => true
      case (Some(_), None) => false
      case (Some(a), Some(b)) => StringLess(b, a)
      case (None, None) => false
  }

  lemma ProxyWinsStrictTotal()
    ensures StrictTotal(ProxyWins)
  {
    forall x: ProxyAssignment ensures !ProxyWins(x, x) {
      if x.proxyUrl.Some? {
        StringLessTotal(x.proxyUrl.value, x.proxyUrl.value);
      }
    }
    forall x: ProxyAssignment, y: ProxyAssignment ensures x == y || ProxyWins(x, y) || ProxyWins(y, x) {
      if x.proxyUrl.Some? && y.proxyUrl.Some? {
        StringLessTotal(x.proxyUrl.value, y.proxyUrl.value);
      }
    }
    forall x: ProxyAssignment, y: ProxyAssignment, z: ProxyAssignment | ProxyWins(x, y) && ProxyWins(y, z)
      ensures ProxyWins(x, z)
    {
      if x.updatedAt == y.updatedAt == z.updatedAt && x.proxyUrl.Some? && y.proxyUrl.Some? && z.proxyUrl.Some? {
        StringLessTransitive(z.proxyUrl.value, y.proxyUrl.value, x.proxyUrl.value);
      }
    }
  }

  lemma OneOfThree(x: ProxyAssignment, y: ProxyAssignment)
    ensures x == y || ProxyWins(x, y) || ProxyWins(y, x)
    ensures !(ProxyWins(x, y) && ProxyWins(y, x)) && !ProxyWins(x, x)
  {
    ProxyWinsStrictTotal();
  }

  /** Entries from more than a day ahead of the local clock are refused. */
  function Fresh(remote: Assignments, now: int): Assignments {
    map k | k in remote && remote[k].updatedAt <= SaturatingAdd(now, CLOCK_SKEW) :: remote[k]
  }

  predicate Oldest(entries: Assignments, k: string) {
    k in entries && forall j | j in entries :: entries[k].updatedAt <= entries[j].updatedAt
  }

  lemma {:induction false} OldestExists(entries: Assignments)
    requires entries != map[]
    ensures exists k :: Oldest(entries, k)
    decreases entries.Keys
  {
    var k :| k in entries;
    var rest := entries - {k};
    if rest == map[] {
      assert forall j | j in entries :: j == k by {
        assert forall j | j in entries && j != k :: j in rest;
      }
      assert Oldest(entries, k);
    } else {
      OldestExists(rest);
      var m :| Oldest(rest, m);
      var best := if entries[k].updatedAt <= entries[m].updatedAt then k else m;
      assert forall j | j in entries && j != k :: j in rest && rest[j] == entries[j];
      assert Oldest(entries, best);
    }
  }

  // ---------- A merge under a size limit ----------

  /** How large a map may become: it never shrinks, and beyond the limit it no longer grows. */
  function Limit(local: Assignments): nat {
    if |local| > 10_000 then |local| else 10_000
  }

  /** The map is full and holds nothing older. */
  predicate Crowded(m: Assignments, t: int) {
    |m| >= MAX_PROXY_ENTRIES && forall j | j in m :: m[j].updatedAt >= t
  }

  /** What a bounded merge guarantees under a key: it invents nothing; what it holds loses neither to
      the entry held before nor to the one offered; and an entry is missing only from a full map of
      nothing older. */
  ghost predicate BoundedAt(local: Assignments, offered: Assignments, m: Assignments, k: string) {
    if k in m then
      && ((k in local && m[k] == local[k]) || (k in offered && m[k] == offered[k]))
      && (k in local ==> m[k] == local[k] || ProxyWins(m[k], local[k]))
      && (k in offered ==> !ProxyWins(offered[k], m[k]))
    else
      && (k in local ==> Crowded(m, local[k].updatedAt))
      && (k in offered ==> Crowded(m, offered[k].updatedAt))
  }

  ghost predicate BoundedMerge(local: Assignments, offered: Assignments, m: Assignments) {
    (forall k :: BoundedAt(local, offered, m, k)) && |local| <= |m| <= Limit(local)
  }

  lemma BoundedStart(local: Assignments)
    ensures BoundedMerge(local, map[], local)
  {}

  /** The offer for `key` is passed over: it loses to the held entry, or the map is full of newer ones. */
  lemma BoundedSkip(local: Assignments, offered: Assignments, m: Assignments, key: string, e: ProxyAssignment)
    requires BoundedMerge(local, offered, m) && key !in offered
    requires if key in m then !ProxyWins(e, m[key]) else Crowded(m, e.updatedAt)
    ensures BoundedMerge(local, offered[key := e], m)
  {
    hide ProxyWins, Crowded;
    var next := offered[key := e];
    forall k ensures BoundedAt(local, next, m, k) {
      assert BoundedAt(local, offered, m, k);
    }
  }

  lemma EvictedCrowd(m: Assignments, oldest: string, key: string, e: ProxyAssignment, t: int)
    requires |m| >= MAX_PROXY_ENTRIES && Oldest(m, oldest) && key !in m && e.updatedAt > m[oldest].updatedAt
    ensures var m' := (m - {oldest})[key := e];
      |m'| == |m| && (t <= m[oldest].updatedAt || Crowded(m, t) ==> Crowded(m', t))
  {
    var rest := m - {oldest};
    var m' := rest[key := e];
    assert rest.Keys == m.Keys - {oldest} && m'.Keys == rest.Keys + {key};
    assert |m.Keys| == |m| && |rest.Keys| == |m| - 1 && |m'.Keys| == |m'|;
  }

  lemma BoundedEvict(local: Assignments, offered: Assignments, m: Assignments, oldest: string, key: string,
                     e: ProxyAssignment)
    requires BoundedMerge(local, offered, m) && |m| >= MAX_PROXY_ENTRIES && Oldest(m, oldest)
    requires key !in m && key !in offered && e.updatedAt > m[oldest].updatedAt
    ensures BoundedMerge(local, offered[key := e], (m - {oldest})[key := e])
  {
    var m' := (m - {oldest})[key := e];
    EvictedCrowd(m, oldest, key, e, 0);
    OneOfThree(e, e);
    var next := offered[key := e];
    forall k ensures BoundedAt(local, next, m', k) {
      assert BoundedAt(local, offered, m, k);
      if k in local {
        EvictedCrowd(m, oldest, key, e, local[k].updatedAt);
      }
      if k in offered {
        EvictedCrowd(m, oldest, key, e, offered[k].updatedAt);
      }
    }
  }

  lemma InsertedCrowd(m: Assignments, key: string, e: ProxyAssignment, t: int)
    requires if key in m then ProxyWins(e, m[key]) else |m| < MAX_PROXY_ENTRIES
    ensures |m[key := e]| == |m| + (if key in m then 0 else 1)
    ensures Crowded(m, t) ==> Crowded(m[key := e], t)
  {
    var m' := m[key := e];
    assert m'.Keys == m.Keys + {key} && |m.Keys| == |m| && |m'.Keys| == |m'|;
  }

  lemma BoundedInsert(local: Assignments, offered: Assignments, m: Assignments, key: string, e: ProxyAssignment)
    requires BoundedMerge(local, offered, m) && key !in offered
    requires if key in m then ProxyWins(e, m[key]) else |m| < MAX_PROXY_ENTRIES
    ensures BoundedMerge(local, offered[key := e], m[key := e])
  {
    var m' := m[key := e];
    InsertedCrowd(m, key, e, 0);
    OneOfThree(e, e);
    if key in m && key in local {
      assert BoundedAt(local, offered, m, key);
      ProxyWinsTransitive(e, m[key], local[key]);
    }
    var next := offered[key := e];
    forall k ensures BoundedAt(local, next, m', k) {
      assert BoundedAt(local, offered, m, k);
      if k in local {
        InsertedCrowd(m, key, e, local[k].updatedAt);
      }
      if k in offered {
        InsertedCrowd(m, key, e, offered[k].updatedAt);
      }
    }
  }

  lemma ProxyWinsTransitive(x: ProxyAssignment, y: ProxyAssignment, z: ProxyAssignment)
    requires ProxyWins(x, y) && (y == z || ProxyWins(y, z))
    ensures ProxyWins(x, z)
  {
    ProxyWinsStrictTotal();
  }

  lemma NothingMissing(local: Assignments, offered: Assignments, m: Assignments)
    requires BoundedMerge(local, offered, m) && |local.Keys + offered.Keys| <= MAX_PROXY_ENTRIES
    ensures m.Keys == local.Keys + offered.Keys
  {
    var all := local.Keys + offered.Keys;
    assert |m| == |m.Keys|;
    forall k ensures (k in m ==> k in all) && (k in all && k !in m ==> |m| >= MAX_PROXY_ENTRIES) {
      assert BoundedAt(local, offered, m, k);
    }
    if m.Keys < all {
      SubsetSize(m.Keys, all);
    }
  }

  lemma MergeKeys(local: Assignments, offered: Assignments)
    ensures Merge(local, offered, ProxyWins).Keys == local.Keys + offered.Keys
  {
    hide ProxyWins;
  }

  lemma BoundedValue(local: Assignments, offered: Assignments, m: Assignments, k: string)
    requires BoundedAt(local, offered, m, k) && k in m
    ensures k in Merge(local, offered, ProxyWins) && m[k] == Merge(local, offered, ProxyWins)[k]
  {
    hide ProxyWins;
    if k in local && k in offered {
      OneOfThree(local[k], offered[k]);
    }
  }

  /** Below the limit nothing goes missing, and the bounded merge is the lattice merge. */
  lemma BoundedIsMerge(local: Assignments, offered: Assignments, m: Assignments)
    requires BoundedMerge(local, offered, m) && |local.Keys + offered.Keys| <= MAX_PROXY_ENTRIES
    ensures m == Merge(local, offered, ProxyWins)
  {
    NothingMissing(local, offered, m);
    MergeKeys(local, offered);
    assert forall k :: BoundedAt(local, offered, m, k);
    hide *;
    var merged := Merge(local, offered, ProxyWins);
    forall k | k in m ensures m[k] == merged[k] {
      BoundedValue(local, offered, m, k);
    }
  }

  /** Under an email that both sides hold, a merge keeps the newer entry; of two equally old ones a removal; of
      two assignments then, the one whose URL comes last. */
  lemma MergedEntry(local: Assignments, offered: Assignments, k: string)
    requires k in local && k in offered
    ensures var a, b, m := local[k], offered[k], Merge(local, offered, ProxyWins)[k];
      && (m == a || m == b) && m.updatedAt == Max(a.updatedAt, b.updatedAt)
      && (a.updatedAt == b.updatedAt ==> (m.proxyUrl.None? <==> a.proxyUrl.None? || b.proxyUrl.None?))
      && (a.updatedAt == b.updatedAt && a.proxyUrl.Some? && b.proxyUrl.Some? ==>
            !ComesBefore(m.proxyUrl.value, a.proxyUrl.value) && !ComesBefore(m.proxyUrl.value, b.proxyUrl.value))
  {
    var a, b := local[k], offered[k];
    if a.proxyUrl.Some? && b.proxyUrl.Some? {
      StringLessMeaning(a.proxyUrl.value, b.proxyUrl.value);
      StringLessMeaning(b.proxyUrl.value, a.proxyUrl.value);
      StringLessMeaning(a.proxyUrl.value, a.proxyUrl.value);
      StringLessMeaning(b.proxyUrl.value, b.proxyUrl.value);
      StringLessTotal(a.proxyUrl.value, b.proxyUrl.value);
      StringLessTotal(b.proxyUrl.value, a.proxyUrl.value);
    }
    OneOfThree(a, b);
    hide StringLess, ComesBefore;
  }

  // ---------- What a merge under the limit is sure to keep ----------

  /** The other emails whose entries are at least as new. */
  function Rivals(m: Assignments, email: string): set<string>
    requires email in m
  {
    set j | j in m && j != email && m[j].updatedAt >= m[email].updatedAt
  }

  /** Without a limit, enough other entries to fill the map would be at least as new. */
  predicate Outnumbered(local: Assignments, offered: Assignments, email: string) {
    var m := Merge(local, offered, ProxyWins);
    email in m && |Rivals(m, email)| >= Limit(local)
  }

  /** A merge under the limit is sure to keep an email, whichever entries it evicts among equally old
      ones and in whichever order it takes the offers, exactly when too few others are as new. */
  lemma KeptIff(local: Assignments, offered: Assignments, email: string)
    requires email in local || email in offered
    ensures (forall m | BoundedMerge(local, offered, m) :: email in m) <==> !Outnumbered(local, offered, email)
  {
    if Outnumbered(local, offered, email) {
      var m := LostWhenOutnumbered(local, offered, email);
      assert BoundedMerge(local, offered, m) && email !in m;
    } else {
      hide BoundedMerge, Outnumbered;
      forall m | BoundedMerge(local, offered, m) ensures email in m {
        KeptOtherwise(local, offered, m, email);
      }
    }
  }

  lemma KeptOtherwise(local: Assignments, offered: Assignments, m: Assignments, email: string)
    requires (email in local || email in offered) && !Outnumbered(local, offered, email)
    requires BoundedMerge(local, offered, m)
    ensures email in m
  {
    var all := Merge(local, offered, ProxyWins);
    assert BoundedAt(local, offered, m, email);
    hide ProxyWins, Merge;
    MergeKeys(local, offered);
    MergedFrom(local, offered, email);
    if email !in m {
      assert Crowded(m, all[email].updatedAt);
      forall j | j in m ensures j in Rivals(all, email) {
        assert BoundedAt(local, offered, m, j);
        BoundedValue(local, offered, m, j);
      }
      assert |m| == |m.Keys|;
      SubsetSize(m.Keys, Rivals(all, email));
    }
  }

  lemma MergedFrom(local: Assignments, offered: Assignments, k: string)
    requires k in local || k in offered
    ensures var all := Merge(local, offered, ProxyWins);
      && k in all
      && ((k in local && all[k] == local[k]) || (k in offered && all[k] == offered[k]))
      && (k in local ==> all[k] == local[k] || ProxyWins(all[k], local[k]))
      && (k in offered ==> !ProxyWins(offered[k], all[k]))
  {
    if k in local && k in offered {
      OneOfThree(local[k], offered[k]);
      OneOfThree(offered[k], offered[k]);
    } else if k in offered {
      OneOfThree(offered[k], offered[k]);
    }
  }

  /** Part of the entries, nothing in it older than what is dropped. */
  ghost predicate Trimmed(entries: Assignments, m: Assignments) {
    && m.Keys <= entries.Keys && (forall k | k in m :: m[k] == entries[k])
    && forall k, j | k in entries && k !in m && j in m :: entries[k].updatedAt <= m[j].updatedAt
  }

  lemma TrimmedAll(entries: Assignments)
    ensures Trimmed(entries, entries)
  {}

  /** The oldest entries can always be dropped until `n` are left. */
  lemma {:induction false} TrimOldest(entries: Assignments, n: nat) returns (m: Assignments)
    requires n <= |entries|
    ensures |m| == n && Trimmed(entries, m)
    decreases |entries|
  {
    m := entries;
    if |entries| > n {
      OldestExists(entries);
      var k :| Oldest(entries, k);
      var rest := entries - {k};
      assert rest.Keys == entries.Keys - {k} && |rest.Keys| == |rest| && |entries.Keys| == |entries|;
      m := TrimOldest(rest, n);
    }
  }

  lemma LostWhenOutnumbered(local: Assignments, offered: Assignments, email: string) returns (m: Assignments)
    requires Outnumbered(local, offered, email)
    ensures BoundedMerge(local, offered, m) && email !in m
  {
    var all := Merge(local, offered, ProxyWins);
    hide Merge, BoundedMerge, Trimmed;
    m := TrimToRivals(all, Limit(local), email);
    TrimmedIsBounded(local, offered, m);
  }

  /** Trimming can drop an email that enough others are as new as. */
  lemma TrimToRivals(all: Assignments, n: nat, email: string) returns (m: Assignments)
    requires email in all && |Rivals(all, email)| >= n
    ensures |m| == n && Trimmed(all, m) && email !in m
  {
    var rivals := map k | k in Rivals(all, email) :: all[k];
    assert rivals.Keys == Rivals(all, email) && |rivals.Keys| == |rivals|;
    m := TrimOldest(rivals, n);
    forall k, j | k in all && k !in m && j in m ensures all[k].updatedAt <= m[j].updatedAt {
      assert j in rivals && (k in rivals || all[k].updatedAt <= all[email].updatedAt);
    }
  }

  /** A trimmed merge of the right size is a bounded one. */
  lemma TrimmedIsBounded(local: Assignments, offered: Assignments, m: Assignments)
    requires var all := Merge(local, offered, ProxyWins);
      Trimmed(all, m) && (m == all || |m| == Limit(local)) && |local| <= |m| <= Limit(local)
    ensures BoundedMerge(local, offered, m)
  {
    var all := Merge(local, offered, ProxyWins);
    hide Merge, BoundedAt, ProxyWins;
    forall k ensures BoundedAt(local, offered, m, k) {
      TrimmedAt(local, offered, m, k);
    }
  }

  lemma TrimmedAt(local: Assignments, offered: Assignments, m: Assignments, k: string)
    requires var all := Merge(local, offered, ProxyWins);
      if k in m then k in all && m[k] == all[k] else k in all ==> Crowded(m, all[k].updatedAt)
    ensures BoundedAt(local, offered, m, k)
  {
    if k in local || k in offered {
      MergedFrom(local, offered, k);
    }
    hide Merge;
  }

  /** The other emails whose entries are newer. */
  function NewerRivals(m: Assignments, email: string): set<string>
    requires email in m
  {
    set j | j in m && m[j].updatedAt > m[email].updatedAt
  }

  /** It is sure to lose the email exactly when enough others are newer: only ties leave a choice. */
  lemma LostIff(local: Assignments, offered: Assignments, email: string)
    requires email in local || email in offered
    ensures var all := Merge(local, offered, ProxyWins);
      && email in all
      && ((forall m | BoundedMerge(local, offered, m) :: email !in m) <==>
            |NewerRivals(all, email)| >= Limit(local))
  {
    var all := Merge(local, offered, ProxyWins);
    MergeKeys(local, offered);
    hide Merge, BoundedMerge;
    if |NewerRivals(all, email)| >= Limit(local) {
      forall m | BoundedMerge(local, offered, m) ensures email !in m {
        LostToNewer(local, offered, m, email);
      }
    } else {
      var m := KeptAgainstTies(local, offered, email);
      assert BoundedMerge(local, offered, m) && email in m;
    }
  }

  lemma LostToNewer(local: Assignments, offered: Assignments, m: Assignments, email: string)
    requires var all := Merge(local, offered, ProxyWins);
      email in all && |NewerRivals(all, email)| >= Limit(local)
    requires BoundedMerge(local, offered, m)
    ensures email !in m
  {
    var all := Merge(local, offered, ProxyWins);
    var newer := NewerRivals(all, email);
    assert forall k :: BoundedAt(local, offered, m, k);
    assert |m.Keys| == |m| <= Limit(local);
    MergeKeys(local, offered);
    hide Merge, BoundedMerge, Limit;
    if email in m {
      BoundedValue(local, offered, m, email);
      forall j | j in newer ensures j in m {
        MergedFrom(local, offered, j);
        assert BoundedAt(local, offered, m, j);
      }
      assert newer <= m.Keys - {email};
      SubsetSize(newer, m.Keys - {email});
    }
  }

  lemma KeptAgainstTies(local: Assignments, offered: Assignments, email: string) returns (m: Assignments)
    requires var all := Merge(local, offered, ProxyWins);
      email in all && |NewerRivals(all, email)| < Limit(local)
    ensures BoundedMerge(local, offered, m) && email in m
  {
    var all := Merge(local, offered, ProxyWins);
    MergeKeys(local, offered);
    hide Merge, Trimmed, BoundedMerge;
    SubsetSize(local.Keys, all.Keys);
    assert |local.Keys| == |local| && |all.Keys| == |all|;
    if |all| <= Limit(local) {
      m := all;
      TrimmedAll(all);
    } else {
      m := TrimAround(all, Limit(local), email);
    }
    TrimmedIsBounded(local, offered, m);
  }

  /** Trimming can spare an email that few others are newer than. */
  lemma TrimAround(all: Assignments, n: nat, email: string) returns (m: Assignments)
    requires email in all && |NewerRivals(all, email)| < n < |all|
    ensures |m| == n && Trimmed(all, m) && email in m
  {
    var others := all - {email};
    assert others.Keys == all.Keys - {email} && |others.Keys| == |others| && |all.Keys| == |all|;
    var kept := TrimOldest(others, n - 1);
    m := kept[email := all[email]];
    assert m.Keys == kept.Keys + {email} && |m.Keys| == |m| && |kept.Keys| == |kept|;
    forall j | j in others && j !in kept ensures all[j].updatedAt <= all[email].updatedAt {
      if all[j].updatedAt > all[email].updatedAt {
        TooManyNewer(all, kept, email, j);
      }
    }
  }

  lemma TooManyNewer(all: Assignments, kept: Assignments, email: string, j: string)
    requires email in all && j in all && j !in kept && all[j].updatedAt > all[email].updatedAt
    requires forall k | k in kept :: k in all && all[k].updatedAt >= all[j].updatedAt
    ensures |NewerRivals(all, email)| > |kept|
  {
    assert kept.Keys + {j} <= NewerRivals(all, email) && |kept.Keys| == |kept|;
    SubsetSize(kept.Keys + {j}, NewerRivals(all, email));
  }

  lemma PartialUnion(local: Assignments, offered: Assignments, done: set<string>)
    requires |local.Keys + offered.Keys| <= MAX_PROXY_ENTRIES
    ensures |local.Keys + Only(offered, done).Keys| <= MAX_PROXY_ENTRIES
  {
    var part := local.Keys + Only(offered, done).Keys;
    assert part <= local.Keys + offered.Keys;
    if part != local.Keys + offered.Keys {
      SubsetSize(part, local.Keys + offered.Keys);
    }
  }

  class ProxyAssignments {
    var entries: Assignments

    constructor ()
      ensures entries == map[]
    {
      entries := map[];
    }

    /** A local change, stamped past whatever is held. */
    method UpdateProxyAssignment(email: string, proxyUrl: Option<string>, now: int)
      modifies this
      ensures entries == LocalWritten(old(entries), email, proxyUrl, now)
      ensures email in entries && entries[email].proxyUrl == proxyUrl && entries[email].updatedAt >= now
      ensures email !in old(entries) || old(entries)[email].updatedAt < now ==> entries[email].updatedAt == now
      ensures email in old(entries) && old(entries)[email].updatedAt < I64_MAX ==>
        entries[email].updatedAt > old(entries)[email].updatedAt
      ensures entries - {email} == old(entries) - {email}
    {
      var ts := now;
      if email in entries {
        ts := Max(now, SaturatingNext(entries[email].updatedAt));
      }
      entries := entries[email := ProxyAssignment(proxyUrl, ts)];
    }

    /** Below the limit this is the lattice merge of the fresh entries. At the limit the oldest
        entry makes room for a newer one. Keys come in an arbitrary order. */
    method MergeLww(remote: Assignments, now: int) returns (updated: nat)
      modifies this
      ensures BoundedMerge(old(entries), Fresh(remote, now), entries)
      ensures |old(entries).Keys + Fresh(remote, now).Keys| <= MAX_PROXY_ENTRIES ==>
        && entries == Merge(old(entries), Fresh(remote, now), ProxyWins)
        && updated == |Accepted(old(entries), Fresh(remote, now), ProxyWins)|
    {
      hide Merge, Accepted, Only, Split, ProxyWins, BoundedMerge, StrictTotal;
      updated := 0;
      var maxAllowed := SaturatingAdd(now, CLOCK_SKEW);
      ghost var local, offered, done := entries, Fresh(remote, now), {};
      ghost var roomy := |local.Keys + offered.Keys| <= MAX_PROXY_ENTRIES;
      var pending := remote.Keys;
      MergeEnds(local, offered, ProxyWins);
      NothingDone(remote.Keys);
      BoundedStart(local);
      OnlyNone(offered);
      assert forall k | k in remote ::
        (k in offered <==> remote[k].updatedAt <= maxAllowed) && (k in offered ==> offered[k] == remote[k]);
      hide Fresh, Crowded, Limit;
      while pending != {}
        invariant Split(remote.Keys, pending, done)
        invariant BoundedMerge(local, Only(offered, done), entries)
        invariant roomy ==> updated == |Accepted(local, Only(offered, done), ProxyWins)|
        decreases pending
      {
        var key :| key in pending;
        KeyDone(remote.Keys, pending, done, key);
        pending := pending - {key};
        ghost var before := done;
        done := done + {key};
        var entry := remote[key];
        if entry.updatedAt > maxAllowed {
          OnlyOutside(offered, before, key);
          continue;
        }
        MergeStep(local, offered, before, key, ProxyWins);
        OnlyStep(offered, before, key);
        if roomy {
          PartialUnion(local, offered, before);
          BoundedIsMerge(local, Only(offered, before), entries);
        }
        if key !in entries && |entries| >= MAX_PROXY_ENTRIES {
          OldestExists(entries);
          var oldest :| Oldest(entries, oldest);
          if roomy {
            FullHasNoRoom(local, offered, before, entries, key);
            assert false;
          }
          if entry.updatedAt <= entries[oldest].updatedAt {
            BoundedSkip(local, Only(offered, before), entries, key, entry);
            continue;
          }
          BoundedEvict(local, Only(offered, before), entries, oldest, key, entry);
          entries := entries - {oldest};
          entries := entries[key := entry];
          updated := updated + 1;
        } else if key !in entries || ProxyWins(entry, entries[key]) {
          BoundedInsert(local, Only(offered, before), entries, key, entry);
          entries := entries[key := entry];
          updated := updated + 1;
        } else {
          BoundedSkip(local, Only(offered, before), entries, key, entry);
        }
      }
      AllDone(remote.Keys, done);
      OnlyAll(offered, done);
      if roomy {
        BoundedIsMerge(local, offered, entries);
      }
    }

    /** Remote URLs that do not validate are dropped before the merge; removals always pass. */
    method MergeRemote(remote: Assignments, isValid: string -> bool, now: int) returns (updated: nat)
      modifies this
      ensures var offered := Fresh(Filtered(remote, isValid), now);
        && BoundedMerge(old(entries), offered, entries)
        && (|old(entries).Keys + offered.Keys| <= MAX_PROXY_ENTRIES ==>
              && entries == Merge(old(entries), offered, ProxyWins)
              && updated == |Accepted(old(entries), offered, ProxyWins)|)
      ensures forall k | k in entries && entries[k].proxyUrl.Some? && !isValid(entries[k].proxyUrl.value) ::
        k in old(entries) && entries[k] == old(entries)[k]
    {
      hide BoundedMerge, Merge, Accepted;
      ghost var local := entries;
      updated := MergeLww(Filtered(remote, isValid), now);
      forall k | k in entries && entries[k].proxyUrl.Some? && !isValid(entries[k].proxyUrl.value)
        ensures k in local && entries[k] == local[k]
      {
        InvalidWasHeld(local, remote, isValid, now, entries, k);
      }
    }

    /** The pulling side of a round: the difference to the valid part of the snapshot, taken before
        that part is merged. */
    method SyncProxyWithRemote(remote: Assignments, isValid: string -> bool, now: int)
      returns (inbound: nat, diff: Assignments)
      modifies this
      ensures var filtered := Filtered(remote, isValid);
        diff == Diff(old(entries), filtered, ProxyWins) && BoundedMerge(old(entries), Fresh(filtered, now), entries)
    {
      hide BoundedMerge;
      var filtered := Filtered(remote, isValid);
      diff := map k | k in entries && (k !in filtered || ProxyWins(entries[k], filtered[k])) :: entries[k];
      assert diff == Diff(entries, filtered, ProxyWins);
      inbound := MergeLww(filtered, now);
    }

    /** Accounts with a proxy get an entry unless they have one. */
    method Hydrate(accounts: seq<(string, Option<string>)>, now: int)
      modifies this
      ensures entries == Hydrated(old(entries), accounts, now)
    {
      for n := 0 to |accounts|
        invariant Hydrated(entries, accounts[n..], now) == Hydrated(old(entries), accounts, now)
      {
        assert accounts[n..][1..] == accounts[n + 1..];
        var (email, url) := accounts[n];
        if url.Some? && email !in entries {
          entries := entries[email := ProxyAssignment(url, now)];
        }
      }
    }
  }

  lemma OnlyNone(offered: Assignments)
    ensures Only(offered, {}) == map[]
  {}

  lemma FullHasNoRoom(local: Assignments, offered: Assignments, done: set<string>, m: Assignments, key: string)
    requires m == Merge(local, Only(offered, done), ProxyWins) && key in offered && key !in m
    requires |local.Keys + offered.Keys| <= MAX_PROXY_ENTRIES
    ensures |m| < MAX_PROXY_ENTRIES
  {
    assert m.Keys < local.Keys + offered.Keys;
    SubsetSize(m.Keys, local.Keys + offered.Keys);
    assert |m| == |m.Keys|;
  }

  lemma InvalidWasHeld(local: Assignments, remote: Assignments, isValid: string -> bool, now: int, m: Assignments,
                       k: string)
    requires BoundedMerge(local, Fresh(Filtered(remote, isValid), now), m)
    requires k in m && m[k].proxyUrl.Some? && !isValid(m[k].proxyUrl.value)
    ensures k in local && m[k] == local[k]
  {
    assert BoundedAt(local, Fresh(Filtered(remote, isValid), now), m, k);
  }

  lemma OnlyOutside(offered: Assignments, done: set<string>, key: string)
    requires key !in offered
    ensures Only(offered, done + {key}) == Only(offered, done)
  {}

  lemma OnlyAll(offered: Assignments, keys: set<string>)
    requires offered.Keys <= keys
    ensures Only(offered, keys) == offered
  {}

  function Filtered(remote: Assignments, isValid: string -> bool): Assignments {
    map k | k in remote && (remote[k].proxyUrl.Some? ==> isValid(remote[k].proxyUrl.value)) :: remote[k]
  }

  function Hydrated(entries: Assignments, accounts: seq<(string, Option<string>)>, now: int): Assignments
    decreases |accounts|
  {
    if accounts == [] then entries
    else
      var (email, url) := accounts[0];
      Hydrated(if url.Some? && email !in entries then entries[email := ProxyAssignment(url, now)] else entries,
        accounts[1..], now)
  }

  /** Neither invalid nor too far ahead for a server whose clock shows `now`. */
  predicate Welcome(e: ProxyAssignment, isValid: string -> bool, now: int) {
    && (e.proxyUrl.Some? ==> isValid(e.proxyUrl.value))
    && (e.updatedAt <= now + 24 * 60 * 60 * 1000 && e.updatedAt <= I64_MAX)
  }

  function LocalWritten(entries: Assignments, email: string, proxyUrl: Option<string>, now: int): Assignments {
    var held := if email in entries then Some(entries[email].updatedAt) else None;
    entries[email := ProxyAssignment(proxyUrl, WriteStamp(held, now))]
  }

  lemma {:induction false} HydrateKeeps(entries: Assignments, accounts: seq<(string, Option<string>)>, now: int,
                                        email: string)
    requires email in entries
    ensures email in Hydrated(entries, accounts, now) && Hydrated(entries, accounts, now)[email] == entries[email]
    decreases |accounts|
  {
    if accounts != [] {
      var (e, url) := accounts[0];
      HydrateKeeps(if url.Some? && e !in entries then entries[e := ProxyAssignment(url, now)] else entries,
        accounts[1..], now, email);
    }
  }

  /** Hydration adds exactly the accounts with a proxy that have no entry yet, stamped now. */
  lemma {:induction false} HydrateAdds(entries: Assignments, accounts: seq<(string, Option<string>)>, now: int,
                                       email: string)
    requires email !in entries
    ensures var h := Hydrated(entries, accounts, now);
      && (email in h <==> exists i | 0 <= i < |accounts| :: accounts[i].0 == email && accounts[i].1.Some?)
      && (email in h ==> h[email].updatedAt == now && h[email].proxyUrl.Some? && (email, h[email].proxyUrl) in accounts)
    decreases |accounts|
  {
    if accounts != [] {
      var (e, url) := accounts[0];
      var rest := accounts[1..];
      assert accounts == [accounts[0]] + rest;
      assert (exists i | 0 <= i < |accounts| :: accounts[i].0 == email && accounts[i].1.Some?) <==>
        (e == email && url.Some?) || exists i | 0 <= i < |rest| :: rest[i].0 == email && rest[i].1.Some? by
      {
        if i :| 0 <= i < |rest| && rest[i].0 == email && rest[i].1.Some? {
          assert accounts[i + 1] == rest[i];
        }
        if i :| 0 < i < |accounts| && accounts[i].0 == email && accounts[i].1.Some? {
          assert rest[i - 1] == accounts[i];
        }
      }
      if e == email && url.Some? {
        HydrateKeeps(entries[e := ProxyAssignment(url, now)], rest, now, email);
      } else {
        HydrateAdds(if url.Some? && e !in entries then entries[e := ProxyAssignment(url, now)] else entries,
          rest, now, email);
      }
    }
  }

  // ---------- Runs of one replica ----------

  /** A merge is any bounded merge; `merged` is what it left. */
  datatype Event =
    | LocalWrite(email: string, proxyUrl: Option<string>, now: int)
    | MergeIn(remote: Assignments, now: int, merged: Assignments)
    | HydrateFrom(accounts: seq<(string, Option<string>)>, now: int)

  function After(entries: Assignments, e: Event): Assignments {
    match e
    case LocalWrite(email, url, now) => LocalWritten(entries, email, url, now)
    case MergeIn(_, _, merged) => merged
    case HydrateFrom(accounts, now) => Hydrated(entries, accounts, now)
  }

  function AfterAll(entries: Assignments, events: seq<Event>): Assignments
    decreases |events|
  {
    if events == [] then entries else After(AfterAll(entries, events[..|events| - 1]), events[|events| - 1])
  }

  /** Timestamps are i64 values. */
  ghost predicate StampsFit(entries: Assignments) {
    forall k | k in entries :: entries[k].updatedAt <= I64_MAX
  }

  ghost predicate Happens(entries: Assignments, e: Event) {
    e.MergeIn? ==> BoundedMerge(entries, Fresh(e.remote, e.now), e.merged)
  }

  ghost predicate IsRun(entries: Assignments, events: seq<Event>)
    decreases |events|
  {
    && StampsFit(AfterAll(entries, events))
    && (events != [] ==>
          var front := events[..|events| - 1];
          IsRun(entries, front) && Happens(AfterAll(entries, front), events[|events| - 1]))
  }

  predicate Offers(e: Event, email: string, x: ProxyAssignment) {
    e.MergeIn? && email in Fresh(e.remote, e.now) && e.remote[email] == x
  }

  predicate Holds(entries: Assignments, email: string, x: ProxyAssignment) {
    email in entries && entries[email] == x
  }

  /** `x` was held for the email at some moment, or offered by a merge and not refused as too far ahead. */
  ghost predicate Seen(entries: Assignments, events: seq<Event>, email: string, x: ProxyAssignment)
    decreases |events|
  {
    || Holds(AfterAll(entries, events), email, x)
    || (events != [] &&
        (Offers(events[|events| - 1], email, x) || Seen(entries, events[..|events| - 1], email, x)))
  }

  predicate Covers(entries: Assignments, email: string, x: ProxyAssignment) {
    email in entries && !ProxyWins(x, entries[email])
  }

  /** A local write over the last representable timestamp, which it can only repeat, loses the tie. */
  predicate LosesTie(entries: Assignments, e: Event, email: string) {
    && e.LocalWrite? && e.email == email && email in entries && entries[email].updatedAt == I64_MAX
    && ProxyWins(entries[email], ProxyAssignment(e.proxyUrl, I64_MAX))
  }

  /** The two ways to lose ground: such a tie, or a full map that evicts or refuses the email's entry. */
  predicate Loses(entries: Assignments, e: Event, email: string) {
    || LosesTie(entries, e, email)
    || (e.MergeIn? && (email in entries || email in Fresh(e.remote, e.now)) && email !in e.merged)
  }

  /** Both can be seen coming, from what is held and what is offered. */
  predicate AtRisk(entries: Assignments, e: Event, email: string) {
    || LosesTie(entries, e, email)
    || (e.MergeIn? && Outnumbered(entries, Fresh(e.remote, e.now), email))
  }

  ghost predicate NeverLoses(entries: Assignments, events: seq<Event>, email: string)
    decreases |events|
  {
    events == [] ||
    (&& NeverLoses(entries, events[..|events| - 1], email)
     && !Loses(AfterAll(entries, events[..|events| - 1]), events[|events| - 1], email))
  }

  ghost predicate NeverAtRisk(entries: Assignments, events: seq<Event>, email: string)
    decreases |events|
  {
    events == [] ||
    (&& NeverAtRisk(entries, events[..|events| - 1], email)
     && !AtRisk(AfterAll(entries, events[..|events| - 1]), events[|events| - 1], email))
  }

  /** At every moment of the run, nothing seen so far beats what is held. */
  ghost predicate AlwaysCovers(entries: Assignments, events: seq<Event>, email: string)
    decreases |events|
  {
    && (forall x | Seen(entries, events, email, x) :: Covers(AfterAll(entries, events), email, x))
    && (events != [] ==> AlwaysCovers(entries, events[..|events| - 1], email))
  }

  /** An event that does not lose keeps the held entry or replaces it by one that beats it, and takes a
      winning offer. */
  lemma EventGains(entries: Assignments, e: Event, email: string)
    requires StampsFit(entries) && StampsFit(After(entries, e)) && Happens(entries, e) && !Loses(entries, e, email)
    ensures email in entries ==>
      && email in After(entries, e)
      && (After(entries, e)[email] == entries[email] || ProxyWins(After(entries, e)[email], entries[email]))
    ensures forall x | Offers(e, email, x) :: Covers(After(entries, e), email, x)
  {
    match e
    case LocalWrite(written, url, now) =>
      if written == email && email in entries && entries[email].updatedAt == I64_MAX {
        assert After(entries, e)[email] == ProxyAssignment(url, I64_MAX);
        ProxyWinsStrictTotal();
        OneOfThree(entries[email], ProxyAssignment(url, I64_MAX));
      }
    case MergeIn(remote, now, merged) =>
      assert BoundedAt(entries, Fresh(remote, now), merged, email);
    case HydrateFrom(accounts, now) =>
      if email in entries {
        HydrateKeeps(entries, accounts, now, email);
      }
  }

  lemma LosingUncovers(entries: Assignments, e: Event, email: string) returns (x: ProxyAssignment)
    requires Happens(entries, e) && StampsFit(After(entries, e)) && Loses(entries, e, email)
    ensures Holds(entries, email, x) || Offers(e, email, x)
    ensures !Covers(After(entries, e), email, x)
  {
    x := if email in entries then entries[email] else e.remote[email];
    if e.LocalWrite? {
      assert After(entries, e)[email] == ProxyAssignment(e.proxyUrl, I64_MAX);
    }
  }

  /** Over any run, evictions included: what the replica holds for an email covers everything it has
      seen, throughout, exactly when no event loses. */
  lemma {:induction false} HeldIsBest(entries: Assignments, events: seq<Event>, email: string)
    requires IsRun(entries, events)
    ensures AlwaysCovers(entries, events, email) <==> NeverLoses(entries, events, email)
    decreases |events|
  {
    ProxyWinsStrictTotal();
    if events != [] {
      var front, e := events[..|events| - 1], events[|events| - 1];
      var before, after := AfterAll(entries, front), AfterAll(entries, events);
      HeldIsBest(entries, front, email);
      hide BoundedMerge, ProxyWins, Fresh, Loses, Hydrated;
      if NeverLoses(entries, front, email) {
        if Loses(before, e, email) {
          var x := LosingUncovers(before, e, email);
          assert Seen(entries, front, email, x) || Offers(e, email, x);
          assert Seen(entries, events, email, x);
        } else {
          EventGains(before, e, email);
          forall x | Seen(entries, events, email, x) ensures Covers(after, email, x) {
            if Seen(entries, front, email, x) {
              NotBeatenTransitive(x, before[email], after[email], ProxyWins);
            }
          }
        }
      }
    }
  }

  /** The same write, merge or hydration, whatever the merge evicts. */
  predicate SameInput(e: Event, f: Event) {
    if e.MergeIn? then f.MergeIn? && f.remote == e.remote && f.now == e.now else f == e
  }

  /** The same inputs, perhaps fewer of them. */
  predicate Alike(events: seq<Event>, others: seq<Event>) {
    |others| <= |events| && forall i | 0 <= i < |others| :: SameInput(events[i], others[i])
  }

  /** An event is sure not to lose exactly when it is not at risk. */
  lemma SafeIff(entries: Assignments, e: Event, email: string)
    ensures (forall f | SameInput(e, f) && Happens(entries, f) :: !Loses(entries, f, email)) <==>
      !AtRisk(entries, e, email)
  {
    hide BoundedMerge, Outnumbered, ProxyWins, Fresh;
    if AtRisk(entries, e, email) {
      var f := Unlucky(entries, e, email);
      assert SameInput(e, f) && Happens(entries, f) && Loses(entries, f, email);
    } else {
      forall f | SameInput(e, f) && Happens(entries, f) ensures !Loses(entries, f, email) {
        NotAtRiskKeeps(entries, f, email);
      }
    }
  }

  lemma NotAtRiskKeeps(entries: Assignments, e: Event, email: string)
    requires Happens(entries, e) && !AtRisk(entries, e, email)
    ensures !Loses(entries, e, email)
  {
    if e.MergeIn? && (email in entries || email in Fresh(e.remote, e.now)) {
      KeptOtherwise(entries, Fresh(e.remote, e.now), e.merged, email);
    }
  }

  /** With the same inputs, an event at risk can lose. */
  lemma Unlucky(entries: Assignments, e: Event, email: string) returns (f: Event)
    requires AtRisk(entries, e, email)
    ensures SameInput(e, f) && Happens(entries, f) && Loses(entries, f, email)
  {
    f := e;
    if e.MergeIn? {
      var m := LostWhenOutnumbered(entries, Fresh(e.remote, e.now), email);
      f := e.(merged := m);
      MergeKeys(entries, Fresh(e.remote, e.now));
    }
  }

  lemma {:induction false} SafeRunKeeps(entries: Assignments, events: seq<Event>, email: string)
    requires IsRun(entries, events) && NeverAtRisk(entries, events, email)
    ensures NeverLoses(entries, events, email)
    decreases |events|
  {
    hide AtRisk, Loses, Happens;
    if events != [] {
      SafeRunKeeps(entries, events[..|events| - 1], email);
      NotAtRiskKeeps(AfterAll(entries, events[..|events| - 1]), events[|events| - 1], email);
    }
  }

  lemma {:induction false} RiskyRunLoses(entries: Assignments, events: seq<Event>, email: string)
    returns (unlucky: seq<Event>)
    requires IsRun(entries, events) && !NeverAtRisk(entries, events, email)
    ensures IsRun(entries, unlucky) && Alike(events, unlucky) && !NeverLoses(entries, unlucky, email)
    decreases |events|
  {
    hide AtRisk, Loses, Happens, SameInput, NeverLoses, BoundedMerge, After, StampsFit;
    var front, e := events[..|events| - 1], events[|events| - 1];
    if !NeverAtRisk(entries, front, email) {
      unlucky := RiskyRunLoses(entries, front, email);
    } else {
      var before := AfterAll(entries, front);
      var f := Unlucky(before, e, email);
      StampsStayFit(before, e, f);
      unlucky := front + [f];
      LosingEnd(entries, front, f, email);
      forall i | 0 <= i < |front| ensures SameInput(events[i], unlucky[i]) {
        SameAsItself(events[i]);
      }
    }
  }

  lemma LosingEnd(entries: Assignments, front: seq<Event>, f: Event, email: string)
    requires var before := AfterAll(entries, front);
      IsRun(entries, front) && Happens(before, f) && StampsFit(After(before, f)) && Loses(before, f, email)
    ensures IsRun(entries, front + [f]) && !NeverLoses(entries, front + [f], email)
  {
    hide Loses, Happens, StampsFit, After;
    var events := front + [f];
    assert events[..|events| - 1] == front && events[|events| - 1] == f;
  }

  lemma SameAsItself(e: Event)
    ensures SameInput(e, e)
  {}

  lemma StampsStayFit(entries: Assignments, e: Event, f: Event)
    requires StampsFit(entries) && StampsFit(After(entries, e)) && SameInput(e, f) && Happens(entries, f)
    ensures StampsFit(After(entries, f))
  {
    if f.MergeIn? {
      forall k | k in f.merged ensures f.merged[k].updatedAt <= I64_MAX {
        assert BoundedAt(entries, Fresh(f.remote, f.now), f.merged, k);
      }
    }
  }

  /** Over every run on given inputs, cut short or not: what the replica holds always covers all it has
      seen, whichever entries the merges evict, exactly when no event of such a run is at risk. */
  lemma RunsHoldBest(entries: Assignments, events: seq<Event>, email: string)
    ensures
      (forall r | Alike(events, r) && IsRun(entries, r) :: AlwaysCovers(entries, r, email)) <==>
      (forall r | Alike(events, r) && IsRun(entries, r) :: NeverAtRisk(entries, r, email))
  {
    hide IsRun, AlwaysCovers, NeverAtRisk, NeverLoses, SameInput;
    forall r | Alike(events, r) && IsRun(entries, r)
      ensures NeverAtRisk(entries, r, email) ==> AlwaysCovers(entries, r, email)
    {
      HeldIsBest(entries, r, email);
      if NeverAtRisk(entries, r, email) {
        SafeRunKeeps(entries, r, email);
      }
    }
    if r :| Alike(events, r) && IsRun(entries, r) && !NeverAtRisk(entries, r, email) {
      var unlucky := RiskyRunLoses(entries, r, email);
      HeldIsBest(entries, unlucky, email);
      forall i | 0 <= i < |unlucky| ensures SameInput(events[i], unlucky[i]) {
        SameInputTransitive(events[i], r[i], unlucky[i]);
      }
      assert Alike(events, unlucky);
    }
  }

  lemma SameInputTransitive(e: Event, f: Event, g: Event)
    requires SameInput(e, f) && SameInput(f, g)
    ensures SameInput(e, g)
  {}

  /** A local write is stamped after `x` by every clock exactly when something at least as late is held,
      and `x` does not have the last timestamp. */
  lemma WriteBeatsIff(entries: Assignments, email: string, url: Option<string>, x: ProxyAssignment)
    requires StampsFit(entries) && x.updatedAt <= I64_MAX
    ensures
      (forall now | now <= I64_MAX :: LocalWritten(entries, email, url, now)[email].updatedAt > x.updatedAt) <==>
      email in entries && x.updatedAt <= entries[email].updatedAt && x.updatedAt < I64_MAX
  {
    var early := LocalWritten(entries, email, url, x.updatedAt - 1)[email].updatedAt;
    assert x.updatedAt == I64_MAX ==> early <= I64_MAX;
  }

  /** So after any run in which no event loses, a local write is stamped after everything seen, whatever
      the clock says; a replica that holds something seen takes the write exactly when its URL passes
      there and it is not too far ahead of the clock there, and changes nothing else. */
  lemma LocalWriteBeatsSeen(entries: Assignments, events: seq<Event>, email: string, url: Option<string>, now: int,
                            x: ProxyAssignment, replica: Assignments, isValid: string -> bool, now': int,
                            merged: Assignments)
    requires IsRun(entries, events) && NeverLoses(entries, events, email) && Seen(entries, events, email, x)
    requires now <= I64_MAX
    ensures var end := AfterAll(entries, events);
      var w := LocalWritten(end, email, url, now)[email];
      && email in end
      && w.proxyUrl == url && (w.updatedAt > x.updatedAt <==> x.updatedAt < I64_MAX)
      && (x.updatedAt < I64_MAX && Holds(replica, email, x)
          && BoundedMerge(replica, Fresh(Filtered(map[email := w], isValid), now'), merged) ==>
            merged == if Welcome(w, isValid, now') then replica[email := w] else replica)
  {
    SeenIsCovered(entries, events, email, x);
    hide AfterAll, IsRun, NeverLoses, Seen, StampsFit, BoundedMerge, Fresh, Filtered, Welcome, Holds, ProxyWins;
    var w := LocalWritten(AfterAll(entries, events), email, url, now)[email];
    hide LocalWritten;
    if w.updatedAt > x.updatedAt && Holds(replica, email, x)
      && BoundedMerge(replica, Fresh(Filtered(map[email := w], isValid), now'), merged) {
      ReplicaTakes(w, x, replica, email, isValid, now', merged);
    }
  }

  lemma ReplicaTakes(w: ProxyAssignment, x: ProxyAssignment, replica: Assignments, email: string,
                     isValid: string -> bool, now: int, merged: Assignments)
    requires w.updatedAt > x.updatedAt && Holds(replica, email, x)
    requires BoundedMerge(replica, Fresh(Filtered(map[email := w], isValid), now), merged)
    ensures merged == if Welcome(w, isValid, now) then replica[email := w] else replica
  {
    hide BoundedMerge, Fresh, Filtered, Welcome;
    OneOffer(email, w, isValid, now);
    TakesWinner(replica, email, Fresh(Filtered(map[email := w], isValid), now), merged);
  }

  lemma SeenIsCovered(entries: Assignments, events: seq<Event>, email: string, x: ProxyAssignment)
    requires IsRun(entries, events) && NeverLoses(entries, events, email) && Seen(entries, events, email, x)
    ensures var end := AfterAll(entries, events);
      StampsFit(end) && email in end && x.updatedAt <= end[email].updatedAt
  {
    HeldIsBest(entries, events, email);
    hide NeverLoses, Seen;
    assert Covers(AfterAll(entries, events), email, x);
  }

  lemma OneOffer(email: string, w: ProxyAssignment, isValid: string -> bool, now: int)
    ensures Fresh(Filtered(map[email := w], isValid), now) ==
      if Welcome(w, isValid, now) then map[email := w] else map[]
  {}

  lemma TakesWinner(replica: Assignments, email: string, offered: Assignments, merged: Assignments)
    requires BoundedMerge(replica, offered, merged) && email in replica && offered.Keys <= {email}
    requires email in offered ==> ProxyWins(offered[email], replica[email])
    ensures merged == replica + offered
  {
    forall k ensures (k in merged ==> k in replica)
                     && (k in merged ==> merged[k] == if k in offered then offered[k] else replica[k]) {
      assert BoundedAt(replica, offered, merged, k);
      if k in offered {
        OneOfThree(offered[k], replica[k]);
      }
    }
    assert |merged.Keys| == |merged| && |replica.Keys| == |replica|;
    SubsetSize(merged.Keys, replica.Keys);
  }

  // ---------- What an eviction forgets ----------

  function Name(n: nat): string {
    if n == 0 then "" else Name(n - 1) + "a"
  }

  /** `n` emails, all assigned at time 1000. */
  function Crowd(n: nat): Assignments {
    if n == 0 then map[] else Crowd(n - 1)[Name(n) := ProxyAssignment(None, 1000)]
  }

  lemma {:induction false} CrowdMeaning(n: nat)
    ensures |Name(n)| == n && (forall i | 0 <= i < n :: Name(n)[i] == 'a')
    ensures |Crowd(n)| == n
    ensures forall k | k in Crowd(n) :: |k| <= n && k != "v" && k != "w" && Crowd(n)[k] == ProxyAssignment(None, 1000)
  {
    if n > 0 {
      CrowdMeaning(n - 1);
      var name, fewer := Name(n), Crowd(n - 1);
      assert name == Name(n - 1) + "a";
      assert name[0] == 'a' && "v"[0] != 'a' && "w"[0] != 'a';
      assert Crowd(n) == fewer[name := ProxyAssignment(None, 1000)];
      hide *;
      assert name !in fewer;
      OneMore(fewer, name, ProxyAssignment(None, 1000));
    }
  }

  lemma OneMore(m: Assignments, k: string, e: ProxyAssignment)
    requires k !in m
    ensures |m[k := e]| == |m| + 1
  {
    assert m[k := e].Keys == m.Keys + {k} && |m.Keys| == |m| && |m[k := e].Keys| == |m[k := e]|;
  }

  /** In a full map one newer offer evicts the oldest entry; a local write for its email under a clock
      set back is then stamped before what the replica had held. */
  lemma EvictedThenWritten(local: Assignments, oldest: string, key: string, e: ProxyAssignment, url: Option<string>,
                           now: int)
    requires |local| == MAX_PROXY_ENTRIES && Oldest(local, oldest) && StampsFit(local) && key !in local
    requires local[oldest].updatedAt < e.updatedAt <= I64_MAX && now < local[oldest].updatedAt
    ensures var events := [MergeIn(map[key := e], e.updatedAt, (local - {oldest})[key := e])];
      && IsRun(local, events) && Seen(local, events, oldest, local[oldest])
      && LocalWritten(AfterAll(local, events), oldest, url, now)[oldest].updatedAt < local[oldest].updatedAt
  {
    hide BoundedMerge;
    var event := MergeIn(map[key := e], e.updatedAt, (local - {oldest})[key := e]);
    assert Fresh(event.remote, event.now) == map[key := e] == map[][key := e];
    BoundedStart(local);
    BoundedEvict(local, map[], local, oldest, key, e);
    assert oldest in local;
    assert [event][..0] == [];
    assert AfterAll(local, []) == local && AfterAll(local, [event]) == event.merged;
    assert IsRun(local, []) && Seen(local, [], oldest, local[oldest]);
  }

  /** A map of 10 000 entries where that happens. */
  lemma EvictionForgets(url: Option<string>)
    ensures var local := Crowd(MAX_PROXY_ENTRIES - 1)["v" := ProxyAssignment(None, 500)];
      var e := ProxyAssignment(None, 1000);
      var events := [MergeIn(map["w" := e], 1000, (local - {"v"})["w" := e])];
      && IsRun(local, events) && Seen(local, events, "v", ProxyAssignment(None, 500))
      && LocalWritten(AfterAll(local, events), "v", url, 1)["v"].updatedAt < 500
  {
    CrowdMeaning(MAX_PROXY_ENTRIES - 1);
    var crowd := Crowd(MAX_PROXY_ENTRIES - 1);
    hide *;
    var local := crowd["v" := ProxyAssignment(None, 500)];
    FullCrowd(crowd, local);
    EvictedThenWritten(local, "v", "w", ProxyAssignment(None, 1000), url, 1);
  }

  lemma FullCrowd(crowd: Assignments, local: Assignments)
    requires |crowd| == MAX_PROXY_ENTRIES - 1 && local == crowd["v" := ProxyAssignment(None, 500)]
    requires forall k | k in crowd :: k != "v" && k != "w" && crowd[k] == ProxyAssignment(None, 1000)
    ensures |local| == MAX_PROXY_ENTRIES && Oldest(local, "v") && StampsFit(local) && "w" !in local
  {
    assert local.Keys == crowd.Keys + {"v"} && |local| == |local.Keys| && |crowd| == |crowd.Keys|;
  }

  // ---------- One round between two servers ----------

  function RoundPuller(a: Assignments, b: Assignments, isValid: string -> bool, now: int): Assignments {
    Merge(a, Fresh(Filtered(b, isValid), now), ProxyWins)
  }

  function RoundPeer(a: Assignments, b: Assignments, isValid: string -> bool, now: int): Assignments {
    Merge(b, Fresh(Filtered(Diff(a, Filtered(b, isValid), ProxyWins), isValid), now), ProxyWins)
  }

  /** One side has to give way under the key, and the winning entry is not welcome there. */
  predicate Refused(a: Assignments, b: Assignments, isValid: string -> bool, now: int, k: string) {
    k in b && (k !in a || ProxyWins(b[k], a[k])) && !Welcome(b[k], isValid, now)
  }

  predicate SameEntry(a: Assignments, b: Assignments, k: string) {
    (k in a <==> k in b) && (k in a ==> a[k] == b[k])
  }

  predicate Taken(a: Assignments, b: Assignments, isValid: string -> bool, now: int, k: string) {
    k in b && (k !in a || ProxyWins(b[k], a[k])) && Welcome(b[k], isValid, now)
  }

  lemma PullerAt(a: Assignments, b: Assignments, isValid: string -> bool, now: int, k: string)
    ensures var p := RoundPuller(a, b, isValid, now);
      if Taken(a, b, isValid, now, k) then Holds(p, k, b[k]) else SameEntry(p, a, k)
  {}

  lemma PeerAt(a: Assignments, b: Assignments, isValid: string -> bool, now: int, k: string)
    ensures var p := RoundPeer(a, b, isValid, now);
      if Taken(b, a, isValid, now, k) then Holds(p, k, a[k]) else SameEntry(p, b, k)
  {
    hide ProxyWins;
  }

  /** After a pull-and-push round two servers below the limit agree on an email exactly when neither
      refuses the other's winning entry. */
  lemma ProxyRoundAgrees(a: Assignments, b: Assignments, isValid: string -> bool, now: int, now': int, k: string)
    ensures SameEntry(RoundPuller(a, b, isValid, now), RoundPeer(a, b, isValid, now'), k) <==>
      !Refused(a, b, isValid, now, k) && !Refused(b, a, isValid, now', k)
  {
    PullerAt(a, b, isValid, now, k);
    PeerAt(a, b, isValid, now', k);
    if k in a && k in b {
      OneOfThree(a[k], b[k]);
      OneOfThree(a[k], a[k]);
    }
    hide ProxyWins, RoundPuller, RoundPeer, Welcome;
  }

  /** So the round makes the two maps equal exactly when nothing is refused; the bounded merges of the
      two servers are these merges when each has room. */
  lemma ProxyRoundConverges(a: Assignments, b: Assignments, isValid: string -> bool, now: int, now': int,
                            puller: Assignments, peer: Assignments)
    requires var offered := Fresh(Filtered(b, isValid), now);
      BoundedMerge(a, offered, puller) && |a.Keys + offered.Keys| <= MAX_PROXY_ENTRIES
    requires var offered := Fresh(Filtered(Diff(a, Filtered(b, isValid), ProxyWins), isValid), now');
      BoundedMerge(b, offered, peer) && |b.Keys + offered.Keys| <= MAX_PROXY_ENTRIES
    ensures puller == peer <==> forall k :: !Refused(a, b, isValid, now, k) && !Refused(b, a, isValid, now', k)
  {
    hide *;
    PullerHasRoom(a, b, isValid, now, puller);
    PeerHasRoom(a, b, isValid, now', peer);
    SameEverywhere(puller, peer);
    forall k
      ensures SameEntry(puller, peer, k) <==> !Refused(a, b, isValid, now, k) && !Refused(b, a, isValid, now', k)
    {
      ProxyRoundAgrees(a, b, isValid, now, now', k);
    }
  }

  lemma PullerHasRoom(a: Assignments, b: Assignments, isValid: string -> bool, now: int, puller: Assignments)
    requires var offered := Fresh(Filtered(b, isValid), now);
      BoundedMerge(a, offered, puller) && |a.Keys + offered.Keys| <= MAX_PROXY_ENTRIES
    ensures puller == RoundPuller(a, b, isValid, now)
  {
    hide BoundedMerge, Merge, Fresh, Filtered;
    BoundedIsMerge(a, Fresh(Filtered(b, isValid), now), puller);
  }

  lemma PeerHasRoom(a: Assignments, b: Assignments, isValid: string -> bool, now: int, peer: Assignments)
    requires var offered := Fresh(Filtered(Diff(a, Filtered(b, isValid), ProxyWins), isValid), now);
      BoundedMerge(b, offered, peer) && |b.Keys + offered.Keys| <= MAX_PROXY_ENTRIES
    ensures peer == RoundPeer(a, b, isValid, now)
  {
    hide BoundedMerge, Merge, Fresh, Filtered, Diff;
    BoundedIsMerge(b, Fresh(Filtered(Diff(a, Filtered(b, isValid), ProxyWins), isValid), now), peer);
  }

  lemma SameEverywhere(m: Assignments, n: Assignments)
    ensures m == n <==> forall k :: SameEntry(m, n, k)
  {
    if forall k :: SameEntry(m, n, k) {
      forall k ensures (k in m <==> k in n) && (k in m ==> m[k] == n[k]) {
        assert SameEntry(m, n, k);
      }
    }
  }
}
