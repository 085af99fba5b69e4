/** Model-mapping synchronisation: models/sync/mapping.rs and the server's inline merge in
    state/config_sync.rs. */
module MappingSync {
  import opened Wrappers
  import opened Arithmetic
  import opened LwwLattice

  // ---------- The shared entry type ----------

  datatype MappingEntry = MappingEntry(target: string, updatedAt: int, deleted: bool)

  /** Newer wins; on a tie the tombstone; on a further tie the greater target. */
  predicate WinsOver(x: MappingEntry, y: MappingEntry) {
    if x.updatedAt != y.updatedAt then x.updatedAt > y.updatedAt
    else if x.deleted != y.deleted then x.deleted
    else StringLess(y.target, x.target)
  }

  lemma WinsOverStrictTotal()
    ensures StrictTotal(WinsOver)
  {
    forall x: MappingEntry ensures !WinsOver(x, x) {
      StringLessTotal(x.target, x.target);
    }
    forall x: MappingEntry, y: MappingEntry ensures x == y || WinsOver(x, y) || WinsOver(y, x) {
      StringLessTotal(x.target, y.target);
    }
    forall x: MappingEntry, y: MappingEntry, z: MappingEntry | WinsOver(x, y) && WinsOver(y, z) ensures WinsOver(x, z) {
      if x.updatedAt == y.updatedAt == z.updatedAt && x.deleted == y.deleted == z.deleted {
        StringLessTransitive(z.target, y.target, x.target);
      }
    }
  }

  /** The timestamp of a local write: the clock, but past whatever is held. */
  function WriteStamp(held: Option<int>, now: int): int {
    match held
    case None => now
    case Some(t) => Max(now, SaturatingNext(t))
  }

  /** The earliest timestamp that is neither before the clock nor at or before what is held; at the
      end of the i64 range there is none, and the held timestamp is repeated. */
  lemma WriteStampMeaning(held: Option<int>, now: int, t: int)
    requires now <= I64_MAX
    ensures var s := WriteStamp(held, now);
      && s >= now
      && (held.Some? && held.value <= I64_MAX ==> s >= held.value && (s > held.value <==> held.value < I64_MAX))
      && (t >= now && (held.Some? ==> t > held.value) ==> s <= t)
  {}

  function HeldStamp(entries: map<string, MappingEntry>, source: string): Option<int> {
    if source in entries then Some(entries[source].updatedAt) else None
  }

  /** A loop over a set of keys: those to come and those gone through. */
  ghost predicate Split(keys: set<string>, pending: set<string>, done: set<string>) {
    pending !! done && pending + done == keys
  }

  lemma KeyDone(keys: set<string>, pending: set<string>, done: set<string>, key: string)
    requires Split(keys, pending, done) && key in pending
    ensures key in keys && key !in done && Split(keys, pending - {key}, done + {key})
  {}

  lemma NothingDone(keys: set<string>)
    ensures Split(keys, keys, {})
  {}

  lemma AllDone(keys: set<string>, done: set<string>)
    requires Split(keys, {}, done)
    ensures done == keys
  {}

  class SyncableMapping {
    var entries: map<string, MappingEntry>

    constructor ()
      ensures entries == map[]
    {
      entries := map[];
    }

    /** What `get` sees: the target unless deleted. */
    function Get(source: string): Option<string>
      reads this
    {
      if source in entries && !entries[source].deleted then Some(entries[source].target) else None
    }

    method Set(source: string, target: string, now: int)
      modifies this
      ensures var stamp := WriteStamp(HeldStamp(old(entries), source), now);
        entries == old(entries)[source := MappingEntry(target, stamp, false)]
      ensures Get(source) == Some(target)
      ensures source in old(entries) && now <= I64_MAX ==>
        (WinsOver(entries[source], old(entries)[source]) && entries[source].updatedAt > old(entries)[source].updatedAt
         <==> old(entries)[source].updatedAt < I64_MAX)
    {
      var held := if source in entries then Some(entries[source].updatedAt) else None;
      entries := entries[source := MappingEntry(target, WriteStamp(held, now), false)];
    }

    method Remove(source: string, now: int)
      modifies this
      ensures var stamp := WriteStamp(HeldStamp(old(entries), source), now);
        entries == old(entries)[source := MappingEntry("", stamp, true)]
      ensures Get(source) == None
      ensures source in old(entries) && old(entries)[source].updatedAt < I64_MAX ==>
        WinsOver(entries[source], old(entries)[source])
    {
      var held := if source in entries then Some(entries[source].updatedAt) else None;
      entries := entries[source := MappingEntry("", WriteStamp(held, now), true)];
    }

    /** Returns how many remote entries were taken over. */
    method MergeLww(remote: map<string, MappingEntry>) returns (updated: nat)
      modifies this
      ensures entries == Merge(old(entries), remote, WinsOver)
      ensures updated == |Accepted(old(entries), remote, WinsOver)|
    {
      hide Merge, WinsOver, Accepted, Only, Split;
      updated := 0;
      var pending := remote.Keys;
      ghost var local, done := entries, {};
      MergeEnds(local, remote, WinsOver);
      NothingDone(remote.Keys);
      while pending != {}
        invariant Split(remote.Keys, pending, done)
        invariant entries == Merge(local, Only(remote, done), WinsOver)
        invariant updated == |Accepted(local, Only(remote, done), WinsOver)|
        decreases pending
      {
        var key :| key in pending;
        KeyDone(remote.Keys, pending, done, key);
        MergeStep(local, remote, done, key, WinsOver);
        if key !in entries || WinsOver(remote[key], entries[key]) {
          entries := entries[key := remote[key]];
          updated := updated + 1;
        }
        pending, done := pending - {key}, done + {key};
      }
      AllDone(remote.Keys, done);
    }
  }

  /** The library merge needs no condition: any order of any snapshots gives the same entries, and
      one pull-and-push round makes two sides equal and leaves nothing to send. */
  lemma LibraryMergeConverges(local: map<string, MappingEntry>, remotes: seq<map<string, MappingEntry>>,
                              shuffled: seq<map<string, MappingEntry>>, peer: map<string, MappingEntry>)
    requires multiset(remotes) == multiset(shuffled)
    ensures MergeAll(local, remotes, WinsOver) == MergeAll(local, shuffled, WinsOver)
    ensures var pulled := Merge(local, peer, WinsOver);
      && pulled == Merge(peer, Diff(local, peer, WinsOver), WinsOver)
      && Diff(pulled, pulled, WinsOver) == map[]
      && Merge(pulled, peer, WinsOver) == pulled
  {
    WinsOverStrictTotal();
    MergeAllOrderFree(local, remotes, shuffled, WinsOver);
    DeltaRoundConverges(local, peer, WinsOver);
    MergeCommutes(local, peer, WinsOver);
    MergeIdempotent(local, peer, WinsOver);
  }

  /** Under a key that both sides hold, a library merge keeps the newer entry; of two equally old ones the
      deletion; of two alike then, the one whose target comes last. */
  lemma MergedEntry(local: map<string, MappingEntry>, remote: map<string, MappingEntry>, k: string)
    requires k in local && k in remote
    ensures var a, b, m := local[k], remote[k], Merge(local, remote, WinsOver)[k];
      && (m == a || m == b) && m.updatedAt == Max(a.updatedAt, b.updatedAt)
      && (a.updatedAt == b.updatedAt ==> (m.deleted <==> a.deleted || b.deleted))
      && (a.updatedAt == b.updatedAt && a.deleted == b.deleted ==>
            !ComesBefore(m.target, a.target) && !ComesBefore(m.target, b.target))
  {
    StringLessMeaning(local[k].target, remote[k].target);
    StringLessMeaning(remote[k].target, local[k].target);
    StringLessMeaning(local[k].target, local[k].target);
    StringLessMeaning(remote[k].target, remote[k].target);
    StringLessTotal(local[k].target, remote[k].target);
    StringLessTotal(remote[k].target, local[k].target);
    WinsOverStrictTotal();
    hide StringLess, ComesBefore;
  }

  // ---------- The server's replica ----------

  /** `custom_mapping` and `mapping_timestamps`. */
  datatype Replica = Replica(mapping: map<string, string>, stamps: map<string, int>)

  function StampOf(r: Replica, k: string): int {
    if k in r.stamps then r.stamps[k] else 0
  }

  /** The inline test: strictly newer, nothing else. Tombstone flags and targets play no part. */
  predicate Newer(r: Replica, remote: map<string, MappingEntry>, k: string) {
    k in remote && remote[k].updatedAt > StampOf(r, k)
  }

  function NewerEntries(r: Replica, remote: map<string, MappingEntry>): map<string, MappingEntry> {
    map k | k in remote && Newer(r, remote, k) :: remote[k]
  }

  function Targets(entries: map<string, MappingEntry>): map<string, string> {
    map k | k in entries :: entries[k].target
  }

  function Stamps(entries: map<string, MappingEntry>): map<string, int> {
    map k | k in entries :: entries[k].updatedAt
  }

  function MergeInline(r: Replica, remote: map<string, MappingEntry>): Replica {
    var newer := NewerEntries(r, remote);
    Replica(r.mapping + Targets(newer), r.stamps + Stamps(newer))
  }

  function Reloaded(r: Replica, configured: map<string, string>): Replica {
    Replica(configured, r.stamps)
  }

  function MergeInlineAll(r: Replica, remotes: seq<map<string, MappingEntry>>): Replica
    decreases |remotes|
  {
    if remotes == [] then r else MergeInlineAll(MergeInline(r, remotes[0]), remotes[1..])
  }

  /** What `get_syncable_mapping` publishes: an entry without a timestamp is stamped now. */
  function Snapshot(r: Replica, now: int): map<string, MappingEntry> {
    map k | k in r.mapping :: MappingEntry(r.mapping[k], if k in r.stamps then r.stamps[k] else now, false)
  }

  /** What `sync_with_remote` compares with: an entry without a timestamp counts as 0. */
  function LocalEntries(r: Replica): map<string, MappingEntry> {
    map k | k in r.mapping :: MappingEntry(r.mapping[k], StampOf(r, k), false)
  }

  lemma NewerStep(r: Replica, part: map<string, MappingEntry>, key: string, e: MappingEntry)
    requires key !in part
    ensures var before, after := NewerEntries(r, part), NewerEntries(r, part[key := e]);
      && key !in before
      && after == (if e.updatedAt > StampOf(r, key) then before[key := e] else before)
      && (e.updatedAt > StampOf(r, key) ==>
            && Targets(after) == Targets(before)[key := e.target]
            && Stamps(after) == Stamps(before)[key := e.updatedAt])
  {
    var before, after := NewerEntries(r, part), NewerEntries(r, part[key := e]);
    if e.updatedAt > StampOf(r, key) {
      assert after == before[key := e];
    } else {
      assert after == before;
    }
  }

  /** One more key of the inline merging loop. */
  lemma InlineStep(r: Replica, remote: map<string, MappingEntry>, done: set<string>, key: string)
    requires key in remote && key !in done
    ensures var sofar := MergeInline(r, Only(remote, done));
      var next := MergeInline(r, Only(remote, done + {key}));
      && (Newer(r, remote, key) <==> remote[key].updatedAt > if key in sofar.stamps then sofar.stamps[key] else 0)
      && next == (if Newer(r, remote, key)
                  then Replica(sofar.mapping[key := remote[key].target], sofar.stamps[key := remote[key].updatedAt])
                  else sofar)
      && |NewerEntries(r, Only(remote, done + {key}))|
         == |NewerEntries(r, Only(remote, done))| + (if Newer(r, remote, key) then 1 else 0)
  {
    var part, e := Only(remote, done), remote[key];
    OnlyStep(remote, done, key);
    NewerStep(r, part, key, e);
    var before := NewerEntries(r, part);
    assert key !in Stamps(before);
    hide Only, NewerEntries, Targets, Stamps;
    InsertFresh(map[], before, key, e);
    InsertFresh(r.mapping, Targets(before), key, e.target);
    InsertFresh(r.stamps, Stamps(before), key, e.updatedAt);
  }

  lemma InlineEnds(r: Replica, remote: map<string, MappingEntry>)
    ensures Only(remote, remote.Keys) == remote
    ensures MergeInline(r, Only(remote, {})) == r && NewerEntries(r, Only(remote, {})) == map[]
  {
    assert r.mapping + map[] == r.mapping && r.stamps + map[] == r.stamps;
  }

  class MappingState {
    var customMapping: map<string, string>
    var mappingTimestamps: map<string, int>

    constructor (initial: map<string, string>)
      ensures Value() == Replica(initial, map[])
    {
      customMapping, mappingTimestamps := initial, map[];
    }

    ghost function Value(): Replica
      reads this
    {
      Replica(customMapping, mappingTimestamps)
    }

    /** A hot reload puts the configured mapping in place and leaves the timestamps. */
    method HotReload(configured: map<string, string>)
      modifies this
      ensures Value() == Reloaded(old(Value()), configured)
    {
      customMapping := configured;
    }

    method MergeRemoteMapping(remote: map<string, MappingEntry>) returns (updated: nat)
      modifies this
      ensures Value() == MergeInline(old(Value()), remote)
      ensures updated == |NewerEntries(old(Value()), remote)|
    {
      hide MergeInline, NewerEntries, Only, Newer, Split;
      ghost var r, done := Value(), {};
      updated := 0;
      var pending := remote.Keys;
      InlineEnds(r, remote);
      NothingDone(remote.Keys);
      while pending != {}
        invariant Split(remote.Keys, pending, done)
        invariant Value() == MergeInline(r, Only(remote, done))
        invariant updated == |NewerEntries(r, Only(remote, done))|
        decreases pending
      {
        var key :| key in pending;
        KeyDone(remote.Keys, pending, done, key);
        InlineStep(r, remote, done, key);
        var localTs := if key in mappingTimestamps then mappingTimestamps[key] else 0;
        if remote[key].updatedAt > localTs {
          customMapping := customMapping[key := remote[key].target];
          mappingTimestamps := mappingTimestamps[key := remote[key].updatedAt];
          updated := updated + 1;
        }
        pending, done := pending - {key}, done + {key};
      }
      AllDone(remote.Keys, done);
    }

    /** The difference is taken before the merge. */
    method SyncWithRemote(remote: map<string, MappingEntry>) returns (inbound: nat, diff: map<string, MappingEntry>)
      modifies this
      ensures Value() == MergeInline(old(Value()), remote)
      ensures inbound == |NewerEntries(old(Value()), remote)|
      ensures diff == Diff(LocalEntries(old(Value())), remote, WinsOver)
    {
      var local := map k | k in customMapping ::
        MappingEntry(customMapping[k], if k in mappingTimestamps then mappingTimestamps[k] else 0, false);
      assert local == LocalEntries(Value());
      diff := Diff(local, remote, WinsOver);
      inbound := MergeRemoteMapping(remote);
    }
  }

  // ---------- Repeating and reordering inline merges ----------

  ghost predicate AgreeAt(a: Replica, b: Replica, k: string) {
    && (k in a.mapping <==> k in b.mapping) && (k in a.mapping ==> a.mapping[k] == b.mapping[k])
    && (k in a.stamps <==> k in b.stamps) && (k in a.stamps ==> a.stamps[k] == b.stamps[k])
  }

  ghost predicate HoldsAt(m: Replica, k: string, e: MappingEntry) {
    k in m.mapping && k in m.stamps && m.mapping[k] == e.target && m.stamps[k] == e.updatedAt
  }

  /** An inline merge, key by key. */
  lemma InlineAt(r: Replica, remote: map<string, MappingEntry>, k: string)
    ensures if Newer(r, remote, k) then HoldsAt(MergeInline(r, remote), k, remote[k])
            else AgreeAt(MergeInline(r, remote), r, k)
  {
    assert k in NewerEntries(r, remote) <==> Newer(r, remote, k);
  }

  lemma AgreeEverywhere(a: Replica, b: Replica)
    ensures a == b <==> forall k :: AgreeAt(a, b, k)
  {
    if forall k :: AgreeAt(a, b, k) {
      forall k
        ensures (k in a.mapping <==> k in b.mapping) && (k in a.mapping ==> a.mapping[k] == b.mapping[k])
        ensures (k in a.stamps <==> k in b.stamps) && (k in a.stamps ==> a.stamps[k] == b.stamps[k])
      {
        assert AgreeAt(a, b, k);
      }
      assert a.mapping == b.mapping && a.stamps == b.stamps;
    }
  }

  /** A second merge of the same snapshot changes nothing and takes nothing over; timestamps never fall. */
  lemma MergeInlineIdempotent(r: Replica, remote: map<string, MappingEntry>, k: string)
    ensures MergeInline(MergeInline(r, remote), remote) == MergeInline(r, remote)
    ensures NewerEntries(MergeInline(r, remote), remote) == map[]
    ensures StampOf(MergeInline(r, remote), k) >= StampOf(r, k)
  {
    var m := MergeInline(r, remote);
    InlineAt(r, remote, k);
    forall x ensures !Newer(m, remote, x) && AgreeAt(MergeInline(m, remote), m, x) {
      InlineAt(r, remote, x);
      InlineAt(m, remote, x);
    }
    assert NewerEntries(m, remote) == map[];
    AgreeEverywhere(MergeInline(m, remote), m);
  }

  /** Two remotes offer different targets under one key at one timestamp, both newer than the replica. */
  ghost predicate Clash(r: Replica, a: map<string, MappingEntry>, b: map<string, MappingEntry>, k: string) {
    && Newer(r, a, k) && Newer(r, b, k)
    && a[k].updatedAt == b[k].updatedAt && a[k].target != b[k].target
  }

  lemma MergeInlineTwice(r: Replica, a: map<string, MappingEntry>, b: map<string, MappingEntry>, k: string)
    ensures var m := MergeInline(MergeInline(r, a), b);
      if Newer(r, b, k) && (Newer(r, a, k) ==> b[k].updatedAt > a[k].updatedAt) then HoldsAt(m, k, b[k])
      else if Newer(r, a, k) then HoldsAt(m, k, a[k])
      else AgreeAt(m, r, k)
  {
    hide MergeInline;
    InlineAt(r, a, k);
    InlineAt(MergeInline(r, a), b, k);
  }

  /** Two inline merges commute exactly when no key clashes. */
  lemma MergeInlineCommutes(r: Replica, a: map<string, MappingEntry>, b: map<string, MappingEntry>)
    ensures MergeInline(MergeInline(r, a), b) == MergeInline(MergeInline(r, b), a) <==> forall k :: !Clash(r, a, b, k)
  {
    hide MergeInline;
    var ab, ba := MergeInline(MergeInline(r, a), b), MergeInline(MergeInline(r, b), a);
    forall k ensures Clash(r, a, b, k) ==> ab != ba {
      MergeInlineTwice(r, a, b, k);
      MergeInlineTwice(r, b, a, k);
    }
    if forall k :: !Clash(r, a, b, k) {
      forall k ensures AgreeAt(ab, ba, k) {
        MergeInlineTwice(r, a, b, k);
        MergeInlineTwice(r, b, a, k);
        assert !Clash(r, a, b, k);
      }
      AgreeEverywhere(ab, ba);
    }
  }

  /** What any list of inline merges leaves under a key: what was there, or a newer offer; and
      nothing on offer is newer. */
  ghost predicate InlineBest(r: Replica, remotes: seq<map<string, MappingEntry>>, k: string, m: Replica) {
    && (forall i | 0 <= i < |remotes| && k in remotes[i] :: remotes[i][k].updatedAt <= StampOf(m, k))
    && StampOf(r, k) <= StampOf(m, k)
    && (AgreeAt(m, r, k) || exists i :: InlineSource(r, remotes, k, m, i))
  }

  ghost predicate InlineSource(r: Replica, remotes: seq<map<string, MappingEntry>>, k: string, m: Replica, i: nat) {
    i < |remotes| && Newer(r, remotes[i], k) && HoldsAt(m, k, remotes[i][k])
  }

  lemma {:induction false} MergeInlineAllBest(r: Replica, remotes: seq<map<string, MappingEntry>>, k: string)
    ensures InlineBest(r, remotes, k, MergeInlineAll(r, remotes))
    decreases |remotes|
  {
    hide MergeInline;
    if remotes != [] {
      var r1, rest := MergeInline(r, remotes[0]), remotes[1..];
      var m := MergeInlineAll(r1, rest);
      MergeInlineAllBest(r1, rest, k);
      InlineAt(r, remotes[0], k);
      forall i | 0 <= i < |remotes| && k in remotes[i] ensures remotes[i][k].updatedAt <= StampOf(m, k) {
        if i > 0 {
          assert rest[i - 1] == remotes[i];
        }
      }
      if i: nat :| InlineSource(r1, rest, k, m, i) {
        assert rest[i] == remotes[i + 1];
        assert InlineSource(r, remotes, k, m, i + 1);
      } else if Newer(r, remotes[0], k) {
        assert InlineSource(r, remotes, k, m, 0);
      }
    }
  }

  /** Offer `i` is newer than the replica and as new as any offer under the key. */
  ghost predicate Newest(r: Replica, remotes: seq<map<string, MappingEntry>>, k: string, i: nat) {
    && i < |remotes| && Newer(r, remotes[i], k)
    && forall j | 0 <= j < |remotes| && k in remotes[j] :: remotes[j][k].updatedAt <= remotes[i][k].updatedAt
  }

  /** Under each key the newest offers agree on their target. */
  ghost predicate NewestAgree(r: Replica, remotes: seq<map<string, MappingEntry>>) {
    forall k, i: nat, j: nat | Newest(r, remotes, k, i) && Newest(r, remotes, k, j) ::
      remotes[i][k].target == remotes[j][k].target
  }

  ghost predicate OrderFree(r: Replica, remotes: seq<map<string, MappingEntry>>) {
    forall shuffled: seq<map<string, MappingEntry>> | multiset(shuffled) == multiset(remotes) ::
      MergeInlineAll(r, shuffled) == MergeInlineAll(r, remotes)
  }

  lemma ShuffledIndex(remotes: seq<map<string, MappingEntry>>, shuffled: seq<map<string, MappingEntry>>, i: nat)
    returns (j: nat)
    requires multiset(remotes) == multiset(shuffled) && i < |remotes|
    ensures j < |shuffled| && shuffled[j] == remotes[i]
  {
    assert remotes[i] in multiset(remotes);
    j :| 0 <= j < |shuffled| && shuffled[j] == remotes[i];
  }

  lemma OneKeyOrderFree(r: Replica, remotes: seq<map<string, MappingEntry>>, shuffled: seq<map<string, MappingEntry>>,
                        k: string)
    requires multiset(remotes) == multiset(shuffled) && NewestAgree(r, remotes)
    ensures AgreeAt(MergeInlineAll(r, remotes), MergeInlineAll(r, shuffled), k)
  {
    hide MergeInlineAll;
    var a, b := MergeInlineAll(r, remotes), MergeInlineAll(r, shuffled);
    MergeInlineAllBest(r, remotes, k);
    MergeInlineAllBest(r, shuffled, k);
    if i: nat :| InlineSource(r, remotes, k, a, i) {
      var i' := ShuffledIndex(remotes, shuffled, i);
      assert StampOf(b, k) >= StampOf(a, k) > StampOf(r, k);
      var j: nat :| InlineSource(r, shuffled, k, b, j);
      var j' := ShuffledIndex(shuffled, remotes, j);
      assert remotes[j'][k].updatedAt == remotes[i][k].updatedAt;
      assert Newest(r, remotes, k, i) && Newest(r, remotes, k, j');
    } else if j: nat :| InlineSource(r, shuffled, k, b, j) {
      var j' := ShuffledIndex(shuffled, remotes, j);
      assert false;
    }
  }

  /** A newest offer that is merged first is kept. */
  lemma NewestFirstStays(r: Replica, remotes: seq<map<string, MappingEntry>>, k: string)
    requires Newest(r, remotes, k, 0)
    ensures HoldsAt(MergeInlineAll(r, remotes), k, remotes[0][k])
  {
    hide MergeInline;
    var r1, rest := MergeInline(r, remotes[0]), remotes[1..];
    InlineAt(r, remotes[0], k);
    MergeInlineAllBest(r1, rest, k);
    var m := MergeInlineAll(r1, rest);
    forall i: nat ensures !InlineSource(r1, rest, k, m, i) {
      if i < |rest| {
        assert rest[i] == remotes[i + 1];
      }
    }
  }

  lemma BroughtToFront(r: Replica, remotes: seq<map<string, MappingEntry>>, k: string, i: nat)
    returns (shuffled: seq<map<string, MappingEntry>>)
    requires Newest(r, remotes, k, i)
    ensures multiset(shuffled) == multiset(remotes)
    ensures HoldsAt(MergeInlineAll(r, shuffled), k, remotes[i][k])
  {
    shuffled := [remotes[i]] + (remotes[..i] + remotes[i + 1..]);
    assert remotes == remotes[..i] + [remotes[i]] + remotes[i + 1..];
    forall j | 0 <= j < |shuffled| && k in shuffled[j] ensures shuffled[j][k].updatedAt <= remotes[i][k].updatedAt {
      if 0 < j <= i {
        assert shuffled[j] == remotes[j - 1];
      } else if j > i {
        assert shuffled[j] == remotes[j];
      }
    }
    NewestFirstStays(r, shuffled, k);
  }

  /** The order of the snapshots of a list does not matter exactly when, under each key, the newest
      offers newer than the replica agree on their target. */
  lemma MergeInlineOrderFree(r: Replica, remotes: seq<map<string, MappingEntry>>)
    ensures OrderFree(r, remotes) <==> NewestAgree(r, remotes)
  {
    hide MergeInlineAll;
    if NewestAgree(r, remotes) {
      forall shuffled: seq<map<string, MappingEntry>> | multiset(shuffled) == multiset(remotes)
        ensures MergeInlineAll(r, shuffled) == MergeInlineAll(r, remotes)
      {
        var a, b := MergeInlineAll(r, remotes), MergeInlineAll(r, shuffled);
        forall k ensures AgreeAt(a, b, k) {
          OneKeyOrderFree(r, remotes, shuffled, k);
        }
        AgreeEverywhere(a, b);
      }
    }
    if OrderFree(r, remotes) {
      forall k, i: nat, j: nat | Newest(r, remotes, k, i) && Newest(r, remotes, k, j)
        ensures remotes[i][k].target == remotes[j][k].target
      {
        var first := BroughtToFront(r, remotes, k, i);
        var second := BroughtToFront(r, remotes, k, j);
        assert MergeInlineAll(r, first) == MergeInlineAll(r, second);
      }
    }
  }

  // ---------- The inline merge against the library merge ----------

  /** The target an entry map gives a key: none if deleted. */
  function LiveTarget(entries: map<string, MappingEntry>, k: string): Option<string> {
    if k in entries && !entries[k].deleted then Some(entries[k].target) else None
  }

  function TargetOf(r: Replica, k: string): Option<string> {
    if k in r.mapping then Some(r.mapping[k]) else None
  }

  /** Where the bare timestamp test does what the entries' own order does. */
  predicate StampDecides(r: Replica, remote: map<string, MappingEntry>, k: string)
    requires k in remote
  {
    var e := remote[k];
    if Newer(r, remote, k) then !e.deleted
    else if k in r.mapping then e.updatedAt < StampOf(r, k) || !(e.deleted || StringLess(r.mapping[k], e.target))
    else e.deleted
  }

  /** Under an offered key the inline merge gives the library merge's target exactly there. */
  lemma InlineIsLibraryAt(r: Replica, remote: map<string, MappingEntry>, k: string)
    ensures TargetOf(MergeInline(r, remote), k) == LiveTarget(Merge(LocalEntries(r), remote, WinsOver), k) <==>
      (k in remote ==> StampDecides(r, remote, k))
  {
    hide MergeInline;
    InlineAt(r, remote, k);
    StringLessTotal(if k in r.mapping then r.mapping[k] else "", "");
    if k in remote && k in r.mapping {
      StringLessTotal(r.mapping[k], remote[k].target);
    }
  }

  /** The two merges give one mapping exactly when that holds under every offered key. */
  lemma InlineIsLibrary(r: Replica, remote: map<string, MappingEntry>)
    ensures (forall k :: TargetOf(MergeInline(r, remote), k) == LiveTarget(Merge(LocalEntries(r), remote, WinsOver), k))
      <==> forall k | k in remote :: StampDecides(r, remote, k)
  {
    hide MergeInline, StampDecides, LiveTarget, TargetOf, Merge;
    forall k
      ensures TargetOf(MergeInline(r, remote), k) == LiveTarget(Merge(LocalEntries(r), remote, WinsOver), k) <==>
        (k in remote ==> StampDecides(r, remote, k))
    {
      InlineIsLibraryAt(r, remote, k);
    }
  }

  /** A newer tombstone, as `remove` makes it, is where they part: the inline merge reads it as a live
      mapping to the empty target, the library merge deletes. */
  lemma TombstoneRevived(r: Replica, remote: map<string, MappingEntry>, k: string)
    requires Newer(r, remote, k) && remote[k] == MappingEntry("", remote[k].updatedAt, true)
    ensures !StampDecides(r, remote, k)
    ensures TargetOf(MergeInline(r, remote), k) == Some("")
    ensures LiveTarget(Merge(LocalEntries(r), remote, WinsOver), k) == None
  {
    assert k in NewerEntries(r, remote);
  }

  // ---------- One round between two servers ----------

  /** Pull the peer's snapshot, merge it, push the difference; the peer merges that. */
  function RoundPuller(a: Replica, b: Replica, now: int): Replica {
    MergeInline(a, Snapshot(b, now))
  }

  function RoundPeer(a: Replica, b: Replica, now: int): Replica {
    MergeInline(b, Diff(LocalEntries(a), Snapshot(b, now), WinsOver))
  }

  /** The timestamp a snapshot taken at `now` carries. */
  function Published(r: Replica, k: string, now: int): int {
    if k in r.stamps then r.stamps[k] else now
  }

  ghost predicate DifferAt(a: Replica, b: Replica, k: string) {
    k in a.mapping && k in b.mapping && a.mapping[k] != b.mapping[k]
  }

  /** Only the puller maps the key, and it goes out with a timestamp that is not above the peer's. */
  ghost predicate NotPropagated(a: Replica, b: Replica, k: string) {
    k in a.mapping && k !in b.mapping && StampOf(a, k) <= StampOf(b, k)
  }

  /** Only the peer maps the key, and it comes with a timestamp that is not above the puller's. */
  ghost predicate NotPulled(a: Replica, b: Replica, now: int, k: string) {
    k in b.mapping && k !in a.mapping && Published(b, k, now) <= StampOf(a, k)
  }

  /** The puller's timestamp equals the published one, and no tie-break helps: the peer has that
      timestamp too, or the puller's target is not the greater one. */
  ghost predicate Tied(a: Replica, b: Replica, now: int, k: string) {
    && DifferAt(a, b, k) && StampOf(a, k) == Published(b, k, now)
    && (k in b.stamps || !StringLess(b.mapping[k], a.mapping[k]))
  }

  ghost predicate Parted(a: Replica, b: Replica, now: int, k: string) {
    NotPropagated(a, b, k) || NotPulled(a, b, now, k) || Tied(a, b, now, k)
  }

  /** After one round any two servers, whatever their timestamps, map a key alike exactly when it was
      pushed, pulled or untied as it had to be. */
  lemma RoundAgrees(a: Replica, b: Replica, now: int, k: string)
    requires now > 0
    ensures TargetOf(RoundPuller(a, b, now), k) == TargetOf(RoundPeer(a, b, now), k) <==> !Parted(a, b, now, k)
  {
    hide MergeInline;
    InlineAt(a, Snapshot(b, now), k);
    InlineAt(b, Diff(LocalEntries(a), Snapshot(b, now), WinsOver), k);
  }

  /** The side that a snapshot of the other would change: its timestamp is below the published one. */
  ghost predicate Gives(a: Replica, b: Replica, now: int, k: string) {
    Published(b, k, now) > StampOf(a, k)
  }

  /** Of two different targets just one is published later than the other is recorded, and a key of one
      side alone is published later than the other side's timestamp. */
  ghost predicate Reconciled(a: Replica, b: Replica, now: int, now': int, k: string) {
    if k in a.mapping && k in b.mapping then DifferAt(a, b, k) ==> Gives(a, b, now, k) != Gives(b, a, now', k)
    else if k in b.mapping then Gives(a, b, now, k)
    else k in a.mapping ==> Gives(b, a, now', k)
  }

  /** The same for two servers that merge each other's snapshots, taken before either merge. */
  lemma ExchangeAgrees(a: Replica, b: Replica, now: int, now': int, k: string)
    ensures TargetOf(MergeInline(a, Snapshot(b, now)), k) == TargetOf(MergeInline(b, Snapshot(a, now')), k) <==>
      Reconciled(a, b, now, now', k)
  {
    hide MergeInline;
    InlineAt(a, Snapshot(b, now), k);
    InlineAt(b, Snapshot(a, now'), k);
  }

  /** A timestamp belongs to a mapped key; keys from the configuration have none. */
  ghost predicate StampBacked(r: Replica, k: string) {
    k in r.stamps ==> k in r.mapping && r.stamps[k] > 0
  }

  /** So it is on a server after start, and every merge keeps it so; a hot reload does exactly when it
      leaves no stamped key unmapped. */
  lemma StampsStayBacked(initial: map<string, string>, r: Replica, remote: map<string, MappingEntry>, k: string)
    ensures StampBacked(Replica(initial, map[]), k)
    ensures StampBacked(r, k) ==> StampBacked(MergeInline(r, remote), k)
    ensures StampBacked(r, k) ==> (StampBacked(Reloaded(r, initial), k) <==> k in r.stamps ==> k in initial)
  {
    hide MergeInline;
    InlineAt(r, remote, k);
  }

  /** On such servers every key is pulled, and a key goes unpropagated exactly when only the puller maps
      it, without a timestamp; an exchange reconciles every key that one side alone maps. */
  lemma BackedStampsPull(a: Replica, b: Replica, now: int, now': int, k: string)
    requires StampBacked(a, k) && StampBacked(b, k) && now > 0 && now' > 0
    ensures !NotPulled(a, b, now, k)
    ensures NotPropagated(a, b, k) <==> k in a.mapping && k !in b.mapping && k !in a.stamps
    ensures (k in a.mapping <==> k !in b.mapping) ==> Reconciled(a, b, now, now', k)
  {}

  lemma SameMapping(a: Replica, b: Replica)
    ensures a.mapping == b.mapping <==> forall k :: TargetOf(a, k) == TargetOf(b, k)
  {
    if forall k :: TargetOf(a, k) == TargetOf(b, k) {
      forall k ensures (k in a.mapping <==> k in b.mapping) && (k in a.mapping ==> a.mapping[k] == b.mapping[k]) {
        assert TargetOf(a, k) == TargetOf(b, k);
      }
    }
  }

  /** One round gives two servers the same mapping exactly when no key parts them. */
  lemma RoundConverges(a: Replica, b: Replica, now: int)
    requires now > 0
    ensures RoundPuller(a, b, now).mapping == RoundPeer(a, b, now).mapping <==> forall k :: !Parted(a, b, now, k)
  {
    hide RoundPuller, RoundPeer, TargetOf, Parted;
    var p, q := RoundPuller(a, b, now), RoundPeer(a, b, now);
    forall k ensures TargetOf(p, k) == TargetOf(q, k) <==> !Parted(a, b, now, k) {
      RoundAgrees(a, b, now, k);
    }
    SameMapping(p, q);
  }

  /** An exchange does so exactly when it reconciles every key. */
  lemma ExchangeConverges(a: Replica, b: Replica, now: int, now': int)
    ensures MergeInline(a, Snapshot(b, now)).mapping == MergeInline(b, Snapshot(a, now')).mapping <==>
      forall k :: Reconciled(a, b, now, now', k)
  {
    hide MergeInline, Snapshot, TargetOf, Reconciled;
    var p, q := MergeInline(a, Snapshot(b, now)), MergeInline(b, Snapshot(a, now'));
    forall k ensures TargetOf(p, k) == TargetOf(q, k) <==> Reconciled(a, b, now, now', k) {
      ExchangeAgrees(a, b, now, now', k);
    }
    SameMapping(p, q);
  }

  /** An exchange swaps two different targets instead of reconciling them exactly when each is
      published later than the other is recorded; two servers after start always do. */
  lemma UnstampedSwaps(a: Replica, b: Replica, now: int, now': int, k: string)
    requires DifferAt(a, b, k)
    ensures var p, q := MergeInline(a, Snapshot(b, now)), MergeInline(b, Snapshot(a, now'));
      && (TargetOf(p, k) == TargetOf(b, k) && TargetOf(q, k) == TargetOf(a, k) <==>
            Published(b, k, now) > StampOf(a, k) && Published(a, k, now') > StampOf(b, k))
      && (a.stamps == map[] == b.stamps && now > 0 && now' > 0 ==>
            TargetOf(p, k) == TargetOf(b, k) && TargetOf(q, k) == TargetOf(a, k))
  {
    hide MergeInline;
    InlineAt(a, Snapshot(b, now), k);
    InlineAt(b, Snapshot(a, now'), k);
  }

  // ---------- Stamped keys ----------

  /** Every mapped key, and no other, has a positive recorded timestamp. */
  ghost predicate Stamped(r: Replica, k: string) {
    (k in r.mapping <==> k in r.stamps) && (k in r.stamps ==> r.stamps[k] > 0)
  }

  ghost predicate TieAt(a: Replica, b: Replica, k: string) {
    DifferAt(a, b, k) && StampOf(a, k) == StampOf(b, k)
  }

  /** On a stamped key the conditions come down to a tie, and the timestamps agree as well. */
  lemma StampedRoundAgrees(a: Replica, b: Replica, now: int, k: string)
    requires Stamped(a, k) && Stamped(b, k) && now > 0
    ensures AgreeAt(RoundPuller(a, b, now), RoundPeer(a, b, now), k) <==> !TieAt(a, b, k)
  {
    RoundAgrees(a, b, now, k);
    hide MergeInline;
    InlineAt(a, Snapshot(b, now), k);
    InlineAt(b, Diff(LocalEntries(a), Snapshot(b, now), WinsOver), k);
  }

  lemma StampedExchangeAgrees(a: Replica, b: Replica, now: int, now': int, k: string)
    requires Stamped(a, k) && Stamped(b, k) && now > 0 && now' > 0
    ensures AgreeAt(MergeInline(a, Snapshot(b, now)), MergeInline(b, Snapshot(a, now')), k) <==> !TieAt(a, b, k)
  {
    ExchangeAgrees(a, b, now, now', k);
    hide MergeInline;
    InlineAt(a, Snapshot(b, now), k);
    InlineAt(b, Snapshot(a, now'), k);
  }

  /** With every key stamped, one round makes the replicas equal exactly when nothing ties. */
  lemma StampedRoundConverges(a: Replica, b: Replica, now: int)
    requires (forall k :: Stamped(a, k) && Stamped(b, k)) && now > 0
    ensures RoundPuller(a, b, now) == RoundPeer(a, b, now) <==> forall k :: !TieAt(a, b, k)
  {
    hide RoundPuller, RoundPeer;
    var p, q := RoundPuller(a, b, now), RoundPeer(a, b, now);
    forall k ensures AgreeAt(p, q, k) <==> !TieAt(a, b, k) {
      StampedRoundAgrees(a, b, now, k);
    }
    AgreeEverywhere(p, q);
  }

  // ---------- Inputs on which the servers part ----------

  /** A key that only the puller has, as loaded from its configuration, never reaches the peer. */
  lemma FreshKeyStaysHome(now: int)
    requires now > 0
    ensures var a, b := Replica(map["m" := "x"], map[]), Replica(map[], map[]);
      && TargetOf(RoundPuller(a, b, now), "m") == Some("x") && TargetOf(RoundPeer(a, b, now), "m") == None
  {
    var a, b := Replica(map["m" := "x"], map[]), Replica(map[], map[]);
    hide MergeInline;
    InlineAt(a, Snapshot(b, now), "m");
    InlineAt(b, Diff(LocalEntries(a), Snapshot(b, now), WinsOver), "m");
  }

  /** A hot reload that drops a key leaves its timestamp, and the key of a peer that has it with that
      timestamp does not come back: not in a round from either side, and not in an exchange. */
  lemma ReloadRefusesPeer(t: int, now: int, now': int)
    requires t > 0 && now > 0
    ensures var b := Replica(map["m" := "x"], map["m" := t]);
      var a := Reloaded(b, map[]);
      && NotPulled(a, b, now, "m") && NotPropagated(b, a, "m") && !Reconciled(a, b, now, now', "m")
      && RoundPuller(a, b, now) == a && RoundPeer(b, a, now) == a
  {
    var b := Replica(map["m" := "x"], map["m" := t]);
    var a := Reloaded(b, map[]);
    hide MergeInline;
    forall k ensures AgreeAt(RoundPuller(a, b, now), a, k) && AgreeAt(RoundPeer(b, a, now), a, k) {
      InlineAt(a, Snapshot(b, now), k);
      InlineAt(a, Diff(LocalEntries(b), Snapshot(a, now), WinsOver), k);
    }
    AgreeEverywhere(RoundPuller(a, b, now), a);
    AgreeEverywhere(RoundPeer(b, a, now), a);
  }

  /** Two targets recorded at one moment stay different, round after round. */
  lemma TieStays(t: int, now: int)
    requires t > 0 && now > 0
    ensures var a, b := Replica(map["m" := "x"], map["m" := t]), Replica(map["m" := "y"], map["m" := t]);
      TieAt(a, b, "m") && RoundPuller(a, b, now) == a && RoundPeer(a, b, now) == b
  {
    var a, b := Replica(map["m" := "x"], map["m" := t]), Replica(map["m" := "y"], map["m" := t]);
    assert a.mapping["m"] == "x" && b.mapping["m"] == "y" && "x"[0] != "y"[0];
    hide MergeInline;
    forall k ensures AgreeAt(RoundPuller(a, b, now), a, k) && AgreeAt(RoundPeer(a, b, now), b, k) {
      InlineAt(a, Snapshot(b, now), k);
      InlineAt(b, Diff(LocalEntries(a), Snapshot(b, now), WinsOver), k);
    }
    AgreeEverywhere(RoundPuller(a, b, now), a);
    AgreeEverywhere(RoundPeer(a, b, now), b);
  }

  /** Two snapshots with different targets at one moment: the first one merged stays. */
  lemma ClashKeepsFirst(t: int)
    requires t > 0
    ensures var r := Replica(map[], map[]);
      var a, b := map["m" := MappingEntry("x", t, false)], map["m" := MappingEntry("y", t, false)];
      && Clash(r, a, b, "m")
      && TargetOf(MergeInline(MergeInline(r, a), b), "m") == Some("x")
      && TargetOf(MergeInline(MergeInline(r, b), a), "m") == Some("y")
  {
    var r := Replica(map[], map[]);
    var a, b := map["m" := MappingEntry("x", t, false)], map["m" := MappingEntry("y", t, false)];
    assert a["m"].target == "x" && b["m"].target == "y" && "x"[0] != "y"[0];
    MergeInlineTwice(r, a, b, "m");
    MergeInlineTwice(r, b, a, "m");
  }
}
