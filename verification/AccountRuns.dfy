/** Whole runs of the account store: locked operations, failures, crashes; saves of account files, which
    in most places take no lock, one file step at a time; and listings, which take none either and are
    spread over the run: a load, one read for each entry, a save. */
module AccountRuns {
  import opened Wrappers
  import opened AccountModel
  import opened AccountIndex
  import opened AccountDisk
  import opened AccountRecovery
  import opened AccountStore
  import opened QuotaProtection
  import opened TornFiles

  // ---------- Locked operations ----------

  /** `stuck` are the files that cannot be removed. `ListAdded` and `ListRenamed` are the index halves of
      an addition and an upsert, for runs that take their account save step by step. */
  datatype Op =
    | Add(email: string, name: Option<string>, token: TokenData, id: string, now: int)
    | UpsertLocked(email: string, name: Option<string>, token: TokenData, now: int)
    | Delete(id: string)
    | DeleteMany(ids: seq<string>, stuck: set<string>)
    | SetCurrent(id: string)
    | ReorderTo(ids: seq<string>)
    | UpdateQuota(id: string, quota: QuotaData, config: Option<ProtectionConfig>, norm: Normalizer)
    | ListAdded(account: Account)
    | ListRenamed(id: string, name: Option<string>)

  function OpSteps(d: Disk, op: Op): seq<Step> {
    match op
    case Add(email, name, token, id, now) => AddPlan(d, email, name, token, id, now).steps
    case UpsertLocked(email, name, token, now) => UpsertPlan(d, email, name, token, now).steps
    case Delete(id) => DeletePlan(d, id).steps
    case DeleteMany(ids, stuck) => DeleteManyPlan(d, ids, stuck).steps
    case SetCurrent(id) => SetCurrentPlan(d, id).steps
    case ReorderTo(ids) => ReorderPlan(d, ids).steps
    case UpdateQuota(id, quota, config, norm) => UpdateQuotaPlan(d, id, quota, config, norm).steps
    case ListAdded(a) =>
      if LoadIndex(d.index).Failure? then [] else SaveIndexSteps(Append(LoadIndex(d.index).value, SummaryOf(a)))
    case ListRenamed(id, name) =>
      if LoadIndex(d.index).Failure? then []
      else
        var i := LoadIndex(d.index).value;
        SaveIndexSteps(i.(accounts := Rename(i.accounts, id, name)))
  }

  /** The disk after the first `k` steps, or after all when there are fewer. */
  function Partly(d: Disk, op: Op, k: nat): Disk {
    var steps := OpSteps(d, op);
    Run(d, if k <= |steps| then steps[..k] else steps)
  }

  predicate Held(files: map<string, FileState>, id: string) {
    id in files && files[id].Readable?
  }

  /** What a caller can check: an unlisted new id, a listed current, no listed id requested twice. */
  ghost predicate Admissible(d: Disk, op: Op) {
    LoadIndex(d.index).Success? &&
    var accounts := LoadIndex(d.index).value.accounts;
    match op
    case Add(_, _, _, id, _) => !Lists(accounts, id)
    case SetCurrent(id) => Lists(accounts, id)
    case ReorderTo(ids) => NoListedRepeat(accounts, ids)
    case ListAdded(a) => !Lists(accounts, a.id) && !ListsEmail(accounts, a.email) && Held(d.files, a.id)
    case _ => true
  }

  // ---------- Whose account an id is ----------

  /** The email of each id, once and for all: an account never changes it. */
  type Emails = string -> string

  ghost predicate OwnsIndex(i: Index, owner: Emails) {
    forall s | s in i.accounts :: s.email == owner(s.id)
  }

  /** A whole account file holds its id's account; no file is beyond reading. */
  predicate OwnsFile(f: FileState, id: string, owner: Emails) {
    !f.Unreadable? && (f.Readable? ==> f.account.id == id && f.account.email == owner(id))
  }

  ghost predicate OwnsFiles(files: map<string, FileState>, owner: Emails) {
    forall id | id in files :: OwnsFile(files[id], id, owner)
  }

  ghost predicate Owned(d: Disk, owner: Emails) {
    && (d.index.Saved? ==> OwnsIndex(d.index.index, owner))
    && (d.tempIndex.Saved? ==> OwnsIndex(d.tempIndex.index, owner))
    && OwnsFiles(d.files, owner) && OwnsFiles(d.temps, owner)
  }

  ghost predicate OwnedStep(step: Step, owner: Emails) {
    match step
    case WriteAccount(a) => a.email == owner(a.id)
    case WriteIndex(i) => OwnsIndex(i, owner)
    case _ => true
  }

  ghost predicate OwnedSteps(steps: seq<Step>, owner: Emails) {
    forall step | step in steps :: OwnedStep(step, owner)
  }

  lemma OwnedApply(d: Disk, step: Step, owner: Emails)
    requires Owned(d, owner) && OwnedStep(step, owner)
    ensures Owned(Apply(d, step), owner)
  {
    hide OwnsIndex;
  }

  lemma {:induction false} OwnedRun(d: Disk, steps: seq<Step>, owner: Emails)
    requires Owned(d, owner) && OwnedSteps(steps, owner)
    ensures Owned(Run(d, steps), owner)
    decreases |steps|
  {
    hide Owned, OwnedStep, Apply;
    if steps != [] {
      assert steps[0] in steps && forall step | step in steps[1..] :: step in steps;
      OwnedApply(d, steps[0], owner);
      OwnedRun(Apply(d, steps[0]), steps[1..], owner);
    }
  }

  lemma OwnedPrefix(d: Disk, steps: seq<Step>, k: nat, owner: Emails)
    requires Owned(d, owner) && OwnedSteps(steps, owner) && k <= |steps|
    ensures Owned(Run(d, steps[..k]), owner)
  {
    hide Owned, OwnedStep;
    forall step | step in steps[..k] ensures step in steps {}
    OwnedRun(d, steps[..k], owner);
  }

  lemma OwnedSaves(a: Account, i: Index, owner: Emails)
    ensures a.email == owner(a.id) ==> OwnedSteps(SaveAccountSteps(a), owner)
    ensures OwnsIndex(i, owner) ==> OwnedSteps(SaveIndexSteps(i), owner)
  {
    hide OwnsIndex;
  }

  lemma OwnedConcat(a: seq<Step>, b: seq<Step>, owner: Emails)
    requires OwnedSteps(a, owner) && OwnedSteps(b, owner)
    ensures OwnedSteps(a + b, owner)
  {}

  lemma OwnedSubset(i: Index, i': Index, owner: Emails)
    requires OwnsIndex(i, owner) && forall s | s in i'.accounts :: s in i.accounts
    ensures OwnsIndex(i', owner)
  {}

  lemma OwnedRename(i: Index, id: string, name: Option<string>, owner: Emails)
    requires OwnsIndex(i, owner)
    ensures OwnsIndex(i.(accounts := Rename(i.accounts, id, name)), owner)
  {
    var r := Rename(i.accounts, id, name);
    RenameKeepsKeys(i.accounts, id, name);
    forall s | s in r ensures s.email == owner(s.id) {
      var j :| 0 <= j < |r| && r[j] == s;
      assert i.accounts[j] in i.accounts;
    }
  }

  /** A new account has its id's email. */
  predicate OwnedOp(op: Op, owner: Emails) {
    match op
    case Add(email, _, _, id, _) => email == owner(id)
    case ListAdded(a) => a.email == owner(a.id)
    case _ => true
  }

  lemma OwnedUpsert(d: Disk, op: Op, owner: Emails)
    requires Owned(d, owner) && op.UpsertLocked?
    ensures OwnedSteps(OpSteps(d, op), owner)
  {
    var i := LoadIndex(d.index);
    if i.Success? {
      FindEmailMeaning(i.value.accounts, op.email);
      if FindEmail(i.value.accounts, op.email).Some? {
        var s := FindEmail(i.value.accounts, op.email).value;
        var a := UpsertPlan(d, op.email, op.name, op.token, op.now).result.value.value;
        assert a.email == owner(a.id);
        var i' := i.value.(accounts := Rename(i.value.accounts, s.id, op.name));
        OwnedRename(i.value, s.id, op.name, owner);
        OwnedSaves(a, i', owner);
        OwnedConcat(SaveAccountSteps(a), SaveIndexSteps(i'), owner);
      }
    }
  }

  lemma OwnedDeletes(d: Disk, op: Op, owner: Emails)
    requires Owned(d, owner) && Sound(d) && (op.Delete? || op.DeleteMany? || op.ReorderTo?)
    ensures OwnedSteps(OpSteps(d, op), owner)
  {
    hide ValidIndex;
    var i := LoadIndex(d.index).value;
    var nobody := NewAccount("", "", TokenData("", "", 0, 0, "", None, None, None), 0);
    EmptyIndexValid();
    match op
    case Delete(id) =>
      RetainMeaning(i.accounts, (s: AccountSummary) => s.id != id);
      OwnedSubset(i, DeleteOne(i, id), owner);
      OwnedSaves(nobody, DeleteOne(i, id), owner);
    case DeleteMany(ids, stuck) =>
      RetainMeaning(i.accounts, (s: AccountSummary) => s.id !in ids);
      OwnedSubset(i, DeleteBatch(i, ids), owner);
      OwnedSaves(nobody, DeleteBatch(i, ids), owner);
      RemoveStepsAre(d.files - stuck, ids);
      OwnedConcat(RemoveSteps(d.files - stuck, ids), SaveIndexSteps(DeleteBatch(i, ids)), owner);
    case ReorderTo(ids) =>
      ReorderMembers(i, ids);
      OwnedSubset(i, Reorder(i, ids), owner);
      OwnedSaves(nobody, Reorder(i, ids), owner);
  }

  lemma OpOwned(d: Disk, op: Op, owner: Emails)
    requires Owned(d, owner) && Sound(d) && OwnedOp(op, owner)
    ensures OwnedSteps(OpSteps(d, op), owner)
  {
    hide ValidIndex;
    var nobody := NewAccount("", "", TokenData("", "", 0, 0, "", None, None, None), 0);
    var i := LoadIndex(d.index).value;
    match op
    case Add(email, name, token, id, now) =>
      var a := NewAccount(id, email, token, now).(name := name);
      OwnedSaves(a, Append(i, SummaryOf(a)), owner);
      OwnedConcat(SaveAccountSteps(a), SaveIndexSteps(Append(i, SummaryOf(a))), owner);
    case UpsertLocked(_, _, _, _) => OwnedUpsert(d, op, owner);
    case Delete(_) => OwnedDeletes(d, op, owner);
    case DeleteMany(_, _) => OwnedDeletes(d, op, owner);
    case ReorderTo(_) => OwnedDeletes(d, op, owner);
    case SetCurrent(id) => OwnedSaves(nobody, i.(current := Some(id)), owner);
    case UpdateQuota(id, quota, config, norm) =>
      if LoadAccount(d.files, id).Success? {
        assert OwnsFile(d.files[id], id, owner);
        OwnedSaves(Updated(LoadAccount(d.files, id).value, quota, config, norm), i, owner);
      }
    case ListAdded(a) => OwnedSaves(a, Append(i, SummaryOf(a)), owner);
    case ListRenamed(id, name) =>
      OwnedRename(i, id, name, owner);
      OwnedSaves(nobody, i.(accounts := Rename(i.accounts, id, name)), owner);
  }

  // ---------- Prefixes of operations ----------

  lemma {:induction false} RemovalsRun(d: Disk, rs: seq<Step>)
    requires forall r | r in rs :: r.RemoveAccount?
    ensures Run(d, rs).index == d.index
    ensures forall id :: id in Run(d, rs).files <==> id in d.files && RemoveAccount(id) !in rs
    ensures forall id | id in Run(d, rs).files :: Run(d, rs).files[id] == d.files[id]
    decreases |rs|
  {
    if rs != [] {
      assert rs == [rs[0]] + rs[1..] && rs[0].RemoveAccount?;
      RemovalsRun(Apply(d, rs[0]), rs[1..]);
    }
  }

  lemma OpCrashSafe(d: Disk, op: Op)
    requires Sound(d) && Admissible(d, op)
    requires !op.DeleteMany? && !op.UpdateQuota? && !op.ListAdded? && !op.ListRenamed?
    ensures CrashSafe(d, OpSteps(d, op))
  {
    hide CrashSafe, Sound;
    match op
    case Add(email, name, token, id, now) => AddCrashSafe(d, email, name, token, id, now);
    case UpsertLocked(email, name, token, now) => UpsertCrashSafe(d, email, name, token, now);
    case Delete(id) => DeleteCrashSafe(d, id);
    case SetCurrent(id) => SetCurrentCrashSafe(d, id);
    case ReorderTo(ids) => ReorderCrashSafe(d, ids);
  }

  lemma BatchPrefixSound(d: Disk, ids: seq<string>, stuck: set<string>, k: nat)
    requires Sound(d) && k <= |DeleteManyPlan(d, ids, stuck).steps|
    ensures Sound(Run(d, DeleteManyPlan(d, ids, stuck).steps[..k]))
  {
    hide ValidIndex;
    EmptyIndexValid();
    DeleteManyPrefix(d, ids, stuck, k);
    BatchIsEach(LoadIndex(d.index).value, ids);
  }

  lemma QuotaPrefixSound(d: Disk, op: Op, k: nat)
    requires Sound(d) && op.UpdateQuota? && k <= |OpSteps(d, op)|
    ensures Sound(Run(d, OpSteps(d, op)[..k]))
  {
    hide ValidIndex, AfterQuota;
    if LoadAccount(d.files, op.id).Success? {
      SaveAccountPrefix(d, UpdateQuotaPlan(d, op.id, op.quota, op.config, op.norm).result.value, k);
    }
  }

  lemma HalfPrefixSound(d: Disk, op: Op, k: nat)
    requires Sound(d) && Admissible(d, op) && (op.ListAdded? || op.ListRenamed?) && k <= |OpSteps(d, op)|
    ensures Sound(Run(d, OpSteps(d, op)[..k]))
  {
    hide ValidIndex;
    var i := LoadIndex(d.index).value;
    EmptyIndexValid();
    if op.ListAdded? {
      AppendValid(i, SummaryOf(op.account));
      SaveIndexPrefix(d, Append(i, SummaryOf(op.account)), k);
    } else {
      RenameValid(i, op.id, op.name);
      SaveIndexPrefix(d, i.(accounts := Rename(i.accounts, op.id, op.name)), k);
    }
  }

  /** Stopped after any number of steps, an operation leaves the index whole and valid. */
  lemma OpPrefixSound(d: Disk, op: Op, k: nat)
    requires Sound(d) && Admissible(d, op)
    ensures Sound(Partly(d, op, k))
  {
    hide Sound, OpSteps, DeleteManyPlan;
    var steps := OpSteps(d, op);
    var n := if k <= |steps| then k else |steps|;
    assert steps[..|steps|] == steps;
    if op.DeleteMany? {
      DeleteManySteps(d, op.ids, op.stuck);
      BatchPrefixSound(d, op.ids, op.stuck, n);
    } else if op.UpdateQuota? {
      QuotaPrefixSound(d, op, n);
    } else if op.ListAdded? || op.ListRenamed? {
      HalfPrefixSound(d, op, n);
    } else {
      OpCrashSafe(d, op);
    }
  }

  lemma DeleteManySteps(d: Disk, ids: seq<string>, stuck: set<string>)
    ensures OpSteps(d, DeleteMany(ids, stuck)) == DeleteManyPlan(d, ids, stuck).steps
  {}

  lemma HalfPrefixConsistent(d: Disk, op: Op, k: nat, owner: Emails)
    requires Consistent(d) && Owned(d, owner) && OwnedOp(op, owner)
    requires Admissible(d, op) && (op.ListAdded? || op.ListRenamed?) && k <= |OpSteps(d, op)|
    ensures Consistent(Run(d, OpSteps(d, op)[..k]))
  {
    hide ValidIndex;
    HalfPrefixSound(d, op, k);
    var i := LoadIndex(d.index).value;
    var d' := Run(d, OpSteps(d, op)[..k]);
    forall s | s in i.accounts ensures Backed(d.files, s) {
      assert !Dangling(d, s);
    }
    if op.ListAdded? {
      assert OwnsFile(d.files[op.account.id], op.account.id, owner);
      SaveIndexPrefix(d, Append(i, SummaryOf(op.account)), k);
    } else {
      var r := Rename(i.accounts, op.id, op.name);
      RenameKeepsKeys(i.accounts, op.id, op.name);
      SaveIndexPrefix(d, i.(accounts := r), k);
      forall s | s in r ensures Backed(d.files, s) {
        var j :| 0 <= j < |r| && r[j] == s;
        assert i.accounts[j] in i.accounts;
      }
    }
  }

  /** And but for the batch deletion it leaves a consistent store. */
  lemma OpPrefixConsistent(d: Disk, op: Op, k: nat, owner: Emails)
    requires Consistent(d) && Admissible(d, op) && !op.DeleteMany?
    requires Owned(d, owner) && OwnedOp(op, owner)
    ensures Consistent(Partly(d, op, k))
  {
    hide CrashSafe, Owned;
    var steps := OpSteps(d, op);
    var n := if k <= |steps| then k else |steps|;
    assert steps[..|steps|] == steps;
    if op.UpdateQuota? {
      UpdateQuotaCrashSafe(d, op.id, op.quota, op.config, op.norm, n);
    } else if op.ListAdded? || op.ListRenamed? {
      HalfPrefixConsistent(d, op, n, owner);
    } else {
      OpCrashSafe(d, op);
      hide Consistent, OpSteps;
      CrashSafeKeepsConsistent(d, steps, n);
    }
  }

  lemma BatchFiles(d: Disk, ids: seq<string>, stuck: set<string>, k: nat)
    requires k < |DeleteManyPlan(d, ids, stuck).steps| && LoadIndex(d.index).Success?
    ensures var steps := DeleteManyPlan(d, ids, stuck).steps;
      var d' := Run(d, steps[..k]);
      && d'.index == d.index
      && (forall id :: id in d'.files <==> id in d.files && RemoveAccount(id) !in steps[..k])
      && (forall id | id in d'.files :: d'.files[id] == d.files[id])
  {
    RemoveStepsAre(d.files - stuck, ids);
    RemovalsPrefix(d, RemoveSteps(d.files - stuck, ids), DeleteBatch(LoadIndex(d.index).value, ids), k);
  }

  lemma RemovalsPrefix(d: Disk, remove: seq<Step>, i: Index, k: nat)
    requires k < |remove| + 3 && forall r | r in remove :: r.RemoveAccount?
    ensures var steps := (remove + SaveIndexSteps(i))[..k];
      var d' := Run(d, steps);
      && d'.index == d.index
      && (forall id :: id in d'.files <==> id in d.files && RemoveAccount(id) !in steps)
      && (forall id | id in d'.files :: d'.files[id] == d.files[id])
  {
    hide Run, Apply;
    var save := SaveIndexSteps(i);
    RunPrefix(d, remove, save, k);
    if k <= |remove| {
      assert (remove + save)[..k] == remove[..k];
      forall r | r in remove[..k] ensures r in remove {}
      RemovalsRun(d, remove[..k]);
    } else {
      RemovalsRun(d, remove);
      SaveIndexPrefix(Run(d, remove), i, k - |remove|);
      assert (remove + save)[..k] == remove + save[..k - |remove|];
    }
  }

  /** A batch deletion that stops after some steps leaves a consistent store exactly when it was complete
      or none of those steps removed the file of a listed account. */
  lemma FailedBatchIff(d: Disk, ids: seq<string>, stuck: set<string>, k: nat)
    requires Consistent(d) && k <= |DeleteManyPlan(d, ids, stuck).steps|
    ensures var steps := DeleteManyPlan(d, ids, stuck).steps;
      var accounts := LoadIndex(d.index).value.accounts;
      Consistent(Run(d, steps[..k])) <==>
      (k == |steps| || forall id | Lists(accounts, id) :: RemoveAccount(id) !in steps[..k])
  {
    hide ValidIndex;
    var steps := DeleteManyPlan(d, ids, stuck).steps;
    var accounts := LoadIndex(d.index).value.accounts;
    if k == |steps| {
      assert steps[..k] == steps;
      DeleteManyConsistent(d, ids, stuck);
    } else {
      var d' := Run(d, steps[..k]);
      BatchFiles(d, ids, stuck, k);
      BatchPrefixSound(d, ids, stuck, k);
      forall s | s in accounts ensures Dangling(d', s) <==> RemoveAccount(s.id) in steps[..k] {
        assert !Dangling(d, s);
      }
      if id :| Lists(accounts, id) && RemoveAccount(id) in steps[..k] {
        ListsMember(accounts, id);
        var s :| s in accounts && s.id == id;
        assert Dangling(d', s);
      } else {
        forall s ensures !Dangling(d', s) {
          ListsMember(accounts, s.id);
        }
      }
    }
  }

  /** So a batch deletion may fail anywhere exactly when it names no listed account whose file it can
      remove. */
  lemma BatchMayFailIff(d: Disk, ids: seq<string>, stuck: set<string>)
    requires Consistent(d)
    ensures (forall k | 0 <= k <= |DeleteManyPlan(d, ids, stuck).steps| ::
               Consistent(Run(d, DeleteManyPlan(d, ids, stuck).steps[..k]))) <==>
      forall id | id in ids && id !in stuck :: !Lists(LoadIndex(d.index).value.accounts, id)
  {
    var steps := DeleteManyPlan(d, ids, stuck).steps;
    var accounts := LoadIndex(d.index).value.accounts;
    var remove := RemoveSteps(d.files - stuck, ids);
    RemoveStepsAre(d.files - stuck, ids);
    if id :| id in ids && id !in stuck && Lists(accounts, id) {
      ListsMember(accounts, id);
      var s :| s in accounts && s.id == id;
      assert !Dangling(d, s);
      var n :| 0 <= n < |remove| && remove[n] == RemoveAccount(id);
      assert steps[..n + 1][n] == RemoveAccount(id);
      FailedBatchIff(d, ids, stuck, n + 1);
    } else {
      hide Consistent;
      forall k | 0 <= k <= |steps| ensures Consistent(Run(d, steps[..k])) {
        FailedBatchIff(d, ids, stuck, k);
        forall id | Lists(accounts, id) ensures k < |steps| ==> RemoveAccount(id) !in steps[..k] {
          NoIndexStepRemoves(remove, DeleteBatch(LoadIndex(d.index).value, ids), k, id);
        }
      }
    }
  }

  lemma NoIndexStepRemoves(remove: seq<Step>, i: Index, k: nat, id: string)
    requires RemoveAccount(id) !in remove && k <= |remove| + 3
    ensures RemoveAccount(id) !in (remove + SaveIndexSteps(i))[..k]
  {
    var steps := remove + SaveIndexSteps(i);
    forall n | 0 <= n < k ensures steps[..k][n] != RemoveAccount(id) {
      if n < |remove| {
        assert steps[n] == remove[n];
      }
    }
  }

  // ---------- Listings ----------

  /** A listing under way: the index it loaded, how many files it has read, the ids it found gone or
      corrupt; and, as a record for the specification, the ids whose file is not there whole: those at
      the load, with those lost since, without those that came back. */
  datatype Listing = Listing(loaded: Index, next: nat, invalid: seq<string>, missing: set<string>)

  datatype System = System(disk: Disk, listings: map<nat, Listing>)

  function SaveSteps(l: Listing): seq<Step> {
    if l.invalid == [] then [] else SaveIndexSteps(Repaired(l.loaded, l.invalid))
  }

  function Loaded(d: Disk): Listing
    requires LoadIndex(d.index).Success?
  {
    var i := LoadIndex(d.index).value;
    Listing(i, 0, [], set n | 0 <= n < |i.accounts| && !Held(d.files, i.accounts[n].id) :: i.accounts[n].id)
  }

  function ReadNext(files: map<string, FileState>, l: Listing): Listing
    requires l.next < |l.loaded.accounts|
  {
    var id := l.loaded.accounts[l.next].id;
    l.(next := l.next + 1, invalid := l.invalid + if IsInvalid(files, id) then [id] else [])
  }

  /** The ids whose file is whole in the first map and not in the second. */
  function Lost(from: map<string, FileState>, to: map<string, FileState>): set<string> {
    set id | id in from && Held(from, id) && !Held(to, id)
  }

  function Observing(l: Listing, before: map<string, FileState>, after: map<string, FileState>): Listing {
    l.(missing := l.missing + Lost(before, after) - Lost(after, before))
  }

  ghost predicate ListingInv(files: map<string, FileState>, l: Listing, owner: Emails) {
    && ValidIndex(l.loaded) && OwnsIndex(l.loaded, owner) && l.next <= |l.loaded.accounts|
    && forall s | s in l.loaded.accounts :: s.id in l.missing <==> !Held(files, s.id)
  }

  /** The listing found nothing missing, or everything that is missing by now. */
  predicate SafeSave(l: Listing) {
    l.invalid == [] || forall i | 0 <= i < |l.loaded.accounts| ::
      l.loaded.accounts[i].id in l.missing ==> l.loaded.accounts[i].id in l.invalid
  }

  lemma SavedIndex(d: Disk, l: Listing)
    ensures var d' := Run(d, SaveSteps(l));
      d'.files == d.files && d'.index == if l.invalid == [] then d.index else Saved(Repaired(l.loaded, l.invalid))
  {
    var steps := SaveIndexSteps(Repaired(l.loaded, l.invalid));
    assert steps[..3] == steps;
    SaveIndexPrefix(d, Repaired(l.loaded, l.invalid), 3);
  }

  /** The save of a listing keeps the store consistent exactly when it is safe. */
  lemma SaveConsistentIff(d: Disk, l: Listing, owner: Emails)
    requires Consistent(d) && Owned(d, owner) && ListingInv(d.files, l, owner)
    ensures Consistent(Run(d, SaveSteps(l))) <==> SafeSave(l)
  {
    hide ValidIndex;
    if l.invalid != [] {
      var r := Repaired(l.loaded, l.invalid);
      var d' := Run(d, SaveSteps(l));
      SavedIndex(d, l);
      RepairIsBatch(l.loaded, l.invalid);
      RetainMeaning(l.loaded.accounts, (s: AccountSummary) => s.id !in l.invalid);
      forall s | s in l.loaded.accounts ensures Backed(d.files, s) <==> s.id !in l.missing {
        assert Held(d.files, s.id) ==> OwnsFile(d.files[s.id], s.id, owner);
      }
      if SafeSave(l) {
        forall s ensures !Dangling(d', s) {
          if s in r.accounts {
            var i :| 0 <= i < |l.loaded.accounts| && l.loaded.accounts[i] == s;
          }
        }
      } else {
        var i :| 0 <= i < |l.loaded.accounts|
          && l.loaded.accounts[i].id in l.missing && l.loaded.accounts[i].id !in l.invalid;
        var s := l.loaded.accounts[i];
        assert s in l.loaded.accounts;
        assert Dangling(d', s);
      }
    }
  }

  // ---------- Events ----------

  /** `Failed` is an operation that stops with an error after some steps, while the process goes on. The
      save of a listing ends after its steps, or after fewer when one fails, which the listing ignores.
      After a crash the process restarts: listings under way are gone, and one whole listing runs.
      `Save` is one step of a save of an account file, by whichever writer. */
  datatype Event =
    | Finished(op: Op)
    | Failed(op: Op, steps: nat)
    | Crashed(op: Op, steps: nat)
    | Save(step: Step)
    | ListLoad(listing: nat)
    | ListRead(listing: nat)
    | ListSave(listing: nat, steps: nat)
    | CrashedSave(listing: nat, steps: nat)

  function Restarted(d: Disk): System {
    System(Run(d, ListPlan(d).steps), map[])
  }

  function PartlySaved(d: Disk, l: Listing, k: nat): Disk {
    var steps := SaveSteps(l);
    Run(d, if k <= |steps| then steps[..k] else steps)
  }

  function Changed(sys: System, d: Disk): System {
    System(d, map l | l in sys.listings :: Observing(sys.listings[l], sys.disk.files, d.files))
  }

  predicate ReadsLeft(sys: System, l: nat) {
    l in sys.listings && sys.listings[l].next < |sys.listings[l].loaded.accounts|
  }

  predicate AllRead(sys: System, l: nat) {
    l in sys.listings && sys.listings[l].next >= |sys.listings[l].loaded.accounts|
  }

  /** A listing event out of turn does nothing. */
  function After(sys: System, e: Event): System {
    var d := sys.disk;
    match e
    case Finished(op) => Changed(sys, Run(d, OpSteps(d, op)))
    case Failed(op, k) => Changed(sys, Partly(d, op, k))
    case Crashed(op, k) => Restarted(Partly(d, op, k))
    case Save(step) => Changed(sys, Apply(d, step))
    case ListLoad(l) =>
      if LoadIndex(d.index).Failure? then sys else sys.(listings := sys.listings[l := Loaded(d)])
    case ListRead(l) =>
      if !ReadsLeft(sys, l) then sys else sys.(listings := sys.listings[l := ReadNext(d.files, sys.listings[l])])
    case ListSave(l, k) =>
      if !AllRead(sys, l) then sys else System(PartlySaved(d, sys.listings[l], k), sys.listings - {l})
    case CrashedSave(l, k) =>
      if !AllRead(sys, l) then sys else Restarted(PartlySaved(d, sys.listings[l], k))
  }

  function AfterAll(sys: System, events: seq<Event>): System
    decreases |events|
  {
    if events == [] then sys else AfterAll(After(sys, events[0]), events[1..])
  }

  predicate IsAccountStep(step: Step) {
    step.TearAccount? || step.WriteAccount? || step.RenameAccount? || step.DropAccountTemp?
  }

  /** An account is written under its own id and email; nothing else is asked of the writers. */
  ghost predicate Possible(sys: System, e: Event, owner: Emails) {
    match e
    case Save(step) => IsAccountStep(step) && OwnedStep(step, owner)
    case Finished(op) => Admissible(sys.disk, op) && OwnedOp(op, owner)
    case Failed(op, _) => Admissible(sys.disk, op) && OwnedOp(op, owner)
    case Crashed(op, _) => Admissible(sys.disk, op) && OwnedOp(op, owner)
    case _ => true
  }

  /** The three ways to lose consistency: a rename that takes a torn temporary file over a listed
      account; an unsafe save of a listing; and a batch deletion that fails between removing the file of a
      listed account and saving the index. */
  ghost predicate SafeEvent(sys: System, e: Event)
    requires LoadIndex(sys.disk.index).Success?
  {
    var accounts := LoadIndex(sys.disk.index).value.accounts;
    match e
    case Save(RenameAccount(id)) => TempOf(sys.disk, id).Torn? ==> !Lists(accounts, id)
    case ListSave(l, k) => AllRead(sys, l) && k >= |SaveSteps(sys.listings[l])| ==> SafeSave(sys.listings[l])
    case Failed(DeleteMany(ids, stuck), k) =>
      var steps := DeleteManyPlan(sys.disk, ids, stuck).steps;
      k >= |steps| || forall id | Lists(accounts, id) :: RemoveAccount(id) !in steps[..k]
    case _ => true
  }

  /** What every possible event keeps: a valid index, files that hold their own account or a torn one. */
  ghost predicate Recoverable(sys: System, owner: Emails) {
    && Sound(sys.disk) && Owned(sys.disk, owner)
    && forall l | l in sys.listings :: ListingInv(sys.disk.files, sys.listings[l], owner)
  }

  /** One undisturbed listing makes any such disk consistent. */
  lemma RestartConsistent(d: Disk, owner: Emails)
    requires Sound(d) && Owned(d, owner)
    ensures Consistent(Restarted(d).disk) && Owned(Restarted(d).disk, owner)
  {
    hide ValidIndex;
    var i := LoadIndex(d.index).value;
    forall s | s in i.accounts ensures Backed(d.files, s) || IsInvalid(d.files, s.id) {
      assert s.id in d.files ==> OwnsFile(d.files[s.id], s.id, owner);
    }
    ListRepairs(d);
    var invalid := InvalidIds(d.files, i.accounts);
    var r := Repaired(i, invalid);
    RetainMeaning(i.accounts, (s: AccountSummary) => s.id !in invalid);
    OwnedSubset(i, r, owner);
    OwnedSaves(NewAccount("", "", TokenData("", "", 0, 0, "", None, None, None), 0), r, owner);
    OwnedRun(d, ListPlan(d).steps, owner);
  }

  lemma ChangedListings(sys: System, d: Disk, owner: Emails)
    requires Recoverable(sys, owner)
    ensures forall l | l in Changed(sys, d).listings :: ListingInv(d.files, Changed(sys, d).listings[l], owner)
  {
    hide ValidIndex, OwnsIndex;
  }

  lemma LoadedInv(d: Disk, owner: Emails)
    requires Sound(d) && Owned(d, owner)
    ensures LoadIndex(d.index).Success? && ListingInv(d.files, Loaded(d), owner)
  {
    EmptyIndexValid();
    var i := LoadIndex(d.index).value;
    forall s | s in i.accounts ensures s.id in Loaded(d).missing <==> !Held(d.files, s.id) {
      var n :| 0 <= n < |i.accounts| && i.accounts[n] == s;
    }
  }

  lemma StepSound(d: Disk, step: Step, owner: Emails)
    requires Sound(d) && Owned(d, owner) && IsAccountStep(step) && OwnedStep(step, owner)
    ensures Sound(Apply(d, step)) && Owned(Apply(d, step), owner)
  {
    OwnedApply(d, step, owner);
    hide ValidIndex;
    var d' := Apply(d, step);
    forall id | id in d'.files && d'.files[id].Readable? ensures d'.files[id].account.id == id {
      assert OwnsFile(d'.files[id], id, owner);
    }
  }

  lemma SavePrefix(d: Disk, l: Listing, k: nat, owner: Emails)
    requires Sound(d) && Owned(d, owner) && ListingInv(d.files, l, owner) && k <= |SaveSteps(l)|
    ensures var d' := Run(d, SaveSteps(l)[..k]);
      && Sound(d') && Owned(d', owner) && d'.files == d.files
      && (k < |SaveSteps(l)| ==> d'.index == d.index)
  {
    hide ValidIndex;
    var r := Repaired(l.loaded, l.invalid);
    RepairIsBatch(l.loaded, l.invalid);
    RetainMeaning(l.loaded.accounts, (s: AccountSummary) => s.id !in l.invalid);
    OwnedSubset(l.loaded, r, owner);
    OwnedSaves(NewAccount("", "", TokenData("", "", 0, 0, "", None, None, None), 0), r, owner);
    OwnedPrefix(d, SaveSteps(l), k, owner);
    if l.invalid != [] {
      SaveIndexPrefix(d, r, k);
    }
  }

  lemma SaveKeepsSound(d: Disk, l: Listing, k: nat, owner: Emails)
    requires Sound(d) && Owned(d, owner) && ListingInv(d.files, l, owner)
    ensures var d' := PartlySaved(d, l, k); Sound(d') && Owned(d', owner) && d'.files == d.files
  {
    var steps := SaveSteps(l);
    assert steps[..|steps|] == steps;
    SavePrefix(d, l, if k <= |steps| then k else |steps|, owner);
  }

  lemma PartlySavedConsistentIff(d: Disk, l: Listing, k: nat, owner: Emails)
    requires Consistent(d) && Owned(d, owner) && ListingInv(d.files, l, owner)
    ensures Consistent(PartlySaved(d, l, k)) <==> (k >= |SaveSteps(l)| ==> SafeSave(l))
  {
    var steps := SaveSteps(l);
    assert steps[..|steps|] == steps;
    hide SafeSave, Owned, ListingInv, SaveSteps, ValidIndex;
    if k >= |steps| {
      SaveConsistentIff(d, l, owner);
    } else {
      SavePrefix(d, l, k, owner);
      var d' := PartlySaved(d, l, k);
      forall s ensures !Dangling(d', s) {
        assert !Dangling(d, s);
      }
    }
  }

  /** The operation events, finished or failed. */
  lemma PartlyRecoverable(sys: System, op: Op, k: nat, owner: Emails)
    requires Recoverable(sys, owner) && Admissible(sys.disk, op) && OwnedOp(op, owner)
    ensures Recoverable(Changed(sys, Partly(sys.disk, op, k)), owner)
  {
    hide OpSteps, Sound, Owned, ListingInv, Changed, Admissible;
    var d := sys.disk;
    var steps := OpSteps(d, op);
    assert steps[..|steps|] == steps;
    OpPrefixSound(d, op, k);
    OpOwned(d, op, owner);
    OwnedPrefix(d, steps, if k <= |steps| then k else |steps|, owner);
    ChangedListings(sys, Partly(d, op, k), owner);
    ChangedDisk(sys, Partly(d, op, k));
  }

  lemma ChangedDisk(sys: System, d: Disk)
    ensures Changed(sys, d).disk == d
  {}

  lemma FinishedIsPartly(d: Disk, op: Op)
    ensures Partly(d, op, |OpSteps(d, op)|) == Run(d, OpSteps(d, op))
  {
    var steps := OpSteps(d, op);
    assert steps[..|steps|] == steps;
  }

  /** Every possible event, safe or not, keeps the store recoverable. */
  lemma EventKeepsRecoverable(sys: System, e: Event, owner: Emails)
    requires Recoverable(sys, owner) && Possible(sys, e, owner)
    ensures Recoverable(After(sys, e), owner)
  {
    hide Sound, Owned, ListingInv, OpSteps, Changed, Admissible, SaveSteps, PartlySaved;
    var d := sys.disk;
    match e
    case Finished(op) =>
      FinishedIsPartly(d, op);
      PartlyRecoverable(sys, op, |OpSteps(d, op)|, owner);
    case Failed(op, k) => PartlyRecoverable(sys, op, k, owner);
    case Crashed(op, k) =>
      PartlyRecoverable(sys, op, k, owner);
      ChangedDisk(sys, Partly(d, op, k));
      RestartConsistent(Partly(d, op, k), owner);
      ConsistentIsSound(Restarted(Partly(d, op, k)).disk);
    case Save(step) =>
      StepSound(d, step, owner);
      ChangedListings(sys, Apply(d, step), owner);
      ChangedDisk(sys, Apply(d, step));
    case ListLoad(l) => LoadedInv(d, owner);
    case ListRead(l) =>
      if ReadsLeft(sys, l) {
        ReadKeepsInv(d, sys.listings[l], owner);
      }
    case ListSave(l, k) =>
      if AllRead(sys, l) {
        SaveKeepsSound(d, sys.listings[l], k, owner);
      }
    case CrashedSave(l, k) =>
      if AllRead(sys, l) {
        SaveKeepsSound(d, sys.listings[l], k, owner);
        RestartConsistent(PartlySaved(d, sys.listings[l], k), owner);
        ConsistentIsSound(Restarted(PartlySaved(d, sys.listings[l], k)).disk);
      }
  }

  lemma ConsistentIsSound(d: Disk)
    requires Consistent(d)
    ensures Sound(d)
  {}

  lemma ReadKeepsInv(d: Disk, l: Listing, owner: Emails)
    requires ListingInv(d.files, l, owner) && l.next < |l.loaded.accounts|
    ensures ListingInv(d.files, ReadNext(d.files, l), owner)
  {
    hide ValidIndex;
  }

  /** A step of an account save keeps consistency exactly when it does not put a torn file in place of a
      listed account. */
  lemma StepConsistentIff(d: Disk, step: Step, owner: Emails)
    requires Consistent(d) && Owned(d, owner) && IsAccountStep(step) && OwnedStep(step, owner)
    ensures LoadIndex(d.index).Success?
    ensures Consistent(Apply(d, step)) <==>
      (step.RenameAccount? && TempOf(d, step.id).Torn? ==> !Lists(LoadIndex(d.index).value.accounts, step.id))
  {
    hide ValidIndex;
    StepSound(d, step, owner);
    var d' := Apply(d, step);
    var accounts := LoadIndex(d.index).value.accounts;
    forall s | s in accounts ensures Backed(d.files, s) && s.email == owner(s.id) {
      assert !Dangling(d, s);
    }
    if step.RenameAccount? && TempOf(d, step.id).Torn? && Lists(accounts, step.id) {
      ListsMember(accounts, step.id);
      var s :| s in accounts && s.id == step.id;
      assert Dangling(d', s);
    } else {
      forall s ensures !Dangling(d', s) {
        ListsMember(accounts, s.id);
        if s in accounts && step.RenameAccount? && s.id == step.id && s.id in d.temps {
          assert OwnsFile(d.temps[s.id], s.id, owner);
        }
      }
    }
  }

  lemma PartlyConsistentIff(d: Disk, op: Op, k: nat, owner: Emails)
    requires Consistent(d) && Owned(d, owner) && Admissible(d, op) && OwnedOp(op, owner)
    ensures Consistent(Partly(d, op, k)) <==>
      (op.DeleteMany? && k < |DeleteManyPlan(d, op.ids, op.stuck).steps| ==>
         forall id | Lists(LoadIndex(d.index).value.accounts, id) ::
           RemoveAccount(id) !in DeleteManyPlan(d, op.ids, op.stuck).steps[..k])
  {
    hide Consistent, Owned, DeleteManyPlan;
    if op.DeleteMany? {
      DeleteManySteps(d, op.ids, op.stuck);
      var steps := DeleteManyPlan(d, op.ids, op.stuck).steps;
      assert steps[..|steps|] == steps;
      FailedBatchIff(d, op.ids, op.stuck, if k <= |steps| then k else |steps|);
    } else {
      OpPrefixConsistent(d, op, k, owner);
    }
  }

  /** Each event keeps the store consistent exactly when it is safe. */
  lemma EventConsistentIff(sys: System, e: Event, owner: Emails)
    requires Recoverable(sys, owner) && Consistent(sys.disk) && Possible(sys, e, owner)
    ensures LoadIndex(sys.disk.index).Success?
    ensures Consistent(After(sys, e).disk) <==> SafeEvent(sys, e)
  {
    var d := sys.disk;
    LoadedInv(d, owner);
    hide Consistent, Owned, Sound, ListingInv, OpSteps, DeleteManyPlan, Changed, Admissible, SaveSteps, SafeSave,
      TempOf, PartlySaved;
    match e
    case Finished(op) =>
      FinishedIsPartly(d, op);
      PartlyConsistentIff(d, op, |OpSteps(d, op)|, owner);
      ChangedDisk(sys, Partly(d, op, |OpSteps(d, op)|));
      if op.DeleteMany? {
        DeleteManySteps(d, op.ids, op.stuck);
      }
    case Failed(op, k) =>
      PartlyConsistentIff(d, op, k, owner);
      ChangedDisk(sys, Partly(d, op, k));
    case Crashed(op, k) =>
      PartlyRecoverable(sys, op, k, owner);
      ChangedDisk(sys, Partly(d, op, k));
      RestartConsistent(Partly(d, op, k), owner);
    case Save(step) =>
      StepConsistentIff(d, step, owner);
      ChangedDisk(sys, Apply(d, step));
    case ListSave(l, k) =>
      if AllRead(sys, l) {
        PartlySavedConsistentIff(d, sys.listings[l], k, owner);
      }
    case CrashedSave(l, k) =>
      if AllRead(sys, l) {
        SaveKeepsSound(d, sys.listings[l], k, owner);
        RestartConsistent(PartlySaved(d, sys.listings[l], k), owner);
      }
    case _ =>
  }

  // ---------- Runs ----------

  ghost predicate PossibleRun(sys: System, events: seq<Event>, owner: Emails)
    decreases |events|
  {
    events == [] || (Possible(sys, events[0], owner) && PossibleRun(After(sys, events[0]), events[1..], owner))
  }

  ghost predicate AlwaysConsistent(sys: System, events: seq<Event>)
    decreases |events|
  {
    Consistent(sys.disk) && (events == [] || AlwaysConsistent(After(sys, events[0]), events[1..]))
  }

  ghost predicate AllSafe(sys: System, events: seq<Event>)
    decreases |events|
  {
    events == [] ||
    (LoadIndex(sys.disk.index).Success? && SafeEvent(sys, events[0]) && AllSafe(After(sys, events[0]), events[1..]))
  }

  /** Over every run, with operations, failures, crashes, account saves step by step and any number of
      listings interleaved: the index stays valid and every entry keeps its file, throughout, exactly
      when every event is safe. */
  lemma {:induction false} RunKeepsConsistent(sys: System, events: seq<Event>, owner: Emails)
    requires Recoverable(sys, owner) && Consistent(sys.disk) && PossibleRun(sys, events, owner)
    ensures AlwaysConsistent(sys, events) <==> AllSafe(sys, events)
    decreases |events|
  {
    hide Consistent, After, SafeEvent, Possible, Recoverable;
    if events != [] {
      EventConsistentIff(sys, events[0], owner);
      EventKeepsRecoverable(sys, events[0], owner);
      var next := After(sys, events[0]);
      if SafeEvent(sys, events[0]) {
        RunKeepsConsistent(next, events[1..], owner);
      } else {
        assert !AlwaysConsistent(next, events[1..]);
      }
    }
  }

  /** After any possible run, unsafe events included, one undisturbed listing makes the store consistent. */
  lemma {:induction false} RunRecovers(sys: System, events: seq<Event>, owner: Emails)
    requires Recoverable(sys, owner) && PossibleRun(sys, events, owner)
    ensures Recoverable(AfterAll(sys, events), owner)
    ensures var d := AfterAll(sys, events).disk; Consistent(Run(d, ListPlan(d).steps))
    decreases |events|
  {
    hide After, Possible, Sound, Owned, ListingInv, Consistent;
    if events == [] {
      RestartConsistent(sys.disk, owner);
    } else {
      EventKeepsRecoverable(sys, events[0], owner);
      RunRecovers(After(sys, events[0]), events[1..], owner);
    }
  }

  /** A listing event sequence: `n` reads, then the save, which may fail after `k` steps. */
  function Reads(l: nat, n: nat, k: nat): seq<Event> {
    if n == 0 then [ListSave(l, k)] else [ListRead(l)] + Reads(l, n - 1, k)
  }

  lemma {:induction false} ReadsThenSave(sys: System, l: nat, k: nat)
    requires l in sys.listings && sys.listings[l].next <= |sys.listings[l].loaded.accounts|
    requires var li := sys.listings[l]; li.invalid == InvalidIds(sys.disk.files, li.loaded.accounts[..li.next])
    ensures var li := sys.listings[l];
      AfterAll(sys, Reads(l, |li.loaded.accounts| - li.next, k)).disk ==
        PartlySaved(sys.disk, li.(invalid := InvalidIds(sys.disk.files, li.loaded.accounts)), k)
    decreases |sys.listings[l].loaded.accounts| - sys.listings[l].next
  {
    hide InvalidIds, PartlySaved;
    var li := sys.listings[l];
    var accounts, n := li.loaded.accounts, |li.loaded.accounts| - li.next;
    var events := Reads(l, n, k);
    if n == 0 {
      assert accounts[..li.next] == accounts;
      assert AfterAll(sys, events) == AfterAll(After(sys, ListSave(l, k)), events[1..]);
    } else {
      var next := After(sys, ListRead(l));
      assert accounts[..li.next + 1] == accounts[..li.next] + [accounts[li.next]];
      InvalidIdsSnoc(sys.disk.files, accounts[..li.next], accounts[li.next]);
      assert events[1..] == Reads(l, n - 1, k);
      ReadsThenSave(next, l, k);
      var invalid := InvalidIds(sys.disk.files, accounts);
      SameSave(sys.disk, li.(invalid := invalid), next.listings[l].(invalid := invalid), k);
    }
  }

  lemma SameSave(d: Disk, l: Listing, l': Listing, k: nat)
    requires l'.loaded == l.loaded && l'.invalid == l.invalid
    ensures PartlySaved(d, l', k) == PartlySaved(d, l, k)
  {}

  /** A listing with nothing in between is the listing method of the store, whichever file operations
      of its save fail. */
  lemma UninterruptedListing(d: Disk, l: nat, ok: Outcome)
    requires LoadIndex(d.index).Success?
    ensures var steps := ListPlan(d).steps;
      var events := [ListLoad(l)] + Reads(l, |LoadIndex(d.index).value.accounts|, Passed(steps, ok));
      AfterAll(System(d, map[]), events).disk == Run(d, Tried(steps, ok))
  {
    hide Run;
    var i := LoadIndex(d.index).value;
    var steps := ListPlan(d).steps;
    var k := Passed(steps, ok);
    var events := [ListLoad(l)] + Reads(l, |i.accounts|, k);
    var loaded := After(System(d, map[]), ListLoad(l));
    assert events[1..] == Reads(l, |i.accounts|, k);
    assert i.accounts[..0] == [];
    ReadsThenSave(loaded, l, k);
    TriedStops(steps, ok);
    assert steps[..|steps|] == steps && steps[..k] + [] == steps[..k];
  }

  // ---------- Races ----------

  /** Two upserts of one new email that both found it missing: the one that adds second is refused
      and writes nothing, so the email is still listed once. */
  lemma UpsertRace(d: Disk, email: string, name: Option<string>, token: TokenData, id: string, now: int,
                   name': Option<string>, token': TokenData, id': string, now': int)
    requires Sound(d)
    requires UpsertPlan(d, email, name, token, now) == UpsertPlan(d, email, name', token', now') ==
      Plan([], Success(None))
    ensures var d1 := Run(d, AddPlan(d, email, name, token, id, now).steps);
      AddPlan(d1, email, name', token', id', now') == Plan([], Failure(AlreadyExists(email)))
  {
    var i := LoadIndex(d.index).value;
    FindEmailMeaning(i.accounts, email);
    AddEffect(d, email, name, token, id, now);
    var a := NewAccount(id, email, token, now).(name := name);
    var all := Append(i, SummaryOf(a)).accounts;
    assert all[|all| - 1].email == email;
  }

  /** What a save that writes does to any one entry: it is listed afterwards exactly when the listing
      loaded it and did not find it missing, whatever happened to it since. */
  lemma SaveDecides(d: Disk, l: Listing, s: AccountSummary)
    requires ValidIndex(l.loaded) && l.invalid != []
    ensures var d' := Run(d, SaveSteps(l));
      d'.index.Saved? && (s in d'.index.index.accounts <==> s in l.loaded.accounts && s.id !in l.invalid)
  {
    SavedIndex(d, l);
    RetainMeaning(l.loaded.accounts, (x: AccountSummary) => x.id !in l.invalid);
  }

  /** So the save leaves the listed entries as they are exactly when it writes nothing or the index
      lists just what the listing found. */
  lemma SaveHarmlessIff(d: Disk, l: Listing)
    requires ValidIndex(l.loaded) && d.index.Saved?
    ensures var d' := Run(d, SaveSteps(l));
      d'.index.Saved? &&
      ((forall s :: s in d'.index.index.accounts <==> s in d.index.index.accounts) <==>
        l.invalid == [] ||
        forall s :: s in d.index.index.accounts <==> s in l.loaded.accounts && s.id !in l.invalid)
  {
    SavedIndex(d, l);
    if l.invalid != [] {
      forall s {
        SaveDecides(d, l, s);
      }
      SaveDecides(d, l, AccountSummary("", "", None, 0, 0));
    }
  }

  /** An account added between the load and the save of a listing, whatever else happened, is dropped
      from the index exactly when the listing found something missing; its file stays behind. */
  lemma UnlockedRepairLosesAdd(d: Disk, l: Listing, email: string, name: Option<string>, token: TokenData, id: string,
                               now: int)
    requires Sound(d) && !ListsEmail(LoadIndex(d.index).value.accounts, email) && !ListsEmail(l.loaded.accounts, email)
    ensures var d1 := Run(d, AddPlan(d, email, name, token, id, now).steps);
      var d2 := Run(d1, SaveSteps(l));
      && d1.index.Saved? && ListsEmail(d1.index.index.accounts, email)
      && d2.index.Saved? && id in d2.files
      && (!ListsEmail(d2.index.index.accounts, email) <==> l.invalid != [])
  {
    var i := LoadIndex(d.index).value;
    var a := NewAccount(id, email, token, now).(name := name);
    AddEffect(d, email, name, token, id, now);
    var d1 := Run(d, AddPlan(d, email, name, token, id, now).steps);
    var all := Append(i, SummaryOf(a)).accounts;
    assert all[|all| - 1].email == email;
    SavedIndex(d1, l);
    if l.invalid != [] {
      var r := Repaired(l.loaded, l.invalid);
      RetainMeaning(l.loaded.accounts, (s: AccountSummary) => s.id !in l.invalid);
      forall k | 0 <= k < |r.accounts| ensures r.accounts[k].email != email {
        assert r.accounts[k] in l.loaded.accounts;
      }
    }
  }

  // ---------- Runs that lose something ----------

  lemma AfterTwo(sys: System, a: Event, b: Event, rest: seq<Event>)
    ensures AfterAll(sys, [a, b] + rest) == AfterAll(After(After(sys, a), b), rest)
  {
    hide After;
    assert ([a, b] + rest)[1..] == [b] + rest && ([b] + rest)[1..] == rest;
  }

  /** One listing under way. */
  function Alone(d: Disk, l: Listing): System {
    System(d, map[0 := l])
  }

  lemma AloneLoads(d: Disk)
    requires LoadIndex(d.index).Success?
    ensures After(System(d, map[]), ListLoad(0)) == Alone(d, Loaded(d))
  {}

  lemma AloneChanges(d: Disk, l: Listing, op: Op)
    ensures var d' := Run(d, OpSteps(d, op));
      After(Alone(d, l), Finished(op)) == Alone(d', Observing(l, d.files, d'.files))
  {
    hide OpSteps, Run, Observing;
  }

  lemma AloneReads(d: Disk, l: Listing)
    requires l.next < |l.loaded.accounts|
    ensures After(Alone(d, l), ListRead(0)) == Alone(d, ReadNext(d.files, l))
  {}

  lemma AloneSaves(d: Disk, l: Listing)
    requires l.next >= |l.loaded.accounts|
    ensures After(Alone(d, l), ListSave(0, 3)).disk == Run(d, SaveSteps(l))
  {
    assert SaveSteps(l)[..|SaveSteps(l)|] == SaveSteps(l);
  }

  function PairDisk(x: Account, y: Account): Disk {
    Disk(Saved(Index([SummaryOf(x), SummaryOf(y)], Some(x.id))), Missing,
         map[x.id := Readable(x), y.id := Readable(y)], map[])
  }

  lemma PairConsistent(x: Account, y: Account)
    requires x.id != y.id && x.email != y.email
    ensures Consistent(PairDisk(x, y))
  {
    var i := PairDisk(x, y).index.index;
    assert i.accounts[0].id == x.id;
    assert ValidIndex(i);
  }

  /** From a consistent store, without a failure or a crash: a listing loads, `x` is deleted, the
      listing reads both files, `y` is deleted, the listing saves; `y` is listed without its file. */
  lemma DeletionsInsideListing(x: Account, y: Account)
    requires x.id != y.id && x.email != y.email
    ensures var d := PairDisk(x, y);
      var events := [ListLoad(0), Finished(Delete(x.id)), ListRead(0), ListRead(0), Finished(Delete(y.id)),
        ListSave(0, 3)];
      Consistent(d) && ListPlan(d).steps == [] && Dangling(AfterAll(System(d, map[]), events).disk, SummaryOf(y))
  {
    var d := PairDisk(x, y);
    PairConsistent(x, y);
    ConsistentListsNothing(d);
    var i := d.index.index;
    var l0 := Loaded(d);
    assert i.accounts[0].id == x.id && i.accounts[1].id == y.id && |i.accounts| == 2;
    DeleteEffect(d, x.id);
    DeleteStillListed(d, x, y);
    var d1 := Run(d, DeletePlan(d, x.id).steps);
    DeleteEffect(d1, y.id);
    var d2 := Run(d1, DeletePlan(d1, y.id).steps);
    assert x.id !in d1.files && y.id in d1.files && d1.files[y.id] == Readable(y);
    assert y.id !in d2.files;
    hide *;
    TwoDeletions(d, d1, d2, l0, x.id, y.id);
    DanglesAfterSave(d2, i, SummaryOf(y), x.id);
  }

  lemma DanglesAfterSave(d: Disk, i: Index, s: AccountSummary, gone: string)
    requires s in i.accounts && s.id != gone && s.id !in d.files
    ensures Dangling(Run(d, SaveIndexSteps(Repaired(i, [gone]))), s)
  {
    var l := Listing(i, 0, [gone], {});
    SavedIndex(d, l);
    RepairKeepsOther(i, gone, s);
  }

  lemma FindsFirstGone(l: Listing, f0: map<string, FileState>, f1: map<string, FileState>,
                       f2: map<string, FileState>, x: string, y: string)
    requires |l.loaded.accounts| == 2 && l.loaded.accounts[0].id == x && l.loaded.accounts[1].id == y
    requires l.next == 0 && l.invalid == [] && IsInvalid(f1, x) && !IsInvalid(f1, y)
    ensures var l1 := Observing(l, f0, f1);
      && l1.next == 0 && l1.loaded == l.loaded
      && var l2 := ReadNext(f1, l1);
      && l2.next == 1 && l2.loaded == l.loaded
      && var l4 := Observing(ReadNext(f1, l2), f1, f2);
      && l4.next == 2 && l4.invalid == [x] && l4.loaded == l.loaded
  {}

  lemma TwoDeletions(d: Disk, d1: Disk, d2: Disk, l: Listing, x: string, y: string)
    requires LoadIndex(d.index) == Success(l.loaded) && l == Loaded(d)
    requires |l.loaded.accounts| == 2 && l.loaded.accounts[0].id == x && l.loaded.accounts[1].id == y
    requires d1 == Run(d, DeletePlan(d, x).steps) && d2 == Run(d1, DeletePlan(d1, y).steps)
    requires x !in d1.files && y in d1.files && !d1.files[y].Corrupt?
    ensures var events := [ListLoad(0), Finished(Delete(x)), ListRead(0), ListRead(0), Finished(Delete(y)),
      ListSave(0, 3)];
      AfterAll(System(d, map[]), events).disk == Run(d2, SaveIndexSteps(Repaired(l.loaded, [x])))
  {
    var b, c := [ListRead(0), ListRead(0)], [Finished(Delete(y)), ListSave(0, 3)];
    assert [ListLoad(0), Finished(Delete(x)), ListRead(0), ListRead(0), Finished(Delete(y)), ListSave(0, 3)]
      == [ListLoad(0), Finished(Delete(x))] + (b + (c + []));
    var l1 := Observing(l, d.files, d1.files);
    var l2 := ReadNext(d1.files, l1);
    var l3 := ReadNext(d1.files, l2);
    var l4 := Observing(l3, d1.files, d2.files);
    FindsFirstGone(l, d.files, d1.files, d2.files, x, y);
    assert SaveSteps(l4) == SaveIndexSteps(Repaired(l4.loaded, [x]));
    assert OpSteps(d, Delete(x)) == DeletePlan(d, x).steps && OpSteps(d1, Delete(y)) == DeletePlan(d1, y).steps;
    hide *;
    AloneLoads(d);
    AloneChanges(d, l, Delete(x));
    AloneReads(d1, l1);
    AloneReads(d1, l2);
    AloneChanges(d1, l3, Delete(y));
    AloneSaves(d2, l4);
    AfterTwo(System(d, map[]), ListLoad(0), Finished(Delete(x)), b + (c + []));
    AfterTwo(Alone(d1, l1), ListRead(0), ListRead(0), c + []);
    AfterTwo(Alone(d1, l3), Finished(Delete(y)), ListSave(0, 3), []);
  }

  lemma DeleteStillListed(d: Disk, x: Account, y: Account)
    requires d == PairDisk(x, y) && x.id != y.id && x.email != y.email
    ensures var d' := Run(d, DeletePlan(d, x.id).steps);
      LoadIndex(d'.index).Success? && Lists(LoadIndex(d'.index).value.accounts, y.id)
  {
    PairConsistent(x, y);
    var i := d.index.index;
    assert i.accounts[0].id == x.id && i.accounts[1].id == y.id;
    DeleteEffect(d, x.id);
    ListsAfterDelete(i, x.id, y.id);
  }

  lemma RepairKeepsOther(i: Index, gone: string, s: AccountSummary)
    requires s in i.accounts && s.id != gone
    ensures s in Repaired(i, [gone]).accounts
  {
    RetainMeaning(i.accounts, (t: AccountSummary) => t.id !in [gone]);
  }

  /** From a store that lists one account whose file is corrupt: a listing loads and reads, `added`
      is added, the listing saves; the new account's file is there and the index does not list it. */
  lemma AddInsideListing(x: Account, email: string, name: Option<string>, token: TokenData, id: string, now: int)
    requires email != x.email
    ensures var d := Disk(Saved(Index([SummaryOf(x)], Some(x.id))), Missing, map[x.id := Corrupt], map[]);
      var after := AfterAll(System(d, map[]),
        [ListLoad(0), ListRead(0), Finished(Add(email, name, token, id, now)), ListSave(0, 3)]).disk;
      Sound(d) && id in after.files && after.index.Saved? && !ListsEmail(after.index.index.accounts, email)
  {
    var d := Disk(Saved(Index([SummaryOf(x)], Some(x.id))), Missing, map[x.id := Corrupt], map[]);
    var i := d.index.index;
    assert i.accounts[0].id == x.id && |i.accounts| == 1;
    var op := Add(email, name, token, id, now);
    var l0 := Loaded(d);
    var l1 := ReadNext(d.files, l0);
    assert l1.loaded == i && l1.next == 1 && l1.invalid == [x.id];
    var d1 := Run(d, OpSteps(d, op));
    var l2 := Observing(l1, d.files, d1.files);
    AloneLoads(d);
    AloneReads(d, l0);
    AloneChanges(d, l1, op);
    AloneSaves(d1, l2);
    UnlockedRepairLosesAdd(d, l1, email, name, token, id, now);
    assert SaveSteps(l2) == SaveSteps(l1) && OpSteps(d, op) == AddPlan(d, email, name, token, id, now).steps;
    var c := [Finished(op), ListSave(0, 3)];
    assert [ListLoad(0), ListRead(0), Finished(op), ListSave(0, 3)] == [ListLoad(0), ListRead(0)] + (c + []);
    hide After, Run, AddPlan, Repaired, Alone, ReadNext, OpSteps, SaveSteps, Observing, Loaded;
    AfterTwo(System(d, map[]), ListLoad(0), ListRead(0), c + []);
    AfterTwo(Alone(d, l1), Finished(op), ListSave(0, 3), []);
  }

  /** A batch deletion that fails after removing the first file, its index unsaved. */
  lemma FailedBatchDangles(x: Account, y: Account)
    requires x.id != y.id && x.email != y.email
    ensures var d := PairDisk(x, y);
      Consistent(d) && !Consistent(After(System(d, map[]), Failed(DeleteMany([x.id], {}), 1)).disk)
  {
    hide ValidIndex;
    var d := PairDisk(x, y);
    PairConsistent(x, y);
    assert RemoveSteps(d.files - {}, [x.id]) == [RemoveAccount(x.id)] by {
      assert [x.id][1..] == [];
    }
    var steps := DeleteManyPlan(d, [x.id], {}).steps;
    assert steps[..1] == [RemoveAccount(x.id)];
    RunThree(d, RemoveAccount(x.id), RemoveAccount(x.id), RemoveAccount(x.id));
    assert SummaryOf(x) in d.index.index.accounts;
    assert Dangling(Run(d, steps[..1]), SummaryOf(x));
  }

  /** Steps of account saves, as events. */
  function Saves(steps: seq<Step>): seq<Event> {
    if steps == [] then [] else [Save(steps[0])] + Saves(steps[1..])
  }

  lemma {:induction false} SavesRun(d: Disk, steps: seq<Step>)
    ensures AfterAll(System(d, map[]), Saves(steps)) == System(Run(d, steps), map[])
    decreases |steps|
  {
    if steps != [] {
      var sys := System(d, map[]);
      assert Saves(steps)[1..] == Saves(steps[1..]);
      assert After(sys, Save(steps[0])) == System(Apply(d, steps[0]), map[]);
      SavesRun(Apply(d, steps[0]), steps[1..]);
    }
  }

  /** What the store does in an operation whose file operations can fail is an event of the runs: the
      operation stops after the steps that passed, and at most drops its temporary file. */
  lemma TriedIsFailed(d: Disk, op: Op, ok: Outcome)
    ensures var steps := OpSteps(d, op);
      var k := Passed(steps, ok);
      var drop := if k < |steps| then Cleanup(steps[k], ok) else [];
      && Run(d, Tried(steps, ok)) == Run(Partly(d, op, k), drop)
      && AfterAll(System(d, map[]), [Failed(op, k)] + Saves(drop)) == System(Run(d, Tried(steps, ok)), map[])
      && forall step | step in drop :: step.DropAccountTemp?
  {
    var steps := OpSteps(d, op);
    var k := Passed(steps, ok);
    var drop := if k < |steps| then Cleanup(steps[k], ok) else [];
    TriedStops(steps, ok);
    RunConcat(d, steps[..k], drop);
    var events := [Failed(op, k)] + Saves(drop);
    assert events[1..] == Saves(drop);
    hide OpSteps, Tried, Run, Partly, Cleanup;
    assert After(System(d, map[]), Failed(op, k)) == System(Partly(d, op, k), map[]);
    SavesRun(Partly(d, op, k), drop);
  }

  /** So with failing file operations too, an operation leaves the store consistent, but for a batch
      deletion that cannot save the index after it removed the file of a listed account. */
  lemma TriedConsistentIff(d: Disk, op: Op, ok: Outcome, owner: Emails)
    requires Consistent(d) && Owned(d, owner) && Admissible(d, op) && OwnedOp(op, owner)
    requires op.DeleteMany? ==> op.stuck == Stuck(op.ids, ok)
    ensures Consistent(Run(d, Tried(OpSteps(d, op), ok))) <==>
      (op.DeleteMany? && Verdict(OpSteps(d, op), ok).Some? ==>
         forall id | id in op.ids && ok(RemoveAccount(id)) :: !Lists(LoadIndex(d.index).value.accounts, id))
  {
    var steps := OpSteps(d, op);
    var k := Passed(steps, ok);
    var drop := if k < |steps| then Cleanup(steps[k], ok) else [];
    TriedStops(steps, ok);
    TriedIsFailed(d, op, ok);
    PartlyConsistentIff(d, op, k, owner);
    DropsHarmless(Partly(d, op, k), drop);
    if op.DeleteMany? {
      DeleteManySteps(d, op.ids, op.stuck);
      FailedSaveAfterRemovals(d, op.ids, ok);
    }
  }

  lemma DropsHarmless(d: Disk, drop: seq<Step>)
    requires |drop| <= 1 && forall step | step in drop :: step.DropAccountTemp?
    ensures Consistent(Run(d, drop)) <==> Consistent(d)
  {
    hide ValidIndex;
    if drop != [] {
      assert drop == [drop[0]] && drop[0] in drop;
      RunThree(d, drop[0], drop[0], drop[0]);
      var d' := Run(d, drop);
      forall s ensures Dangling(d', s) <==> Dangling(d, s) {}
    } else {
      RunThree(d, TearIndex, TearIndex, TearIndex);
    }
  }

  /** A batch deletion that fails has removed all it can. */
  lemma FailedSaveAfterRemovals(d: Disk, ids: seq<string>, ok: Outcome)
    requires Consistent(d)
    ensures var steps := DeleteManyPlan(d, ids, Stuck(ids, ok)).steps;
      var k := Passed(steps, ok);
      k < |steps| ==> forall id | Lists(LoadIndex(d.index).value.accounts, id) ::
        RemoveAccount(id) in steps[..k] <==> id in ids && ok(RemoveAccount(id))
  {
    var i := LoadIndex(d.index).value;
    var remove, saved := RemoveSteps(d.files - Stuck(ids, ok), ids), DeleteBatch(i, ids);
    RemoveStepsAre(d.files - Stuck(ids, ok), ids);
    forall id | Lists(i.accounts, id) ensures id in d.files {
      ListsMember(i.accounts, id);
      var s :| s in i.accounts && s.id == id;
      assert !Dangling(d, s);
    }
    assert forall id | Lists(i.accounts, id) :: RemoveAccount(id) in remove <==> id in ids && ok(RemoveAccount(id));
    assert forall r | r in remove :: ok(r);
    assert DeleteManyPlan(d, ids, Stuck(ids, ok)).steps == remove + SaveIndexSteps(saved);
    hide *;
    PassedRemovals(remove, saved, ok);
  }

  lemma PassedRemovals(remove: seq<Step>, i: Index, ok: Outcome)
    requires forall r | r in remove :: ok(r)
    ensures var steps := remove + SaveIndexSteps(i);
      var k := Passed(steps, ok);
      k < |steps| ==> forall id :: RemoveAccount(id) in steps[..k] <==> RemoveAccount(id) in remove
  {
    var steps := remove + SaveIndexSteps(i);
    var k := Passed(steps, ok);
    forall j | 0 <= j < |remove| ensures ok(steps[j]) {
      assert steps[j] == remove[j] && remove[j] in remove;
    }
    if k < |steps| {
      assert k >= |remove|;
      assert steps[..k] == remove + SaveIndexSteps(i)[..k - |remove|];
    }
  }

  /** Two saves of one listed account, neither locked, none failing: its file is torn, and the next
      listing drops the account from the index. */
  lemma TornAccountIsDropped(x: Account, y: Account, a: Account, b: Account)
    requires x.id != y.id && x.email != y.email && a.id == b.id == x.id
    ensures var d := PairDisk(x, y);
      var steps := SaveAccountSteps(a)[..2] + SaveAccountSteps(b)[..1] + SaveAccountSteps(a)[2..];
      var torn := AfterAll(System(d, map[]), Saves(steps)).disk;
      var listed := Run(torn, ListPlan(torn).steps);
      && Consistent(d) && Dangling(torn, SummaryOf(x))
      && listed.index.Saved? && !Lists(listed.index.index.accounts, x.id)
  {
    var d := PairDisk(x, y);
    var i := d.index.index;
    var steps := SaveAccountSteps(a)[..2] + SaveAccountSteps(b)[..1] + SaveAccountSteps(a)[2..];
    var torn := Run(d, steps);
    PairConsistent(x, y);
    SharedTempTearsAccount(d, a, b);
    SavesRun(d, steps);
    assert i.accounts[0] == SummaryOf(x) && SummaryOf(x) in i.accounts;
    assert torn.files[x.id] == Corrupt && torn.files[y.id] == Readable(y) && torn.index == d.index;
    hide Run, SaveAccountSteps, ValidIndex;
    forall s | s in i.accounts ensures Backed(torn.files, s) || IsInvalid(torn.files, s.id) {}
    assert forall id | id in torn.files && torn.files[id].Readable? :: id == y.id;
    ListRepairs(torn);
    InvalidIdsMeaning(torn.files, i.accounts);
    DropsInvalid(i, InvalidIds(torn.files, i.accounts), x.id);
  }

  lemma DropsInvalid(i: Index, invalid: seq<string>, id: string)
    requires id in invalid
    ensures !Lists(Repaired(i, invalid).accounts, id)
  {
    RetainMeaning(i.accounts, (s: AccountSummary) => s.id !in invalid);
    ListsMember(Repaired(i, invalid).accounts, id);
  }

  /** A save that started before a deletion and ends after it brings the file back, unlisted. */
  lemma DeletedFileReturns(x: Account, y: Account, a: Account)
    requires x.id != y.id && x.email != y.email && a.id == x.id
    ensures var d := PairDisk(x, y);
      var written := Run(d, SaveAccountSteps(a)[..2]);
      var deleted := Run(written, DeletePlan(written, x.id).steps);
      var end := Run(deleted, SaveAccountSteps(a)[2..]);
      && x.id !in deleted.files && end.files == deleted.files[x.id := Readable(a)]
      && LoadIndex(end.index).Success? && !Lists(LoadIndex(end.index).value.accounts, x.id)
  {
    var d := PairDisk(x, y);
    PairConsistent(x, y);
    var written := Run(d, SaveAccountSteps(a)[..2]);
    assert SaveAccountSteps(a)[..2] == [TearAccount(a.id), WriteAccount(a)];
    RunThree(d, TearAccount(a.id), WriteAccount(a), RenameAccount(a.id));
    var i := d.index.index;
    assert i.accounts[0].id == x.id;
    DeleteEffect(written, x.id);
    DeleteOneValid(i, x.id);
    var deleted := Run(written, DeletePlan(written, x.id).steps);
    var save := SaveIndexSteps(DeleteOne(i, x.id));
    assert save[..3] == save;
    SaveIndexPrefix(written, DeleteOne(i, x.id), 3);
    RunPrefix(written, save, RemoveStep(written.files, x.id), 0);
    RemoveStepEffect(Run(written, save), x.id);
    assert SaveAccountSteps(a)[2..] == [RenameAccount(a.id)];
    RunThree(deleted, RenameAccount(a.id), RenameAccount(a.id), RenameAccount(a.id));
  }
}
