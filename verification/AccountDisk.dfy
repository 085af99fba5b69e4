/** The account store on disk, one file operation at a time: the plans of account/crud.rs,
    storage.rs, index.rs and current.rs, and the disk after every prefix of a plan. */
module AccountDisk {
  import opened Wrappers
  import opened AccountModel
  import opened AccountIndex

  // ---------- Disk and steps ----------

  datatype FileState = Readable(account: Account) | Corrupt | Unreadable

  datatype IndexFile = Missing | Damaged | Saved(index: Index)

  /** Account files are keyed by the id in their name; `temps` and `tempIndex` are the .tmp files. */
  datatype Disk = Disk(index: IndexFile, tempIndex: IndexFile,
                       files: map<string, FileState>, temps: map<string, FileState>)

  /** A write leaves a torn file before it leaves the whole one; a rename is atomic, and fails without
      effect when there is nothing to rename. A failing account save drops its temporary file. */
  datatype Step =
    | TearAccount(id: string)
    | WriteAccount(account: Account)
    | RenameAccount(id: string)
    | DropAccountTemp(id: string)
    | RemoveAccount(id: string)
    | TearIndex
    | WriteIndex(index: Index)
    | RenameIndex

  function Apply(d: Disk, step: Step): Disk {
    match step
    case TearAccount(id) => d.(temps := d.temps[id := Corrupt])
    case WriteAccount(a) => d.(temps := d.temps[a.id := Readable(a)])
    case RenameAccount(id) =>
      if id in d.temps then d.(files := d.files[id := d.temps[id]], temps := d.temps - {id}) else d
    case DropAccountTemp(id) => d.(temps := d.temps - {id})
    case RemoveAccount(id) => d.(files := d.files - {id})
    case TearIndex => d.(tempIndex := Damaged)
    case WriteIndex(i) => d.(tempIndex := Saved(i))
    case RenameIndex => if d.tempIndex.Missing? then d else d.(index := d.tempIndex, tempIndex := Missing)
  }

  function Run(d: Disk, steps: seq<Step>): Disk
    decreases |steps|
  {
    if steps == [] then d else Run(Apply(d, steps[0]), steps[1..])
  }

  lemma {:induction false} RunConcat(d: Disk, a: seq<Step>, b: seq<Step>)
    ensures Run(d, a + b) == Run(Run(d, a), b)
    decreases |a|
  {
    if a == [] {
      assert a + b == b;
    } else {
      assert (a + b)[1..] == a[1..] + b;
      RunConcat(Apply(d, a[0]), a[1..], b);
    }
  }

  function SaveAccountSteps(a: Account): seq<Step> {
    [TearAccount(a.id), WriteAccount(a), RenameAccount(a.id)]
  }

  function SaveIndexSteps(i: Index): seq<Step> {
    [TearIndex, WriteIndex(i), RenameIndex]
  }

  // ---------- Loading ----------

  datatype StoreError =
    | IndexDamaged
    | AlreadyExists(email: string)
    | AccountNotFound(id: string)
    | AccountUnreadable(id: string)
    | AccountCorrupt(id: string)
    | WriteFailed
    | RenameFailed
    | RemoveFailed

  function LoadIndex(file: IndexFile): Result<Index, StoreError> {
    match file
    case Missing => Success(EMPTY_INDEX)
    case Damaged => Failure(IndexDamaged)
    case Saved(i) => Success(i)
  }

  function LoadAccount(files: map<string, FileState>, id: string): Result<Account, StoreError> {
    if id !in files then Failure(AccountNotFound(id))
    else
      match files[id]
      case Readable(a) => Success(a)
      case Corrupt => Failure(AccountCorrupt(id))
      case Unreadable => Failure(AccountUnreadable(id))
  }

  // ---------- Plans: what each operation does to the disk, step by step ----------

  datatype Plan<T> = Plan(steps: seq<Step>, result: Result<T, StoreError>)

  function SummaryOf(a: Account): AccountSummary {
    AccountSummary(a.id, a.email, a.name, a.createdAt, a.lastUsed)
  }

  function AddPlan(d: Disk, email: string, name: Option<string>, token: TokenData, id: string,
                   now: int): Plan<Account> {
    match LoadIndex(d.index)
    case Failure(e) => Plan([], Failure(e))
    case Success(i) =>
      if ListsEmail(i.accounts, email) then Plan([], Failure(AlreadyExists(email)))
      else
        var a := NewAccount(id, email, token, now).(name := name);
        Plan(SaveAccountSteps(a) + SaveIndexSteps(Append(i, SummaryOf(a))), Success(a))
  }

  /** A new token also re-enables a disabled account when the credentials changed. */
  function Refreshed(a: Account, name: Option<string>, token: TokenData, now: int): Account {
    var b := a.(token := token, name := name, lastUsed := now);
    if a.disabled && (token.refreshToken != a.token.refreshToken || token.accessToken != a.token.accessToken)
    then b.(disabled := false, disabledReason := None, disabledAt := None)
    else b
  }

  /** The locked half of an upsert; `None` means the email is new and `add_account` runs next,
      under a lock of its own. */
  function UpsertPlan(d: Disk, email: string, name: Option<string>, token: TokenData, now: int): Plan<Option<Account>> {
    match LoadIndex(d.index)
    case Failure(e) => Plan([], Failure(e))
    case Success(i) =>
      match FindEmail(i.accounts, email)
      case None => Plan([], Success(None))
      case Some(s) =>
        var a :=
          match LoadAccount(d.files, s.id)
          case Success(stored) => Refreshed(stored, name, token, now)
          case Failure(_) => NewAccount(s.id, email, token, now).(name := name);
        Plan(SaveAccountSteps(a) + SaveIndexSteps(i.(accounts := Rename(i.accounts, s.id, name))), Success(Some(a)))
  }

  function RemoveStep(files: map<string, FileState>, id: string): seq<Step> {
    if id in files then [RemoveAccount(id)] else []
  }

  /** The index is saved before the file goes. */
  function DeletePlan(d: Disk, id: string): Plan<()> {
    match LoadIndex(d.index)
    case Failure(e) => Plan([], Failure(e))
    case Success(i) =>
      if !Lists(i.accounts, id) then Plan([], Failure(AccountNotFound(id)))
      else Plan(SaveIndexSteps(DeleteOne(i, id)) + RemoveStep(d.files, id), Success(()))
  }

  function RemoveSteps(files: map<string, FileState>, ids: seq<string>): seq<Step> {
    if ids == [] then [] else RemoveStep(files, ids[0]) + RemoveSteps(files - {ids[0]}, ids[1..])
  }

  /** The files go before the index is saved. Files that cannot be removed stay, without an error. */
  function DeleteManyPlan(d: Disk, ids: seq<string>, stuck: set<string>): Plan<()> {
    match LoadIndex(d.index)
    case Failure(e) => Plan([], Failure(e))
    case Success(i) => Plan(RemoveSteps(d.files - stuck, ids) + SaveIndexSteps(DeleteBatch(i, ids)), Success(()))
  }

  function ReorderPlan(d: Disk, ids: seq<string>): Plan<()> {
    match LoadIndex(d.index)
    case Failure(e) => Plan([], Failure(e))
    case Success(i) => Plan(SaveIndexSteps(Reorder(i, ids)), Success(()))
  }

  function SetCurrentPlan(d: Disk, id: string): Plan<()> {
    match LoadIndex(d.index)
    case Failure(e) => Plan([], Failure(e))
    case Success(i) => Plan(SaveIndexSteps(i.(current := Some(id))), Success(()))
  }

  /** A file that is gone or does not parse makes its entry invalid; one that merely cannot be
      read does not. */
  predicate IsInvalid(files: map<string, FileState>, id: string) {
    id !in files || files[id].Corrupt?
  }

  function InvalidIds(files: map<string, FileState>, accounts: seq<AccountSummary>): seq<string> {
    if accounts == [] then []
    else (if IsInvalid(files, accounts[0].id) then [accounts[0].id] else []) + InvalidIds(files, accounts[1..])
  }

  function LoadedAccounts(files: map<string, FileState>, accounts: seq<AccountSummary>): seq<Account> {
    if accounts == [] then []
    else
      (match LoadAccount(files, accounts[0].id) case Success(a) => [a] case Failure(_) => [])
      + LoadedAccounts(files, accounts[1..])
  }

  function ListPlan(d: Disk): Plan<seq<Account>> {
    match LoadIndex(d.index)
    case Failure(e) => Plan([], Failure(e))
    case Success(i) =>
      var invalid := InvalidIds(d.files, i.accounts);
      Plan(if invalid == [] then [] else SaveIndexSteps(Repaired(i, invalid)),
        Success(LoadedAccounts(d.files, i.accounts)))
  }

  // ---------- Failing file operations ----------

  /** Which file operations succeed. */
  type Outcome = Step -> bool

  /** A failing account save tries to drop its temporary file; a failing index save does not. */
  function Cleanup(failed: Step, ok: Outcome): seq<Step> {
    var drop :=
      match failed
      case TearAccount(id) => [DropAccountTemp(id)]
      case WriteAccount(a) => [DropAccountTemp(a.id)]
      case RenameAccount(id) => [DropAccountTemp(id)]
      case _ => [];
    if drop != [] && ok(drop[0]) then drop else []
  }

  function ErrorOf(failed: Step): StoreError {
    match failed
    case RenameAccount(_) => RenameFailed
    case RenameIndex => RenameFailed
    case RemoveAccount(_) => RemoveFailed
    case _ => WriteFailed
  }

  /** The steps really taken when the first failing one ends the operation. */
  function Tried(steps: seq<Step>, ok: Outcome): seq<Step> {
    if steps == [] then []
    else if ok(steps[0]) then [steps[0]] + Tried(steps[1..], ok)
    else Cleanup(steps[0], ok)
  }

  function Verdict(steps: seq<Step>, ok: Outcome): Option<StoreError> {
    if steps == [] then None
    else if ok(steps[0]) then Verdict(steps[1..], ok)
    else Some(ErrorOf(steps[0]))
  }

  function Answer<T>(plan: Plan<T>, ok: Outcome): Result<T, StoreError> {
    match Verdict(plan.steps, ok)
    case None => plan.result
    case Some(e) => Failure(e)
  }

  /** The files that a batch deletion cannot remove. */
  function Stuck(ids: seq<string>, ok: Outcome): set<string> {
    set id | id in ids && !ok(RemoveAccount(id))
  }

  /** How many steps pass before the first failing one. */
  function Passed(steps: seq<Step>, ok: Outcome): (k: nat)
    ensures k <= |steps|
    ensures forall j | 0 <= j < k :: ok(steps[j])
    ensures k < |steps| ==> !ok(steps[k])
  {
    if steps == [] || !ok(steps[0]) then 0 else 1 + Passed(steps[1..], ok)
  }

  /** So a failing operation stops like one that is interrupted there, and at most drops a temporary
      file; it fails exactly when some step does. */
  lemma {:induction false} TriedStops(steps: seq<Step>, ok: Outcome)
    ensures var k := Passed(steps, ok);
      && Tried(steps, ok) == steps[..k] + (if k < |steps| then Cleanup(steps[k], ok) else [])
      && Verdict(steps, ok) == if k < |steps| then Some(ErrorOf(steps[k])) else None
  {
    if steps != [] && ok(steps[0]) {
      TriedStops(steps[1..], ok);
      var k := Passed(steps[1..], ok);
      assert steps[..k + 1] == [steps[0]] + steps[1..][..k];
    }
  }

  lemma {:induction false} TriedConcat(a: seq<Step>, b: seq<Step>, ok: Outcome)
    ensures Tried(a + b, ok) == if Verdict(a, ok).None? then a + Tried(b, ok) else Tried(a, ok)
    ensures Verdict(a + b, ok) == if Verdict(a, ok).None? then Verdict(b, ok) else Verdict(a, ok)
    ensures Verdict(a, ok).None? ==> Tried(a, ok) == a
    decreases |a|
  {
    if a == [] {
      assert a + b == b;
    } else {
      assert (a + b)[1..] == a[1..] + b;
      TriedConcat(a[1..], b, ok);
    }
  }

  lemma TriedThree(a: Step, b: Step, c: Step, ok: Outcome)
    ensures Tried([a, b, c], ok) ==
      if !ok(a) then Cleanup(a, ok)
      else if !ok(b) then [a] + Cleanup(b, ok)
      else if !ok(c) then [a, b] + Cleanup(c, ok)
      else [a, b, c]
    ensures Verdict([a, b, c], ok) ==
      if !ok(a) then Some(ErrorOf(a))
      else if !ok(b) then Some(ErrorOf(b))
      else if !ok(c) then Some(ErrorOf(c))
      else None
  {
    hide Cleanup, ErrorOf;
    assert [a, b, c][1..] == [b, c] && [b, c][1..] == [c] && [c][1..] == [];
    assert Tried([c], ok) == if ok(c) then [c] else Cleanup(c, ok);
    assert Tried([b, c], ok) == if ok(b) then [b] + Tried([c], ok) else Cleanup(b, ok);
    assert Verdict([c], ok) == if ok(c) then None else Some(ErrorOf(c));
    assert Verdict([b, c], ok) == if ok(b) then Verdict([c], ok) else Some(ErrorOf(b));
  }

  lemma {:induction false} RemoveStepsAre(files: map<string, FileState>, ids: seq<string>)
    ensures forall r | r in RemoveSteps(files, ids) :: r.RemoveAccount?
    ensures forall id :: RemoveAccount(id) in RemoveSteps(files, ids) <==> id in ids && id in files
  {
    if ids != [] {
      RemoveStepsAre(files - {ids[0]}, ids[1..]);
    }
  }

  lemma {:induction false} AllPass(steps: seq<Step>, ok: Outcome)
    requires forall step | step in steps :: ok(step)
    ensures Verdict(steps, ok) == None
  {
    if steps != [] {
      assert steps[0] in steps;
      AllPass(steps[1..], ok);
    }
  }

  /** The removals that a batch deletion takes do not fail. */
  lemma RemovalsPass(files: map<string, FileState>, ids: seq<string>, ok: Outcome)
    ensures Verdict(RemoveSteps(files - Stuck(ids, ok), ids), ok) == None
  {
    hide Verdict;
    RemoveStepsAre(files - Stuck(ids, ok), ids);
    AllPass(RemoveSteps(files - Stuck(ids, ok), ids), ok);
  }

  // ---------- Invariants ----------

  /** The file an index entry needs. */
  predicate Backed(files: map<string, FileState>, s: AccountSummary) {
    && s.id in files && files[s.id].Readable?
    && files[s.id].account.id == s.id && files[s.id].account.email == s.email
  }

  /** An index entry without its file. */
  ghost predicate Dangling(d: Disk, s: AccountSummary) {
    d.index.Saved? && s in d.index.index.accounts && !Backed(d.files, s)
  }

  /** The index is whole and valid, and readable files hold the account they are named after. */
  ghost predicate Sound(d: Disk) {
    && (d.index.Missing? || (d.index.Saved? && ValidIndex(d.index.index)))
    && forall id | id in d.files && d.files[id].Readable? :: d.files[id].account.id == id
  }

  ghost predicate Consistent(d: Disk) {
    Sound(d) && forall s :: !Dangling(d, s)
  }

  /** What a crash after any number of steps leaves: a sound disk, no dangling email that was not
      dangling before, and an index that is wholly the old one or wholly the new one. */
  ghost predicate CrashSafe(d: Disk, steps: seq<Step>) {
    forall k | 0 <= k <= |steps| ::
      var d' := Run(d, steps[..k]);
      && Sound(d')
      && (d'.index == d.index || d'.index == Run(d, steps).index)
      && forall s' | Dangling(d', s') :: exists s :: Dangling(d, s) && s.id == s'.id
  }

  lemma CrashSafeKeepsConsistent(d: Disk, steps: seq<Step>, k: nat)
    requires CrashSafe(d, steps) && Consistent(d) && k <= |steps|
    ensures Consistent(Run(d, steps[..k]))
  {}

  lemma SaveAccountPrefix(d: Disk, a: Account, k: nat)
    requires k <= 3
    ensures var d' := Run(d, SaveAccountSteps(a)[..k]);
      && d'.index == d.index && d'.tempIndex == d.tempIndex
      && d'.files == if k == 3 then d.files[a.id := Readable(a)] else d.files
  {
    var s := SaveAccountSteps(a);
    var d1, d2, d3 := Apply(d, s[0]), Apply(Apply(d, s[0]), s[1]), Apply(Apply(Apply(d, s[0]), s[1]), s[2]);
    RunThree(d, s[0], s[1], s[2]);
    assert s[..0] == [] && s[..1] == [s[0]] && s[..2] == [s[0], s[1]] && s[..3] == [s[0], s[1], s[2]];
  }

  lemma SaveIndexPrefix(d: Disk, i: Index, k: nat)
    requires k <= 3
    ensures var d' := Run(d, SaveIndexSteps(i)[..k]);
      && d'.files == d.files && d'.temps == d.temps
      && d'.index == if k == 3 then Saved(i) else d.index
  {
    var s := SaveIndexSteps(i);
    RunThree(d, s[0], s[1], s[2]);
    assert s[..0] == [] && s[..1] == [s[0]] && s[..2] == [s[0], s[1]] && s[..3] == [s[0], s[1], s[2]];
  }

  lemma RunThree(d: Disk, a: Step, b: Step, c: Step)
    ensures Run(d, []) == d && Run(d, [a]) == Apply(d, a) && Run(d, [a, b]) == Apply(Apply(d, a), b)
    ensures Run(d, [a, b, c]) == Apply(Apply(Apply(d, a), b), c)
  {
    hide Apply;
    assert [a, b, c][1..] == [b, c] && [b, c][1..] == [c] && [a, b][1..] == [b];
    assert [a][1..] == [] && [b][1..] == [] && [c][1..] == [];
    assert Run(Apply(Apply(d, a), b), [c]) == Apply(Apply(Apply(d, a), b), c);
    assert Run(Apply(d, a), [b]) == Apply(Apply(d, a), b);
    assert Run(Apply(d, a), [b, c]) == Run(Apply(Apply(d, a), b), [c]);
  }

  /** A prefix of two plans in sequence. */
  lemma RunPrefix(d: Disk, a: seq<Step>, b: seq<Step>, k: nat)
    requires k <= |a| + |b|
    ensures Run(d, (a + b)[..k]) == if k <= |a| then Run(d, a[..k]) else Run(Run(d, a), b[..k - |a|])
    ensures Run(d, a + b) == Run(Run(d, a), b)
  {
    RunConcat(d, a, b);
    if k <= |a| {
      assert (a + b)[..k] == a[..k];
    } else {
      assert (a + b)[..k] == a + b[..k - |a|];
      RunConcat(d, a, b[..k - |a|]);
    }
  }

  /** Save one account, then the index: the shape of add and upsert. */
  lemma SaveBothPrefix(d: Disk, a: Account, i: Index, k: nat)
    requires k <= 6
    ensures var d' := Run(d, (SaveAccountSteps(a) + SaveIndexSteps(i))[..k]);
      && d'.files == (if k >= 3 then d.files[a.id := Readable(a)] else d.files)
      && d'.index == (if k == 6 then Saved(i) else d.index)
  {
    var s, t := SaveAccountSteps(a), SaveIndexSteps(i);
    RunPrefix(d, s, t, k);
    assert s[..3] == s;
    SaveAccountPrefix(d, a, 3);
    if k <= 3 {
      SaveAccountPrefix(d, a, k);
    } else {
      SaveIndexPrefix(Run(d, s), i, k - 3);
    }
  }
}
