/** What crashes, repairs and batches do to the account store. */
module AccountRecovery {
  import opened Wrappers
  import opened AccountModel
  import opened AccountIndex
  import opened AccountDisk

  // ---------- Crash safety of the single operations ----------

  lemma NoStepsCrashSafe(d: Disk)
    requires Sound(d)
    ensures CrashSafe(d, [])
  {}

  lemma AddCrashSafe(d: Disk, email: string, name: Option<string>, token: TokenData, id: string, now: int)
    requires Sound(d) && !Lists(LoadIndex(d.index).value.accounts, id)
    ensures CrashSafe(d, AddPlan(d, email, name, token, id, now).steps)
  {
    hide ValidIndex;
    var i := LoadIndex(d.index).value;
    if ListsEmail(i.accounts, email) {
      NoStepsCrashSafe(d);
    } else {
      var a := NewAccount(id, email, token, now).(name := name);
      var i' := Append(i, SummaryOf(a));
      var steps := SaveAccountSteps(a) + SaveIndexSteps(i');
      EmptyIndexValid();
      AppendValid(i, SummaryOf(a));
      assert steps[..6] == steps;
      SaveBothPrefix(d, a, i', 6);
      forall k | 0 <= k <= |steps|
        ensures var d' := Run(d, steps[..k]);
          && Sound(d') && (d'.index == d.index || d'.index == Run(d, steps).index)
          && forall s' | Dangling(d', s') :: exists s :: Dangling(d, s) && s.id == s'.id
      {
        SaveBothPrefix(d, a, i', k);
        var d' := Run(d, steps[..k]);
        forall s' | Dangling(d', s') ensures exists s :: Dangling(d, s) && s.id == s'.id {
          assert s' in i.accounts;
          assert s'.id != id by {
            ListsMember(i.accounts, id);
          }
          assert Dangling(d, s');
        }
      }
    }
  }

  lemma EmptyIndexValid()
    ensures ValidIndex(EMPTY_INDEX)
  {}

  lemma UpsertCrashSafe(d: Disk, email: string, name: Option<string>, token: TokenData, now: int)
    requires Sound(d)
    ensures CrashSafe(d, UpsertPlan(d, email, name, token, now).steps)
  {
    hide ValidIndex, CrashSafe;
    var i := LoadIndex(d.index).value;
    FindEmailMeaning(i.accounts, email);
    match FindEmail(i.accounts, email)
    case None =>
      NoStepsCrashSafe(d);
    case Some(s) =>
      var a := UpsertPlan(d, email, name, token, now).result.value.value;
      assert a.id == s.id && (a.email == s.email || !Backed(d.files, s));
      RewriteCrashSafe(d, s, a, name);
  }

  lemma RewriteSound(d: Disk, s: AccountSummary, a: Account, name: Option<string>, k: nat)
    requires Sound(d) && d.index.Saved? && s in d.index.index.accounts && k <= 6 && a.id == s.id
    ensures var i := d.index.index;
      Sound(Run(d, (SaveAccountSteps(a) + SaveIndexSteps(i.(accounts := Rename(i.accounts, s.id, name))))[..k]))
  {
    var i := d.index.index;
    RenameValid(i, s.id, name);
    SaveBothPrefix(d, a, i.(accounts := Rename(i.accounts, s.id, name)), k);
    hide ValidIndex, Run, Rename;
  }

  /** Rewriting a listed account's file and renaming its entry, after `k` steps. */
  lemma RewritePrefix(d: Disk, s: AccountSummary, a: Account, name: Option<string>, k: nat, s': AccountSummary)
    requires Sound(d) && d.index.Saved? && s in d.index.index.accounts && k <= 6
    requires a.id == s.id && (a.email == s.email || !Backed(d.files, s))
    ensures var i := d.index.index;
      var d' := Run(d, (SaveAccountSteps(a) + SaveIndexSteps(i.(accounts := Rename(i.accounts, s.id, name))))[..k]);
      Sound(d') && (Dangling(d', s') ==> exists t :: Dangling(d, t) && t.id == s'.id)
  {
    var i := d.index.index;
    var i' := i.(accounts := Rename(i.accounts, s.id, name));
    RewriteSound(d, s, a, name, k);
    RenameKeepsKeys(i.accounts, s.id, name);
    SaveBothPrefix(d, a, i', k);
    var d' := Run(d, (SaveAccountSteps(a) + SaveIndexSteps(i'))[..k]);
    assert ValidIndex(i);
    hide ValidIndex, Sound, Run, SaveAccountSteps, SaveIndexSteps;
    if Dangling(d', s') {
      var j :| 0 <= j < |i.accounts| && d'.index.index.accounts[j] == s';
      var t := i.accounts[j];
      assert t in i.accounts && t.id == s'.id && t.email == s'.email;
      if t.id == s.id {
        SameEntryById(i, s, t);
      }
      assert Dangling(d, t);
    }
  }

  lemma SameEntryById(i: Index, s: AccountSummary, t: AccountSummary)
    requires ValidIndex(i) && s in i.accounts && t in i.accounts && s.id == t.id
    ensures s == t
  {
    SameIdSameEntry(i.accounts, s, t);
  }

  lemma RewriteCrashSafe(d: Disk, s: AccountSummary, a: Account, name: Option<string>)
    requires Sound(d) && d.index.Saved? && s in d.index.index.accounts
    requires a.id == s.id && (a.email == s.email || !Backed(d.files, s))
    ensures var i := d.index.index;
      CrashSafe(d, SaveAccountSteps(a) + SaveIndexSteps(i.(accounts := Rename(i.accounts, s.id, name))))
  {
    hide Sound, Dangling, Run, Backed;
    var i := d.index.index;
    var i' := i.(accounts := Rename(i.accounts, s.id, name));
    var steps := SaveAccountSteps(a) + SaveIndexSteps(i');
    assert steps[..6] == steps;
    SaveBothPrefix(d, a, i', 6);
    forall k | 0 <= k <= |steps|
      ensures var d' := Run(d, steps[..k]);
        && Sound(d') && (d'.index == d.index || d'.index == Run(d, steps).index)
        && forall s' | Dangling(d', s') :: exists t :: Dangling(d, t) && t.id == s'.id
    {
      SaveBothPrefix(d, a, i', k);
      forall s' {
        RewritePrefix(d, s, a, name, k, s');
      }
      RewritePrefix(d, s, a, name, k, s);
    }
  }

  lemma DeleteCrashSafe(d: Disk, id: string)
    requires Sound(d)
    ensures CrashSafe(d, DeletePlan(d, id).steps)
  {
    hide ValidIndex;
    var i := LoadIndex(d.index).value;
    if !Lists(i.accounts, id) {
      NoStepsCrashSafe(d);
    } else {
      var i' := DeleteOne(i, id);
      var save, remove := SaveIndexSteps(i'), RemoveStep(d.files, id);
      var steps := save + remove;
      DeleteOneValid(i, id);
      RetainMeaning(i.accounts, (s: AccountSummary) => s.id != id);
      assert save[..3] == save && steps[..|steps|] == steps;
      SaveIndexPrefix(d, i', 3);
      RunPrefix(d, save, remove, |steps|);
      RunThree(Run(d, save), RemoveAccount(id), RemoveAccount(id), RemoveAccount(id));
      assert remove[..0] == [] && (remove != [] ==> remove[..1] == [RemoveAccount(id)]);
      forall k | 0 <= k <= |steps|
        ensures var d' := Run(d, steps[..k]);
          && Sound(d') && (d'.index == d.index || d'.index == Run(d, steps).index)
          && forall s' | Dangling(d', s') :: exists s :: Dangling(d, s) && s.id == s'.id
      {
        RunPrefix(d, save, remove, k);
        if k <= 3 {
          SaveIndexPrefix(d, i', k);
        }
        var d' := Run(d, steps[..k]);
        forall s' | Dangling(d', s') ensures exists s :: Dangling(d, s) && s.id == s'.id {
          assert Dangling(d, s');
        }
      }
    }
  }

  /** Replacing the index by a valid one whose entries were all listed before. */
  lemma IndexOnlyCrashSafe(d: Disk, i': Index)
    requires Sound(d) && ValidIndex(i')
    requires forall s | s in i'.accounts :: s in LoadIndex(d.index).value.accounts
    ensures CrashSafe(d, SaveIndexSteps(i'))
  {
    hide ValidIndex;
    var steps := SaveIndexSteps(i');
    assert steps[..3] == steps;
    SaveIndexPrefix(d, i', 3);
    forall k | 0 <= k <= |steps|
      ensures var d' := Run(d, steps[..k]);
        && Sound(d') && (d'.index == d.index || d'.index == Run(d, steps).index)
        && forall s' | Dangling(d', s') :: exists s :: Dangling(d, s) && s.id == s'.id
    {
      SaveIndexPrefix(d, i', k);
      var d' := Run(d, steps[..k]);
      forall s' | Dangling(d', s') ensures exists s :: Dangling(d, s) && s.id == s'.id {
        assert Dangling(d, s');
      }
    }
  }

  lemma ReorderCrashSafe(d: Disk, ids: seq<string>)
    requires Sound(d) && NoListedRepeat(LoadIndex(d.index).value.accounts, ids)
    ensures CrashSafe(d, ReorderPlan(d, ids).steps)
  {
    hide ValidIndex;
    var i := LoadIndex(d.index).value;
    EmptyIndexValid();
    ReorderMeaning(i, ids);
    ReorderMembers(i, ids);
    IndexOnlyCrashSafe(d, Reorder(i, ids));
  }

  lemma SetCurrentCrashSafe(d: Disk, id: string)
    requires Sound(d) && Lists(LoadIndex(d.index).value.accounts, id)
    ensures CrashSafe(d, SetCurrentPlan(d, id).steps)
  {
    hide ValidIndex;
    var i := LoadIndex(d.index).value;
    EmptyIndexValid();
    SetCurrentValid(i, id);
    IndexOnlyCrashSafe(d, i.(current := Some(id)));
  }

  // ---------- Listing repairs ----------

  lemma {:induction false} InvalidIdsMeaning(files: map<string, FileState>, accounts: seq<AccountSummary>)
    ensures forall s | s in accounts :: s.id in InvalidIds(files, accounts) <==> IsInvalid(files, s.id)
    ensures forall id | id in InvalidIds(files, accounts) :: IsInvalid(files, id)
    ensures InvalidIds(files, accounts) == [] <==> forall s | s in accounts :: !IsInvalid(files, s.id)
  {
    hide IsInvalid;
    if accounts != [] {
      InvalidIdsMeaning(files, accounts[1..]);
      assert accounts == [accounts[0]] + accounts[1..];
    }
  }

  /** The repaired list: exactly the entries whose file is gone or corrupt are dropped, in order. */
  lemma RepairDropsExactly(files: map<string, FileState>, i: Index)
    requires ValidIndex(i)
    ensures var r := Repaired(i, InvalidIds(files, i.accounts));
      && r.accounts == Retain(i.accounts, (s: AccountSummary) => !IsInvalid(files, s.id))
      && ValidIndex(r)
      && (i.current.Some? && IsInvalid(files, i.current.value) ==> r.current == FirstId(r.accounts))
      && (i.current.Some? && !IsInvalid(files, i.current.value) ==> r.current == i.current)
  {
    hide IsInvalid;
    var invalid := InvalidIds(files, i.accounts);
    InvalidIdsMeaning(files, i.accounts);
    RepairIsBatch(i, invalid);
    RetainAgree(i.accounts, (s: AccountSummary) => s.id !in invalid, (s: AccountSummary) => !IsInvalid(files, s.id));
    if invalid == [] {
      RetainAll(i.accounts, (s: AccountSummary) => !IsInvalid(files, s.id));
    }
    if i.current.Some? {
      ListsMember(i.accounts, i.current.value);
    }
  }

  /** Listing makes a sound disk consistent when every entry is backed, gone or corrupt. */
  lemma ListRepairs(d: Disk)
    requires Sound(d)
    requires d.index.Saved? ==> forall s | s in d.index.index.accounts :: Backed(d.files, s) || IsInvalid(d.files, s.id)
    ensures var d' := Run(d, ListPlan(d).steps);
      && Consistent(d') && d'.files == d.files
      && (d.index.Missing? ==> d'.index.Missing?)
      && (d.index.Saved? ==> d'.index == Saved(Repaired(d.index.index, InvalidIds(d.files, d.index.index.accounts))))
  {
    hide IsInvalid, ValidIndex;
    var i := LoadIndex(d.index).value;
    EmptyIndexValid();
    var invalid := InvalidIds(d.files, i.accounts);
    InvalidIdsMeaning(d.files, i.accounts);
    RepairDropsExactly(d.files, i);
    RetainMeaning(i.accounts, (s: AccountSummary) => !IsInvalid(d.files, s.id));
    var steps := SaveIndexSteps(Repaired(i, invalid));
    assert steps[..3] == steps;
    SaveIndexPrefix(d, Repaired(i, invalid), 3);
  }

  lemma ConsistentListsNothing(d: Disk)
    requires Consistent(d)
    ensures ListPlan(d).steps == []
  {
    var i := LoadIndex(d.index).value;
    InvalidIdsMeaning(d.files, i.accounts);
    forall s | s in i.accounts ensures !IsInvalid(d.files, s.id) {
      assert !Dangling(d, s);
    }
  }

  // ---------- Batch deletion ----------

  /** `f'` is `f` with some of the ids removed. */
  ghost predicate Thinned(f': map<string, FileState>, f: map<string, FileState>, ids: seq<string>) {
    && (forall id | id in f' :: id in f && f'[id] == f[id])
    && (forall id | id in f && id !in ids :: id in f')
  }

  lemma RemoveStepEffect(d: Disk, id: string)
    ensures var first := RemoveStep(d.files, id);
      Run(d, first) == d.(files := d.files - {id}) && |first| <= 1 && Run(d, []) == d
  {
    RunThree(d, RemoveAccount(id), RemoveAccount(id), RemoveAccount(id));
    if id !in d.files {
      assert d.files - {id} == d.files;
    }
  }

  /** The ids whose files go. */
  function Going(ids: seq<string>, stuck: set<string>): set<string> {
    set id | id in ids && id !in stuck
  }

  lemma {:induction false} RemovePrefix(d: Disk, ids: seq<string>, stuck: set<string>, k: nat)
    requires k <= |RemoveSteps(d.files - stuck, ids)|
    ensures var steps := RemoveSteps(d.files - stuck, ids);
      var d' := Run(d, steps[..k]);
      && d'.index == d.index && d'.temps == d.temps && Thinned(d'.files, d.files, ids)
      && (k == |steps| ==> d'.files == d.files - Going(ids, stuck))
    decreases |ids|
  {
    hide Run, RemoveStep;
    var steps := RemoveSteps(d.files - stuck, ids);
    if ids == [] {
      RemoveStepEffect(d, "");
      assert steps[..k] == [];
      assert d.files - Going(ids, stuck) == d.files;
    } else {
      var id, rest := ids[0], ids[1..];
      if id in stuck {
        StuckStep(d.files, id, stuck);
        RemovePrefix(d, rest, stuck, k);
        assert steps == RemoveSteps(d.files - stuck, rest);
        assert Going(ids, stuck) == Going(rest, stuck);
      } else {
        var first, later := RemoveStep(d.files, id), RemoveSteps(d.files - {id} - stuck, rest);
        var d1 := d.(files := d.files - {id});
        FreeStep(d.files, id, stuck);
        RemoveStepEffect(d, id);
        RemoveStepEffect(d1, id);
        RunPrefix(d, first, later, k);
        if k < |first| {
          assert first[..k] == [];
        } else {
          RemovePrefix(d1, rest, stuck, k - |first|);
          assert first[..|first|] == first && later[..0] == [];
          ThinnedStep(d.files, id, rest, stuck, Run(d1, later[..k - |first|]).files);
        }
      }
    }
  }

  lemma StuckStep(files: map<string, FileState>, id: string, stuck: set<string>)
    requires id in stuck
    ensures RemoveStep(files - stuck, id) == [] && files - stuck - {id} == files - stuck
  {}

  lemma FreeStep(files: map<string, FileState>, id: string, stuck: set<string>)
    requires id !in stuck
    ensures RemoveStep(files - stuck, id) == RemoveStep(files, id) && files - stuck - {id} == files - {id} - stuck
  {}

  lemma ThinnedStep(files: map<string, FileState>, id: string, rest: seq<string>, stuck: set<string>,
                    thinned: map<string, FileState>)
    requires Thinned(thinned, files - {id}, rest) && id !in stuck
    ensures Thinned(thinned, files, [id] + rest)
    ensures files - {id} - Going(rest, stuck) == files - Going([id] + rest, stuck)
  {}

  lemma DeleteManyPrefix(d: Disk, ids: seq<string>, stuck: set<string>, k: nat)
    requires Sound(d) && k <= |DeleteManyPlan(d, ids, stuck).steps|
    ensures var steps := DeleteManyPlan(d, ids, stuck).steps;
      var d' := Run(d, steps[..k]);
      && Thinned(d'.files, d.files, ids)
      && (k < |steps| ==> d'.index == d.index)
      && (k == |steps| ==>
            && d'.index == Saved(DeleteBatch(LoadIndex(d.index).value, ids))
            && d'.files == d.files - Going(ids, stuck))
  {
    var i' := DeleteBatch(LoadIndex(d.index).value, ids);
    var remove, save := RemoveSteps(d.files - stuck, ids), SaveIndexSteps(i');
    assert DeleteManyPlan(d, ids, stuck).steps == remove + save && |save| == 3;
    hide *;
    RunPrefix(d, remove, save, k);
    RemovePrefix(d, ids, stuck, |remove|);
    assert remove[..|remove|] == remove;
    if k <= |remove| {
      RemovePrefix(d, ids, stuck, k);
    } else {
      SaveIndexPrefix(Run(d, remove), i', k - |remove|);
    }
  }

  /** A crash anywhere inside a batch deletion leaves a sound disk; one listing then drops exactly
      the entries whose file had already been removed, and leaves a valid current id. */
  lemma CrashInDeleteMany(d: Disk, ids: seq<string>, stuck: set<string>, k: nat)
    requires Consistent(d) && k <= |DeleteManyPlan(d, ids, stuck).steps|
    ensures var steps := DeleteManyPlan(d, ids, stuck).steps;
      var d' := Run(d, steps[..k]);
      var d'' := Run(d', ListPlan(d').steps);
      && Sound(d') && (d'.index == d.index || d'.index == Run(d, steps).index)
      && Consistent(d'')
      && (d'.index.Saved? ==>
            && d''.index.Saved?
            && d''.index.index.accounts == Retain(d'.index.index.accounts, (s: AccountSummary) => s.id in d'.files))
  {
    hide ValidIndex;
    var steps := DeleteManyPlan(d, ids, stuck).steps;
    var d' := Run(d, steps[..k]);
    var i := LoadIndex(d.index).value;
    EmptyIndexValid();
    DeleteManyPrefix(d, ids, stuck, k);
    DeleteManyPrefix(d, ids, stuck, |steps|);
    assert steps[..|steps|] == steps;
    BatchIsEach(i, ids);
    RetainMeaning(i.accounts, (s: AccountSummary) => s.id !in ids);
    if d'.index.Saved? {
      var i' := d'.index.index;
      forall s | s in i'.accounts ensures s.id in d'.files ==> Backed(d'.files, s) {
        assert s in i.accounts && !Dangling(d, s);
      }
      RepairDropsExactly(d'.files, i');
      RetainAgree(i'.accounts, (s: AccountSummary) => !IsInvalid(d'.files, s.id),
        (s: AccountSummary) => s.id in d'.files);
    }
    ListRepairs(d');
  }

  /** Deleting one id after another, not-found errors ignored. */
  function DeleteEachOnDisk(d: Disk, ids: seq<string>): Disk
    decreases |ids|
  {
    if ids == [] then d else DeleteEachOnDisk(Run(d, DeletePlan(d, ids[0]).steps), ids[1..])
  }

  lemma SoundAfterDelete(d: Disk, id: string)
    requires Sound(d)
    ensures Sound(Run(d, DeletePlan(d, id).steps))
  {
    hide Sound, DeletePlan;
    var steps := DeletePlan(d, id).steps;
    DeleteCrashSafe(d, id);
    assert steps[..|steps|] == steps;
  }

  lemma DeleteEffect(d: Disk, id: string)
    requires Sound(d)
    ensures var d' := Run(d, DeletePlan(d, id).steps);
      var i := LoadIndex(d.index).value;
      && Sound(d')
      && LoadIndex(d'.index) == Success(DeleteOne(i, id))
      && d'.files == if Lists(i.accounts, id) then d.files - {id} else d.files
  {
    hide ValidIndex, CrashSafe;
    var i := LoadIndex(d.index).value;
    SoundAfterDelete(d, id);
    if Lists(i.accounts, id) {
      var i' := DeleteOne(i, id);
      var save, remove := SaveIndexSteps(i'), RemoveStep(d.files, id);
      RunPrefix(d, save, remove, 3);
      assert save[..3] == save;
      SaveIndexPrefix(d, i', 3);
      RunThree(Run(d, save), RemoveAccount(id), RemoveAccount(id), RemoveAccount(id));
      if id !in d.files {
        assert d.files - {id} == d.files;
      }
    }
  }

  /** The batch and the one-by-one deletion end with the same index and current id. They differ in
      the files: the batch also removes files of ids that the index does not list. */
  lemma {:induction false} BatchVersusEach(d: Disk, ids: seq<string>, stuck: set<string>)
    requires Sound(d)
    ensures var batch := Run(d, DeleteManyPlan(d, ids, stuck).steps);
      var each := DeleteEachOnDisk(d, ids);
      var accounts := LoadIndex(d.index).value.accounts;
      && LoadIndex(batch.index) == LoadIndex(each.index)
      && batch.files == d.files - Going(ids, stuck)
      && each.files == d.files - (set id | id in ids && Lists(accounts, id))
  {
    hide ValidIndex;
    var i := LoadIndex(d.index).value;
    var steps := DeleteManyPlan(d, ids, stuck).steps;
    EmptyIndexValid();
    DeleteManyPrefix(d, ids, stuck, |steps|);
    assert steps[..|steps|] == steps;
    BatchIsEach(i, ids);
    EachEffect(d, ids);
  }

  lemma {:induction false} EachEffect(d: Disk, ids: seq<string>)
    requires Sound(d)
    ensures var each := DeleteEachOnDisk(d, ids);
      var i := LoadIndex(d.index).value;
      && LoadIndex(each.index) == Success(DeleteEach(i, ids))
      && each.files == d.files - (set id | id in ids && Lists(i.accounts, id))
    decreases |ids|
  {
    hide ValidIndex, Sound, Run, DeleteOne, Lists;
    SoundLoads(d);
    var i := LoadIndex(d.index).value;
    if ids == [] {
      assert d.files - (set id | id in ids && Lists(i.accounts, id)) == d.files;
    } else {
      var id, rest := ids[0], ids[1..];
      var d1 := Run(d, DeletePlan(d, id).steps);
      DeleteEffect(d, id);
      EachEffect(d1, rest);
      ListedIds(i, ids);
    }
  }

  lemma SoundLoads(d: Disk)
    requires Sound(d)
    ensures LoadIndex(d.index).Success?
  {}

  lemma ListedIds(i: Index, ids: seq<string>)
    requires ids != []
    ensures var i1 := DeleteOne(i, ids[0]);
      (set x | x in ids && Lists(i.accounts, x)) ==
      (if Lists(i.accounts, ids[0]) then {ids[0]} else {}) + (set x | x in ids[1..] && Lists(i1.accounts, x))
  {
    hide Lists, DeleteOne;
    var i1 := DeleteOne(i, ids[0]);
    forall x ensures Lists(i1.accounts, x) <==> Lists(i.accounts, x) && x != ids[0] {
      ListsAfterDelete(i, ids[0], x);
    }
  }

  lemma ListsAfterDelete(i: Index, id: string, x: string)
    ensures Lists(DeleteOne(i, id).accounts, x) <==> Lists(i.accounts, x) && x != id
  {
    var rest := WithoutId(i.accounts, id);
    RetainMeaning(i.accounts, (s: AccountSummary) => s.id != id);
    ListsMember(i.accounts, x);
    ListsMember(rest, x);
  }

  lemma DeleteManyConsistent(d: Disk, ids: seq<string>, stuck: set<string>)
    requires Consistent(d)
    ensures Consistent(Run(d, DeleteManyPlan(d, ids, stuck).steps))
  {
    hide ValidIndex;
    var i := LoadIndex(d.index).value;
    var steps := DeleteManyPlan(d, ids, stuck).steps;
    var d' := Run(d, steps);
    EmptyIndexValid();
    DeleteManyPrefix(d, ids, stuck, |steps|);
    assert steps[..|steps|] == steps;
    BatchIsEach(i, ids);
    RetainMeaning(i.accounts, (s: AccountSummary) => s.id !in ids);
    forall s ensures !Dangling(d', s) {
      if s in d'.index.index.accounts {
        assert !Dangling(d, s);
      }
    }
  }

  lemma AddEffect(d: Disk, email: string, name: Option<string>, token: TokenData, id: string, now: int)
    requires Sound(d) && !ListsEmail(LoadIndex(d.index).value.accounts, email)
    ensures var a := NewAccount(id, email, token, now).(name := name);
      var d' := Run(d, AddPlan(d, email, name, token, id, now).steps);
      && d'.index == Saved(Append(LoadIndex(d.index).value, SummaryOf(a)))
      && d'.files == d.files[id := Readable(a)]
  {
    var i := LoadIndex(d.index).value;
    var a := NewAccount(id, email, token, now).(name := name);
    var steps := SaveAccountSteps(a) + SaveIndexSteps(Append(i, SummaryOf(a)));
    assert steps[..6] == steps;
    SaveBothPrefix(d, a, Append(i, SummaryOf(a)), 6);
  }
}
