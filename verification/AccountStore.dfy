/** The file-backed account store as a class: account/crud.rs, storage.rs, index.rs and current.rs.

    Each method is proved to perform exactly its plan's steps, in order, up to the first file operation
    that fails; `ok` says which do not. The process-wide lock makes every method one critical section,
    except where a method says otherwise. */
module AccountStore {
  import opened Wrappers
  import opened AccountModel
  import opened AccountIndex
  import opened AccountDisk
  import opened AccountRecovery
  import opened AccountContents

  // ---------- Appending to the front-recursive functions ----------

  lemma {:induction false} RetainSnoc(accounts: seq<AccountSummary>, s: AccountSummary, keep: AccountSummary -> bool)
    ensures Retain(accounts + [s], keep) == Retain(accounts, keep) + if keep(s) then [s] else []
  {
    if accounts == [] {
      assert accounts + [s] == [s] && Retain([s][1..], keep) == [];
    } else {
      assert (accounts + [s])[1..] == accounts[1..] + [s];
      RetainSnoc(accounts[1..], s, keep);
    }
  }

  lemma {:induction false} LookupSnoc(accounts: seq<AccountSummary>, s: AccountSummary, id: string)
    ensures Lookup(accounts + [s], id) == if s.id == id then Some(s) else Lookup(accounts, id)
  {
    if accounts == [] {
      assert accounts + [s] == [s] && Lookup([s][1..], id) == None;
    } else {
      assert (accounts + [s])[1..] == accounts[1..] + [s];
      LookupSnoc(accounts[1..], s, id);
    }
  }

  lemma {:induction false} RequestedSnoc(accounts: seq<AccountSummary>, ids: seq<string>, id: string)
    ensures Requested(accounts, ids + [id]) ==
      Requested(accounts, ids) + if Lookup(accounts, id).Some? then [Lookup(accounts, id).value] else []
  {
    if ids == [] {
      assert ids + [id] == [id] && Requested(accounts, [id][1..]) == [];
    } else {
      assert (ids + [id])[1..] == ids[1..] + [id];
      RequestedSnoc(accounts, ids[1..], id);
    }
  }

  lemma {:induction false} RemoveStepsSnoc(files: map<string, FileState>, ids: seq<string>, id: string)
    ensures RemoveSteps(files, ids + [id]) == RemoveSteps(files, ids) + RemoveStep(files - (set x | x in ids), id)
    decreases |ids|
  {
    hide RemoveStep;
    if ids == [] {
      assert ids + [id] == [id];
      assert RemoveSteps(files - {id}, [id][1..]) == [];
      assert files - (set x | x in ids) == files;
    } else {
      assert (ids + [id])[1..] == ids[1..] + [id];
      RemoveStepsSnoc(files - {ids[0]}, ids[1..], id);
      assert files - {ids[0]} - (set x | x in ids[1..]) == files - (set x | x in ids);
    }
  }

  lemma {:induction false} InvalidIdsSnoc(files: map<string, FileState>, accounts: seq<AccountSummary>,
                                          s: AccountSummary)
    ensures InvalidIds(files, accounts + [s]) ==
      InvalidIds(files, accounts) + if IsInvalid(files, s.id) then [s.id] else []
  {
    if accounts == [] {
      assert accounts + [s] == [s] && InvalidIds(files, [s][1..]) == [];
    } else {
      assert (accounts + [s])[1..] == accounts[1..] + [s];
      InvalidIdsSnoc(files, accounts[1..], s);
    }
  }

  lemma {:induction false} LoadedAccountsSnoc(files: map<string, FileState>, accounts: seq<AccountSummary>,
                                              s: AccountSummary)
    ensures LoadedAccounts(files, accounts + [s]) ==
      LoadedAccounts(files, accounts) + match LoadAccount(files, s.id) case Success(a) => [a] case Failure(_) => []
  {
    hide LoadAccount;
    var all := accounts + [s];
    var first := match LoadAccount(files, all[0].id) case Success(a) => [a] case Failure(_) => [];
    assert LoadedAccounts(files, all) == first + LoadedAccounts(files, all[1..]);
    if accounts == [] {
      assert all[1..] == [];
    } else {
      assert all[1..] == accounts[1..] + [s] && all[0] == accounts[0];
      LoadedAccountsSnoc(files, accounts[1..], s);
    }
  }

  lemma WithoutIdsGrows(accounts: seq<AccountSummary>, ids: seq<string>, id: string)
    ensures WithoutId(WithoutIds(accounts, ids), id) == WithoutIds(accounts, ids + [id])
    ensures WithoutIds(accounts, []) == accounts
  {
    var p := (s: AccountSummary) => s.id !in ids;
    var q := (s: AccountSummary) => s.id != id;
    RetainTwice(accounts, p, q);
    RetainAgree(accounts, s => p(s) && q(s), (s: AccountSummary) => s.id !in ids + [id]);
    RetainAll(accounts, (s: AccountSummary) => s.id !in []);
  }

  // ---------- Files removed, and where the loops start ----------

  lemma TriedRemoval(fs: map<string, FileState>, id: string, ok: Outcome)
    ensures var steps := RemoveStep(fs, id);
      && Tried(steps, ok) == (if id in fs && ok(RemoveAccount(id)) then steps else [])
      && Verdict(steps, ok) == if id in fs && !ok(RemoveAccount(id)) then Some(RemoveFailed) else None
  {
    if id in fs {
      var steps := RemoveStep(fs, id);
      assert steps[1..] == [] && Tried(steps[1..], ok) == [] && Verdict(steps[1..], ok) == None;
    }
  }

  lemma KeepsFiles(before: Disk, i: Index)
    ensures Run(before, SaveIndexSteps(i)).files == before.files
  {
    assert SaveIndexSteps(i)[..3] == SaveIndexSteps(i);
    SaveIndexPrefix(before, i, 3);
  }

  /** The ids whose files are gone. */
  function Removed(ids: seq<string>, ok: Outcome): set<string> {
    set x | x in ids && ok(RemoveAccount(x))
  }

  lemma NoRemovals(removable: map<string, FileState>, fs: map<string, FileState>, ok: Outcome)
    ensures RemoveSteps(removable, []) == [] && fs - Removed([], ok) == fs
  {}

  /** One more id: its file goes if it is there and can be removed. A file that could not be removed
      for an earlier occurrence of the id cannot be now. */
  lemma OneRemoval(fs: map<string, FileState>, ids: seq<string>, n: nat, ok: Outcome)
    requires n < |ids|
    ensures var id, now := ids[n], fs - Removed(ids[..n], ok);
      var goes := id in now && ok(RemoveAccount(id));
      && RemoveStep(fs - Stuck(ids, ok) - (set x | x in ids[..n]), id) == (if goes then [RemoveAccount(id)] else [])
      && fs - Removed(ids[..n] + [id], ok) == if goes then now - {id} else now
  {
    var id := ids[n];
    assert Removed(ids[..n] + [id], ok) == Removed(ids[..n], ok) + if ok(RemoveAccount(id)) then {id} else {};
  }

  lemma RemovalFiles(d: Disk, id: string)
    ensures Run(d, []) == d && Run(d, [RemoveAccount(id)]).files == d.files - {id}
  {
    RunThree(d, RemoveAccount(id), TearIndex, TearIndex);
  }

  lemma ReorderStart(accounts: seq<AccountSummary>, ids: seq<string>)
    ensures forall id :: Lookup(accounts[..0], id) == None
    ensures Requested(accounts, ids[..0]) == []
    ensures forall keep :: Retain(accounts[..0], keep) == []
  {}

  lemma ListStart(fs: map<string, FileState>, accounts: seq<AccountSummary>)
    ensures LoadedAccounts(fs, accounts[..0]) == [] && InvalidIds(fs, accounts[..0]) == []
  {}

  // ---------- The store ----------

  class Store {
    var index: IndexFile
    var tempIndex: IndexFile
    var files: map<string, FileState>
    var temps: map<string, FileState>
    /** Every step taken so far. */
    ghost var trace: seq<Step>

    constructor ()
      ensures DiskNow() == Disk(Missing, Missing, map[], map[]) && trace == []
    {
      index, tempIndex, files, temps, trace := Missing, Missing, map[], map[], [];
    }

    ghost function DiskNow(): Disk
      reads this
    {
      Disk(index, tempIndex, files, temps)
    }

    /** These steps, and only these, were taken from that disk on. */
    ghost predicate Took(before: Disk, earlier: seq<Step>, steps: seq<Step>)
      reads this
    {
      DiskNow() == Run(before, steps) && trace == earlier + steps
    }

    ghost method Log(before: Disk, step: Step)
      requires DiskNow() == Apply(before, step)
      modifies this`trace
      ensures Took(before, old(trace), [step])
    {
      trace := trace + [step];
      RunThree(before, step, step, step);
    }

    lemma Chain(before: Disk, earlier: seq<Step>, middle: Disk, between: seq<Step>, a: seq<Step>, b: seq<Step>)
      requires middle == Run(before, a) && between == earlier + a
      requires Took(middle, between, b)
      ensures Took(before, earlier, a + b)
    {
      RunConcat(before, a, b);
      assert earlier + a + b == earlier + (a + b);
    }

    /** `fs::write` to the .tmp file; it can fail before and after it has touched the file. */
    method WriteAccountTemp(a: Account, ok: Outcome) returns (written: bool)
      modifies this
      ensures written == (ok(TearAccount(a.id)) && ok(WriteAccount(a)))
      ensures Took(old(DiskNow()), old(trace),
        if !ok(TearAccount(a.id)) then []
        else if !ok(WriteAccount(a)) then [TearAccount(a.id)]
        else [TearAccount(a.id), WriteAccount(a)])
    {
      NothingTaken();
      ghost var d0 := DiskNow();
      if !ok(TearAccount(a.id)) {
        return false;
      }
      temps := temps[a.id := Corrupt];
      Log(d0, TearAccount(a.id));
      if !ok(WriteAccount(a)) {
        return false;
      }
      ghost var d1 := DiskNow();
      temps := temps[a.id := Readable(a)];
      Log(d1, WriteAccount(a));
      Chain(d0, old(trace), d1, old(trace) + [TearAccount(a.id)], [TearAccount(a.id)], [WriteAccount(a)]);
      return true;
    }

    method RenameAccountTemp(id: string, ok: Outcome) returns (renamed: bool)
      modifies this
      ensures renamed == ok(RenameAccount(id))
      ensures Took(old(DiskNow()), old(trace), if renamed then [RenameAccount(id)] else [])
    {
      NothingTaken();
      renamed := ok(RenameAccount(id));
      if renamed {
        if id in temps {
          files, temps := files[id := temps[id]], temps - {id};
        }
        Log(old(DiskNow()), RenameAccount(id));
      }
    }

    method DropTemp(id: string, ok: Outcome)
      modifies this
      ensures Took(old(DiskNow()), old(trace), if ok(DropAccountTemp(id)) then [DropAccountTemp(id)] else [])
    {
      NothingTaken();
      if ok(DropAccountTemp(id)) {
        temps := temps - {id};
        Log(old(DiskNow()), DropAccountTemp(id));
      }
    }

    method RemoveAccountFile(id: string, ok: Outcome) returns (removed: bool)
      modifies this
      ensures removed == ok(RemoveAccount(id))
      ensures Took(old(DiskNow()), old(trace), if removed then [RemoveAccount(id)] else [])
    {
      NothingTaken();
      removed := ok(RemoveAccount(id));
      if removed {
        files := files - {id};
        Log(old(DiskNow()), RemoveAccount(id));
      }
    }

    method SaveAccount(a: Account, ok: Outcome) returns (r: Result<(), StoreError>)
      modifies this
      ensures Took(old(DiskNow()), old(trace), Tried(SaveAccountSteps(a), ok))
      ensures r == Answer(Plan(SaveAccountSteps(a), Success(())), ok)
    {
      hide Run, Tried, Verdict;
      ghost var d0, t0 := DiskNow(), trace;
      ghost var tear, write, rename := TearAccount(a.id), WriteAccount(a), RenameAccount(a.id);
      TriedThree(tear, write, rename, ok);
      var written := WriteAccountTemp(a, ok);
      ghost var d1, t1 := DiskNow(), trace;
      if !written {
        DropTemp(a.id, ok);
        Chain(d0, t0, d1, t1, if ok(tear) then [tear] else [], Cleanup(write, ok));
        assert [] + Cleanup(tear, ok) == Cleanup(tear, ok);
        return Failure(WriteFailed);
      }
      var renamed := RenameAccountTemp(a.id, ok);
      ghost var d2, t2 := DiskNow(), trace;
      if !renamed {
        assert [tear, write] + [] == [tear, write];
        Chain(d0, t0, d1, t1, [tear, write], []);
        DropTemp(a.id, ok);
        Chain(d0, t0, d2, t2, [tear, write], Cleanup(rename, ok));
        return Failure(RenameFailed);
      }
      Chain(d0, t0, d1, t1, [tear, write], [rename]);
      assert [tear, write] + [rename] == SaveAccountSteps(a);
      return Success(());
    }

    method SaveIndex(i: Index, ok: Outcome) returns (r: Result<(), StoreError>)
      modifies this
      ensures Took(old(DiskNow()), old(trace), Tried(SaveIndexSteps(i), ok))
      ensures r == Answer(Plan(SaveIndexSteps(i), Success(())), ok)
    {
      hide Run, Tried, Verdict;
      NothingTaken();
      TriedThree(TearIndex, WriteIndex(i), RenameIndex, ok);
      ghost var d0, t0 := DiskNow(), trace;
      if !ok(TearIndex) {
        return Failure(WriteFailed);
      }
      tempIndex := Damaged;
      Log(d0, TearIndex);
      ghost var d1, t1 := DiskNow(), trace;
      if !ok(WriteIndex(i)) {
        assert [TearIndex] + [] == [TearIndex];
        return Failure(WriteFailed);
      }
      tempIndex := Saved(i);
      Log(d1, WriteIndex(i));
      Chain(d0, t0, d1, t1, [TearIndex], [WriteIndex(i)]);
      assert [TearIndex] + [WriteIndex(i)] == [TearIndex, WriteIndex(i)];
      ghost var d2, t2 := DiskNow(), trace;
      if !ok(RenameIndex) {
        assert [TearIndex, WriteIndex(i)] + [] == [TearIndex, WriteIndex(i)];
        return Failure(RenameFailed);
      }
      index, tempIndex := tempIndex, Missing;
      Log(d2, RenameIndex);
      Chain(d0, t0, d2, t2, [TearIndex, WriteIndex(i)], [RenameIndex]);
      assert [TearIndex, WriteIndex(i)] + [RenameIndex] == SaveIndexSteps(i);
      return Success(());
    }

    method AddAccount(email: string, name: Option<string>, token: TokenData, freshId: string, now: int, ok: Outcome)
      returns (r: Result<Account, StoreError>)
      modifies this
      ensures var plan := AddPlan(old(DiskNow()), email, name, token, freshId, now);
        r == Answer(plan, ok) && Took(old(DiskNow()), old(trace), Tried(plan.steps, ok))
      ensures r.Success? ==>
        && LoadIndex(old(index)).Success? && !ListsEmail(LoadIndex(old(index)).value.accounts, email)
        && IsAdded(old(DiskNow()), DiskNow(), r.value, freshId, email, name, token, now)
    {
      hide Run, IsAdded;
      if Answer(AddPlan(DiskNow(), email, name, token, freshId, now), ok).Success? {
        AddReads(DiskNow(), email, name, token, freshId, now, ok);
      }
      NothingTaken();
      var i :- LoadIndex(index);
      if ListsEmail(i.accounts, email) {
        return Failure(AlreadyExists(email));
      }
      var account := NewAccount(freshId, email, token, now);
      account := account.(name := name);
      ghost var save := Append(i, SummaryOf(account));
      TriedConcat(SaveAccountSteps(account), SaveIndexSteps(save), ok);
      hide Tried, Verdict;
      var _ :- SaveAccount(account, ok);
      ghost var d1, t1 := DiskNow(), trace;
      i := i.(accounts := i.accounts + [SummaryOf(account)]);
      if i.current.None? {
        i := i.(current := Some(freshId));
      }
      var saved := SaveIndex(i, ok);
      Chain(old(DiskNow()), old(trace), d1, t1, SaveAccountSteps(account), Tried(SaveIndexSteps(i), ok));
      var _ :- saved;
      return Success(account);
    }

    lemma NothingTaken()
      ensures Took(DiskNow(), trace, [])
    {}

    /** The locked half, and for a new email `add_account` under a second lock. */
    method UpsertAccount(email: string, name: Option<string>, token: TokenData, freshId: string, now: int,
                         ok: Outcome)
      returns (r: Result<Account, StoreError>)
      modifies this
      ensures var locked := UpsertPlan(old(DiskNow()), email, name, token, now);
        var added := AddPlan(old(DiskNow()), email, name, token, freshId, now);
        match locked.result
        case Failure(e) => r == Failure(e) && Took(old(DiskNow()), old(trace), [])
        case Success(Some(a)) =>
          && r == Answer(Plan(locked.steps, Success(a)), ok)
          && Took(old(DiskNow()), old(trace), Tried(locked.steps, ok))
        case Success(None) => r == Answer(added, ok) && Took(old(DiskNow()), old(trace), Tried(added.steps, ok))
      ensures Sound(old(DiskNow())) && r.Success? ==>
        && LoadIndex(old(index)).Success?
        && var listed := LoadIndex(old(index)).value.accounts;
        && (ListsEmail(listed, email) ==> AllUpserted(old(DiskNow()), DiskNow(), r.value, email, name, token, now))
        && (!ListsEmail(listed, email) ==>
              IsAdded(old(DiskNow()), DiskNow(), r.value, freshId, email, name, token, now))
    {
      hide Run, AddPlan, IsAdded, AllUpserted, Sound, ListsEmail;
      if Sound(DiskNow()) && LoadIndex(index).Success? && ListsEmail(LoadIndex(index).value.accounts, email) {
        UpsertReads(DiskNow(), email, name, token, now, ok);
      }
      NothingTaken();
      var i :- LoadIndex(index);
      FindEmailMeaning(i.accounts, email);
      var existing := FindEmail(i.accounts, email);
      if existing.Some? {
        var id := existing.value.id;
        var loaded := LoadAccount(files, id);
        var account: Account;
        match loaded {
          case Success(stored) =>
            var oldToken := stored.token;
            account := stored.(token := token);
            account := account.(name := name);
            if account.disabled
              && (account.token.refreshToken != oldToken.refreshToken
                  || account.token.accessToken != oldToken.accessToken)
            {
              account := account.(disabled := false, disabledReason := None, disabledAt := None);
            }
            account := account.(lastUsed := now);
          case Failure(_) =>
            account := NewAccount(id, email, token, now);
            account := account.(name := name);
        }
        var renamed := i.(accounts := Rename(i.accounts, id, name));
        assert UpsertPlan(DiskNow(), email, name, token, now) ==
          Plan(SaveAccountSteps(account) + SaveIndexSteps(renamed), Success(Some(account)));
        hide UpsertPlan, SaveAccountSteps, SaveIndexSteps, Rename;
        TriedConcat(SaveAccountSteps(account), SaveIndexSteps(renamed), ok);
        hide Tried, Verdict;
        var _ :- SaveAccount(account, ok);
        ghost var d1, t1 := DiskNow(), trace;
        var saved := SaveIndex(renamed, ok);
        Chain(old(DiskNow()), old(trace), d1, t1, SaveAccountSteps(account), Tried(SaveIndexSteps(renamed), ok));
        var _ :- saved;
        return Success(account);
      }
      r := AddAccount(email, name, token, freshId, now, ok);
    }

    method DeleteAccount(id: string, ok: Outcome) returns (r: Result<(), StoreError>)
      modifies this
      ensures var plan := DeletePlan(old(DiskNow()), id);
        r == Answer(plan, ok) && Took(old(DiskNow()), old(trace), Tried(plan.steps, ok))
      ensures Sound(old(DiskNow())) ==>
        && LoadIndex(old(index)).Success?
        && (r.Success? ==> IsDeleted(old(DiskNow()), DiskNow(), id))
        && (!Lists(LoadIndex(old(index)).value.accounts, id) ==> r == Failure(AccountNotFound(id)))
    {
      hide Run, IsDeleted, Sound;
      if Sound(DiskNow()) {
        DeleteReads(DiskNow(), id, ok);
      }
      NothingTaken();
      var i :- LoadIndex(index);
      var kept := WithoutId(i.accounts, id);
      RetainShrinks(i.accounts, id);
      if |kept| == |i.accounts| {
        return Failure(AccountNotFound(id));
      }
      var saved := Index(kept, i.current);
      if saved.current == Some(id) {
        saved := saved.(current := FirstId(kept));
      }
      assert saved == DeleteOne(i, id);
      TriedConcat(SaveIndexSteps(saved), RemoveStep(files, id), ok);
      TriedRemoval(files, id, ok);
      KeepsFiles(DiskNow(), saved);
      hide Tried, Verdict;
      var _ :- SaveIndex(saved, ok);
      ghost var d1, t1 := DiskNow(), trace;
      if id in files {
        var removed := RemoveAccountFile(id, ok);
        Chain(old(DiskNow()), old(trace), d1, t1, SaveIndexSteps(saved), if removed then [RemoveAccount(id)] else []);
        if !removed {
          return Failure(RemoveFailed);
        }
      } else {
        assert SaveIndexSteps(saved) + [] == SaveIndexSteps(saved);
      }
      return Success(());
    }

    method DeleteAccounts(ids: seq<string>, ok: Outcome) returns (r: Result<(), StoreError>)
      modifies this
      ensures var plan := DeleteManyPlan(old(DiskNow()), ids, Stuck(ids, ok));
        r == Answer(plan, ok) && Took(old(DiskNow()), old(trace), Tried(plan.steps, ok))
      ensures Sound(old(DiskNow())) ==>
        && LoadIndex(old(index)).Success?
        && (r.Success? ==> IsBatchDeleted(old(DiskNow()), DiskNow(), ids, Stuck(ids, ok)))
    {
      hide Run, RemoveStep, RemoveSteps, WithoutIds, WithoutId, Stuck, IsBatchDeleted, Sound;
      if Sound(DiskNow()) {
        DeleteManyReads(DiskNow(), ids, Stuck(ids, ok), ok);
      }
      NothingTaken();
      var i :- LoadIndex(index);
      hide Verdict;
      ghost var d0, t0, removable := DiskNow(), trace, files - Stuck(ids, ok);
      var accounts, current := i.accounts, i.current;
      WithoutIdsGrows(i.accounts, [], "");
      NoRemovals(removable, files, ok);
      for n := 0 to |ids|
        invariant accounts == WithoutIds(i.accounts, ids[..n])
        invariant current == if i.current.Some? && i.current.value in ids[..n] then None else i.current
        invariant Took(d0, t0, RemoveSteps(removable, ids[..n]))
        invariant files == d0.files - Removed(ids[..n], ok)
      {
        var id := ids[n];
        assert ids[..n + 1] == ids[..n] + [id];
        WithoutIdsGrows(i.accounts, ids[..n], id);
        RemoveStepsSnoc(removable, ids[..n], id);
        accounts := WithoutId(accounts, id);
        if current == Some(id) {
          current := None;
        }
        ghost var d1, t1 := DiskNow(), trace;
        OneRemoval(d0.files, ids, n, ok);
        if id in files {
          var _ := RemoveAccountFile(id, ok);
        }
        RemovalFiles(d1, id);
        Chain(d0, t0, d1, t1, RemoveSteps(removable, ids[..n]), RemoveStep(removable - (set x | x in ids[..n]), id));
      }
      assert ids[..|ids|] == ids;
      if current.None? {
        current := FirstId(accounts);
      }
      ghost var d1, t1 := DiskNow(), trace;
      ghost var remove, save := RemoveSteps(removable, ids), SaveIndexSteps(Index(accounts, current));
      RemovalsPass(d0.files, ids, ok);
      TriedConcat(remove, save, ok);
      hide Tried;
      r := SaveIndex(Index(accounts, current), ok);
      Chain(d0, t0, d1, t1, remove, Tried(save, ok));
    }

    method ReorderAccounts(ids: seq<string>, ok: Outcome) returns (r: Result<(), StoreError>)
      modifies this
      ensures var plan := ReorderPlan(old(DiskNow()), ids);
        r == Answer(plan, ok) && Took(old(DiskNow()), old(trace), Tried(plan.steps, ok))
      ensures Sound(old(DiskNow())) ==>
        LoadIndex(old(index)).Success? && (r.Success? ==> IsReordered(old(DiskNow()), DiskNow(), ids))
    {
      hide Run, Requested, Lookup, Retain, IsReordered, Sound;
      if Sound(DiskNow()) {
        ReorderReads(DiskNow(), ids, ok);
      }
      NothingTaken();
      var i :- LoadIndex(index);
      var idToSummary: map<string, AccountSummary> := map[];
      ReorderStart(i.accounts, ids);
      for n := 0 to |i.accounts|
        invariant forall id :: Lookup(i.accounts[..n], id) == if id in idToSummary then Some(idToSummary[id]) else None
        invariant DiskNow() == old(DiskNow()) && trace == old(trace)
      {
        var s := i.accounts[n];
        assert i.accounts[..n + 1] == i.accounts[..n] + [s];
        forall id
          ensures Lookup(i.accounts[..n + 1], id) == if s.id == id then Some(s) else Lookup(i.accounts[..n], id)
        {
          LookupSnoc(i.accounts[..n], s, id);
        }
        idToSummary := idToSummary[s.id := s];
      }
      assert i.accounts[..|i.accounts|] == i.accounts;
      var newAccounts: seq<AccountSummary> := [];
      for n := 0 to |ids|
        invariant newAccounts == Requested(i.accounts, ids[..n])
        invariant DiskNow() == old(DiskNow()) && trace == old(trace)
      {
        assert ids[..n + 1] == ids[..n] + [ids[n]];
        RequestedSnoc(i.accounts, ids[..n], ids[n]);
        if ids[n] in idToSummary {
          newAccounts := newAccounts + [idToSummary[ids[n]]];
        }
      }
      assert ids[..|ids|] == ids;
      ghost var asked := newAccounts;
      ghost var unasked := (s: AccountSummary) => s.id !in ids;
      for n := 0 to |i.accounts|
        invariant newAccounts == asked + Retain(i.accounts[..n], unasked)
        invariant DiskNow() == old(DiskNow()) && trace == old(trace)
      {
        var s := i.accounts[n];
        assert i.accounts[..n + 1] == i.accounts[..n] + [s];
        RetainSnoc(i.accounts[..n], s, unasked);
        if s.id !in ids {
          newAccounts := newAccounts + [s];
        }
      }
      assert i.accounts[..|i.accounts|] == i.accounts;
      RetainAgree(i.accounts, unasked, (s: AccountSummary) => s.id !in ids);
      assert newAccounts == Reorder(i, ids).accounts;
      i := i.(accounts := newAccounts);
      r := SaveIndex(i, ok);
    }

    /** Takes no lock: in the source its load and its save can be separated by another operation. It
        answers the same when its save fails. */
    method ListAccounts(ok: Outcome) returns (r: Result<seq<Account>, StoreError>)
      modifies this
      ensures var plan := ListPlan(old(DiskNow()));
        r == plan.result && Took(old(DiskNow()), old(trace), Tried(plan.steps, ok))
      ensures Sound(old(DiskNow())) ==>
        && LoadIndex(old(index)).Success? && r.Success? && files == old(files)
        && (index == old(index) || IsRepaired(old(DiskNow()), DiskNow()))
        && var listed := LoadIndex(old(index)).value.accounts;
        exists positions :: AreReadable(files, listed, r.value, positions)
    {
      hide Run, InvalidIds, LoadedAccounts, WithoutIds, IsRepaired, AreReadable, Sound;
      if Sound(DiskNow()) {
        ListReads(DiskNow(), ok);
      }
      NothingTaken();
      var i :- LoadIndex(index);
      var accounts: seq<Account> := [];
      var invalidIds: seq<string> := [];
      ListStart(files, i.accounts);
      for n := 0 to |i.accounts|
        invariant accounts == LoadedAccounts(files, i.accounts[..n])
        invariant invalidIds == InvalidIds(files, i.accounts[..n])
        invariant DiskNow() == old(DiskNow()) && trace == old(trace)
      {
        var s := i.accounts[n];
        assert i.accounts[..n + 1] == i.accounts[..n] + [s];
        InvalidIdsSnoc(files, i.accounts[..n], s);
        LoadedAccountsSnoc(files, i.accounts[..n], s);
        match LoadAccount(files, s.id)
        case Success(a) =>
          accounts := accounts + [a];
        case Failure(e) =>
          if e.AccountNotFound? || e.AccountCorrupt? {
            invalidIds := invalidIds + [s.id];
          }
      }
      assert i.accounts[..|i.accounts|] == i.accounts;
      if invalidIds != [] {
        var kept := WithoutIds(i.accounts, invalidIds);
        var repaired := Index(kept, i.current);
        if i.current.Some? && i.current.value in invalidIds {
          repaired := repaired.(current := FirstId(kept));
        }
        var _ := SaveIndex(repaired, ok);
      }
      return Success(accounts);
    }

    method SetCurrentAccountId(id: string, ok: Outcome) returns (r: Result<(), StoreError>)
      modifies this
      ensures var plan := SetCurrentPlan(old(DiskNow()), id);
        r == Answer(plan, ok) && Took(old(DiskNow()), old(trace), Tried(plan.steps, ok))
      ensures r.Success? ==>
        && LoadIndex(old(index)).Success? && files == old(files)
        && Listed(DiskNow(), LoadIndex(old(index)).value.accounts, Some(id))
    {
      hide Run;
      if Answer(SetCurrentPlan(DiskNow(), id), ok).Success? {
        SetCurrentReads(DiskNow(), id, ok);
      }
      NothingTaken();
      var i :- LoadIndex(index);
      i := i.(current := Some(id));
      r := SaveIndex(i, ok);
    }

    /** In a consistent store this never fails, and finds the current account unless there is none. */
    method GetCurrentAccount() returns (r: Result<Option<Account>, StoreError>)
      ensures match LoadIndex(index)
        case Failure(e) => r == Failure(e)
        case Success(i) =>
          match r
          case Failure(e) => i.current.Some? && LoadAccount(files, i.current.value) == Failure(e)
          case Success(None) => i.current == None
          case Success(Some(a)) => i.current.Some? && LoadAccount(files, i.current.value) == Success(a)
      ensures index.Missing? ==> r == Success(None)
      ensures index.Damaged? ==> r == Failure(IndexDamaged)
      ensures index.Saved? && index.index.current.Some? ==>
        var id := index.index.current.value;
        r == if id !in files then Failure(AccountNotFound(id))
             else match files[id]
                  case Readable(a) => Success(Some(a))
                  case Corrupt => Failure(AccountCorrupt(id))
                  case Unreadable => Failure(AccountUnreadable(id))
      ensures Consistent(DiskNow()) ==>
        var i := LoadIndex(index).value;
        && r.Success?
        && (r.value.None? <==> i.accounts == [])
        && (r.value.Some? ==>
              && i.current == Some(r.value.value.id)
              && exists s :: s in i.accounts && s.id == r.value.value.id && s.email == r.value.value.email)
    {
      if Consistent(DiskNow()) {
        CurrentIsBacked(DiskNow());
      }
      var i :- LoadIndex(index);
      if i.current.None? {
        return Success(None);
      }
      var a :- LoadAccount(files, i.current.value);
      return Success(Some(a));
    }
  }

  lemma CurrentIsBacked(d: Disk)
    requires Consistent(d)
    ensures LoadIndex(d.index).Success?
    ensures var i := LoadIndex(d.index).value;
      && (i.current.None? <==> i.accounts == [])
      && (i.current.Some? ==> exists s :: s in i.accounts && s.id == i.current.value && Backed(d.files, s))
  {
    var i := LoadIndex(d.index).value;
    if i.current.Some? {
      ListsMember(i.accounts, i.current.value);
      var s :| s in i.accounts && s.id == i.current.value;
      assert !Dangling(d, s);
    }
  }

  lemma {:induction false} RetainShrinks(accounts: seq<AccountSummary>, id: string)
    ensures |WithoutId(accounts, id)| <= |accounts|
    ensures |WithoutId(accounts, id)| == |accounts| <==> !Lists(accounts, id)
  {
    if accounts != [] {
      var keep := (s: AccountSummary) => s.id != id;
      RetainShrinks(accounts[1..], id);
      RetainAgree(accounts[1..], keep, (s: AccountSummary) => s.id != id);
      RetainAgree(accounts, keep, (s: AccountSummary) => s.id != id);
      assert Retain(accounts, keep) ==
        if keep(accounts[0]) then [accounts[0]] + Retain(accounts[1..], keep) else Retain(accounts[1..], keep);
      ListsMember(accounts, id);
      ListsMember(accounts[1..], id);
      assert accounts == [accounts[0]] + accounts[1..];
    }
  }
}
