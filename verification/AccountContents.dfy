/** What the operations of account/crud.rs, storage.rs and current.rs leave in the index and the account
    files, field by field: an independent statement of the plans. */
module AccountContents {
  import opened Wrappers
  import opened AccountModel
  import opened AccountIndex
  import opened AccountDisk
  import opened AccountRecovery

  // ---------- Single saves ----------

  /** A save of an account that fails leaves the account's file, drops the temporary one unless that cannot be
      removed, and tells a failing write from a failing rename. */
  lemma SaveAccountLeaves(d: Disk, a: Account, ok: Outcome)
    ensures var steps := SaveAccountSteps(a);
      var written := ok(TearAccount(a.id)) && ok(WriteAccount(a));
      var saved := written && ok(RenameAccount(a.id));
      var d' := Run(d, Tried(steps, ok));
      && Answer(Plan(steps, Success(())), ok) ==
         (if saved then Success(()) else Failure(if written then RenameFailed else WriteFailed))
      && d'.files == (if saved then d.files[a.id := Readable(a)] else d.files) && d'.index == d.index
      && (saved || ok(DropAccountTemp(a.id)) ==> d'.temps == d.temps - {a.id})
      && (!saved && !ok(DropAccountTemp(a.id)) ==>
            d'.temps ==
              if written then d.temps[a.id := Readable(a)]
              else if ok(TearAccount(a.id)) then d.temps[a.id := Corrupt]
              else d.temps)
  {
    var tear, write, rename, drop := TearAccount(a.id), WriteAccount(a), RenameAccount(a.id), DropAccountTemp(a.id);
    TriedThree(tear, write, rename, ok);
    SaveStates(d, a);
    assert SaveAccountSteps(a) == [tear, write, rename];
    assert Answer(Plan([tear, write, rename], Success(())), ok) ==
      match Verdict([tear, write, rename], ok) case None => Success(()) case Some(e) => Failure(e);
    assert ErrorOf(tear) == ErrorOf(write) == WriteFailed && ErrorOf(rename) == RenameFailed;
    var cleanup := if ok(drop) then [drop] else [];
    assert Cleanup(tear, ok) == Cleanup(write, ok) == Cleanup(rename, ok) == cleanup;
    hide *;
    assert [tear, write] + cleanup == if ok(drop) then [tear, write, drop] else [tear, write];
    assert [tear] + cleanup == if ok(drop) then [tear, drop] else [tear];
  }

  lemma SaveStates(d: Disk, a: Account)
    ensures var tear, write, drop := TearAccount(a.id), WriteAccount(a), DropAccountTemp(a.id);
      var clear := d.temps - {a.id};
      && Run(d, []) == d
      && Run(d, [tear]) == d.(temps := d.temps[a.id := Corrupt])
      && Run(d, [tear, write]) == d.(temps := d.temps[a.id := Readable(a)])
      && Run(d, [tear, write, RenameAccount(a.id)]) == d.(files := d.files[a.id := Readable(a)], temps := clear)
      && Run(d, [tear, write, drop]) == Run(d, [tear, drop]) == Run(d, [drop]) == d.(temps := clear)
  {
    var tear, write, rename, drop := TearAccount(a.id), WriteAccount(a), RenameAccount(a.id), DropAccountTemp(a.id);
    RunThree(d, tear, write, rename);
    RunThree(d, tear, write, drop);
    RunThree(d, tear, drop, drop);
    RunThree(d, drop, drop, drop);
    hide Run;
    assert d.temps[a.id := Corrupt][a.id := Readable(a)] == d.temps[a.id := Readable(a)];
    assert d.temps[a.id := Readable(a)] - {a.id} == d.temps - {a.id} == d.temps[a.id := Corrupt] - {a.id};
  }

  /** A save of the index that fails leaves the index, and what it wrote in the temporary file. */
  lemma SaveIndexLeaves(d: Disk, i: Index, ok: Outcome)
    ensures var steps := SaveIndexSteps(i);
      var written := ok(TearIndex) && ok(WriteIndex(i));
      var saved := written && ok(RenameIndex);
      var d' := Run(d, Tried(steps, ok));
      && Answer(Plan(steps, Success(())), ok) ==
         (if saved then Success(()) else Failure(if written then RenameFailed else WriteFailed))
      && d'.index == (if saved then Saved(i) else d.index) && d'.files == d.files && d'.temps == d.temps
      && d'.tempIndex ==
         if saved then Missing else if written then Saved(i) else if ok(TearIndex) then Damaged else d.tempIndex
  {
    var tear, write, rename := TearIndex, WriteIndex(i), RenameIndex;
    TriedThree(tear, write, rename, ok);
    RunThree(d, tear, write, rename);
    hide Tried, Verdict, Run;
    assert [tear, write] + [] == [tear, write] && [tear] + [] == [tear];
  }

  // ---------- Account records ----------

  /** A new account: enabled, without quota, proxy or protected models. */
  predicate IsNew(r: Account, id: string, email: string, name: Option<string>, token: TokenData, now: int) {
    && r.id == id && r.email == email && r.name == name && r.token == token
    && r.createdAt == now && r.lastUsed == now
    && r.quota == None && r.proxyUrl == None && r.protectedModels == {}
    && !r.disabled && r.disabledReason == None && r.disabledAt == None
    && !r.proxyDisabled && r.proxyDisabledReason == None && r.proxyDisabledAt == None
  }

  /** A login with a new token: it and the name are taken over, and the account is enabled again unless
      both credentials are the old ones. */
  predicate IsLoggedIn(r: Account, before: Account, name: Option<string>, token: TokenData, now: int) {
    && r.id == before.id && r.email == before.email && r.name == name && r.token == token
    && r.createdAt == before.createdAt && r.lastUsed == now
    && r.quota == before.quota && r.proxyUrl == before.proxyUrl && r.protectedModels == before.protectedModels
    && r.proxyDisabled == before.proxyDisabled && r.proxyDisabledReason == before.proxyDisabledReason
    && r.proxyDisabledAt == before.proxyDisabledAt
    && (r.disabled <==>
          && before.disabled
          && token.refreshToken == before.token.refreshToken && token.accessToken == before.token.accessToken)
    && (if before.disabled && !r.disabled then r.disabledReason == None && r.disabledAt == None
        else r.disabledReason == before.disabledReason && r.disabledAt == before.disabledAt)
  }

  // ---------- Whole disks ----------

  /** The index lists these accounts, with that current one. */
  predicate Listed(d: Disk, accounts: seq<AccountSummary>, current: Option<string>) {
    d.index.Saved? && d.index.index.accounts == accounts && d.index.index.current == current
  }

  predicate IsAdded(d: Disk, d': Disk, r: Account, id: string, email: string, name: Option<string>, token: TokenData,
                    now: int)
    requires LoadIndex(d.index).Success?
  {
    var i := LoadIndex(d.index).value;
    && IsNew(r, id, email, name, token, now)
    && d'.files == d.files[id := Readable(r)]
    && Listed(d', i.accounts + [AccountSummary(id, email, name, now, now)],
              if i.current == None then Some(id) else i.current)
  }

  /** The record of entry `s` is rewritten, or made anew if it could not be loaded, and the entry takes the
      name. */
  predicate IsUpserted(d: Disk, d': Disk, r: Account, s: AccountSummary, name: Option<string>, token: TokenData,
                       now: int)
    requires LoadIndex(d.index).Success?
  {
    var i := LoadIndex(d.index).value;
    && (if s.id in d.files && d.files[s.id].Readable? then IsLoggedIn(r, d.files[s.id].account, name, token, now)
        else IsNew(r, s.id, s.email, name, token, now))
    && d'.files == d.files[s.id := Readable(r)]
    && d'.index.Saved? && d'.index.index.current == i.current
    && |d'.index.index.accounts| == |i.accounts|
    && forall n | 0 <= n < |i.accounts| ::
         d'.index.index.accounts[n] == if i.accounts[n].id == s.id then i.accounts[n].(name := name) else i.accounts[n]
  }

  lemma {:induction false} RenameMeaning(accounts: seq<AccountSummary>, id: string, name: Option<string>)
    requires DistinctIds(accounts)
    ensures |Rename(accounts, id, name)| == |accounts|
    ensures forall n | 0 <= n < |accounts| ::
      Rename(accounts, id, name)[n] == if accounts[n].id == id then accounts[n].(name := name) else accounts[n]
  {
    if accounts != [] && accounts[0].id != id {
      RenameMeaning(accounts[1..], id, name);
    }
  }

  /** An addition of an email that is not listed leaves one new account and one new entry, at the end. */
  lemma AddLeaves(d: Disk, email: string, name: Option<string>, token: TokenData, id: string, now: int)
    requires LoadIndex(d.index).Success?
    ensures var plan := AddPlan(d, email, name, token, id, now);
      if ListsEmail(LoadIndex(d.index).value.accounts, email)
      then plan == Plan([], Failure(AlreadyExists(email)))
      else plan.result.Success? && IsAdded(d, Run(d, plan.steps), plan.result.value, id, email, name, token, now)
  {
    var i := LoadIndex(d.index).value;
    if !ListsEmail(i.accounts, email) {
      var plan := AddPlan(d, email, name, token, id, now);
      var r := plan.result.value;
      assert IsNew(r, id, email, name, token, now);
      var i' := Append(i, SummaryOf(r));
      assert i'.accounts == i.accounts + [AccountSummary(id, email, name, now, now)];
      assert plan.steps == SaveAccountSteps(r) + SaveIndexSteps(i');
      hide Run;
      SaveBothPrefix(d, r, i', 6);
      assert plan.steps[..6] == plan.steps;
    }
  }

  lemma FoundIsUnique(i: Index, s: AccountSummary)
    requires ValidIndex(i) && s in i.accounts
    ensures FindEmail(i.accounts, s.email) == Some(s)
  {
    var n :| 0 <= n < |i.accounts| && i.accounts[n] == s;
    FindEmailMeaning(i.accounts, s.email);
    var t := FindEmail(i.accounts, s.email).value;
    var m :| 0 <= m < |i.accounts| && i.accounts[m] == t;
  }

  /** The locked half of an upsert of a listed email leaves the new token, name and time in the entry's
      record, keeps the rest of it, and renames the entry. */
  lemma UpsertLeaves(d: Disk, s: AccountSummary, name: Option<string>, token: TokenData, now: int)
    requires Sound(d) && LoadIndex(d.index).Success? && s in LoadIndex(d.index).value.accounts
    ensures var plan := UpsertPlan(d, s.email, name, token, now);
      && plan.result.Success? && plan.result.value.Some?
      && IsUpserted(d, Run(d, plan.steps), plan.result.value.value, s, name, token, now)
  {
    var i := LoadIndex(d.index).value;
    var plan := UpsertPlan(d, s.email, name, token, now);
    UpsertRecord(d, s, name, token, now);
    var r := plan.result.value.value;
    RenameMeaning(i.accounts, s.id, name);
    var i' := i.(accounts := Rename(i.accounts, s.id, name));
    hide Run, Rename, IsLoggedIn, IsNew, UpsertPlan, Sound;
    SaveBothPrefix(d, r, i', 6);
    assert plan.steps[..6] == plan.steps;
  }

  lemma UpsertRecord(d: Disk, s: AccountSummary, name: Option<string>, token: TokenData, now: int)
    requires Sound(d) && LoadIndex(d.index).Success? && s in LoadIndex(d.index).value.accounts
    ensures var i, plan := LoadIndex(d.index).value, UpsertPlan(d, s.email, name, token, now);
      && plan.result.Success? && plan.result.value.Some?
      && var r := plan.result.value.value;
      && r.id == s.id
      && (if s.id in d.files && d.files[s.id].Readable? then IsLoggedIn(r, d.files[s.id].account, name, token, now)
          else IsNew(r, s.id, s.email, name, token, now))
      && plan.steps == SaveAccountSteps(r) + SaveIndexSteps(i.(accounts := Rename(i.accounts, s.id, name)))
  {
    var i := LoadIndex(d.index).value;
    FoundIsUnique(i, s);
    hide ValidIndex, SaveAccountSteps, SaveIndexSteps, Rename, FindEmail;
  }

  // ---------- Deleting ----------

  /** One entry goes, the others keep their order; a deleted current gives way to the first entry left. */
  predicate IsWithout(before: Index, after: Index, id: string) {
    && (exists n | 0 <= n < |before.accounts| ::
          before.accounts[n].id == id && after.accounts == before.accounts[..n] + before.accounts[n + 1..])
    && after.current ==
       if before.current != Some(id) then before.current
       else if after.accounts == [] then None
       else Some(after.accounts[0].id)
  }

  lemma {:induction false} WithoutIdAt(accounts: seq<AccountSummary>, n: nat)
    requires DistinctIds(accounts) && n < |accounts|
    ensures WithoutId(accounts, accounts[n].id) == accounts[..n] + accounts[n + 1..]
  {
    var id := accounts[n].id;
    var keep := (s: AccountSummary) => s.id != id;
    assert accounts == accounts[..n] + accounts[n..];
    RetainConcat(accounts[..n], accounts[n..], keep);
    RetainAll(accounts[..n], keep);
    assert accounts[n..][1..] == accounts[n + 1..];
    assert forall s | s in accounts[n + 1..] :: keep(s) by {
      forall s | s in accounts[n + 1..] ensures keep(s) {
        var m :| 0 <= m < |accounts[n + 1..]| && accounts[n + 1..][m] == s;
        assert accounts[n + 1 + m] == s;
      }
    }
    RetainAll(accounts[n + 1..], keep);
    RetainAgree(accounts, keep, (s: AccountSummary) => s.id != id);
  }

  lemma {:induction false} RetainConcat(a: seq<AccountSummary>, b: seq<AccountSummary>, keep: AccountSummary -> bool)
    ensures Retain(a + b, keep) == Retain(a, keep) + Retain(b, keep)
  {
    if a == [] {
      assert a + b == b;
    } else {
      assert (a + b)[0] == a[0] && (a + b)[1..] == a[1..] + b;
      RetainConcat(a[1..], b, keep);
    }
  }

  lemma DeleteOneLeaves(i: Index, id: string)
    requires ValidIndex(i)
    ensures if Lists(i.accounts, id) then IsWithout(i, DeleteOne(i, id), id) else DeleteOne(i, id) == i
  {
    if Lists(i.accounts, id) {
      var n :| 0 <= n < |i.accounts| && i.accounts[n].id == id;
      WithoutIdAt(i.accounts, n);
    }
  }

  /** A deletion of a listed id takes its entry and its file, and nothing else. */
  lemma DeleteLeaves(d: Disk, id: string)
    requires Sound(d)
    ensures var i := LoadIndex(d.index).value;
      var plan := DeletePlan(d, id);
      var d' := Run(d, plan.steps);
      if !Lists(i.accounts, id) then plan == Plan([], Failure(AccountNotFound(id)))
      else
        && plan.result == Success(()) && d'.index.Saved? && IsWithout(i, d'.index.index, id)
        && d'.files == d.files - {id}
  {
    hide Run;
    var i := LoadIndex(d.index).value;
    EmptyIndexValid();
    if Lists(i.accounts, id) {
      DeleteEffect(d, id);
      DeleteOneLeaves(i, id);
      hide ValidIndex, IsWithout;
      var save := SaveIndexSteps(DeleteOne(i, id));
      assert save[..3] == save;
      SaveIndexPrefix(d, DeleteOne(i, id), 3);
      RunConcat(d, save, RemoveStep(d.files, id));
      RemoveStepEffect(Run(d, save), id);
      assert d.files - {id} == d.files || id in d.files;
    }
  }

  // ---------- Reordering, choosing ----------

  /** The entries of `part` stand in `whole` in the same order. */
  ghost predicate InOrder(part: seq<AccountSummary>, whole: seq<AccountSummary>) {
    forall i, j | 0 <= i < j < |part| ::
      exists m, n :: 0 <= m < n < |whole| && whole[m] == part[i] && whole[n] == part[j]
  }

  lemma {:induction false} RetainInOrder(accounts: seq<AccountSummary>, keep: AccountSummary -> bool)
    ensures InOrder(Retain(accounts, keep), accounts)
  {
    if accounts != [] {
      var s, rest := accounts[0], accounts[1..];
      var kept, all := Retain(rest, keep), Retain(accounts, keep);
      RetainInOrder(rest, keep);
      RetainMeaning(rest, keep);
      var shift := if keep(s) then 1 else 0;
      forall i, j | 0 <= i < j < |all|
        ensures exists m, n :: 0 <= m < n < |accounts| && accounts[m] == all[i] && accounts[n] == all[j]
      {
        if i < shift {
          assert all[j] == kept[j - 1] && kept[j - 1] in rest;
          var n :| 0 <= n < |rest| && rest[n] == all[j];
          assert accounts[0] == all[i] && accounts[n + 1] == all[j];
        } else {
          assert all[i] == kept[i - shift] && all[j] == kept[j - shift];
          var m, n :| 0 <= m < n < |rest| && rest[m] == kept[i - shift] && rest[n] == kept[j - shift];
          assert accounts[m + 1] == all[i] && accounts[n + 1] == all[j];
        }
      }
    }
  }

  /** After a reordering the requested accounts come first, in the requested order, unknown ids skipped;
      then exactly the others, in their old order. */
  lemma ReorderLeaves(index: Index, ids: seq<string>)
    requires ValidIndex(index)
    ensures var out := Reorder(index, ids).accounts;
      var n := |ListedOnly(index.accounts, ids)|;
      && n <= |out| && IdsOf(out[..n]) == ListedOnly(index.accounts, ids)
      && (forall s :: s in out[..n] ==> s in index.accounts)
      && (forall s :: s in out[n..] <==> s in index.accounts && s.id !in ids)
      && InOrder(out[n..], index.accounts)
      && Reorder(index, ids).current == index.current
  {
    var asked := Requested(index.accounts, ids);
    var rest := WithoutIds(index.accounts, ids);
    RequestedOrder(index.accounts, ids);
    RequestedMeaning(index.accounts, ids);
    IdsOfSize(asked);
    RetainMeaning(index.accounts, (s: AccountSummary) => s.id !in ids);
    RetainInOrder(index.accounts, (s: AccountSummary) => s.id !in ids);
    hide InOrder, ValidIndex;
    assert (asked + rest)[..|asked|] == asked && (asked + rest)[|asked|..] == rest;
  }

  lemma {:induction false} IdsOfSize(accounts: seq<AccountSummary>)
    ensures |IdsOf(accounts)| == |accounts| && forall i | 0 <= i < |accounts| :: IdsOf(accounts)[i] == accounts[i].id
  {
    if accounts != [] {
      IdsOfSize(accounts[1..]);
    }
  }

  lemma SaveLeaves(d: Disk, i: Index)
    ensures var d' := Run(d, SaveIndexSteps(i)); d'.index == Saved(i) && d'.files == d.files
  {
    var steps := SaveIndexSteps(i);
    assert steps[..3] == steps;
    SaveIndexPrefix(d, i, 3);
  }

  // ---------- Listing ----------

  predicate IsReadable(files: map<string, FileState>, s: AccountSummary) {
    s.id in files && files[s.id].Readable?
  }

  /** `loaded` are the accounts of exactly the readable files, in the order of the entries: those at the
      growing `positions`. */
  ghost predicate AreReadable(files: map<string, FileState>, accounts: seq<AccountSummary>, loaded: seq<Account>,
                              positions: seq<nat>)
  {
    && |loaded| == |positions|
    && (forall n | 0 <= n < |positions| :: IsAt(files, accounts, positions[n], loaded[n]))
    && (forall m, n | 0 <= m < n < |positions| :: positions[m] < positions[n])
    && (forall p: nat | p < |accounts| && IsReadable(files, accounts[p]) :: p in positions)
  }

  predicate IsAt(files: map<string, FileState>, accounts: seq<AccountSummary>, p: nat, a: Account) {
    p < |accounts| && accounts[p].id in files && files[accounts[p].id] == Readable(a)
  }

  function Shifted(ps: seq<nat>): (r: seq<nat>)
    ensures |r| == |ps| && forall n | 0 <= n < |ps| :: r[n] == ps[n] + 1
  {
    seq(|ps|, n requires 0 <= n < |ps| => ps[n] + 1)
  }

  /** The entries of `rest`, one place further on. */
  lemma ShiftedReadable(files: map<string, FileState>, s: AccountSummary, rest: seq<AccountSummary>,
                        loaded: seq<Account>, ps: seq<nat>)
    requires AreReadable(files, rest, loaded, ps)
    ensures |loaded| == |ps|
    ensures forall n | 0 <= n < |ps| :: IsAt(files, [s] + rest, Shifted(ps)[n], loaded[n])
    ensures forall m, n | 0 <= m < n < |ps| :: Shifted(ps)[m] < Shifted(ps)[n]
    ensures forall p: nat | 0 < p < |[s] + rest| && IsReadable(files, ([s] + rest)[p]) :: p in Shifted(ps)
  {
    var all, shifted := [s] + rest, Shifted(ps);
    forall p: nat | 0 < p < |all| && IsReadable(files, all[p]) ensures p in shifted {
      assert rest[p - 1] == all[p];
      var n :| 0 <= n < |ps| && ps[n] == p - 1;
      assert shifted[n] == p;
    }
    forall n | 0 <= n < |ps| ensures IsAt(files, all, shifted[n], loaded[n]) {
      assert IsAt(files, rest, ps[n], loaded[n]);
      assert all[shifted[n]] == rest[ps[n]];
    }
  }

  lemma UnreadableFirst(files: map<string, FileState>, s: AccountSummary, rest: seq<AccountSummary>,
                        loaded: seq<Account>, ps: seq<nat>)
    requires AreReadable(files, rest, loaded, ps) && !IsReadable(files, s)
    ensures AreReadable(files, [s] + rest, loaded, Shifted(ps))
  {
    ShiftedReadable(files, s, rest, loaded, ps);
    hide IsReadable, IsAt, Shifted;
    assert ([s] + rest)[0] == s;
  }

  lemma ReadableFirst(files: map<string, FileState>, s: AccountSummary, rest: seq<AccountSummary>,
                      loaded: seq<Account>, ps: seq<nat>)
    requires AreReadable(files, rest, loaded, ps) && IsReadable(files, s)
    ensures AreReadable(files, [s] + rest, [files[s.id].account] + loaded, [0] + Shifted(ps))
  {
    var all, a, shifted := [s] + rest, files[s.id].account, Shifted(ps);
    ShiftedReadable(files, s, rest, loaded, ps);
    assert IsAt(files, all, 0, a);
    ZeroFirst(shifted);
    AtFirst(files, all, a, loaded, shifted);
    hide *;
    forall p: nat | p < |all| && IsReadable(files, all[p]) ensures p in [0] + shifted {}
  }

  lemma ZeroFirst(ps: seq<nat>)
    requires forall m, n | 0 <= m < n < |ps| :: ps[m] < ps[n]
    requires forall n | 0 <= n < |ps| :: 0 < ps[n]
    ensures forall m, n | 0 <= m < n < |[0] + ps| :: ([0] + ps)[m] < ([0] + ps)[n]
  {}

  lemma AtFirst(files: map<string, FileState>, accounts: seq<AccountSummary>, a: Account, loaded: seq<Account>,
                ps: seq<nat>)
    requires |loaded| == |ps| && IsAt(files, accounts, 0, a)
    requires forall n | 0 <= n < |ps| :: IsAt(files, accounts, ps[n], loaded[n])
    ensures forall n | 0 <= n < |[0] + ps| :: IsAt(files, accounts, ([0] + ps)[n], ([a] + loaded)[n])
  {
    hide *;
    forall n | 0 <= n < |[0] + ps| ensures IsAt(files, accounts, ([0] + ps)[n], ([a] + loaded)[n]) {
      if n > 0 {
        assert IsAt(files, accounts, ps[n - 1], loaded[n - 1]);
      }
    }
  }

  /** A listing returns the accounts of exactly the readable files, in the order of the index. */
  lemma {:induction false} ListedMeaning(files: map<string, FileState>, accounts: seq<AccountSummary>)
    ensures exists positions :: AreReadable(files, accounts, LoadedAccounts(files, accounts), positions)
  {
    if accounts == [] {
      NothingReadable(files);
    } else {
      hide *;
      ListedMeaning(files, accounts[1..]);
      ListedCons(files, accounts[0], accounts[1..]);
      assert [accounts[0]] + accounts[1..] == accounts;
    }
  }

  lemma NothingReadable(files: map<string, FileState>)
    ensures exists positions :: AreReadable(files, [], LoadedAccounts(files, []), positions)
  {
    assert AreReadable(files, [], LoadedAccounts(files, []), []);
  }

  lemma ListedCons(files: map<string, FileState>, s: AccountSummary, rest: seq<AccountSummary>)
    requires exists positions :: AreReadable(files, rest, LoadedAccounts(files, rest), positions)
    ensures exists positions :: AreReadable(files, [s] + rest, LoadedAccounts(files, [s] + rest), positions)
  {
    hide *;
    var loaded := LoadedAccounts(files, rest);
    var ps :| AreReadable(files, rest, loaded, ps);
    LoadedCons(files, s, rest);
    if IsReadable(files, s) {
      ReadableFirst(files, s, rest, loaded, ps);
      assert AreReadable(files, [s] + rest, LoadedAccounts(files, [s] + rest), [0] + Shifted(ps));
    } else {
      UnreadableFirst(files, s, rest, loaded, ps);
      assert AreReadable(files, [s] + rest, LoadedAccounts(files, [s] + rest), Shifted(ps));
    }
  }

  lemma LoadedCons(files: map<string, FileState>, s: AccountSummary, rest: seq<AccountSummary>)
    ensures LoadedAccounts(files, [s] + rest) ==
      if IsReadable(files, s) then [files[s.id].account] + LoadedAccounts(files, rest) else LoadedAccounts(files, rest)
  {
    assert ([s] + rest)[1..] == rest;
    assert [] + LoadedAccounts(files, rest) == LoadedAccounts(files, rest);
  }

  // ---------- What a successful answer means, whichever file operations could have failed ----------

  lemma AnsweredWhole<T>(plan: Plan<T>, ok: Outcome)
    requires Answer(plan, ok).Success?
    ensures Answer(plan, ok) == plan.result && Tried(plan.steps, ok) == plan.steps
  {
    TriedConcat(plan.steps, [], ok);
  }

  lemma AddReads(d: Disk, email: string, name: Option<string>, token: TokenData, id: string, now: int, ok: Outcome)
    requires Answer(AddPlan(d, email, name, token, id, now), ok).Success?
    ensures var plan := AddPlan(d, email, name, token, id, now);
      && LoadIndex(d.index).Success? && !ListsEmail(LoadIndex(d.index).value.accounts, email)
      && IsAdded(d, Run(d, Tried(plan.steps, ok)), Answer(plan, ok).value, id, email, name, token, now)
  {
    AnsweredWhole(AddPlan(d, email, name, token, id, now), ok);
    AddLeaves(d, email, name, token, id, now);
    hide Run, IsAdded, Tried, ListsEmail;
  }

  /** Every entry of the email is upserted; in a valid index there is one at most. */
  ghost predicate AllUpserted(d: Disk, d': Disk, r: Account, email: string, name: Option<string>, token: TokenData,
                              now: int)
    requires LoadIndex(d.index).Success?
  {
    forall s | s in LoadIndex(d.index).value.accounts && s.email == email :: IsUpserted(d, d', r, s, name, token, now)
  }

  lemma UpsertReads(d: Disk, email: string, name: Option<string>, token: TokenData, now: int, ok: Outcome)
    requires Sound(d) && LoadIndex(d.index).Success? && ListsEmail(LoadIndex(d.index).value.accounts, email)
    ensures var plan := UpsertPlan(d, email, name, token, now);
      && plan.result.Success? && plan.result.value.Some?
      && var whole := Plan(plan.steps, Success(plan.result.value.value));
      Answer(whole, ok).Success? ==>
        AllUpserted(d, Run(d, Tried(plan.steps, ok)), Answer(whole, ok).value, email, name, token, now)
  {
    var accounts := LoadIndex(d.index).value.accounts;
    var plan := UpsertPlan(d, email, name, token, now);
    var n :| 0 <= n < |accounts| && accounts[n].email == email;
    assert accounts[n] in accounts;
    hide Run, IsUpserted, Tried, Answer, Sound, UpsertPlan;
    UpsertLeaves(d, accounts[n], name, token, now);
    var whole := Plan(plan.steps, Success(plan.result.value.value));
    if Answer(whole, ok).Success? {
      AnsweredWhole(whole, ok);
      forall s | s in accounts && s.email == email
        ensures IsUpserted(d, Run(d, plan.steps), Answer(whole, ok).value, s, name, token, now)
      {
        UpsertLeaves(d, s, name, token, now);
      }
    }
  }

  /** The entry and the file of the id are gone. */
  predicate IsDeleted(d: Disk, d': Disk, id: string)
    requires LoadIndex(d.index).Success?
  {
    d'.index.Saved? && IsWithout(LoadIndex(d.index).value, d'.index.index, id) && d'.files == d.files - {id}
  }

  lemma DeleteReads(d: Disk, id: string, ok: Outcome)
    requires Sound(d)
    ensures LoadIndex(d.index).Success?
    ensures Answer(DeletePlan(d, id), ok).Success? ==> IsDeleted(d, Run(d, Tried(DeletePlan(d, id).steps, ok)), id)
    ensures !Lists(LoadIndex(d.index).value.accounts, id) ==>
      Answer(DeletePlan(d, id), ok) == Failure(AccountNotFound(id))
  {
    DeleteLeaves(d, id);
    hide Run, IsWithout, Tried, Lists, DeletePlan;
    if Answer(DeletePlan(d, id), ok).Success? {
      AnsweredWhole(DeletePlan(d, id), ok);
    }
  }

  /** The entries of the ids are gone, the others keep their order; a deleted current gives way to the first
      entry left; the files that could be removed are gone. */
  ghost predicate IsBatchDeleted(d: Disk, d': Disk, ids: seq<string>, stuck: set<string>)
    requires LoadIndex(d.index).Success?
  {
    var before := LoadIndex(d.index).value;
    && d'.index.Saved?
    && var after := d'.index.index;
    && (forall s :: s in after.accounts <==> s in before.accounts && s.id !in ids)
    && InOrder(after.accounts, before.accounts)
    && (before.current.Some? && before.current.value !in ids ==> after.current == before.current)
    && (before.current.Some? && before.current.value in ids ==>
          after.current == if after.accounts == [] then None else Some(after.accounts[0].id))
    && (forall id :: id in d'.files <==> id in d.files && (id in ids ==> id in stuck))
    && (forall id | id in d'.files :: d'.files[id] == d.files[id])
  }

  lemma DeleteManyLeaves(d: Disk, ids: seq<string>, stuck: set<string>)
    requires Sound(d)
    ensures LoadIndex(d.index).Success? && DeleteManyPlan(d, ids, stuck).result == Success(())
    ensures IsBatchDeleted(d, Run(d, DeleteManyPlan(d, ids, stuck).steps), ids, stuck)
  {
    var i := LoadIndex(d.index).value;
    var steps := DeleteManyPlan(d, ids, stuck).steps;
    assert steps[..|steps|] == steps;
    DeleteManyPrefix(d, ids, stuck, |steps|);
    RetainMeaning(i.accounts, (s: AccountSummary) => s.id !in ids);
    RetainInOrder(i.accounts, (s: AccountSummary) => s.id !in ids);
    hide Run, InOrder, Sound, DeleteManyPlan, Thinned;
  }

  lemma DeleteManyReads(d: Disk, ids: seq<string>, stuck: set<string>, ok: Outcome)
    requires Sound(d)
    ensures LoadIndex(d.index).Success?
    ensures var plan := DeleteManyPlan(d, ids, stuck);
      Answer(plan, ok).Success? ==> IsBatchDeleted(d, Run(d, Tried(plan.steps, ok)), ids, stuck)
  {
    var plan := DeleteManyPlan(d, ids, stuck);
    DeleteManyLeaves(d, ids, stuck);
    hide Run, IsBatchDeleted, Tried, Sound, DeleteManyPlan;
    if Answer(plan, ok).Success? {
      AnsweredWhole(plan, ok);
    }
  }

  /** The requested entries in the requested order, then the others in their old one. */
  ghost predicate IsReordered(d: Disk, d': Disk, ids: seq<string>)
    requires LoadIndex(d.index).Success?
  {
    var before := LoadIndex(d.index).value;
    var n := |ListedOnly(before.accounts, ids)|;
    && d'.index.Saved? && d'.files == d.files
    && var out := d'.index.index.accounts;
    && n <= |out| && IdsOf(out[..n]) == ListedOnly(before.accounts, ids)
    && (forall s :: s in out[..n] ==> s in before.accounts)
    && (forall s :: s in out[n..] <==> s in before.accounts && s.id !in ids)
    && InOrder(out[n..], before.accounts)
    && d'.index.index.current == before.current
  }

  lemma ReorderReads(d: Disk, ids: seq<string>, ok: Outcome)
    requires Sound(d)
    ensures LoadIndex(d.index).Success?
    ensures var plan := ReorderPlan(d, ids);
      Answer(plan, ok).Success? ==> IsReordered(d, Run(d, Tried(plan.steps, ok)), ids)
  {
    var plan := ReorderPlan(d, ids);
    var i := LoadIndex(d.index).value;
    EmptyIndexValid();
    assert plan.steps == SaveIndexSteps(Reorder(i, ids)) && ValidIndex(i);
    hide *;
    if Answer(plan, ok).Success? {
      AnsweredWhole(plan, ok);
      SaveLeaves(d, Reorder(i, ids));
      ReorderedDisk(d, Run(d, plan.steps), i, ids);
    }
  }

  lemma ReorderedDisk(d: Disk, d': Disk, i: Index, ids: seq<string>)
    requires LoadIndex(d.index) == Success(i) && ValidIndex(i)
    requires d'.index == Saved(Reorder(i, ids)) && d'.files == d.files
    ensures IsReordered(d, d', ids)
  {
    ReorderLeaves(i, ids);
    hide Reorder, ListedOnly, InOrder, IdsOf, ValidIndex;
  }

  lemma SetCurrentReads(d: Disk, id: string, ok: Outcome)
    requires Answer(SetCurrentPlan(d, id), ok).Success?
    ensures var d' := Run(d, Tried(SetCurrentPlan(d, id).steps, ok));
      && LoadIndex(d.index).Success? && Listed(d', LoadIndex(d.index).value.accounts, Some(id))
      && d'.files == d.files
  {
    AnsweredWhole(SetCurrentPlan(d, id), ok);
    SaveLeaves(d, LoadIndex(d.index).value.(current := Some(id)));
    hide Run, Tried;
  }

  /** The entries whose file is neither gone nor corrupt stay, in their order. */
  ghost predicate IsRepaired(d: Disk, d': Disk)
    requires LoadIndex(d.index).Success?
  {
    var before := LoadIndex(d.index).value;
    && d'.index.Saved? && InOrder(d'.index.index.accounts, before.accounts)
    && (forall s :: s in d'.index.index.accounts <==>
          s in before.accounts && s.id in d.files && !d.files[s.id].Corrupt?)
  }

  lemma ListReads(d: Disk, ok: Outcome)
    requires Sound(d)
    ensures LoadIndex(d.index).Success?
    ensures var d' := Run(d, Tried(ListPlan(d).steps, ok));
      d'.files == d.files && (d'.index == d.index || IsRepaired(d, d'))
    ensures var loaded := ListPlan(d).result;
      && loaded.Success?
      && exists positions :: AreReadable(d.files, LoadIndex(d.index).value.accounts, loaded.value, positions)
  {
    var i := LoadIndex(d.index).value;
    var steps := ListPlan(d).steps;
    EmptyIndexValid();
    ListedMeaning(d.files, i.accounts);
    var invalid := InvalidIds(d.files, i.accounts);
    RepairDropsExactly(d.files, i);
    var keep := (s: AccountSummary) => !IsInvalid(d.files, s.id);
    RetainMeaning(i.accounts, keep);
    RetainInOrder(i.accounts, keep);
    RetainAgree(i.accounts, keep, (s: AccountSummary) => !IsInvalid(d.files, s.id));
    var r := Repaired(i, invalid);
    hide ValidIndex, InOrder, Retain, AreReadable, Repaired;
    TriedStops(steps, ok);
    NoCleanup(r);
    var k := Passed(steps, ok);
    if invalid == [] {
      RunThree(d, TearIndex, TearIndex, TearIndex);
    } else {
      assert steps == SaveIndexSteps(r) && (k < |steps| ==> steps[k] in steps);
      assert Tried(steps, ok) == steps[..k];
      SaveIndexPrefix(d, r, k);
    }
  }

  lemma NoCleanup(i: Index)
    ensures forall step, ok | step in SaveIndexSteps(i) :: Cleanup(step, ok) == []
  {}
}
