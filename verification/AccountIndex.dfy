/** The account index as a value: what account/crud.rs and account/storage.rs do to it. */
module AccountIndex {
  import opened Wrappers
  import opened AccountModel

  datatype Index = Index(accounts: seq<AccountSummary>, current: Option<string>)

  const EMPTY_INDEX := Index([], None)

  // ---------- The invariant ----------

  predicate Lists(accounts: seq<AccountSummary>, id: string) {
    exists i | 0 <= i < |accounts| :: accounts[i].id == id
  }

  predicate ListsEmail(accounts: seq<AccountSummary>, email: string) {
    exists i | 0 <= i < |accounts| :: accounts[i].email == email
  }

  ghost predicate DistinctIds(accounts: seq<AccountSummary>) {
    forall i, j | 0 <= i < j < |accounts| :: accounts[i].id != accounts[j].id
  }

  ghost predicate DistinctEmails(accounts: seq<AccountSummary>) {
    forall i, j | 0 <= i < j < |accounts| :: accounts[i].email != accounts[j].email
  }

  /** A current account exactly when there are accounts, and then a listed one. */
  ghost predicate ValidCurrent(index: Index) {
    match index.current
    case None => index.accounts == []
    case Some(id) => Lists(index.accounts, id)
  }

  ghost predicate ValidIndex(index: Index) {
    DistinctIds(index.accounts) && DistinctEmails(index.accounts) && ValidCurrent(index)
  }

  // ---------- Filtering ----------

  /** `retain(keep)`. */
  function Retain(accounts: seq<AccountSummary>, keep: AccountSummary -> bool): seq<AccountSummary> {
    if accounts == [] then []
    else if keep(accounts[0]) then [accounts[0]] + Retain(accounts[1..], keep)
    else Retain(accounts[1..], keep)
  }

  function FirstId(accounts: seq<AccountSummary>): Option<string> {
    if accounts == [] then None else Some(accounts[0].id)
  }

  /** Retaining keeps exactly the chosen entries, and keeps distinct things distinct. */
  lemma {:induction false} RetainMeaning(accounts: seq<AccountSummary>, keep: AccountSummary -> bool)
    ensures forall s :: s in Retain(accounts, keep) <==> s in accounts && keep(s)
    ensures DistinctIds(accounts) ==> DistinctIds(Retain(accounts, keep))
    ensures DistinctEmails(accounts) ==> DistinctEmails(Retain(accounts, keep))
  {
    if accounts != [] {
      var s, rest := accounts[0], accounts[1..];
      RetainMeaning(rest, keep);
      var kept := Retain(rest, keep);
      assert accounts == [s] + rest;
      if DistinctIds(accounts) && keep(s) {
        forall j | 0 <= j < |kept| ensures kept[j].id != s.id {
          assert kept[j] in rest;
        }
      }
      if DistinctEmails(accounts) && keep(s) {
        forall j | 0 <= j < |kept| ensures kept[j].email != s.email {
          assert kept[j] in rest;
        }
      }
    }
  }

  lemma {:induction false} RetainTwice(accounts: seq<AccountSummary>, p: AccountSummary -> bool,
                                       q: AccountSummary -> bool)
    ensures Retain(Retain(accounts, p), q) == Retain(accounts, s => p(s) && q(s))
  {
    if accounts != [] {
      RetainTwice(accounts[1..], p, q);
      var kept := Retain(accounts[1..], p);
      if p(accounts[0]) {
        assert ([accounts[0]] + kept)[1..] == kept;
      }
    }
  }

  lemma {:induction false} RetainAgree(accounts: seq<AccountSummary>, p: AccountSummary -> bool,
                                       q: AccountSummary -> bool)
    requires forall s | s in accounts :: p(s) == q(s)
    ensures Retain(accounts, p) == Retain(accounts, q)
  {
    if accounts != [] {
      assert accounts[0] in accounts && forall s | s in accounts[1..] :: s in accounts;
      RetainAgree(accounts[1..], p, q);
    }
  }

  lemma {:induction false} RetainAll(accounts: seq<AccountSummary>, keep: AccountSummary -> bool)
    requires forall s | s in accounts :: keep(s)
    ensures Retain(accounts, keep) == accounts
  {
    if accounts != [] {
      assert accounts[0] in accounts && forall s | s in accounts[1..] :: s in accounts;
      RetainAll(accounts[1..], keep);
    }
  }

  lemma ListsMember(accounts: seq<AccountSummary>, id: string)
    ensures Lists(accounts, id) <==> exists s :: s in accounts && s.id == id
  {
    if s :| s in accounts && s.id == id {
      var i :| 0 <= i < |accounts| && accounts[i] == s;
    }
  }

  // ---------- Deleting ----------

  function WithoutId(accounts: seq<AccountSummary>, id: string): seq<AccountSummary> {
    Retain(accounts, (s: AccountSummary) => s.id != id)
  }

  function WithoutIds(accounts: seq<AccountSummary>, ids: seq<string>): seq<AccountSummary> {
    Retain(accounts, (s: AccountSummary) => s.id !in ids)
  }

  /** One deletion; an unlisted id changes nothing. */
  function DeleteOne(index: Index, id: string): Index {
    if !Lists(index.accounts, id) then index
    else
      var rest := WithoutId(index.accounts, id);
      Index(rest, if index.current == Some(id) then FirstId(rest) else index.current)
  }

  function DeleteEach(index: Index, ids: seq<string>): Index
    decreases |ids|
  {
    if ids == [] then index else DeleteEach(DeleteOne(index, ids[0]), ids[1..])
  }

  /** The batch: drop all the entries, then settle the current id once. */
  function DeleteBatch(index: Index, ids: seq<string>): Index {
    var rest := WithoutIds(index.accounts, ids);
    var current := if index.current.Some? && index.current.value in ids then None else index.current;
    Index(rest, if current.None? then FirstId(rest) else current)
  }

  lemma DeleteOneValid(index: Index, id: string)
    requires ValidIndex(index)
    ensures ValidIndex(DeleteOne(index, id))
    ensures !Lists(DeleteOne(index, id).accounts, id)
  {
    var rest := WithoutId(index.accounts, id);
    RetainMeaning(index.accounts, (s: AccountSummary) => s.id != id);
    ListsMember(rest, id);
    if Lists(index.accounts, id) {
      if index.current == Some(id) {
        assert rest != [] ==> rest[0].id == rest[0].id;
      } else {
        ListsMember(index.accounts, index.current.value);
        ListsMember(rest, index.current.value);
      }
    }
  }

  lemma WithoutIdsStep(accounts: seq<AccountSummary>, ids: seq<string>)
    requires ids != []
    ensures WithoutIds(WithoutId(accounts, ids[0]), ids[1..]) == WithoutIds(accounts, ids)
  {
    var p := (s: AccountSummary) => s.id != ids[0];
    var q := (s: AccountSummary) => s.id !in ids[1..];
    var both := (s: AccountSummary) => p(s) && q(s);
    RetainTwice(accounts, p, q);
    RetainAgree(accounts, s => p(s) && q(s), (s: AccountSummary) => s.id !in ids);
  }

  lemma {:induction false} DeleteEachMeaning(index: Index, ids: seq<string>)
    requires ValidIndex(index)
    ensures DeleteEach(index, ids).accounts == WithoutIds(index.accounts, ids)
    ensures DeleteEach(index, ids).current ==
      if index.current.Some? && index.current.value in ids then FirstId(WithoutIds(index.accounts, ids))
      else index.current
    decreases |ids|
  {
    if ids == [] {
      RetainAll(index.accounts, (s: AccountSummary) => s.id !in ids);
    } else {
      var id, next := ids[0], DeleteOne(index, ids[0]);
      DeleteOneValid(index, id);
      DeleteEachMeaning(next, ids[1..]);
      WithoutIdsStep(index.accounts, ids);
      if !Lists(index.accounts, id) {
        forall s | s in index.accounts ensures s.id != id {
          ListsMember(index.accounts, id);
        }
        RetainAll(index.accounts, (s: AccountSummary) => s.id != id);
      } else if index.current == Some(id) && next.accounts != [] && next.accounts[0].id !in ids[1..] {
        // the entry promoted by this deletion survives the later ones
        assert WithoutIds(next.accounts, ids[1..])[0] == next.accounts[0];
      }
    }
  }

  /** Deleting a batch is deleting one by one; a deleted current becomes the first survivor. */
  lemma BatchIsEach(index: Index, ids: seq<string>)
    requires ValidIndex(index)
    ensures DeleteBatch(index, ids) == DeleteEach(index, ids)
    ensures ValidIndex(DeleteBatch(index, ids))
  {
    DeleteEachMeaning(index, ids);
    DeleteEachValid(index, ids);
    if index.current.None? {
      RetainAll(index.accounts, (s: AccountSummary) => s.id !in ids);
    }
  }

  lemma {:induction false} DeleteEachValid(index: Index, ids: seq<string>)
    requires ValidIndex(index)
    ensures ValidIndex(DeleteEach(index, ids))
    decreases |ids|
  {
    if ids != [] {
      DeleteOneValid(index, ids[0]);
      DeleteEachValid(DeleteOne(index, ids[0]), ids[1..]);
    }
  }

  // ---------- Reordering ----------

  /** The HashMap of the source: for a repeated id the later entry wins. */
  function Lookup(accounts: seq<AccountSummary>, id: string): Option<AccountSummary> {
    if accounts == [] then None
    else
      var later := Lookup(accounts[1..], id);
      if later.Some? then later
      else if accounts[0].id == id then Some(accounts[0]) else None
  }

  function Requested(accounts: seq<AccountSummary>, ids: seq<string>): seq<AccountSummary> {
    if ids == [] then []
    else
      var rest := Requested(accounts, ids[1..]);
      match Lookup(accounts, ids[0])
      case Some(s) => [s] + rest
      case None => rest
  }

  function Reorder(index: Index, ids: seq<string>): Index {
    index.(accounts := Requested(index.accounts, ids) + WithoutIds(index.accounts, ids))
  }

  /** No listed id is asked for twice. */
  ghost predicate NoListedRepeat(accounts: seq<AccountSummary>, ids: seq<string>) {
    forall i, j | 0 <= i < j < |ids| && ids[i] == ids[j] :: !Lists(accounts, ids[i])
  }

  lemma {:induction false} LookupMeaning(accounts: seq<AccountSummary>, id: string)
    ensures Lookup(accounts, id).Some? <==> Lists(accounts, id)
    ensures Lookup(accounts, id).Some? ==> Lookup(accounts, id).value in accounts && Lookup(accounts, id).value.id == id
  {
    if accounts != [] {
      LookupMeaning(accounts[1..], id);
      ListsMember(accounts, id);
      ListsMember(accounts[1..], id);
      assert accounts == [accounts[0]] + accounts[1..];
    }
  }

  lemma {:induction false} RequestedMeaning(accounts: seq<AccountSummary>, ids: seq<string>)
    ensures forall s | s in Requested(accounts, ids) :: s in accounts && s.id in ids
    ensures forall id | id in ids && Lists(accounts, id) :: Lists(Requested(accounts, ids), id)
    ensures DistinctIds(Requested(accounts, ids)) <==> NoListedRepeat(accounts, ids)
  {
    if ids != [] {
      var id, rest := ids[0], Requested(accounts, ids[1..]);
      RequestedMeaning(accounts, ids[1..]);
      LookupMeaning(accounts, id);
      RepeatStep(accounts, ids);
      hide NoListedRepeat, DistinctIds, Lists;
      if Lists(accounts, id) {
        var s := Lookup(accounts, id).value;
        ListsMember(rest, id);
        DistinctCons(s, rest);
        forall x ensures Lists([s] + rest, x) <==> x == id || Lists(rest, x) {
          ListsCons(s, rest, x);
        }
        assert Lists(rest, id) <==> id in ids[1..];
      }
    }
  }

  lemma ListsCons(s: AccountSummary, rest: seq<AccountSummary>, id: string)
    ensures Lists([s] + rest, id) <==> s.id == id || Lists(rest, id)
  {
    ListsMember([s] + rest, id);
    ListsMember(rest, id);
  }

  lemma DistinctCons(s: AccountSummary, rest: seq<AccountSummary>)
    ensures DistinctIds([s] + rest) <==> !Lists(rest, s.id) && DistinctIds(rest)
  {
    var all := [s] + rest;
    if DistinctIds(all) {
      forall i, j | 0 <= i < j < |rest| ensures rest[i].id != rest[j].id {
        assert all[i + 1] == rest[i] && all[j + 1] == rest[j];
      }
      forall i | 0 <= i < |rest| ensures rest[i].id != s.id {
        assert all[0] == s && all[i + 1] == rest[i];
      }
    }
  }

  lemma RepeatStep(accounts: seq<AccountSummary>, ids: seq<string>)
    requires ids != []
    ensures NoListedRepeat(accounts, ids) <==>
      NoListedRepeat(accounts, ids[1..]) && (Lists(accounts, ids[0]) ==> ids[0] !in ids[1..])
  {
    if NoListedRepeat(accounts, ids) {
      forall i, j | 0 <= i < j < |ids[1..]| && ids[1..][i] == ids[1..][j] ensures !Lists(accounts, ids[1..][i]) {
        assert ids[i + 1] == ids[1..][i] && ids[j + 1] == ids[1..][j];
      }
      if ids[0] in ids[1..] {
        var j :| 0 <= j < |ids[1..]| && ids[1..][j] == ids[0];
        assert ids[j + 1] == ids[0];
      }
    }
    if NoListedRepeat(accounts, ids[1..]) && (Lists(accounts, ids[0]) ==> ids[0] !in ids[1..]) {
      forall i, j | 0 <= i < j < |ids| && ids[i] == ids[j] ensures !Lists(accounts, ids[i]) {
        assert ids[1..][j - 1] == ids[j];
        if i > 0 {
          assert ids[1..][i - 1] == ids[i];
        }
      }
    }
  }

  function IdsOf(accounts: seq<AccountSummary>): seq<string> {
    if accounts == [] then [] else [accounts[0].id] + IdsOf(accounts[1..])
  }

  function ListedOnly(accounts: seq<AccountSummary>, ids: seq<string>): seq<string> {
    if ids == [] then []
    else (if Lists(accounts, ids[0]) then [ids[0]] else []) + ListedOnly(accounts, ids[1..])
  }

  /** The requested entries come in the requested order, unknown ids skipped. */
  lemma {:induction false} RequestedOrder(accounts: seq<AccountSummary>, ids: seq<string>)
    ensures IdsOf(Requested(accounts, ids)) == ListedOnly(accounts, ids)
  {
    if ids != [] {
      LookupMeaning(accounts, ids[0]);
      RequestedOrder(accounts, ids[1..]);
      var rest := Requested(accounts, ids[1..]);
      if Lists(accounts, ids[0]) {
        assert ([Lookup(accounts, ids[0]).value] + rest)[1..] == rest;
      }
    }
  }

  lemma {:induction false} DistinctConcat(a: seq<AccountSummary>, b: seq<AccountSummary>)
    requires DistinctIds(b)
    requires forall s, t | s in a && t in b :: s.id != t.id
    ensures DistinctIds(a + b) <==> DistinctIds(a)
  {
    if DistinctIds(a) {
      forall i, j | 0 <= i < j < |a + b| ensures (a + b)[i].id != (a + b)[j].id {
        if i < |a| <= j {
          assert a[i] in a && b[j - |a|] in b;
        }
      }
    }
    if DistinctIds(a + b) {
      assert forall i | 0 <= i < |a| :: (a + b)[i] == a[i];
    }
  }

  lemma {:induction false} DistinctMultiset(accounts: seq<AccountSummary>, s: AccountSummary)
    requires DistinctIds(accounts)
    ensures multiset(accounts)[s] == if s in accounts then 1 else 0
  {
    if accounts != [] {
      var last := |accounts| - 1;
      assert accounts == accounts[..last] + [accounts[last]];
      DistinctMultiset(accounts[..last], s);
    }
  }

  lemma SameMembersPermute(a: seq<AccountSummary>, b: seq<AccountSummary>)
    requires DistinctIds(a) && DistinctIds(b)
    requires forall s :: s in a <==> s in b
    ensures multiset(a) == multiset(b)
  {
    forall s: AccountSummary ensures multiset(a)[s] == multiset(b)[s] {
      DistinctMultiset(a, s);
      DistinctMultiset(b, s);
    }
  }

  lemma SameIdSameEntry(accounts: seq<AccountSummary>, s: AccountSummary, t: AccountSummary)
    requires DistinctIds(accounts) && s in accounts && t in accounts && s.id == t.id
    ensures s == t
  {}

  lemma ReorderMembers(index: Index, ids: seq<string>)
    requires ValidIndex(index)
    ensures forall s :: s in Reorder(index, ids).accounts <==> s in index.accounts
  {
    hide DistinctIds;
    var accounts := index.accounts;
    var asked, rest := Requested(accounts, ids), WithoutIds(accounts, ids);
    RequestedMeaning(accounts, ids);
    RetainMeaning(accounts, (s: AccountSummary) => s.id !in ids);
    forall s | s in accounts ensures s in asked + rest {
      if s.id in ids {
        ListsMember(accounts, s.id);
        ListsMember(asked, s.id);
        var t :| t in asked && t.id == s.id;
        SameIdSameEntry(accounts, s, t);
      }
    }
  }

  /** Reordering permutes the entries exactly when no listed id is requested twice; otherwise an
      entry is duplicated and the index is no longer valid. */
  lemma ReorderMeaning(index: Index, ids: seq<string>)
    requires ValidIndex(index)
    ensures ValidIndex(Reorder(index, ids)) <==> NoListedRepeat(index.accounts, ids)
    ensures multiset(Reorder(index, ids).accounts) == multiset(index.accounts) <==> NoListedRepeat(index.accounts, ids)
  {
    var accounts := index.accounts;
    var asked, rest := Requested(accounts, ids), WithoutIds(accounts, ids);
    var all := Reorder(index, ids).accounts;
    RequestedMeaning(accounts, ids);
    RetainMeaning(accounts, (s: AccountSummary) => s.id !in ids);
    ReorderMembers(index, ids);
    DistinctConcat(asked, rest);
    if NoListedRepeat(accounts, ids) {
      SameMembersPermute(all, accounts);
      forall i, j | 0 <= i < j < |all| ensures all[i].email != all[j].email {
        assert all[i] in all && all[j] in all;
        var k, l :| 0 <= k < |accounts| && 0 <= l < |accounts| && accounts[k] == all[i] && accounts[l] == all[j];
        assert k != l;
      }
      if index.current.Some? {
        ListsMember(accounts, index.current.value);
        ListsMember(all, index.current.value);
      }
    } else if multiset(all) == multiset(accounts) {
      PermutedDistinct(all, accounts);
      assert false;
    }
  }

  lemma PermutedDistinct(a: seq<AccountSummary>, b: seq<AccountSummary>)
    requires multiset(a) == multiset(b) && DistinctIds(b)
    ensures DistinctIds(a)
  {
    forall i, j | 0 <= i < j < |a| ensures a[i].id != a[j].id {
      assert a[i] in multiset(a) && a[j] in multiset(a);
      assert a[i] in b && a[j] in b;
      DistinctMultiset(b, a[i]);
      if a[i] == a[j] {
        TwiceInMultiset(a, i, j);
        assert false;
      }
    }
  }

  lemma TwiceInMultiset(a: seq<AccountSummary>, i: nat, j: nat)
    requires i < j < |a| && a[i] == a[j]
    ensures multiset(a)[a[i]] >= 2
  {
    assert a == a[..j] + [a[j]] + a[j + 1..];
    assert a[..j][i] == a[i];
    assert a[i] in multiset(a[..j]);
  }

  /** One account requested twice: its entry is there twice. */
  lemma ReorderDuplicates(s: AccountSummary)
    ensures var index := Index([s], Some(s.id));
      && ValidIndex(index)
      && Reorder(index, [s.id, s.id]).accounts == [s, s]
      && !ValidIndex(Reorder(index, [s.id, s.id]))
  {
    var index, ids := Index([s], Some(s.id)), [s.id, s.id];
    assert index.accounts[0].id == s.id;
    assert Lookup([s], s.id) == Some(s);
    assert ids[1..] == [s.id] && [s.id][1..] == [];
    assert Requested([s], [s.id]) == [s] + Requested([s], []);
    assert Requested([s], ids) == [s] + Requested([s], [s.id]);
    assert WithoutIds([s], ids) == Retain([s][1..], (x: AccountSummary) => x.id !in ids) == [];
    var all := Reorder(index, ids).accounts;
    assert all == [s, s] && all[0].id == all[1].id;
  }

  // ---------- Repairing ----------

  /** Entries whose file is gone or broken are dropped; nothing happens when there are none. */
  function Repaired(index: Index, invalid: seq<string>): Index {
    if invalid == [] then index
    else
      var rest := WithoutIds(index.accounts, invalid);
      Index(rest, if index.current.Some? && index.current.value in invalid then FirstId(rest) else index.current)
  }

  lemma RepairIsBatch(index: Index, invalid: seq<string>)
    requires ValidIndex(index)
    ensures Repaired(index, invalid) == DeleteBatch(index, invalid)
    ensures ValidIndex(Repaired(index, invalid))
  {
    BatchIsEach(index, invalid);
    if index.current.None? || invalid == [] {
      RetainAll(index.accounts, (s: AccountSummary) => s.id !in invalid);
    }
  }

  // ---------- Adding and renaming ----------

  function Append(index: Index, s: AccountSummary): Index {
    Index(index.accounts + [s], if index.current.None? then Some(s.id) else index.current)
  }

  lemma AppendValid(index: Index, s: AccountSummary)
    requires ValidIndex(index) && !Lists(index.accounts, s.id) && !ListsEmail(index.accounts, s.email)
    ensures ValidIndex(Append(index, s))
  {
    var all := index.accounts + [s];
    assert all[|all| - 1] == s;
    if index.current.Some? {
      var i :| 0 <= i < |index.accounts| && index.accounts[i].id == index.current.value;
      assert all[i].id == index.current.value;
    }
  }

  /** The entry with an email, if any. */
  function FindEmail(accounts: seq<AccountSummary>, email: string): Option<AccountSummary> {
    if accounts == [] then None
    else if accounts[0].email == email then Some(accounts[0])
    else FindEmail(accounts[1..], email)
  }

  lemma {:induction false} FindEmailMeaning(accounts: seq<AccountSummary>, email: string)
    ensures FindEmail(accounts, email).Some? <==> ListsEmail(accounts, email)
    ensures FindEmail(accounts, email).Some? ==>
      FindEmail(accounts, email).value in accounts && FindEmail(accounts, email).value.email == email
  {
    if accounts != [] {
      FindEmailMeaning(accounts[1..], email);
      if accounts[0].email != email && ListsEmail(accounts, email) {
        var i :| 0 <= i < |accounts| && accounts[i].email == email;
        assert accounts[1..][i - 1] == accounts[i];
      }
      if ListsEmail(accounts[1..], email) {
        var i :| 0 <= i < |accounts[1..]| && accounts[1..][i].email == email;
        assert accounts[i + 1] == accounts[1..][i];
      }
    }
  }

  /** Set the name of the first entry with an id. */
  function Rename(accounts: seq<AccountSummary>, id: string, name: Option<string>): seq<AccountSummary> {
    if accounts == [] then []
    else if accounts[0].id == id then [accounts[0].(name := name)] + accounts[1..]
    else [accounts[0]] + Rename(accounts[1..], id, name)
  }

  lemma {:induction false} RenameKeepsKeys(accounts: seq<AccountSummary>, id: string, name: Option<string>)
    ensures var r := Rename(accounts, id, name);
      |r| == |accounts| && forall i | 0 <= i < |r| :: r[i].id == accounts[i].id && r[i].email == accounts[i].email
  {
    if accounts != [] && accounts[0].id != id {
      RenameKeepsKeys(accounts[1..], id, name);
    }
  }

  lemma RenameValid(index: Index, id: string, name: Option<string>)
    requires ValidIndex(index)
    ensures ValidIndex(index.(accounts := Rename(index.accounts, id, name)))
  {
    RenameKeepsKeys(index.accounts, id, name);
    var r := Rename(index.accounts, id, name);
    if index.current.Some? {
      var i :| 0 <= i < |index.accounts| && index.accounts[i].id == index.current.value;
      assert r[i].id == index.current.value;
    }
  }

  /** Making an account current keeps the index valid exactly when it is listed. */
  lemma SetCurrentValid(index: Index, id: string)
    requires ValidIndex(index)
    ensures ValidIndex(index.(current := Some(id))) <==> Lists(index.accounts, id)
  {
    if ValidIndex(index.(current := Some(id))) {
      assert ValidCurrent(index.(current := Some(id)));
    }
  }

  /** Any other id, next to one account. */
  lemma SetCurrentUnlisted(s: AccountSummary, id: string)
    requires id != s.id
    ensures var index := Index([s], Some(s.id)); ValidIndex(index) && !ValidIndex(index.(current := Some(id)))
  {
    var index := Index([s], Some(s.id));
    assert index.accounts[0].id == s.id;
    SetCurrentValid(index, id);
  }
}
