/** Quota updates with per-model protection: account/quota.rs. */
module QuotaProtection {
  import opened Wrappers
  import opened AccountModel
  import opened AccountIndex
  import opened AccountDisk
  import opened AccountContents
  import opened AccountStore

  datatype ProtectionConfig = ProtectionConfig(enabled: bool, threshold: int, monitored: seq<string>, autoRestore: bool)

  /** `normalize_to_standard_id`, left uninterpreted. */
  type Normalizer = string -> Option<string>

  // ---------- What an update does to the protected set ----------

  /** The monitored id an entry speaks about, if any. */
  function MonitoredId(m: ModelQuota, config: ProtectionConfig, norm: Normalizer): Option<string> {
    match norm(m.name)
    case Some(id) => if id in config.monitored then Some(id) else None
    case None => None
  }

  function AfterEntry(protected: set<string>, m: ModelQuota, config: ProtectionConfig, norm: Normalizer): set<string> {
    match MonitoredId(m, config, norm)
    case None => protected
    case Some(id) =>
      if m.percentage <= config.threshold then protected + {id}
      else if config.autoRestore then protected - {id}
      else protected
  }

  function AfterEntries(protected: set<string>, models: seq<ModelQuota>, config: ProtectionConfig,
                        norm: Normalizer): set<string>
    decreases |models|
  {
    if models == [] then protected
    else AfterEntry(AfterEntries(protected, models[..|models| - 1], config, norm), models[|models| - 1], config, norm)
  }

  function AfterQuota(protected: set<string>, quota: QuotaData, config: ProtectionConfig,
                      norm: Normalizer): set<string> {
    if quota.isForbidden then protected + (set id | id in config.monitored)
    else AfterEntries(protected, quota.models, config, norm)
  }

  /** An account-level block left by the older scheme is lifted. */
  function Migrated(a: Account): Account {
    if a.proxyDisabled && a.proxyDisabledReason == Some("quota_protection")
    then a.(proxyDisabled := false, proxyDisabledReason := None, proxyDisabledAt := None)
    else a
  }

  /** `config` is `None` when it cannot be loaded. */
  function Updated(a: Account, quota: QuotaData, config: Option<ProtectionConfig>, norm: Normalizer): Account {
    var b := a.(quota := Some(quota));
    if config.Some? && config.value.enabled
    then Migrated(b.(protectedModels := AfterQuota(a.protectedModels, quota, config.value, norm)))
    else b
  }

  function UpdateQuotaPlan(d: Disk, id: string, quota: QuotaData, config: Option<ProtectionConfig>,
                           norm: Normalizer): Plan<Account> {
    match LoadAccount(d.files, id)
    case Failure(e) => Plan([], Failure(e))
    case Success(a) =>
      var b := Updated(a, quota, config, norm);
      Plan(SaveAccountSteps(b), Success(b))
  }

  /** The two protecting loops. */
  method Protect(protectedModels: set<string>, quota: QuotaData, c: ProtectionConfig, norm: Normalizer)
    returns (protected: set<string>)
    ensures protected == AfterQuota(protectedModels, quota, c, norm)
  {
    hide MonitoredId;
    protected := protectedModels;
    if quota.isForbidden {
      for n := 0 to |c.monitored|
        invariant protected == protectedModels + set m | m in c.monitored[..n]
      {
        assert c.monitored[..n + 1] == c.monitored[..n] + [c.monitored[n]];
        if c.monitored[n] !in protected {
          protected := protected + {c.monitored[n]};
        }
      }
      assert c.monitored[..|c.monitored|] == c.monitored;
    } else {
      for n := 0 to |quota.models|
        invariant protected == AfterEntries(protectedModels, quota.models[..n], c, norm)
      {
        var model := quota.models[n];
        assert quota.models[..n + 1][..n] == quota.models[..n];
        var standard := MonitoredId(model, c, norm);
        if standard.None? {
          continue;
        }
        if model.percentage <= c.threshold {
          if standard.value !in protected {
            protected := protected + {standard.value};
          } else {
            assert protected + {standard.value} == protected;
          }
        } else if c.autoRestore && standard.value in protected {
          protected := protected - {standard.value};
        } else {
          assert c.autoRestore ==> protected - {standard.value} == protected;
        }
      }
      assert quota.models[..|quota.models|] == quota.models;
    }
  }

  method UpdateAccountQuota(store: Store, id: string, quota: QuotaData, config: Option<ProtectionConfig>,
                            norm: Normalizer, ok: Outcome)
    returns (r: Result<Account, StoreError>)
    modifies store
    ensures var plan := UpdateQuotaPlan(old(store.DiskNow()), id, quota, config, norm);
      r == Answer(plan, ok) && store.Took(old(store.DiskNow()), old(store.trace), Tried(plan.steps, ok))
    ensures Sound(old(store.DiskNow())) && r.Success? ==>
      && id in old(store.files) && old(store.files)[id].Readable?
      && IsUpdated(r.value, old(store.files)[id].account, quota, config, norm)
      && store.files == old(store.files)[id := Readable(r.value)] && store.index == old(store.index)
  {
    hide Run, AfterQuota, IsUpdated, Sound;
    if Sound(store.DiskNow()) && Answer(UpdateQuotaPlan(store.DiskNow(), id, quota, config, norm), ok).Success? {
      UpdateReads(store.DiskNow(), id, quota, config, norm, ok);
    }
    store.NothingTaken();
    var loaded :- LoadAccount(store.files, id);
    var account := loaded.(quota := Some(quota));
    if config.Some? {
      var c := config.value;
      if c.enabled {
        var protected := Protect(account.protectedModels, quota, c, norm);
        account := account.(protectedModels := protected);
        if account.proxyDisabled && account.proxyDisabledReason == Some("quota_protection") {
          account := account.(proxyDisabled := false, proxyDisabledReason := None, proxyDisabledAt := None);
        }
      }
    }
    assert account == Updated(loaded, quota, config, norm);
    hide Updated, Tried, Verdict;
    var _ :- store.SaveAccount(account, ok);
    return Success(account);
  }

  // ---------- What that means for a model id ----------

  /** The percentage in the last entry whose standard id is `id`. */
  function LastPercentage(models: seq<ModelQuota>, id: string, norm: Normalizer): Option<int>
    decreases |models|
  {
    if models == [] then None
    else if norm(models[|models| - 1].name) == Some(id) then Some(models[|models| - 1].percentage)
    else LastPercentage(models[..|models| - 1], id, norm)
  }

  ghost predicate SomeEntryLow(models: seq<ModelQuota>, id: string, threshold: int, norm: Normalizer) {
    exists m | m in models :: norm(m.name) == Some(id) && m.percentage <= threshold
  }

  /** With auto-restore the last entry about an id decides; without it one low entry is enough and
      nothing is ever lifted; ids that are not monitored keep their state. */
  ghost predicate EndsProtected(protected: set<string>, models: seq<ModelQuota>, id: string, config: ProtectionConfig,
                                norm: Normalizer)
  {
    if id !in config.monitored then id in protected
    else if !config.autoRestore then id in protected || SomeEntryLow(models, id, config.threshold, norm)
    else
      match LastPercentage(models, id, norm)
      case Some(percentage) => percentage <= config.threshold
      case None => id in protected
  }

  lemma {:induction false} ProtectionMeaning(protected: set<string>, models: seq<ModelQuota>, id: string,
                                             config: ProtectionConfig, norm: Normalizer)
    ensures id in AfterEntries(protected, models, config, norm) <==> EndsProtected(protected, models, id, config, norm)
    decreases |models|
  {
    if models != [] {
      var front, m := models[..|models| - 1], models[|models| - 1];
      assert models == front + [m];
      ProtectionMeaning(protected, front, id, config, norm);
      LowInSnoc(front, m, id, config.threshold, norm);
      hide SomeEntryLow;
    }
  }

  lemma LowInSnoc(front: seq<ModelQuota>, m: ModelQuota, id: string, threshold: int, norm: Normalizer)
    ensures SomeEntryLow(front + [m], id, threshold, norm) <==>
      SomeEntryLow(front, id, threshold, norm) || (norm(m.name) == Some(id) && m.percentage <= threshold)
  {
    var models := front + [m];
    if SomeEntryLow(front, id, threshold, norm) {
      var x :| x in front && norm(x.name) == Some(id) && x.percentage <= threshold;
      assert x in models;
    }
    assert m in models;
  }

  // ---------- The updated record, field by field ----------

  predicate SameProxyState(r: Account, a: Account) {
    && r.proxyDisabled == a.proxyDisabled && r.proxyDisabledReason == a.proxyDisabledReason
    && r.proxyDisabledAt == a.proxyDisabledAt
  }

  /** The quota is the new one; protection and a block of the older scheme change only when protection is
      configured and on; nothing else changes. */
  ghost predicate IsUpdated(r: Account, a: Account, quota: QuotaData, config: Option<ProtectionConfig>,
                            norm: Normalizer)
  {
    && r.id == a.id && r.email == a.email && r.name == a.name && r.token == a.token && r.quota == Some(quota)
    && r.disabled == a.disabled && r.disabledReason == a.disabledReason && r.disabledAt == a.disabledAt
    && r.proxyUrl == a.proxyUrl && r.createdAt == a.createdAt && r.lastUsed == a.lastUsed
    && if config.None? || !config.value.enabled then r.protectedModels == a.protectedModels && SameProxyState(r, a)
       else
         && (if a.proxyDisabled && a.proxyDisabledReason == Some("quota_protection")
             then !r.proxyDisabled && r.proxyDisabledReason == None && r.proxyDisabledAt == None
             else SameProxyState(r, a))
         && forall id :: id in r.protectedModels <==>
              if quota.isForbidden then id in a.protectedModels || id in config.value.monitored
              else EndsProtected(a.protectedModels, quota.models, id, config.value, norm)
  }

  lemma UpdatedMeaning(a: Account, quota: QuotaData, config: Option<ProtectionConfig>, norm: Normalizer)
    ensures IsUpdated(Updated(a, quota, config, norm), a, quota, config, norm)
  {
    if config.Some? && config.value.enabled && !quota.isForbidden {
      forall id
        ensures id in AfterEntries(a.protectedModels, quota.models, config.value, norm) <==>
          EndsProtected(a.protectedModels, quota.models, id, config.value, norm)
      {
        ProtectionMeaning(a.protectedModels, quota.models, id, config.value, norm);
      }
    }
    hide AfterEntries, EndsProtected;
  }

  /** A quota update that succeeds leaves the updated record in the account's file and touches no other. */
  lemma UpdateReads(d: Disk, id: string, quota: QuotaData, config: Option<ProtectionConfig>, norm: Normalizer,
                    ok: Outcome)
    requires Sound(d) && Answer(UpdateQuotaPlan(d, id, quota, config, norm), ok).Success?
    ensures var plan := UpdateQuotaPlan(d, id, quota, config, norm);
      var r, d' := Answer(plan, ok).value, Run(d, Tried(plan.steps, ok));
      && id in d.files && d.files[id].Readable?
      && IsUpdated(r, d.files[id].account, quota, config, norm)
      && d'.files == d.files[id := Readable(r)] && d'.index == d.index
  {
    var plan := UpdateQuotaPlan(d, id, quota, config, norm);
    AnsweredWhole(plan, ok);
    var a := d.files[id].account;
    UpdatedMeaning(a, quota, config, norm);
    var r := Updated(a, quota, config, norm);
    assert a.id == id;
    hide Run, Tried, Answer, Updated, Sound;
    SaveAccountPrefix(d, r, 3);
    assert SaveAccountSteps(r)[..3] == SaveAccountSteps(r);
  }

  /** A forbidden account has every monitored model protected; the same update twice is the same as
      once; the account keeps its identity, so its file and index entry still belong together. */
  lemma UpdateMeaning(a: Account, quota: QuotaData, config: ProtectionConfig, norm: Normalizer, id: string)
    requires config.enabled
    ensures var b := Updated(a, quota, Some(config), norm);
      && b.id == a.id && b.email == a.email && b.token == a.token && b.quota == Some(quota)
      && (quota.isForbidden ==> (id in b.protectedModels <==> id in a.protectedModels || id in config.monitored))
      && Updated(b, quota, Some(config), norm) == b
  {
    hide AfterEntries;
    var p := a.protectedModels;
    var q := AfterQuota(p, quota, config, norm);
    forall x ensures x in AfterQuota(q, quota, config, norm) <==> x in q {
      if !quota.isForbidden {
        ProtectionMeaning(p, quota.models, x, config, norm);
        ProtectionMeaning(q, quota.models, x, config, norm);
      }
    }
    assert AfterQuota(q, quota, config, norm) == q;
  }

  /** A crash inside a quota update leaves a consistent store. */
  lemma UpdateQuotaCrashSafe(d: Disk, id: string, quota: QuotaData, config: Option<ProtectionConfig>, norm: Normalizer,
                             k: nat)
    requires Consistent(d) && k <= |UpdateQuotaPlan(d, id, quota, config, norm).steps|
    ensures Consistent(Run(d, UpdateQuotaPlan(d, id, quota, config, norm).steps[..k]))
  {
    hide ValidIndex, AfterQuota;
    if LoadAccount(d.files, id).Success? {
      var a := LoadAccount(d.files, id).value;
      var b := Updated(a, quota, config, norm);
      assert b.id == a.id == id && b.email == a.email;
      SaveAccountPrefix(d, b, k);
      var d' := Run(d, SaveAccountSteps(b)[..k]);
      forall s ensures !Dangling(d', s) {
        assert !Dangling(d, s);
      }
    }
  }
}
