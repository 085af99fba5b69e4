/** The smart warmup scheduler: scheduler/warmup.rs and scheduler/state.rs. */
module WarmupScheduler {
  import opened Wrappers
  import opened Arithmetic
  import opened AccountModel

  const COOLDOWN_SECONDS: int := 14400
  const STALE_SECONDS: int := 86400
  const LOW_QUOTA_THRESHOLD: int := 50
  const DEFAULT_WARMUP_MODELS: seq<string> :=
    ["gemini-3-flash", "claude-sonnet-4-5", "gemini-3-pro-high", "gemini-3-pro-image"]

  datatype WarmupConfig = WarmupConfig(enabled: bool, intervalMinutes: nat, models: seq<string>, onlyLowQuota: bool)

  /** What one tick sees: the clock, the configuration and the accounts (`None` when loading them
      fails), and the emails whose refresh succeeds. */
  datatype Tick = Tick(now: int, config: Option<WarmupConfig>, accounts: Option<seq<Account>>, refreshable: set<string>)

  /** The history map, and the time of the last scan. */
  datatype State = State(history: map<string, int>, lastCheck: Option<int>)

  // ---------- What one tick means ----------

  predicate InCooldown(history: map<string, int>, key: string, now: int) {
    key in history && now - history[key] < COOLDOWN_SECONDS
  }

  function Cleaned(history: map<string, int>, cutoff: int): map<string, int> {
    map k | k in history && history[k] > cutoff :: history[k]
  }

  function IntervalSeconds(config: WarmupConfig): int {
    (if config.intervalMinutes < 5 then 60 else config.intervalMinutes) * 60
  }

  /** Enabled, and the interval since the last scan has passed. */
  predicate Scans(s: State, t: Tick) {
    && t.config.Some? && t.config.value.enabled
    && (s.lastCheck.Some? ==> t.now - s.lastCheck.value >= IntervalSeconds(t.config.value))
  }

  function ModelsOf(config: WarmupConfig): seq<string> {
    if config.models == [] then DEFAULT_WARMUP_MODELS else config.models
  }

  predicate ModelWants(m: ModelQuota, config: WarmupConfig, matches: (string, string) -> bool) {
    && (exists i | 0 <= i < |ModelsOf(config)| :: matches(m.name, ModelsOf(config)[i]))
    && (if config.onlyLowQuota then m.percentage < LOW_QUOTA_THRESHOLD else m.percentage == 100)
  }

  predicate AccountWants(a: Account, config: WarmupConfig, matches: (string, string) -> bool) {
    && !a.disabled && !a.proxyDisabled && a.quota.Some?
    && exists i | 0 <= i < |a.quota.value.models| :: ModelWants(a.quota.value.models[i], config, matches)
  }

  function Selected(history: map<string, int>, accounts: seq<Account>, config: WarmupConfig, now: int,
                    matches: (string, string) -> bool): set<string> {
    set i | 0 <= i < |accounts|
      && AccountWants(accounts[i], config, matches) && !InCooldown(history, accounts[i].email, now)
      :: accounts[i].email
  }

  /** The emails whose warmup is recorded in a tick. */
  function Recorded(s: State, t: Tick, matches: (string, string) -> bool): set<string> {
    if Scans(s, t) && t.accounts.Some?
    then Selected(s.history, t.accounts.value, t.config.value, t.now, matches) * t.refreshable
    else {}
  }

  function Stamped(history: map<string, int>, emails: set<string>, now: int): map<string, int> {
    history + map e | e in emails :: now
  }

  function AfterTick(s: State, t: Tick, matches: (string, string) -> bool): State {
    if !Scans(s, t) then s
    else if t.accounts.None? || t.accounts.value == [] then s.(lastCheck := Some(t.now))
    else State(Stamped(Cleaned(s.history, t.now - STALE_SECONDS), Recorded(s, t, matches), t.now), Some(t.now))
  }

  // ---------- Which emails a tick warms up, and what it remembers ----------

  /** The warmup is on and due: an interval below five minutes counts as an hour. */
  predicate IsScan(s: State, t: Tick) {
    && t.config.Some? && t.config.value.enabled
    && (s.lastCheck.Some? ==>
          t.now - s.lastCheck.value >=
            60 * if t.config.value.intervalMinutes < 5 then 60 else t.config.value.intervalMinutes)
  }

  /** An enabled account of the email has a quota entry, matching a configured or default model, that is full
      or, in low mode, below 50 percent. */
  ghost predicate HasWork(accounts: seq<Account>, config: WarmupConfig, email: string,
                          matches: (string, string) -> bool)
  {
    var wanted :=
      if config.models != [] then config.models
      else ["gemini-3-flash", "claude-sonnet-4-5", "gemini-3-pro-high", "gemini-3-pro-image"];
    exists a, m, name :: a in accounts && IsWork(a, m, name, email, config, matches) && name in wanted
  }

  predicate IsWork(a: Account, m: ModelQuota, name: string, email: string, config: WarmupConfig,
                   matches: (string, string) -> bool)
  {
    && a.email == email && !a.disabled && !a.proxyDisabled && a.quota.Some? && m in a.quota.value.models
    && matches(m.name, name) && if config.onlyLowQuota then m.percentage < 50 else m.percentage == 100
  }

  /** The tick scans, the email has work and no warmup in the last four hours, and its refresh succeeds. */
  ghost predicate IsWarmed(s: State, t: Tick, email: string, matches: (string, string) -> bool) {
    && IsScan(s, t) && t.accounts.Some? && HasWork(t.accounts.value, t.config.value, email, matches)
    && (email in s.history ==> t.now - s.history[email] >= 14400) && email in t.refreshable
  }

  lemma WantsIsWork(a: Account, email: string, config: WarmupConfig, matches: (string, string) -> bool)
    ensures AccountWants(a, config, matches) && a.email == email <==>
      exists m, name :: IsWork(a, m, name, email, config, matches) && name in ModelsOf(config)
  {
    if AccountWants(a, config, matches) && a.email == email {
      var i :| 0 <= i < |a.quota.value.models| && ModelWants(a.quota.value.models[i], config, matches);
      var m := a.quota.value.models[i];
      var j :| 0 <= j < |ModelsOf(config)| && matches(m.name, ModelsOf(config)[j]);
      assert IsWork(a, m, ModelsOf(config)[j], email, config, matches);
    }
    if m, name :| IsWork(a, m, name, email, config, matches) && name in ModelsOf(config) {
      var i :| 0 <= i < |a.quota.value.models| && a.quota.value.models[i] == m;
      var j :| 0 <= j < |ModelsOf(config)| && ModelsOf(config)[j] == name;
      assert matches(m.name, ModelsOf(config)[j]);
      assert ModelWants(a.quota.value.models[i], config, matches);
    }
  }

  lemma SelectedMeaning(history: map<string, int>, accounts: seq<Account>, config: WarmupConfig, now: int,
                        email: string, matches: (string, string) -> bool)
    ensures email in Selected(history, accounts, config, now, matches) <==>
      HasWork(accounts, config, email, matches) && (email in history ==> now - history[email] >= 14400)
  {
    hide AccountWants, IsWork;
    if email in Selected(history, accounts, config, now, matches) {
      var i :| 0 <= i < |accounts| && AccountWants(accounts[i], config, matches) && accounts[i].email == email;
      WantsIsWork(accounts[i], email, config, matches);
      assert accounts[i] in accounts;
    }
    if a, m, name :| a in accounts && IsWork(a, m, name, email, config, matches) && name in ModelsOf(config) {
      WantsIsWork(a, email, config, matches);
      var i :| 0 <= i < |accounts| && accounts[i] == a;
    }
  }

  /** A warmup is recorded for exactly the emails that the tick warms. */
  ghost predicate AreWarmed(s: State, t: Tick, recorded: set<string>, matches: (string, string) -> bool) {
    forall email :: email in recorded <==> IsWarmed(s, t, email, matches)
  }

  lemma RecordedMeaning(s: State, t: Tick, email: string, matches: (string, string) -> bool)
    ensures email in Recorded(s, t, matches) <==> IsWarmed(s, t, email, matches)
  {
    if t.config.Some? && t.accounts.Some? {
      SelectedMeaning(s.history, t.accounts.value, t.config.value, t.now, email, matches);
    }
    hide Selected, HasWork;
  }

  /** A scan of some accounts stamps what it warms with its time, and forgets the other entries that are a
      day old. */
  ghost predicate IsAfterTick(s: State, t: Tick, s': State, matches: (string, string) -> bool) {
    && s'.lastCheck == (if IsScan(s, t) then Some(t.now) else s.lastCheck)
    && if !IsScan(s, t) || t.accounts.None? || t.accounts.value == [] then s'.history == s.history
       else forall e ::
              && (e in s'.history <==>
                    IsWarmed(s, t, e, matches) || (e in s.history && s.history[e] > t.now - 86400))
              && (e in s'.history ==> s'.history[e] == if IsWarmed(s, t, e, matches) then t.now else s.history[e])
  }

  lemma TickMeaning(s: State, t: Tick, matches: (string, string) -> bool)
    ensures AreWarmed(s, t, Recorded(s, t, matches), matches)
    ensures IsAfterTick(s, t, AfterTick(s, t, matches), matches)
  {
    forall e ensures e in Recorded(s, t, matches) <==> IsWarmed(s, t, e, matches) {
      RecordedMeaning(s, t, e, matches);
    }
    hide Recorded, IsWarmed;
  }

  // ---------- The scheduler ----------

  class Scheduler {
    var entries: map<string, int>
    var lastWarmupCheck: Option<int>

    constructor (history: map<string, int>)
      ensures Value() == State(history, None)
    {
      entries, lastWarmupCheck := history, None;
    }

    ghost function Value(): State
      reads this
    {
      State(entries, lastWarmupCheck)
    }

    method RecordWarmup(key: string, timestamp: int)
      modifies this`entries
      ensures entries == old(entries)[key := timestamp]
    {
      entries := entries[key := timestamp];
    }

    method CleanupStale(cutoff: int) returns (removed: nat)
      modifies this`entries
      ensures entries == Cleaned(old(entries), cutoff)
      ensures removed == |old(entries)| - |entries|
    {
      var before := |entries|;
      var kept := map k | k in entries && entries[k] > cutoff :: entries[k];
      assert kept.Keys <= entries.Keys;
      SubsetSize(kept.Keys, entries.Keys);
      assert |kept| == |kept.Keys| && |entries| == |entries.Keys|;
      entries := kept;
      removed := before - |entries|;
    }

    method SelectAccounts(accounts: seq<Account>, config: WarmupConfig, now: int, matches: (string, string) -> bool)
      returns (selected: set<string>)
      ensures selected == Selected(entries, accounts, config, now, matches)
    {
      selected := {};
      for n := 0 to |accounts|
        invariant selected == Selected(entries, accounts[..n], config, now, matches)
      {
        var acc := accounts[n];
        var sofar := selected;
        SelectedSnoc(entries, accounts[..n], acc, config, now, matches);
        assert accounts[..n + 1] == accounts[..n] + [acc];
        if acc.disabled || acc.proxyDisabled {
          continue;
        }
        if acc.quota.None? {
          continue;
        }
        var quota := acc.quota.value;
        for m := 0 to |quota.models|
          invariant selected == sofar +
            if (exists i | 0 <= i < m :: ModelWants(quota.models[i], config, matches))
               && !InCooldown(entries, acc.email, now)
            then {acc.email} else {}
        {
          var model := quota.models[m];
          var wanted := if config.onlyLowQuota then model.percentage < LOW_QUOTA_THRESHOLD else model.percentage == 100;
          if (exists i | 0 <= i < |ModelsOf(config)| :: matches(model.name, ModelsOf(config)[i])) && wanted {
            if InCooldown(entries, acc.email, now) {
              continue;
            }
            selected := selected + {acc.email};
          }
        }
      }
      assert accounts[..|accounts|] == accounts;
    }

    /** Refresh the selected accounts one by one; the successes go into the history. */
    method WarmUp(selected: set<string>, refreshable: set<string>, now: int) returns (recorded: set<string>)
      modifies this`entries
      ensures recorded == selected * refreshable
      ensures entries == Stamped(old(entries), recorded, now)
    {
      hide Stamped;
      recorded := {};
      var pending := selected;
      StampedNone(entries, now);
      while pending != {}
        invariant pending <= selected
        invariant recorded == (selected - pending) * refreshable
        invariant entries == Stamped(old(entries), recorded, now)
        decreases pending
      {
        var email :| email in pending;
        if email in refreshable {
          StampedOne(old(entries), recorded, email, now);
          RecordWarmup(email, now);
          recorded := recorded + {email};
        }
        pending := pending - {email};
      }
    }

    /** One pass of the endless loop; `recorded` are the warmups that succeeded. */
    method RunTick(t: Tick, matches: (string, string) -> bool) returns (recorded: set<string>)
      modifies this
      ensures recorded == Recorded(old(Value()), t, matches)
      ensures Value() == AfterTick(old(Value()), t, matches)
      ensures AreWarmed(old(Value()), t, recorded, matches)
      ensures IsAfterTick(old(Value()), t, Value(), matches)
    {
      hide Selected, Cleaned, InCooldown, Stamped, AreWarmed, IsAfterTick;
      TickMeaning(Value(), t, matches);
      recorded := {};
      if t.config.None? {
        return;
      }
      var config := t.config.value;
      if !config.enabled {
        return;
      }
      var intervalMinutes := if config.intervalMinutes < 5 then 60 else config.intervalMinutes;
      var intervalSecs := intervalMinutes * 60;
      if lastWarmupCheck.Some? && t.now - lastWarmupCheck.value < intervalSecs {
        return;
      }
      lastWarmupCheck := Some(t.now);
      if t.accounts.None? {
        return;
      }
      if t.accounts.value == [] {
        NothingSelected(entries, config, t.now, matches);
        return;
      }
      var selected := SelectAccounts(t.accounts.value, config, t.now, matches);
      var _ := CleanupStale(t.now - STALE_SECONDS);
      recorded := WarmUp(selected, t.refreshable, t.now);
    }
  }

  lemma SelectedSnoc(history: map<string, int>, accounts: seq<Account>, a: Account, config: WarmupConfig, now: int,
                     matches: (string, string) -> bool)
    ensures Selected(history, accounts + [a], config, now, matches) ==
      Selected(history, accounts, config, now, matches) +
      if AccountWants(a, config, matches) && !InCooldown(history, a.email, now) then {a.email} else {}
  {
    hide AccountWants, InCooldown;
    var all := accounts + [a];
    var before := Selected(history, accounts, config, now, matches);
    forall e | e in before ensures e in Selected(history, all, config, now, matches) {
      var i :| 0 <= i < |accounts| && AccountWants(accounts[i], config, matches)
        && !InCooldown(history, accounts[i].email, now) && accounts[i].email == e;
      assert all[i] == accounts[i];
    }
    assert all[|accounts|] == a;
  }

  lemma NothingSelected(history: map<string, int>, config: WarmupConfig, now: int, matches: (string, string) -> bool)
    ensures Selected(history, [], config, now, matches) == {}
  {}

  lemma StampedNone(history: map<string, int>, now: int)
    ensures Stamped(history, {}, now) == history
  {}

  lemma StampedOne(history: map<string, int>, emails: set<string>, email: string, now: int)
    ensures Stamped(history, emails + {email}, now) == Stamped(history, emails, now)[email := now]
  {}

  // ---------- Cleaning up forgets nothing that matters ----------

  /** Dropping entries up to a cutoff changes no present or later cooldown answer, for any history,
      exactly when the cutoff lies a full cooldown back. */
  lemma CleanupHarmless(cutoff: int, now: int)
    ensures cutoff <= now - COOLDOWN_SECONDS <==>
      forall history: map<string, int>, key, later | later >= now ::
        InCooldown(Cleaned(history, cutoff), key, later) == InCooldown(history, key, later)
  {
    if cutoff > now - COOLDOWN_SECONDS {
      var history := map["a" := cutoff];
      assert InCooldown(history, "a", now) && !InCooldown(Cleaned(history, cutoff), "a", now);
    }
  }

  // ---------- Whole runs ----------

  function StateAt(s: State, ticks: seq<Tick>, n: nat, matches: (string, string) -> bool): State
    requires n <= |ticks|
  {
    if n == 0 then s else AfterTick(StateAt(s, ticks, n - 1, matches), ticks[n - 1], matches)
  }

  ghost predicate ClockNeverTurnsBack(ticks: seq<Tick>) {
    forall i, j | 0 <= i < j < |ticks| :: ticks[i].now <= ticks[j].now
  }

  /** A warmup at time `t` is still remembered, or so long ago that it no longer matters. */
  ghost predicate Remembers(s: State, email: string, t: int, now: int) {
    (email in s.history && s.history[email] >= t) || now - t >= STALE_SECONDS
  }

  lemma TickRemembers(s: State, tick: Tick, email: string, t: int, now: int, matches: (string, string) -> bool)
    requires Remembers(s, email, t, now) && now <= tick.now && t <= tick.now
    ensures Remembers(AfterTick(s, tick, matches), email, t, tick.now)
  {
    hide Selected;
  }

  lemma {:induction false} RunRemembers(s: State, ticks: seq<Tick>, i: nat, j: nat, email: string,
                                        matches: (string, string) -> bool)
    requires i < j <= |ticks| && ClockNeverTurnsBack(ticks)
    requires email in Recorded(StateAt(s, ticks, i, matches), ticks[i], matches)
    ensures Remembers(StateAt(s, ticks, j, matches), email, ticks[i].now, ticks[j - 1].now)
    decreases j
  {
    hide Selected;
    if j == i + 1 {
      var before := StateAt(s, ticks, i, matches);
      assert ticks[i].accounts.value != [] by {
        if ticks[i].accounts.value == [] {
          NothingSelected(before.history, ticks[i].config.value, ticks[i].now, matches);
        }
      }
    } else {
      RunRemembers(s, ticks, i, j - 1, email, matches);
      TickRemembers(StateAt(s, ticks, j - 1, matches), ticks[j - 1], email, ticks[i].now, ticks[j - 2].now, matches);
    }
  }

  /** Over any run, whatever the configuration does between ticks, two recorded warmups of one email
      are at least four hours apart. */
  lemma WarmupsFarApart(s: State, ticks: seq<Tick>, i: nat, j: nat, email: string, matches: (string, string) -> bool)
    requires i < j < |ticks| && ClockNeverTurnsBack(ticks)
    requires email in Recorded(StateAt(s, ticks, i, matches), ticks[i], matches)
    requires email in Recorded(StateAt(s, ticks, j, matches), ticks[j], matches)
    ensures ticks[j].now - ticks[i].now >= COOLDOWN_SECONDS
  {
    hide StateAt;
    RunRemembers(s, ticks, i, j, email, matches);
    var before := StateAt(s, ticks, j, matches);
    assert !InCooldown(before.history, email, ticks[j].now);
  }

  lemma {:induction false} LastCheckGrows(s: State, ticks: seq<Tick>, i: nat, j: nat, matches: (string, string) -> bool)
    requires i < j <= |ticks| && ClockNeverTurnsBack(ticks)
    requires Scans(StateAt(s, ticks, i, matches), ticks[i])
    ensures var last := StateAt(s, ticks, j, matches).lastCheck;
      last.Some? && last.value >= ticks[i].now
    decreases j
  {
    if j > i + 1 {
      LastCheckGrows(s, ticks, i, j - 1, matches);
    }
  }

  /** Two scans are at least five minutes apart, even for a configured interval of zero. */
  lemma ScansFarApart(s: State, ticks: seq<Tick>, i: nat, j: nat, matches: (string, string) -> bool)
    requires i < j < |ticks| && ClockNeverTurnsBack(ticks)
    requires Scans(StateAt(s, ticks, i, matches), ticks[i]) && Scans(StateAt(s, ticks, j, matches), ticks[j])
    ensures ticks[j].now - ticks[i].now >= 300
  {
    LastCheckGrows(s, ticks, i, j, matches);
  }
}
