/** Fetching a quota and persisting what was found, on the two account backends: account/fetch.rs. */
module QuotaFetch {
  import opened Wrappers
  import opened Arithmetic
  import opened AccountModel
  import ResetTime

  // ---------- What the services answer ----------

  datatype TokenResponse = TokenResponse(accessToken: string, refreshToken: Option<string>, expiresIn: int)

  datatype QuotaError = Unauthorized | Forbidden | OtherError

  datatype FetchError = NoProxy | OAuth(message: string) | Quota(kind: QuotaError)

  /** `displayName` is `None` too when the user information cannot be had; the quota comes with the
      project id found on the way. */
  datatype Replies = Replies(refresh: Result<TokenResponse, string>, displayName: Option<string>,
                             quota: Result<(QuotaData, Option<string>), QuotaError>)

  /** The answers to the first attempt and to the one after a 401, at one reading of the clock. */
  datatype World = World(now: int, first: Replies, retry: Replies)

  datatype QuotaFetchResult = QuotaFetchResult(quota: QuotaData, refreshedToken: Option<TokenData>,
                                               projectId: Option<string>, name: Option<string>)

  function NewToken(accessToken: string, refreshToken: string, expiresIn: int, previous: TokenData,
                    now: int): TokenData {
    TokenData(accessToken, refreshToken, expiresIn, Min(now + expiresIn, I64_MAX), "Bearer",
              previous.email, previous.projectId, None)
  }

  /** A token that is good for more than five minutes is kept; a refresh keeps the refresh token. */
  function FreshToken(token: TokenData, w: World): Result<TokenData, string> {
    if token.expiryTimestamp > Min(w.now + 300, I64_MAX) then Success(token)
    else
      var response :- w.first.refresh;
      Success(NewToken(response.accessToken, token.refreshToken, response.expiresIn, token, w.now))
  }

  predicate Contains(text: string, part: string) {
    exists i | 0 <= i <= |text| :: part <= text[i..]
  }

  predicate InvalidGrant(message: string) {
    Contains(message, "invalid_grant")
  }

  predicate Blank(text: string) {
    forall i | 0 <= i < |text| :: ResetTime.IsSpace(text[i])
  }

  predicate NameMissing(account: Account) {
    account.name.None? || Blank(account.name.value)
  }

  // ---------- Writes, and what each backend makes of one ----------

  datatype Write =
    | TokenRefresh(token: TokenData)
    | NameFound(found: string, refreshed: Option<TokenData>)
    | QuotaFound(quota: QuotaData, projectId: Option<string>, refreshed: Option<TokenData>, name: Option<string>)
    | Disable(reason: string)

  /** The JSON backend writes the caller's account with the changes it is told about, whatever is stored. */
  function JsonWrite(account: Account, w: Write, now: int): Account {
    match w
    case TokenRefresh(token) => account.(token := token)
    case NameFound(name, refreshed) => account.(name := Some(name), token := refreshed.GetOr(account.token))
    case QuotaFound(quota, projectId, refreshed, name) =>
      var token := refreshed.GetOr(account.token);
      account.(token := if projectId.Some? then token.(projectId := projectId) else token,
               name := if name.Some? then name else account.name,
               quota := Some(quota))
    case Disable(reason) => account.(disabled := true, disabledAt := Some(now), disabledReason := Some(reason))
  }

  /** The repository updates single columns of the stored record. */
  function RepoWrite(account: Account, stored: Account, w: Write, now: int): Account {
    match w
    case TokenRefresh(token) =>
      stored.(token := stored.token.(
        accessToken := token.accessToken,
        refreshToken := if token.refreshToken != account.token.refreshToken then token.refreshToken
          else stored.token.refreshToken,
        expiryTimestamp := now + token.expiresIn))
    case NameFound(name, _) => stored.(name := Some(name))
    case QuotaFound(quota, projectId, _, _) =>
      var tier := if quota.subscriptionTier.Some? || stored.quota.None? then quota.subscriptionTier
        else stored.quota.value.subscriptionTier;
      var withQuota := stored.(quota := Some(quota.(lastUpdated := now, subscriptionTier := tier)));
      if projectId.Some? && projectId != account.token.projectId
      then withQuota.(token := withQuota.token.(projectId := projectId))
      else withQuota
    case Disable(reason) => stored.(disabled := true, disabledAt := Some(now), disabledReason := Some(reason))
  }

  function Written(useRepo: bool, account: Account, stored: Account, w: Write, now: int): Account {
    if useRepo then RepoWrite(account, stored, w, now) else JsonWrite(account, w, now)
  }

  function AllWritten(useRepo: bool, account: Account, stored: Account, ws: seq<Write>, now: int): Account
    decreases |ws|
  {
    if ws == [] then stored
    else Written(useRepo, account, AllWritten(useRepo, account, stored, ws[..|ws| - 1], now), ws[|ws| - 1], now)
  }

  // ---------- The writes of one fetch ----------

  datatype Plan = Plan(writes: seq<Write>, result: Result<QuotaFetchResult, FetchError>)

  function DisableWrites(message: string): seq<Write> {
    if InvalidGrant(message) then [Disable("invalid_grant: " + message)] else []
  }

  function FoundName(account: Account, replies: Replies): Option<string> {
    if NameMissing(account) then replies.displayName else None
  }

  function NameWrites(name: Option<string>, refreshed: Option<TokenData>): seq<Write> {
    if name.Some? then [NameFound(name.value, refreshed)] else []
  }

  /** The token of the first attempt, when it is not the account's. */
  function RefreshedToken(account: Account, w: World): Option<TokenData> {
    match FreshToken(account.token, w)
    case Success(token) => if token.accessToken != account.token.accessToken then Some(token) else None
    case Failure(_) => None
  }

  function FirstWrites(account: Account, w: World): seq<Write> {
    var refreshed := RefreshedToken(account, w);
    (if refreshed.Some? then [TokenRefresh(refreshed.value)] else []) +
      NameWrites(FoundName(account, w.first), refreshed)
  }

  function RetryToken(account: Account, response: TokenResponse, now: int): TokenData {
    NewToken(response.accessToken, response.refreshToken.GetOr(account.token.refreshToken), response.expiresIn,
      account.token, now)
  }

  function ForbiddenQuota(now: int): QuotaData {
    QuotaData([], now, true, None)
  }

  function RetryPlan(account: Account, w: World): Plan {
    match w.retry.refresh
    case Failure(message) => Plan(DisableWrites(message), Failure(OAuth(message)))
    case Success(response) =>
      var token := RetryToken(account, response, w.now);
      var name := FoundName(account, w.retry);
      var writes := [TokenRefresh(token)] + NameWrites(name, Some(token));
      match w.retry.quota
      case Success((quota, projectId)) =>
        Plan(writes + [QuotaFound(quota, projectId, Some(token), name)],
          Success(QuotaFetchResult(quota, Some(token), projectId, name)))
      case Failure(Forbidden) =>
        var quota := ForbiddenQuota(w.now);
        Plan(writes + [QuotaFound(quota, None, Some(token), name)],
          Success(QuotaFetchResult(quota, Some(token), None, name)))
      case Failure(e) => Plan(writes, Failure(Quota(e)))
  }

  predicate LacksProxy(account: Account, enforceProxy: bool) {
    enforceProxy && (account.proxyUrl.None? || account.proxyUrl.value == "")
  }

  function FetchPlan(account: Account, enforceProxy: bool, w: World): Plan {
    if LacksProxy(account, enforceProxy) then Plan([], Failure(NoProxy))
    else
      match FreshToken(account.token, w)
      case Failure(message) => Plan(DisableWrites(message), Failure(OAuth(message)))
      case Success(_) =>
        var refreshed, name, writes := RefreshedToken(account, w), FoundName(account, w.first), FirstWrites(account, w);
        match w.first.quota
        case Success((quota, projectId)) =>
          Plan(writes + [QuotaFound(quota, projectId, refreshed, name)],
            Success(QuotaFetchResult(quota, refreshed, projectId, name)))
        case Failure(Unauthorized) => Plan(writes + RetryPlan(account, w).writes, RetryPlan(account, w).result)
        case Failure(e) => Plan(writes, Failure(Quota(e)))
  }

  /** A fetch that has a proxy and a token to use. */
  lemma FetchContinues(account: Account, enforceProxy: bool, w: World)
    requires !LacksProxy(account, enforceProxy) && FreshToken(account.token, w).Success?
    ensures var plan, first := FetchPlan(account, enforceProxy, w), FirstWrites(account, w);
      var refreshed, name := RefreshedToken(account, w), FoundName(account, w.first);
      match w.first.quota
      case Success((quota, projectId)) =>
        && plan.writes == first + [QuotaFound(quota, projectId, refreshed, name)]
        && plan.result == Success(QuotaFetchResult(quota, refreshed, projectId, name))
      case Failure(Unauthorized) =>
        plan.writes == first + RetryPlan(account, w).writes && plan.result == RetryPlan(account, w).result
      case Failure(e) => plan == Plan(first, Failure(Quota(e)))
  {}

  // ---------- Failing refreshes ----------

  /** The account has the proxy it needs. */
  predicate MayFetch(account: Account, enforceProxy: bool) {
    enforceProxy ==> account.proxyUrl.Some? && account.proxyUrl.value != ""
  }

  /** The token is good for five minutes at most, on i64 timestamps. */
  predicate Expires(account: Account, now: int) {
    account.token.expiryTimestamp <= now + 300 && account.token.expiryTimestamp <= I64_MAX
  }

  /** It has the proxy, and a token that is good or can be refreshed. */
  predicate Proceeds(account: Account, enforceProxy: bool, w: World) {
    MayFetch(account, enforceProxy) && (Expires(account, w.now) ==> w.first.refresh.Success?)
  }

  /** What a failed refresh does to the stored record: it disables the account, on the record that the backend
      writes to, exactly when the message contains "invalid_grant". */
  ghost predicate FailureRecorded(useRepo: bool, account: Account, before: Account, after: Account, message: string,
                                  now: int)
  {
    if exists i | 0 <= i <= |message| :: "invalid_grant" <= message[i..]
    then after == (if useRepo then before else account).(disabled := true, disabledAt := Some(now),
                                                         disabledReason := Some("invalid_grant: " + message))
    else after == before
  }

  lemma NoWrites(useRepo: bool, account: Account, stored: Account, now: int)
    ensures AllWritten(useRepo, account, stored, [], now) == stored
  {}

  lemma OneWrite(useRepo: bool, account: Account, stored: Account, ws: seq<Write>, w: Write, now: int)
    ensures AllWritten(useRepo, account, stored, ws + [w], now) ==
      Written(useRepo, account, AllWritten(useRepo, account, stored, ws, now), w, now)
  {
    assert (ws + [w])[..|ws|] == ws;
  }

  lemma OneFailure(useRepo: bool, account: Account, stored: Account, message: string, now: int)
    ensures var disabled := Written(useRepo, account, stored, Disable("invalid_grant: " + message), now);
      FailureRecorded(useRepo, account, stored, if InvalidGrant(message) then disabled else stored, message, now)
  {}

  lemma DisableRecorded(useRepo: bool, account: Account, stored: Account, ws: seq<Write>, message: string, now: int)
    ensures FailureRecorded(useRepo, account, AllWritten(useRepo, account, stored, ws, now),
                            AllWritten(useRepo, account, stored, ws + DisableWrites(message), now), message, now)
  {
    OneWrite(useRepo, account, stored, ws, Disable("invalid_grant: " + message), now);
    OneFailure(useRepo, account, AllWritten(useRepo, account, stored, ws, now), message, now);
    assert ws + [] == ws;
    hide AllWritten, FailureRecorded, InvalidGrant;
  }

  /** The first refresh fails: the OAuth error, and the record of the failure. */
  lemma FirstRefreshFails(useRepo: bool, account: Account, stored: Account, enforceProxy: bool, w: World)
    requires MayFetch(account, enforceProxy) && Expires(account, w.now) && w.first.refresh.Failure?
    ensures var plan, message := FetchPlan(account, enforceProxy, w), w.first.refresh.error;
      && plan.result == Failure(OAuth(message))
      && FailureRecorded(useRepo, account, stored, AllWritten(useRepo, account, stored, plan.writes, w.now), message,
                         w.now)
  {
    var message := w.first.refresh.error;
    DisableRecorded(useRepo, account, stored, [], message, w.now);
    assert [] + DisableWrites(message) == DisableWrites(message);
    NoWrites(useRepo, account, stored, w.now);
    hide AllWritten, FailureRecorded, DisableWrites, InvalidGrant;
  }

  /** The forced refresh after a 401 fails: the same, on what the first attempt left. */
  lemma RetryRefreshFails(useRepo: bool, account: Account, stored: Account, enforceProxy: bool, w: World)
    requires Proceeds(account, enforceProxy, w) && w.first.quota == Failure(Unauthorized) && w.retry.refresh.Failure?
    ensures var plan, message := FetchPlan(account, enforceProxy, w), w.retry.refresh.error;
      && plan.result == Failure(OAuth(message))
      && FailureRecorded(useRepo, account,
           AllWritten(useRepo, account, stored, FirstWrites(account, w), w.now),
           AllWritten(useRepo, account, stored, plan.writes, w.now), message, w.now)
  {
    var message := w.retry.refresh.error;
    DisableRecorded(useRepo, account, stored, FirstWrites(account, w), message, w.now);
    hide AllWritten, FailureRecorded, DisableWrites, InvalidGrant, FirstWrites;
  }

  // ---------- The backends ----------

  /** The stored record of one account, in JSON files or in a repository; `start` is what was stored
      when the present fetch began, and `log` the writes it has made. */
  class Backend {
    const useRepo: bool
    const now: int
    var stored: Account
    ghost var start: Account
    ghost var log: seq<Write>

    constructor (useRepo: bool, now: int, stored: Account)
      ensures this.useRepo == useRepo && this.now == now && this.stored == stored
    {
      this.useRepo, this.now, this.stored, start, log := useRepo, now, stored, stored, [];
    }

    ghost predicate Logged(account: Account)
      reads this
    {
      stored == AllWritten(useRepo, account, start, log, now)
    }

    /** One write was made for `account`. */
    twostate predicate Wrote(account: Account, w: Write)
      reads this
    {
      && stored == Written(useRepo, account, old(stored), w, now)
      && start == old(start) && log == old(log) + [w]
      && (old(Logged(account)) ==> Logged(account))
    }

    method PersistDisabled(account: Account, reason: string)
      modifies this
      ensures Wrote(account, Disable(reason))
    {
      if useRepo {
        stored := stored.(disabled := true, disabledReason := Some(reason), disabledAt := Some(now));
      } else {
        var clone := account;
        clone := clone.(disabled := true);
        clone := clone.(disabledAt := Some(now));
        clone := clone.(disabledReason := Some(reason));
        stored := clone;
      }
      log := log + [Disable(reason)];
      assert log[..|log| - 1] == old(log);
    }

    method PersistTokenRefresh(account: Account, newToken: TokenData)
      modifies this
      ensures Wrote(account, TokenRefresh(newToken))
    {
      if useRepo {
        var expiry := now + newToken.expiresIn;
        var token := stored.token.(accessToken := newToken.accessToken, expiryTimestamp := expiry);
        if newToken.refreshToken != account.token.refreshToken {
          token := token.(refreshToken := newToken.refreshToken);
        }
        stored := stored.(token := token);
      } else {
        stored := account.(token := newToken);
      }
      log := log + [TokenRefresh(newToken)];
      assert log[..|log| - 1] == old(log);
    }

    method PersistQuotaData(account: Account, quota: QuotaData, projectId: Option<string>,
                            refreshedToken: Option<TokenData>, fetchedName: Option<string>)
      modifies this
      ensures Wrote(account, QuotaFound(quota, projectId, refreshedToken, fetchedName))
    {
      if useRepo {
        var tier := quota.subscriptionTier;
        if tier.None? && stored.quota.Some? {
          tier := stored.quota.value.subscriptionTier;
        }
        stored := stored.(quota := Some(QuotaData(quota.models, now, quota.isForbidden, tier)));
        if projectId.Some? {
          if projectId != account.token.projectId {
            stored := stored.(token := stored.token.(projectId := projectId));
          }
        }
      } else {
        var clone := account;
        if refreshedToken.Some? {
          clone := clone.(token := refreshedToken.value);
        }
        if fetchedName.Some? {
          clone := clone.(name := fetchedName);
        }
        clone := clone.(quota := Some(quota));
        if projectId.Some? {
          clone := clone.(token := clone.token.(projectId := projectId));
        }
        stored := clone;
      }
      log := log + [QuotaFound(quota, projectId, refreshedToken, fetchedName)];
      assert log[..|log| - 1] == old(log);
    }

    method PersistName(account: Account, name: string, refreshedToken: Option<TokenData>)
      modifies this
      ensures Wrote(account, NameFound(name, refreshedToken))
    {
      if useRepo {
        stored := stored.(name := Some(name));
      } else {
        var clone := account.(name := Some(name));
        if refreshedToken.Some? {
          clone := clone.(token := refreshedToken.value);
        }
        stored := clone;
      }
      log := log + [NameFound(name, refreshedToken)];
      assert log[..|log| - 1] == old(log);
    }

    method FetchQuotaWithRetry(account: Account, enforceProxy: bool, w: World)
      returns (r: Result<QuotaFetchResult, FetchError>)
      requires w.now == now
      modifies this
      ensures var plan := FetchPlan(account, enforceProxy, w);
        r == plan.result && stored == AllWritten(useRepo, account, old(stored), plan.writes, now)
      ensures MayFetch(account, enforceProxy) && Expires(account, now) && w.first.refresh.Failure? ==>
        && r == Failure(OAuth(w.first.refresh.error))
        && FailureRecorded(useRepo, account, old(stored), stored, w.first.refresh.error, now)
    {
      start, log := stored, [];
      hide FailureRecorded, LacksName;
      if MayFetch(account, enforceProxy) && Expires(account, now) && w.first.refresh.Failure? {
        FirstRefreshFails(useRepo, account, stored, enforceProxy, w);
      }
      hide MayFetch, Expires, LacksProxy;
      assert Logged(account) && start == old(stored);
      hide AllWritten, Written, InvalidGrant, Blank, NewToken, RetryPlan, FreshToken, NameMissing;
      if enforceProxy && (account.proxyUrl.None? || account.proxyUrl.value == "") {
        return Failure(NoProxy);
      }
      var checked := FreshToken(account.token, w);
      if checked.Failure? {
        if InvalidGrant(checked.error) {
          PersistDisabled(account, "invalid_grant: " + checked.error);
        }
        assert log == DisableWrites(checked.error);
        return Failure(OAuth(checked.error));
      }
      FetchContinues(account, enforceProxy, w);
      hide FetchPlan;
      var token := checked.value;
      var refreshedToken: Option<TokenData> := None;
      if token.accessToken != account.token.accessToken {
        PersistTokenRefresh(account, token);
        refreshedToken := Some(token);
      }
      assert refreshedToken == RefreshedToken(account, w);
      assert Logged(account) && log == if refreshedToken.Some? then [TokenRefresh(token)] else [];
      hide RefreshedToken;
      var name := None;
      if NameMissing(account) {
        name := w.first.displayName;
        if name.Some? {
          PersistName(account, name.value, refreshedToken);
        }
      }
      assert Logged(account) && log == FirstWrites(account, w) && start == old(stored);
      assert name == FoundName(account, w.first);
      hide FirstWrites, FoundName, NameWrites, DisableWrites;
      if w.first.quota.Success? {
        var (quota, projectId) := w.first.quota.value;
        PersistQuotaData(account, quota, projectId, refreshedToken, name);
        return Success(QuotaFetchResult(quota, refreshedToken, projectId, name));
      }
      if w.first.quota.error.Unauthorized? {
        r := HandleUnauthorizedRetry(account, w);
        assert log == FirstWrites(account, w) + RetryPlan(account, w).writes;
        return;
      }
      return Failure(Quota(w.first.quota.error));
    }

    method HandleUnauthorizedRetry(account: Account, w: World) returns (r: Result<QuotaFetchResult, FetchError>)
      requires w.now == now && Logged(account)
      modifies this
      ensures var plan := RetryPlan(account, w);
        r == plan.result && log == old(log) + plan.writes && start == old(start) && Logged(account)
      ensures w.retry.refresh.Failure? ==>
        && r == Failure(OAuth(w.retry.refresh.error))
        && FailureRecorded(useRepo, account, old(stored), stored, w.retry.refresh.error, now)
    {
      hide AllWritten, Written, InvalidGrant, Blank, NewToken, NameMissing, Logged, FailureRecorded, LacksName;
      if w.retry.refresh.Failure? {
        var message := w.retry.refresh.error;
        OneFailure(useRepo, account, stored, message, now);
        if InvalidGrant(message) {
          PersistDisabled(account, "invalid_grant: " + message);
        }
        return Failure(OAuth(message));
      }
      var response := w.retry.refresh.value;
      var refreshToken := response.refreshToken.GetOr(account.token.refreshToken);
      var newToken := NewToken(response.accessToken, refreshToken, response.expiresIn, account.token, now);
      PersistTokenRefresh(account, newToken);
      var name := None;
      if NameMissing(account) {
        name := w.retry.displayName;
        if name.Some? {
          PersistName(account, name.value, Some(newToken));
        }
      }
      assert log == old(log) + ([TokenRefresh(newToken)] + NameWrites(name, Some(newToken)));
      match w.retry.quota
      case Success((quota, projectId)) =>
        PersistQuotaData(account, quota, projectId, Some(newToken), name);
        return Success(QuotaFetchResult(quota, Some(newToken), projectId, name));
      case Failure(Forbidden) =>
        var q := ForbiddenQuota(now);
        PersistQuotaData(account, q, None, Some(newToken), name);
        return Success(QuotaFetchResult(q, Some(newToken), None, name));
      case Failure(e) =>
        return Failure(Quota(e));
    }
  }

  // ---------- What a fetch stores, field by field ----------

  predicate LacksName(account: Account) {
    account.name.None? || forall c | c in account.name.value :: ResetTime.IsSpace(c)
  }

  lemma LacksNameIsBlank(account: Account)
    ensures LacksName(account) <==> NameMissing(account)
  {
    if account.name.Some? {
      var text := account.name.value;
      if LacksName(account) {
        forall i | 0 <= i < |text| ensures ResetTime.IsSpace(text[i]) {
          assert text[i] in text;
        }
      }
    }
  }

  /** Without the proxy it needs nothing is fetched; an error of the quota service other than a 401 is the
      answer, and stores no quota. */
  lemma FetchFails(useRepo: bool, account: Account, enforceProxy: bool, w: World)
    ensures !MayFetch(account, enforceProxy) ==>
      FetchPlan(account, enforceProxy, w) == Plan([], Failure(NoProxy))
    ensures Proceeds(account, enforceProxy, w) && w.first.quota.Failure? && w.first.quota != Failure(Unauthorized) ==>
      && FetchPlan(account, enforceProxy, w).result == Failure(Quota(w.first.quota.error))
      && After(useRepo, account, FetchPlan(account, enforceProxy, w).writes, w.now).models == CoreOf(account).models
  {
    FirstWritesCore(useRepo, account, w);
    hide FirstWrites, AllWritten, After, NameMissing, InvalidGrant;
  }

  /** A successful fetch: the token is the account's, or a new one when that expires; the name is asked for
      when there is none; quota and project are what the service answers; and the caller is told the same. */
  lemma FetchLeaves(useRepo: bool, account: Account, enforceProxy: bool, w: World)
    requires Proceeds(account, enforceProxy, w) && w.first.quota.Success?
    ensures var (quota, projectId) := w.first.quota.value;
      var plan := FetchPlan(account, enforceProxy, w);
      var after := AllWritten(useRepo, account, account, plan.writes, w.now);
      var access := if Expires(account, w.now) then w.first.refresh.value.accessToken else account.token.accessToken;
      var name := if LacksName(account) then w.first.displayName else None;
      && after.token.accessToken == access && after.token.refreshToken == account.token.refreshToken
      && after.token.projectId == (if projectId.Some? then projectId else account.token.projectId)
      && after.name == (if name.Some? then name else account.name)
      && after.quota.Some? && after.quota.value.models == quota.models
      && after.quota.value.isForbidden == quota.isForbidden
      && after.id == account.id && after.email == account.email && after.disabled == account.disabled
      && plan.result.Success?
      && var r := plan.result.value;
      && r.quota == quota && r.projectId == projectId && r.name == name
      && (r.refreshedToken.Some? <==> access != account.token.accessToken)
      && (r.refreshedToken.Some? ==>
            && r.refreshedToken.value.accessToken == access
            && r.refreshedToken.value.refreshToken == account.token.refreshToken
            && r.refreshedToken.value.expiryTimestamp == Min(w.now + w.first.refresh.value.expiresIn, I64_MAX))
  {
    LacksNameIsBlank(account);
    FetchRecords(useRepo, account, enforceProxy, w);
    hide AllWritten, NameMissing, LacksName, InvalidGrant, FirstWrites;
  }

  /** Where the backends differ after a successful fetch: the JSON file has the quota as answered, and saturates
      the expiry of a new token; the repository stamps the quota now, and keeps the tier it had when the answer
      has none. */
  lemma FetchStamps(useRepo: bool, account: Account, enforceProxy: bool, w: World)
    requires Proceeds(account, enforceProxy, w) && w.first.quota.Success?
    ensures var quota, plan := w.first.quota.value.0, FetchPlan(account, enforceProxy, w);
      var after := AllWritten(useRepo, account, account, plan.writes, w.now);
      var had := if account.quota.Some? then account.quota.value.subscriptionTier else None;
      && after.quota ==
         (if !useRepo then Some(quota)
          else Some(QuotaData(quota.models, w.now, quota.isForbidden,
                              if quota.subscriptionTier.Some? then quota.subscriptionTier else had)))
      && after.token.expiryTimestamp ==
         if !Expires(account, w.now) || w.first.refresh.value.accessToken == account.token.accessToken
         then account.token.expiryTimestamp
         else if useRepo then w.now + w.first.refresh.value.expiresIn
         else Min(w.now + w.first.refresh.value.expiresIn, I64_MAX)
  {
    var (quota, projectId) := w.first.quota.value;
    var first, last := FirstWrites(account, w),
      QuotaFound(quota, projectId, RefreshedToken(account, w), FoundName(account, w.first));
    ProceedsWrites(account, enforceProxy, w);
    hide *;
    FirstLeaves(useRepo, account, w);
    RefreshedExpiry(account, w);
    OneWrite(useRepo, account, account, first, last, w.now);
    QuotaWriteStamps(useRepo, account, AllWritten(useRepo, account, account, first, w.now), last, w.now);
  }

  lemma ProceedsWrites(account: Account, enforceProxy: bool, w: World)
    requires Proceeds(account, enforceProxy, w) && w.first.quota.Success?
    ensures Expires(account, w.now) ==> w.first.refresh.Success?
    ensures FetchPlan(account, enforceProxy, w).writes ==
      FirstWrites(account, w)
      + [QuotaFound(w.first.quota.value.0, w.first.quota.value.1, RefreshedToken(account, w),
                    FoundName(account, w.first))]
  {
    hide FirstWrites, RefreshedToken, FoundName;
  }

  lemma QuotaWriteStamps(useRepo: bool, account: Account, stored: Account, last: Write, now: int)
    requires last.QuotaFound? && stored.quota == account.quota
    ensures var quota, after := last.quota, Written(useRepo, account, stored, last, now);
      var had := if account.quota.Some? then account.quota.value.subscriptionTier else None;
      && after.quota ==
         (if !useRepo then Some(quota)
          else Some(QuotaData(quota.models, now, quota.isForbidden,
                              if quota.subscriptionTier.Some? then quota.subscriptionTier else had)))
      && after.token.expiryTimestamp ==
         if useRepo then stored.token.expiryTimestamp
         else if last.refreshed.Some? then last.refreshed.value.expiryTimestamp
         else account.token.expiryTimestamp
  {}

  lemma RefreshedExpiry(account: Account, w: World)
    requires Expires(account, w.now) ==> w.first.refresh.Success?
    ensures var refreshed := RefreshedToken(account, w);
      && (refreshed.Some? <==>
            Expires(account, w.now) && w.first.refresh.value.accessToken != account.token.accessToken)
      && (refreshed.Some? ==>
            && refreshed.value.expiresIn == w.first.refresh.value.expiresIn
            && refreshed.value.expiryTimestamp == Min(w.now + w.first.refresh.value.expiresIn, I64_MAX))
  {}

  lemma FirstLeaves(useRepo: bool, account: Account, w: World)
    ensures var after := AllWritten(useRepo, account, account, FirstWrites(account, w), w.now);
      var refreshed := RefreshedToken(account, w);
      && after.quota == account.quota
      && after.token.expiryTimestamp ==
         if refreshed.None? then account.token.expiryTimestamp
         else if useRepo then w.now + refreshed.value.expiresIn
         else refreshed.value.expiryTimestamp
  {
    hide InvalidGrant, NameMissing, FreshToken, RefreshedToken, AllWritten, FoundName;
    var refreshed, name := RefreshedToken(account, w), FoundName(account, w.first);
    var one := if refreshed.Some? then [TokenRefresh(refreshed.value)] else [];
    NoWrites(useRepo, account, account, w.now);
    if refreshed.Some? {
      OneWrite(useRepo, account, account, [], TokenRefresh(refreshed.value), w.now);
      assert [] + one == one;
    }
    if name.Some? {
      OneWrite(useRepo, account, account, one, NameFound(name.value, refreshed), w.now);
    } else {
      assert one + [] == one;
    }
  }

  /** After a 401 and a forced refresh: the new token, with the refresh token the service rotated to if it
      did; a quota as answered; and for a 403 an empty one, marked forbidden. */
  predicate RetryRecorded(after: Core, account: Account, w: World)
    requires w.retry.refresh.Success?
  {
    var response := w.retry.refresh.value;
    && after.accessToken == response.accessToken
    && after.refreshToken ==
       (match response.refreshToken case Some(rotated) => rotated case None => account.token.refreshToken)
    && after.id == account.id && after.email == account.email && after.disabled == account.disabled
    && (LacksName(account) && w.retry.displayName.Some? ==> after.name == w.retry.displayName)
    && (!LacksName(account) ==> after.name == account.name)
    && match w.retry.quota
       case Success((quota, projectId)) =>
         && after.models == Some(quota.models) && after.forbidden == Some(quota.isForbidden)
         && after.projectId == (if projectId.Some? then projectId else account.token.projectId)
       case Failure(Forbidden) => after.models == Some([]) && after.forbidden == Some(true)
       case Failure(_) => after.models == CoreOf(account).models && after.forbidden == CoreOf(account).forbidden
  }

  lemma RetryLeaves(useRepo: bool, account: Account, enforceProxy: bool, w: World)
    requires Proceeds(account, enforceProxy, w) && w.first.quota == Failure(Unauthorized) && w.retry.refresh.Success?
    ensures RetryRecorded(After(useRepo, account, FetchPlan(account, enforceProxy, w).writes, w.now), account, w)
  {
    RetryRecords(useRepo, account, enforceProxy, w);
    RetryCoreMeaning(useRepo, account, w);
    assert Retries(account, enforceProxy, w);
    hide *;
  }

  lemma RetryTokenMeaning(useRepo: bool, account: Account, w: World)
    requires w.retry.refresh.Success?
    ensures var response := w.retry.refresh.value;
      var c, core := RetryTokenCore(useRepo, account, w, RetryToken(account, response, w.now)), CoreOf(account);
      && c.accessToken == response.accessToken
      && c.refreshToken ==
         (match response.refreshToken case Some(rotated) => rotated case None => account.token.refreshToken)
      && c == core.(accessToken := c.accessToken, refreshToken := c.refreshToken, name := c.name)
      && (LacksName(account) && w.retry.displayName.Some? ==> c.name == w.retry.displayName)
      && (!LacksName(account) ==> c.name == account.name)
  {
    LacksNameIsBlank(account);
    var base, core := RetryBase(useRepo, account, w), CoreOf(account);
    assert base == core.(accessToken := base.accessToken, name := base.name);
    assert !LacksName(account) ==> base.name == account.name;
    hide RetryBase, CoreOf, NameMissing, LacksName;
  }

  lemma RetryCoreMeaning(useRepo: bool, account: Account, w: World)
    requires w.retry.refresh.Success?
    ensures RetryRecorded(RetryCore(useRepo, account, w), account, w)
  {
    RetryTokenMeaning(useRepo, account, w);
    var core := CoreOf(account);
    assert core.id == account.id && core.email == account.email && core.disabled == account.disabled;
    assert core.projectId == account.token.projectId;
    hide CoreOf, LacksName, RetryToken, RetryTokenCore;
  }

  /** What the caller is told of it: a 403 counts as success. */
  lemma RetryAnswers(account: Account, enforceProxy: bool, w: World)
    requires Proceeds(account, enforceProxy, w) && w.first.quota == Failure(Unauthorized) && w.retry.refresh.Success?
    ensures var r, response := FetchPlan(account, enforceProxy, w).result, w.retry.refresh.value;
      && (match w.retry.quota
          case Success((quota, projectId)) => r.Success? && r.value.quota == quota && r.value.projectId == projectId
          case Failure(Forbidden) => r.Success? && r.value.quota.models == [] && r.value.quota.isForbidden
          case Failure(e) => r == Failure(Quota(e)))
      && (r.Success? ==>
            && r.value.refreshedToken.Some?
            && r.value.refreshedToken.value.accessToken == response.accessToken
            && r.value.refreshedToken.value.refreshToken ==
               (match response.refreshToken case Some(rotated) => rotated case None => account.token.refreshToken)
            && r.value.refreshedToken.value.expiryTimestamp == Min(w.now + response.expiresIn, I64_MAX)
            && r.value.name == if LacksName(account) then w.retry.displayName else None)
  {
    LacksNameIsBlank(account);
    hide NameMissing, LacksName, InvalidGrant, FirstWrites, RefreshedToken;
  }

  // ---------- The two backends against each other ----------

  /** What both backends are meant to record. Expiry, `last_updated` and the subscription tier are not
      in it: the repository stamps the first two itself and keeps the tier elsewhere. */
  datatype Core = Core(
    id: string, email: string, accessToken: string, refreshToken: string, projectId: Option<string>,
    name: Option<string>, models: Option<seq<ModelQuota>>, forbidden: Option<bool>,
    disabled: bool, disabledReason: Option<string>)

  function CoreOf(a: Account): Core {
    Core(a.id, a.email, a.token.accessToken, a.token.refreshToken, a.token.projectId, a.name,
         if a.quota.Some? then Some(a.quota.value.models) else None,
         if a.quota.Some? then Some(a.quota.value.isForbidden) else None, a.disabled, a.disabledReason)
  }

  function After(useRepo: bool, account: Account, ws: seq<Write>, now: int): Core {
    CoreOf(AllWritten(useRepo, account, account, ws, now))
  }

  lemma AfterNone(account: Account, now: int)
    ensures After(true, account, [], now) == After(false, account, [], now) == CoreOf(account)
  {}

  lemma WrittenAfter(useRepo: bool, account: Account, ws: seq<Write>, w: Write, now: int)
    ensures AllWritten(useRepo, account, account, ws + [w], now) ==
      Written(useRepo, account, AllWritten(useRepo, account, account, ws, now), w, now)
  {
    assert (ws + [w])[..|ws|] == ws;
  }

  predicate Retries(account: Account, enforceProxy: bool, w: World) {
    && !LacksProxy(account, enforceProxy) && FreshToken(account.token, w).Success?
    && w.first.quota == Failure(Unauthorized)
  }

  /** What a first attempt leaves after its token and name writes, on either backend. */
  function FirstCore(account: Account, w: World): Core {
    var refreshed, name := RefreshedToken(account, w), FoundName(account, w.first);
    CoreOf(account).(accessToken := refreshed.GetOr(account.token).accessToken,
                     name := if name.Some? then name else account.name)
  }

  lemma FirstWritesCore(useRepo: bool, account: Account, w: World)
    ensures After(useRepo, account, FirstWrites(account, w), w.now) == FirstCore(account, w)
  {
    hide InvalidGrant, Blank, NameMissing;
    var refreshed, name := RefreshedToken(account, w), FoundName(account, w.first);
    var one := if refreshed.Some? then [TokenRefresh(refreshed.value)] else [];
    if refreshed.Some? {
      WrittenAfter(useRepo, account, [], TokenRefresh(refreshed.value), w.now);
      assert [] + one == one;
    }
    if name.Some? {
      WrittenAfter(useRepo, account, one, NameFound(name.value, refreshed), w.now);
    } else {
      assert one + [] == one;
    }
  }

  function WithQuota(c: Core, quota: QuotaData, projectId: Option<string>): Core {
    c.(models := Some(quota.models), forbidden := Some(quota.isForbidden),
       projectId := if projectId.Some? then projectId else c.projectId)
  }

  lemma RepoQuota(account: Account, ws: seq<Write>, last: Write, now: int)
    requires last.QuotaFound? && After(true, account, ws, now).projectId == account.token.projectId
    ensures After(true, account, ws + [last], now) ==
      WithQuota(After(true, account, ws, now), last.quota, last.projectId)
  {
    WrittenAfter(true, account, ws, last, now);
    hide AllWritten;
  }

  lemma JsonQuota(account: Account, ws: seq<Write>, last: Write, now: int)
    requires last.QuotaFound?
    requires last.refreshed.Some? ==> last.refreshed.value.projectId == account.token.projectId
    ensures var token := last.refreshed.GetOr(account.token);
      var c := CoreOf(account).(accessToken := token.accessToken, refreshToken := token.refreshToken,
                                name := if last.name.Some? then last.name else account.name);
      After(false, account, ws + [last], now) == WithQuota(c, last.quota, last.projectId)
  {
    WrittenAfter(false, account, ws, last, now);
    hide AllWritten;
  }

  lemma FirstQuotaCore(useRepo: bool, account: Account, w: World, quota: QuotaData, projectId: Option<string>)
    ensures var last := QuotaFound(quota, projectId, RefreshedToken(account, w), FoundName(account, w.first));
      After(useRepo, account, FirstWrites(account, w) + [last], w.now) ==
        WithQuota(FirstCore(account, w), quota, projectId)
  {
    var last := QuotaFound(quota, projectId, RefreshedToken(account, w), FoundName(account, w.first));
    FirstWritesCore(useRepo, account, w);
    if useRepo {
      RepoQuota(account, FirstWrites(account, w), last, w.now);
    } else {
      JsonQuota(account, FirstWrites(account, w), last, w.now);
    }
  }

  lemma FirstPrefixAgrees(account: Account, w: World, k: nat)
    requires k <= |FirstWrites(account, w)|
    ensures After(true, account, FirstWrites(account, w)[..k], w.now) ==
      After(false, account, FirstWrites(account, w)[..k], w.now)
  {
    hide InvalidGrant, Blank;
    var ws := FirstWrites(account, w);
    if k == |ws| {
      assert ws[..k] == ws;
      FirstWritesCore(true, account, w);
      FirstWritesCore(false, account, w);
    } else if k == 1 {
      assert ws[..1] == [] + [ws[0]];
      WrittenAfter(true, account, [], ws[0], w.now);
      WrittenAfter(false, account, [], ws[0], w.now);
    } else {
      assert ws[..0] == [];
    }
  }

  /** Without a 401 the backends agree after every single write, whatever was refreshed, found or
      fetched, when the record starts as the caller's account. */
  lemma BackendsAgree(account: Account, enforceProxy: bool, w: World, k: nat)
    requires !Retries(account, enforceProxy, w) && k <= |FetchPlan(account, enforceProxy, w).writes|
    ensures var ws := FetchPlan(account, enforceProxy, w).writes[..k];
      After(true, account, ws, w.now) == After(false, account, ws, w.now)
  {
    hide InvalidGrant, Blank, FirstWrites, AllWritten, RefreshedToken, FoundName;
    var ws := FetchPlan(account, enforceProxy, w).writes;
    if LacksProxy(account, enforceProxy) || FreshToken(account.token, w).Failure? {
      if k == 0 {
        assert ws[..k] == [];
        AfterNone(account, w.now);
      } else {
        assert ws[..k] == [] + [ws[0]];
        WrittenAfter(true, account, [], ws[0], w.now);
        WrittenAfter(false, account, [], ws[0], w.now);
        AfterNone(account, w.now);
      }
    } else if k <= |FirstWrites(account, w)| {
      assert ws[..k] == FirstWrites(account, w)[..k];
      FirstPrefixAgrees(account, w, k);
    } else {
      var (quota, projectId) := w.first.quota.value;
      assert ws[..k] == ws;
      FirstQuotaCore(true, account, w, quota, projectId);
      FirstQuotaCore(false, account, w, quota, projectId);
    }
  }

  /** What the whole of a successful fetch leaves, on either backend: the refreshed token and the found
      name stay, whatever was written after them. */
  lemma FetchRecords(useRepo: bool, account: Account, enforceProxy: bool, w: World)
    requires !LacksProxy(account, enforceProxy) && FreshToken(account.token, w).Success? && w.first.quota.Success?
    ensures var (quota, projectId) := w.first.quota.value;
      && After(useRepo, account, FetchPlan(account, enforceProxy, w).writes, w.now) ==
          WithQuota(FirstCore(account, w), quota, projectId)
      && FirstCore(account, w).accessToken == FreshToken(account.token, w).value.accessToken
      && (FoundName(account, w.first).Some? ==> FirstCore(account, w).name == w.first.displayName)
  {
    var (quota, projectId) := w.first.quota.value;
    FirstQuotaCore(useRepo, account, w, quota, projectId);
  }

  // ---------- The retry after a 401 ----------

  /** The JSON backend starts again from the caller's account, the repository from the first attempt. */
  function RetryBase(useRepo: bool, account: Account, w: World): Core {
    if useRepo then FirstCore(account, w) else CoreOf(account)
  }

  function RetryTokenCore(useRepo: bool, account: Account, w: World, token: TokenData): Core {
    var name := FoundName(account, w.retry);
    var base := RetryBase(useRepo, account, w);
    base.(accessToken := token.accessToken, refreshToken := token.refreshToken,
          name := if name.Some? then name else base.name)
  }

  function RetryCore(useRepo: bool, account: Account, w: World): Core {
    match w.retry.refresh
    case Failure(message) =>
      if InvalidGrant(message)
      then RetryBase(useRepo, account, w).(disabled := true, disabledReason := Some("invalid_grant: " + message))
      else FirstCore(account, w)
    case Success(response) =>
      var core := RetryTokenCore(useRepo, account, w, RetryToken(account, response, w.now));
      match w.retry.quota
      case Success((quota, projectId)) => WithQuota(core, quota, projectId)
      case Failure(Forbidden) => WithQuota(core, ForbiddenQuota(w.now), None)
      case Failure(_) => core
  }

  lemma RetryTokenWrites(useRepo: bool, account: Account, w: World, token: TokenData)
    requires token.projectId == account.token.projectId
    ensures var ws := [TokenRefresh(token)] + NameWrites(FoundName(account, w.retry), Some(token));
      After(useRepo, account, FirstWrites(account, w) + ws, w.now) ==
      RetryTokenCore(useRepo, account, w, token)
  {
    FirstWritesCore(useRepo, account, w);
    hide FirstWrites, AllWritten, NameMissing, RefreshedToken;
    var first, name := FirstWrites(account, w), FoundName(account, w.retry);
    WrittenAfter(useRepo, account, first, TokenRefresh(token), w.now);
    if name.Some? {
      WrittenAfter(useRepo, account, first + [TokenRefresh(token)], NameFound(name.value, Some(token)), w.now);
      assert first + [TokenRefresh(token)] + [NameFound(name.value, Some(token))] ==
        first + ([TokenRefresh(token)] + [NameFound(name.value, Some(token))]);
    } else {
      assert [TokenRefresh(token)] + [] == [TokenRefresh(token)];
    }
  }

  lemma RetryRecords(useRepo: bool, account: Account, enforceProxy: bool, w: World)
    requires Retries(account, enforceProxy, w)
    ensures After(useRepo, account, FetchPlan(account, enforceProxy, w).writes, w.now) == RetryCore(useRepo, account, w)
  {
    FirstWritesCore(useRepo, account, w);
    hide FirstWrites, AllWritten, InvalidGrant, NameMissing, RefreshedToken;
    var first, name := FirstWrites(account, w), FoundName(account, w.retry);
    match w.retry.refresh
    case Failure(message) =>
      if InvalidGrant(message) {
        WrittenAfter(useRepo, account, first, Disable("invalid_grant: " + message), w.now);
      } else {
        assert first + [] == first;
      }
    case Success(response) =>
      var token := RetryToken(account, response, w.now);
      RetryTokenWrites(useRepo, account, w, token);
      var ws := [TokenRefresh(token)] + NameWrites(name, Some(token));
      RetryLast(useRepo, account, w, token, ForbiddenQuota(w.now), None);
      if w.retry.quota.Success? {
        RetryLast(useRepo, account, w, token, w.retry.quota.value.0, w.retry.quota.value.1);
      }
  }

  lemma RetryLast(useRepo: bool, account: Account, w: World, token: TokenData, quota: QuotaData,
                  projectId: Option<string>)
    requires token.projectId == account.token.projectId
    ensures var name := FoundName(account, w.retry);
      var ws := [TokenRefresh(token)] + NameWrites(name, Some(token)) +
        [QuotaFound(quota, projectId, Some(token), name)];
      After(useRepo, account, FirstWrites(account, w) + ws, w.now) ==
        WithQuota(RetryTokenCore(useRepo, account, w, token), quota, projectId)
  {
    var name := FoundName(account, w.retry);
    var last := QuotaFound(quota, projectId, Some(token), name);
    var ws := [TokenRefresh(token)] + NameWrites(name, Some(token));
    var all := FirstWrites(account, w) + ws;
    RetryTokenWrites(useRepo, account, w, token);
    assert all + [last] == FirstWrites(account, w) + (ws + [last]);
    if useRepo {
      RepoQuota(account, all, last, w.now);
    } else {
      JsonQuota(account, all, last, w.now);
    }
  }

  /** What the JSON backend loses by writing the caller's account again: the name of the first attempt,
      unless the retry finds one or writes nothing; and, when the retry ends in disabling the account,
      the token of the first attempt too. */
  predicate RetryLoses(account: Account, w: World) {
    var losesName := FoundName(account, w.first).Some? && w.first.displayName != account.name;
    match w.retry.refresh
    case Failure(message) => InvalidGrant(message) && (losesName || RefreshedToken(account, w).Some?)
    case Success(_) => losesName && w.retry.displayName.None?
  }

  lemma RetryCoresAgreeIff(account: Account, w: World)
    ensures RetryCore(true, account, w) == RetryCore(false, account, w) <==> !RetryLoses(account, w)
  {
    var first, c := FirstCore(account, w), CoreOf(account);
    var refreshed, name := RefreshedToken(account, w), FoundName(account, w.first);
    assert first.accessToken == c.accessToken <==> refreshed.None?;
    assert first.name == c.name <==> name.None? || name == account.name;
    assert first == c.(accessToken := first.accessToken, name := first.name);
    assert name.Some? ==> name == w.first.displayName && FoundName(account, w.retry) == w.retry.displayName;
    hide CoreOf, FirstCore, RefreshedToken, FoundName, InvalidGrant;
    if w.retry.refresh.Success? {
      var token := RetryToken(account, w.retry.refresh.value, w.now);
      var repo, json := RetryTokenCore(true, account, w, token), RetryTokenCore(false, account, w, token);
      assert repo == json <==> first.name == c.name || FoundName(account, w.retry).Some?;
      assert repo == json.(name := repo.name);
      hide RetryTokenCore;
    }
  }

  /** The backends end with the same record exactly when there is no retry that loses something. */
  lemma BackendsAgreeIff(account: Account, enforceProxy: bool, w: World)
    ensures var ws := FetchPlan(account, enforceProxy, w).writes;
      After(true, account, ws, w.now) == After(false, account, ws, w.now) <==>
      !(Retries(account, enforceProxy, w) && RetryLoses(account, w))
  {
    hide FetchPlan, After, RetryCore, RetryLoses;
    var ws := FetchPlan(account, enforceProxy, w).writes;
    if Retries(account, enforceProxy, w) {
      RetryRecords(true, account, enforceProxy, w);
      RetryRecords(false, account, enforceProxy, w);
      RetryCoresAgreeIff(account, w);
    } else {
      BackendsAgree(account, enforceProxy, w, |ws|);
      assert ws[..|ws|] == ws;
    }
  }

  // ---------- What a retry loses ----------

  /** A nameless account whose token is good for another 1000 seconds. */
  function Nameless(): Account {
    NewAccount("1", "a@b", TokenData("old", "refresh", 3600, 1000, "Bearer", None, None, None), 0)
  }

  /** A 401 after the name was found; the retry refreshes and finds no name. */
  lemma RetryDropsName()
    ensures var w := World(0, Replies(Failure(""), Some("Ada"), Failure(Unauthorized)),
                           Replies(Success(TokenResponse("new", None, 3600)), None, Failure(OtherError)));
      var ws := FetchPlan(Nameless(), false, w).writes;
      After(true, Nameless(), ws, 0).name == Some("Ada") && After(false, Nameless(), ws, 0).name == None
  {
    var w := World(0, Replies(Failure(""), Some("Ada"), Failure(Unauthorized)),
                   Replies(Success(TokenResponse("new", None, 3600)), None, Failure(OtherError)));
    RetryRecords(true, Nameless(), false, w);
    RetryRecords(false, Nameless(), false, w);
    hide AllWritten, After;
  }

  /** A 401 after the token was refreshed; the forced refresh ends in disabling the account. */
  lemma RetryDropsToken(now: int)
    requires 1000 <= now && now + 300 <= I64_MAX
    ensures var w := World(now, Replies(Success(TokenResponse("new", None, 3600)), None, Failure(Unauthorized)),
                           Replies(Failure("invalid_grant"), None, Failure(OtherError)));
      var ws := FetchPlan(Nameless(), false, w).writes;
      && After(true, Nameless(), ws, now).accessToken == "new" && After(false, Nameless(), ws, now).accessToken == "old"
      && After(true, Nameless(), ws, now).disabled && After(false, Nameless(), ws, now).disabled
  {
    var w := World(now, Replies(Success(TokenResponse("new", None, 3600)), None, Failure(Unauthorized)),
                   Replies(Failure("invalid_grant"), None, Failure(OtherError)));
    var message := "invalid_grant";
    assert message[0..] == message;
    assert InvalidGrant(message);
    RetryRecords(true, Nameless(), false, w);
    RetryRecords(false, Nameless(), false, w);
    hide AllWritten, After, InvalidGrant;
    assert "new"[0] != "old"[0];
  }
}
