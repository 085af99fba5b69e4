/** The account records of antigravity-types/src/models (account.rs, token.rs, quota.rs). */
module AccountModel {
  import opened Wrappers

  datatype TokenData = TokenData(
    accessToken: string, refreshToken: string, expiresIn: int, expiryTimestamp: int,
    tokenType: string, email: Option<string>, projectId: Option<string>, sessionId: Option<string>)

  datatype ModelQuota = ModelQuota(name: string, percentage: int, resetTime: string)

  datatype QuotaData = QuotaData(models: seq<ModelQuota>, lastUpdated: int, isForbidden: bool,
                                 subscriptionTier: Option<string>)

  datatype Account = Account(
    id: string, email: string, name: Option<string>, token: TokenData, quota: Option<QuotaData>,
    disabled: bool, disabledReason: Option<string>, disabledAt: Option<int>,
    proxyDisabled: bool, proxyDisabledReason: Option<string>, proxyDisabledAt: Option<int>,
    protectedModels: set<string>, proxyUrl: Option<string>, createdAt: int, lastUsed: int)

  function NewAccount(id: string, email: string, token: TokenData, now: int): Account {
    Account(id, email, None, token, None, false, None, None, false, None, None, {}, None, now, now)
  }

  datatype AccountSummary = AccountSummary(id: string, email: string, name: Option<string>, createdAt: int,
                                           lastUsed: int)
}
