/** The data shapes of the proxy manager: endpoints, their authentication
    configuration and the pool of API keys with per-key usage ledgers.
    Optional JSON properties are `Option`s; JavaScript numbers are `int`s. */
module Types {

  datatype Option<+T> = None | Some(value: T) {
    /** The wrapped value, or `default` when absent (`x || default`). */
    function GetOr(default: T): T {
      match this
      case Some(v) => v
      case None => default
    }
  }

  datatype Result<+T, +E> = Ok(value: T) | Err(error: E)

  /** Per-key caps; a cap that is not set never limits the key. */
  datatype RateLimit = RateLimit(
    requestsPerMinute: Option<int>,
    requestsPerHour: Option<int>,
    requestsPerDay: Option<int>)

  /** One credential of a pool. `lastUsed` is the ISO text of the clock at
      the last hit; `usageHistory` holds the millisecond timestamps of hits. */
  datatype ApiKey = ApiKey(
    value: string,
    usage: int,
    lastUsed: Option<string>,
    rateLimit: Option<RateLimit>,
    usageHistory: Option<seq<int>>)

  /** `basic_auth` and `bearer_token` are declared but nothing implements
      them: every operation treats them like `none`. */
  datatype AuthType = NoAuth | ApiKeyAuth | BasicAuth | BearerToken

  /** Where the key is placed on the outbound request (`in`). */
  datatype KeyLocation = InHeader | InQuery

  datatype AuthConfig = AuthConfig(
    authType: AuthType,
    values: Option<seq<ApiKey>>,
    name: Option<string>,
    location: Option<KeyLocation>)

  type Headers = map<string, string>

  datatype Endpoint = Endpoint(
    id: string,
    pathPrefixes: seq<string>,
    targetUrl: string,
    headersToAdd: Option<Headers>,
    authConfig: Option<AuthConfig>)
}
