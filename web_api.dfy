/**
 * The refresh-token cache behind internal/usecase/web/web_api.go: one refresh token
 * per user id (the Redis key "user:refreshToken:<id>"). Expiry is not modelled.
 */
module Web {
  import opened Wrappers
  import opened Model

  class WebAPI {
    var refreshTokens: map<Uuid, string>

    constructor ()
      ensures refreshTokens == map[]
    {
      refreshTokens := map[];
    }

    /** Stores `refreshToken` for `id`, replacing the previous one; `setErr` is the cache's outcome. */
    method AddRefreshToken(id: Uuid, refreshToken: string, setErr: Option<Error>) returns (err: Option<Error>)
      modifies this
      ensures err == setErr
      ensures refreshTokens == if setErr.None? then old(refreshTokens)[id := refreshToken] else old(refreshTokens)
    {
      err := setErr;
      if setErr.None? {
        refreshTokens := refreshTokens[id := refreshToken];
      }
    }
  }
}
