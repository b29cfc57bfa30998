/** `APIKeyMiddleware` of internal/presentation/api/middleware.go: the
    decision whether a request reaches the next handler or is answered
    401, as a function of the path, the configured `APIKey` and the two
    request headers. An absent header reads as the empty string, as
    `Header.Get` returns it. */
module Middleware {
  import opened Bytes
  import opened Config

  const HealthPath: Bytes := Ascii("/health")
  const SwaggerPrefix: Bytes := Ascii("/swagger/")
  const BearerPrefix: Bytes := Ascii("Bearer ")

  /** Paths that never need a key: the health check and the API docs. */
  predicate Exempt(path: Bytes) {
    path == HealthPath || HasPrefix(path, SwaggerPrefix)
  }

  /** The key a request presents: a non-empty `X-API-Key` header, or else
      the `Authorization` header with one leading "Bearer " removed. */
  function PresentedKey(xApiKey: Bytes, authorization: Bytes): (k: Bytes)
    ensures xApiKey != [] ==> k == xApiKey
    ensures xApiKey == [] && HasPrefix(authorization, BearerPrefix) ==> authorization == BearerPrefix + k
    ensures xApiKey == [] && !HasPrefix(authorization, BearerPrefix) ==> k == authorization
  {
    if xApiKey != [] then xApiKey
    else if HasPrefix(authorization, BearerPrefix) then
      assert authorization == BearerPrefix + authorization[|BearerPrefix|..];
      authorization[|BearerPrefix|..]
    else authorization
  }

  datatype Verdict = Next | Reject(status: int)

  /** The middleware's decision: exempt paths and an unconfigured key
      pass; otherwise the presented key must equal the configured one, and
      a mismatch is answered 401 without calling the next handler. */
  function Authorize(cfg: Config, path: Bytes, xApiKey: Bytes, authorization: Bytes): (v: Verdict)
    ensures v.Reject? ==> v.status == 401
    ensures Exempt(path) || cfg.apiKey == [] ==> v == Next
  {
    if Exempt(path) then Next
    else if cfg.apiKey == [] then Next
    else if PresentedKey(xApiKey, authorization) != cfg.apiKey then Reject(401)
    else Next
  }

  /** When exactly a request passes, written out header by header: a
      non-empty `X-API-Key` must be the key itself (and `Authorization` is
      then ignored); without it, `Authorization` must be "Bearer " followed
      by the key, or the bare key when the key does not itself start with
      "Bearer ". */
  lemma AuthorizeIff(cfg: Config, path: Bytes, xApiKey: Bytes, authorization: Bytes)
    ensures var apiKey := cfg.apiKey;
            Authorize(cfg, path, xApiKey, authorization) == Next <==>
              || Exempt(path)
              || apiKey == []
              || (xApiKey != [] && xApiKey == apiKey)
              || (xApiKey == [] && authorization == BearerPrefix + apiKey)
              || (xApiKey == [] && authorization == apiKey && !HasPrefix(apiKey, BearerPrefix))
  {
  }

  /** With a key configured, a request to a guarded path that carries
      neither header is rejected. */
  lemma NoHeadersRejected(cfg: Config, path: Bytes)
    requires cfg.apiKey != [] && !Exempt(path)
    ensures Authorize(cfg, path, [], []) == Reject(401)
  {
  }

  /** With a key configured, `X-API-Key` overrides `Authorization`: a
      wrong `X-API-Key` is rejected whatever `Authorization` holds. */
  lemma WrongXApiKeyRejected(cfg: Config, path: Bytes, xApiKey: Bytes, authorization: Bytes)
    requires cfg.apiKey != [] && !Exempt(path)
    requires xApiKey != [] && xApiKey != cfg.apiKey
    ensures Authorize(cfg, path, xApiKey, authorization) == Reject(401)
  {
  }
}
