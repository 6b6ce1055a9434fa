/** The API-key gate of the application factory
    (backup_server/server/app.py, `verify_api_key`) and the two file
    endpoints it guards. The gate runs before the handler, so a rejected
    request never reaches the ledger or the storage tree. */
module App {
  import opened Common
  import opened Dedup
  import opened Models
  import opened Files

  /** What a request can come to once the gate has run: a reply FastAPI
      sends, or an exception nobody handles (a 500 response). */
  datatype Guarded<T> = Handled(reply: Reply<T>) | InternalError

  /** `secrets.compare_digest` on two `str` values: it refuses, with a
      `TypeError`, anything that is not pure ASCII, and otherwise answers
      whether the two are equal. `None` stands for the exception. */
  function CompareDigest(a: string, b: string): (r: Option<bool>)
    ensures r.None? <==> !(IsAscii(a) && IsAscii(b))
    ensures r.Some? ==> (r.value <==> a == b)
  {
    if IsAscii(a) && IsAscii(b) then Some(a == b) else None
  }

  /** The gate as written: `X-API-Key` header against the configured key.
      The header arrives decoded as Latin-1, so it may hold any character
      below U+0100. */
  function VerifyApiKeyAsWritten(header: Option<string>, configured: string): (r: Guarded<string>)
    ensures !Truthy(header) ==> r == Handled(HttpError(401, "API key required"))
    ensures Truthy(header) && !(IsAscii(header.value) && IsAscii(configured)) ==> r.InternalError?
    ensures Truthy(header) && IsAscii(header.value) && IsAscii(configured) ==>
              r == Handled(if header.value == configured then Ok(header.value)
                           else HttpError(401, "Invalid API key"))
  {
    if !Truthy(header) then Handled(HttpError(401, "API key required"))
    else match CompareDigest(header.value, configured)
      case None => InternalError
      case Some(same) =>
        if same then Handled(Ok(header.value)) else Handled(HttpError(401, "Invalid API key"))
  }

  /** A header with a Latin-1 character crashes the gate instead of being
      refused with 401. */
  lemma NonAsciiKeyCrashes()
    ensures VerifyApiKeyAsWritten(Some("é"), "secret") == InternalError
  {
    assert "é"[0] as int >= 0x80;
  }

  /** The gate as evidently intended: a constant-time comparison of the
      two keys' bytes, which never raises. The request passes exactly when
      it carries a non-empty key equal to the configured one, and the
      value handed on is the configured key. */
  function VerifyApiKey(header: Option<string>, configured: string): (r: Reply<string>)
    ensures r.Ok? <==> Truthy(header) && header.value == configured
    ensures r.Ok? ==> r.body == configured && |r.body| > 0
    ensures r.HttpError? ==> r.statusCode == 401
    ensures r.HttpError? ==>
              r.detail == (if Truthy(header) then "Invalid API key" else "API key required")
  {
    if !Truthy(header) then HttpError(401, "API key required")
    else if header.value != configured then HttpError(401, "Invalid API key")
    else Ok(header.value)
  }

  /** Wherever the written gate does not crash it decides as the intended
      one does, and it crashes only on non-ASCII keys. */
  lemma VerifyApiKeyAgrees(header: Option<string>, configured: string)
    ensures VerifyApiKeyAsWritten(header, configured).InternalError? <==>
              Truthy(header) && !(IsAscii(header.value) && IsAscii(configured))
    ensures VerifyApiKeyAsWritten(header, configured).Handled? ==>
              VerifyApiKeyAsWritten(header, configured).reply == VerifyApiKey(header, configured)
  {
  }

  /** `POST /api/files/check` behind the gate. */
  function CheckEndpoint(s: Server, header: Option<string>, configured: string,
                         hashes: seq<Hash>): (r: Reply<FileCheckResponse>)
    ensures r.Ok? <==> VerifyApiKey(header, configured).Ok?
    ensures r.Ok? ==> r.body == CheckFiles(s.ledger, hashes)
    ensures r.HttpError? ==> r == HttpError(401, VerifyApiKey(header, configured).detail)
  {
    match VerifyApiKey(header, configured)
    case HttpError(code, detail) => HttpError(code, detail)
    case Ok(_) => Ok(CheckFiles(s.ledger, hashes))
  }

  /** `POST /api/files/upload` behind the gate: refused requests change
      nothing; admitted ones are exactly the upload handler. */
  function UploadEndpoint(env: Env, s: Server, header: Option<string>, configured: string,
                          req: UploadRequest): (result: (Server, Reply<UploadResponse>))
    ensures VerifyApiKey(header, configured).HttpError? ==>
              result == (s, HttpError(401, VerifyApiKey(header, configured).detail))
    ensures VerifyApiKey(header, configured).Ok? ==> result == UploadFile(env, s, req)
  {
    match VerifyApiKey(header, configured)
    case HttpError(code, detail) => (s, HttpError(code, detail))
    case Ok(_) => UploadFile(env, s, req)
  }

  /** The guarded upload keeps the server consistent whatever the request
      and the key, and only a request with the configured key can change
      the state. */
  lemma UploadEndpointSafe(env: Env, s: Server, header: Option<string>, configured: string,
                           req: UploadRequest)
    requires Consistent(s)
    ensures Consistent(UploadEndpoint(env, s, header, configured, req).0)
    ensures UploadEndpoint(env, s, header, configured, req).0 != s ==>
              Truthy(header) && header.value == configured
  {
    if VerifyApiKey(header, configured).Ok? {
      UploadPreservesConsistency(env, s, req);
    }
  }
}
