/** The request and response records of the upload API
    (backup_server/server/models/file_info.py) and the HTTP outcomes the
    handlers produce. */
module Models {
  import opened Common

  /** `FileCheckResponse`. */
  datatype FileCheckResponse = FileCheckResponse(existing: seq<string>, missing: seq<string>)

  /** `UploadResponse`. */
  datatype UploadResponse = UploadResponse(
    status: string,
    path: Option<string>,
    hash: Option<string>,
    message: Option<string>)

  /** What a handler answers: a response body, or an `HTTPException`. */
  datatype Reply<T> = Ok(body: T) | HttpError(statusCode: int, detail: string)
}
