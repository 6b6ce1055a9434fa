/** The file endpoints (backup_server/server/routes/files.py): `check_files`
    and `upload_file`, as pure transitions over the server's state, the set
    of stored relative paths together with the dedup ledger. */
module Files {
  import opened Common
  import opened Decimal
  import opened Filenames
  import opened Storage
  import opened Dedup
  import opened Models

  /** What the server holds: the relative paths present under the storage
      root, and the ledger. */
  datatype Server = Server(stored: set<string>, ledger: Ledger)

  /** Every ledger row points at a stored file, and no two rows share one. */
  predicate Consistent(s: Server) {
    && (forall h :: h in s.ledger ==> s.ledger[h].storagePath in s.stored)
    && (forall h1, h2 :: h1 in s.ledger && h2 in s.ledger && h1 != h2 ==>
          s.ledger[h1].storagePath != s.ledger[h2].storagePath)
  }

  /** How the platform answers `datetime.fromtimestamp(date_taken / 1000)`:
      a local date, a `ValueError`/`OSError`, or an `OverflowError`. */
  datatype Timestamp = Converted(date: Date) | OutOfRange | Overflow

  /** What the handler takes from outside: SHA-256, the clock's conversion
      of timestamps, today's date for `datetime.now()`, and the non-ASCII
      part of Python's `\w`. */
  datatype Env = Env(
    sha256: seq<byte> -> Hash,
    fromTimestamp: int -> Timestamp,
    now: Date,
    unicodeWord: char -> bool)

  /** The multipart form of `POST /api/files/upload`; `filename` and
      `contentType` are those of the `UploadFile` part. */
  datatype UploadRequest = UploadRequest(
    content: seq<byte>,
    filename: Option<string>,
    contentType: Option<string>,
    fileHash: Hash,
    originalPath: Option<string>,
    dateTaken: Option<int>,
    mimeType: Option<string>,
    deviceName: Option<string>,
    source: Option<string>)

  // ---------------------------------------------------------------- check

  predicate NoDuplicates(s: seq<Hash>) {
    forall i, j :: 0 <= i < j < |s| ==> s[i] != s[j]
  }

  /** `[h for h in hashes if h not in found]`. */
  function FilterOut(hashes: seq<Hash>, found: set<Hash>): (r: seq<Hash>)
    ensures forall h :: multiset(r)[h] == if h in found then 0 else multiset(hashes)[h]
  {
    if |hashes| == 0 then []
    else
      var r := FilterOut(hashes[1..], found);
      assert hashes == [hashes[0]] + hashes[1..];
      if hashes[0] in found then r else [hashes[0]] + r
  }

  /** `list(found)`, listing each member once in the order the request
      first names it. */
  function Listed(found: set<Hash>, hashes: seq<Hash>): (r: seq<Hash>)
    ensures NoDuplicates(r)
    ensures forall h :: h in r <==> h in found && h in hashes
  {
    if |hashes| == 0 then []
    else
      var last := hashes[|hashes| - 1];
      var r := Listed(found, hashes[..|hashes| - 1]);
      assert forall h :: h in hashes <==> h in hashes[..|hashes| - 1] || h == last;
      if last in found && last !in r then r + [last] else r
  }

  /** `check_files`. */
  function CheckFiles(ledger: Ledger, hashes: seq<Hash>): (r: FileCheckResponse)
    ensures NoDuplicates(r.existing)
    ensures forall h :: h in r.existing <==> h in hashes && Exists(ledger, h)
    ensures forall h :: multiset(r.missing)[h] == if Exists(ledger, h) then 0 else multiset(hashes)[h]
    ensures forall h :: h in hashes ==> (h in r.existing <==> h !in r.missing)
  {
    var found := ExistingHashes(ledger, hashes);
    FileCheckResponse(Listed(found, hashes), FilterOut(hashes, found))
  }

  lemma {:induction false} FilterOutAgrees(hashes: seq<Hash>, f1: set<Hash>, f2: set<Hash>)
    requires forall h :: h in hashes ==> (h in f1 <==> h in f2)
    ensures FilterOut(hashes, f1) == FilterOut(hashes, f2)
    decreases |hashes|
  {
    if |hashes| > 0 {
      FilterOutAgrees(hashes[1..], f1, f2);
    }
  }

  lemma {:induction false} FilterOutAppend(a: seq<Hash>, b: seq<Hash>, found: set<Hash>)
    ensures FilterOut(a + b, found) == FilterOut(a, found) + FilterOut(b, found)
    decreases |a|
  {
    if |a| == 0 {
      assert a + b == b;
    } else {
      assert (a + b)[1..] == a[1..] + b;
      assert (a + b)[0] == a[0];
      FilterOutAppend(a[1..], b, found);
    }
  }

  lemma CheckFilesMissingIsFilter(ledger: Ledger, hashes: seq<Hash>)
    ensures CheckFiles(ledger, hashes).missing == FilterOut(hashes, ledger.Keys)
  {
    FilterOutAgrees(hashes, ExistingHashes(ledger, hashes), ledger.Keys);
  }

  /** `missing` keeps the request's order: a hash the ledger lacks is kept
      in place, one it holds is dropped, and the answer for a concatenated
      request is the concatenation of the answers. */
  lemma CheckFilesMissingInOrder(ledger: Ledger, a: seq<Hash>, b: seq<Hash>, h: Hash)
    ensures CheckFiles(ledger, [h]).missing == if Exists(ledger, h) then [] else [h]
    ensures CheckFiles(ledger, a + b).missing
            == CheckFiles(ledger, a).missing + CheckFiles(ledger, b).missing
  {
    CheckFilesMissingIsFilter(ledger, [h]);
    assert [h][..0] == [];
    CheckFilesMissingIsFilter(ledger, a + b);
    CheckFilesMissingIsFilter(ledger, a);
    CheckFilesMissingIsFilter(ledger, b);
    FilterOutAppend(a, b, ledger.Keys);
  }

  // --------------------------------------------------------------- upload

  /** Outcome of `upload_file`'s date block as written. */
  datatype ParsedDate = Parsed(date: Option<Date>) | Crashed

  /** The date block as written: `if date_taken:` skips `None` and `0`,
      and only `ValueError` and `OSError` are caught, so an
      `OverflowError` escapes the handler. */
  function ParseDateTakenAsWritten(env: Env, dateTaken: Option<int>): (r: ParsedDate)
    ensures r.Crashed? <==>
              dateTaken.Some? && dateTaken.value != 0 && env.fromTimestamp(dateTaken.value).Overflow?
    ensures r.Parsed? && r.date.Some? <==>
              dateTaken.Some? && dateTaken.value != 0 && env.fromTimestamp(dateTaken.value).Converted?
    ensures r.Parsed? && r.date.Some? ==> r.date.value == env.fromTimestamp(dateTaken.value).date
  {
    if dateTaken.None? || dateTaken.value == 0 then Parsed(None)
    else
      match env.fromTimestamp(dateTaken.value)
      case Converted(d) => Parsed(Some(d))
      case OutOfRange => Parsed(None)
      case Overflow => Crashed
  }

  /** The date block as evidently intended: any timestamp the platform
      cannot convert means "no date", as `None` and `0` do. */
  function ParseDateTaken(env: Env, dateTaken: Option<int>): (r: Option<Date>)
    ensures r.Some? <==>
              dateTaken.Some? && dateTaken.value != 0 && env.fromTimestamp(dateTaken.value).Converted?
    ensures r.Some? ==> r.value == env.fromTimestamp(dateTaken.value).date
  {
    if dateTaken.None? || dateTaken.value == 0 then None
    else
      match env.fromTimestamp(dateTaken.value)
      case Converted(d) => Some(d)
      case _ => None
  }

  /** The two agree wherever the code as written does not crash. */
  lemma ParseDateTakenAgrees(env: Env, dateTaken: Option<int>)
    ensures ParseDateTakenAsWritten(env, dateTaken).Parsed? ==>
              ParseDateTakenAsWritten(env, dateTaken) == Parsed(ParseDateTaken(env, dateTaken))
  {
  }

  /** A millisecond timestamp of 10^25 is 10^22 seconds, beyond any 64-bit
      `time_t`: on a platform that reports it as `OverflowError` the code as
      written fails the request, where the intended reading stores the file
      under today's date. */
  lemma DateOverflowCrashes()
    ensures var env := Env(_ => "", ms => if ms >= 10_000_000_000_000_000_000_000_000 then Overflow else OutOfRange,
                           CalendarDate(2024, 1), _ => false);
            && ParseDateTakenAsWritten(env, Some(10_000_000_000_000_000_000_000_000)) == Crashed
            && ParseDateTaken(env, Some(10_000_000_000_000_000_000_000_000)) == None
  {
  }

  /** `mime_type or file.content_type or "application/octet-stream"`. */
  function ActualMime(req: UploadRequest): (r: string)
    ensures |r| > 0
    ensures || r == "application/octet-stream"
            || (req.mimeType.Some? && r == req.mimeType.value)
            || (req.contentType.Some? && r == req.contentType.value)
  {
    OrElse(req.mimeType, OrElse(req.contentType, "application/octet-stream"))
  }

  /** The path `get_storage_path` picks for this request. */
  function UploadPath(env: Env, s: Server, req: UploadRequest): (p: RelPath)
    ensures Render(p) !in s.stored
    ensures p.folder == MediaFolder(ActualMime(req), req.source)
  {
    StoragePath(s.stored, OrElse(req.filename, "unknown"), ActualMime(req),
                ParseDateTaken(env, req.dateTaken), req.source, env.now, env.unicodeWord)
  }

  /** The row `dedup.record` writes for this request. */
  function UploadRow(req: UploadRequest, path: string): Row {
    Row(path, req.originalPath, req.filename, Some(|req.content|), Some(ActualMime(req)), req.deviceName)
  }

  const ExistsResponse: UploadResponse :=
    UploadResponse("exists", None, None, Some("File already backed up"))

  /** `upload_file`: answer `exists` for a known hash; otherwise derive the
      path, reject content whose digest is not `file_hash` with 400, and
      save, record and answer `success` with the path. */
  function UploadFile(env: Env, s: Server, req: UploadRequest): (result: (Server, Reply<UploadResponse>))
    ensures Exists(s.ledger, req.fileHash) ==> result == (s, Ok(ExistsResponse))
    ensures result.1.HttpError? <==>
              !Exists(s.ledger, req.fileHash) && env.sha256(req.content) != req.fileHash
    ensures result.1.HttpError? ==>
              && result.0 == s
              && result.1 == HttpError(400, "Hash mismatch: expected " + req.fileHash
                                            + ", got " + env.sha256(req.content))
    ensures result.1.Ok? && result.1.body.status == "success" <==>
              !Exists(s.ledger, req.fileHash) && env.sha256(req.content) == req.fileHash
    ensures result.1.Ok? && result.1.body.status == "success" ==>
              var path := Render(UploadPath(env, s, req));
              && path !in s.stored
              && result.1.body == UploadResponse("success", Some(path), Some(req.fileHash), None)
              && result.0.stored == s.stored + {path}
              && result.0.ledger == s.ledger[req.fileHash := UploadRow(req, path)]
  {
    if Exists(s.ledger, req.fileHash) then (s, Ok(ExistsResponse))
    else
      var relativePath := UploadPath(env, s, req);
      var computed := env.sha256(req.content);
      if computed != req.fileHash then
        (s, HttpError(400, "Hash mismatch: expected " + req.fileHash + ", got " + computed))
      else
        var path := Render(relativePath);
        var (ledger, _) := Record(s.ledger, req.fileHash, UploadRow(req, path));
        (Server(s.stored + {path}, ledger), Ok(UploadResponse("success", Some(path), Some(req.fileHash), None)))
  }

  predicate Succeeded(result: (Server, Reply<UploadResponse>)) {
    result.1.Ok? && result.1.body.status == "success"
  }

  /** After a successful upload the hash is known, so the same content sent
      again, under any name, date or device, is answered `exists` and
      changes nothing. */
  lemma UploadIdempotent(env: Env, s: Server, req: UploadRequest, again: UploadRequest, env2: Env)
    requires !Exists(s.ledger, req.fileHash) && env.sha256(req.content) == req.fileHash
    requires again.fileHash == req.fileHash
    ensures var s1 := UploadFile(env, s, req).0;
            && Exists(s1.ledger, req.fileHash)
            && UploadFile(env2, s1, again) == (s1, Ok(ExistsResponse))
  {
  }

  /** Upload keeps every ledger row pointing at its own stored file. */
  lemma UploadPreservesConsistency(env: Env, s: Server, req: UploadRequest)
    requires Consistent(s)
    ensures Consistent(UploadFile(env, s, req).0)
  {
    var result := UploadFile(env, s, req);
    if Succeeded(result) {
      var path := Render(UploadPath(env, s, req));
      assert path !in s.stored;
      SaveAndRecordKeepConsistent(s, req.fileHash, UploadRow(req, path));
    } else {
      assert result.0 == s;
    }
  }

  /** Saving a file at a free path and recording a row that points at it
      keeps every row pointing at its own stored file, whether or not the
      hash had a row before. */
  lemma SaveAndRecordKeepConsistent(s: Server, h: Hash, row: Row)
    requires Consistent(s) && row.storagePath !in s.stored
    ensures Consistent(Server(s.stored + {row.storagePath}, s.ledger[h := row]))
  {
    forall h' | h' in s.ledger ensures s.ledger[h'].storagePath != row.storagePath {
      assert s.ledger[h'].storagePath in s.stored;
    }
  }

  /** A hash `check_files` reports as existing is answered `exists` by
      `upload_file`, which never overwrites its stored file. */
  lemma CheckedExistingIsNotUploaded(env: Env, s: Server, hashes: seq<Hash>, req: UploadRequest)
    requires req.fileHash in CheckFiles(s.ledger, hashes).existing
    ensures UploadFile(env, s, req) == (s, Ok(ExistsResponse))
  {
  }

  /** A successful upload stores one more file under a path that is laid
      out as `Folder/YYYY/MM/name`, with the request's defaults applied:
      MIME type from the form, else the part's content type, else
      `application/octet-stream`; name `unknown` when there is none; and
      today's date when `date_taken` is absent, zero or not convertible. */
  lemma UploadLayout(env: Env, s: Server, req: UploadRequest)
    requires !Exists(s.ledger, req.fileHash) && env.sha256(req.content) == req.fileHash
    ensures var path := UploadFile(env, s, req).1.body.path.value;
            var date := ParseDateTaken(env, req.dateTaken).GetOr(env.now);
            var parts := SplitOnSlash(path);
            && |parts| == 4
            && parts[0] == MediaFolder(ActualMime(req), req.source)
            && |parts[1]| > 0 && parts[1][0] != '0'
            && AllDigits(parts[1]) && Parse(parts[1]) == date.year
            && |parts[2]| == 2 && AllDigits(parts[2]) && Parse(parts[2]) == date.month
            && IsSanitized(parts[3], env.unicodeWord)
            && (Render(BasePath(OrElse(req.filename, "unknown"), ActualMime(req), date, req.source,
                                env.unicodeWord)) !in s.stored
                ==> parts[3] == Sanitize(OrElse(req.filename, "unknown"), env.unicodeWord))
  {
    var p := UploadPath(env, s, req);
    assert UploadFile(env, s, req).1.body.path.value == Render(p);
    StoragePathLayout(s.stored, OrElse(req.filename, "unknown"), ActualMime(req),
                      ParseDateTaken(env, req.dateTaken), req.source, env.now, env.unicodeWord);
  }

  /** The defaults `upload_file` applies before deriving the path. */
  lemma UploadDefaults(env: Env, req: UploadRequest)
    ensures !Truthy(req.mimeType) && !Truthy(req.contentType) ==> ActualMime(req) == "application/octet-stream"
    ensures !Truthy(req.mimeType) && Truthy(req.contentType) ==> ActualMime(req) == req.contentType.value
    ensures Truthy(req.mimeType) ==> ActualMime(req) == req.mimeType.value
    ensures req.dateTaken.None? || req.dateTaken == Some(0) ==> ParseDateTaken(env, req.dateTaken) == None
  {
  }

  /** A successful upload adds exactly one ledger row and its size to the
      statistics; every other outcome leaves them as they were. */
  lemma UploadStats(env: Env, s: Server, req: UploadRequest)
    ensures var s1 := UploadFile(env, s, req).0;
            GetStats(s1.ledger) == if Succeeded(UploadFile(env, s, req))
                                   then Stats(|s.ledger| + 1, TotalSize(s.ledger) + |req.content|)
                                   else GetStats(s.ledger)
  {
    var result := UploadFile(env, s, req);
    if Succeeded(result) {
      var row := UploadRow(req, Render(UploadPath(env, s, req)));
      assert !Exists(s.ledger, req.fileHash);
      assert result.0.ledger == Record(s.ledger, req.fileHash, row).0;
      assert SizeOf(row) == |req.content|;
      StatsAfterRecord(s.ledger, req.fileHash, row);
    } else {
      assert result.0 == s;
    }
  }

  /** A photo taken in January 2024 and sent to an empty server is stored
      as `Photos/2024/01/<name>`, and the identical request sent again is
      answered `exists` and changes nothing. */
  lemma UploadScenario(env: Env, req: UploadRequest)
    requires req.filename == Some("IMG_0001.jpg") && req.mimeType == Some("image/jpeg")
    requires req.source.None? && req.dateTaken.Some? && req.dateTaken.value != 0
    requires env.fromTimestamp(req.dateTaken.value) == Converted(CalendarDate(2024, 1))
    requires env.sha256(req.content) == req.fileHash
    ensures var (s1, reply) := UploadFile(env, Server({}, map[]), req);
            && reply == Ok(UploadResponse("success", Some("Photos/2024/01/IMG_0001.jpg"), Some(req.fileHash), None))
            && UploadFile(env, s1, req) == (s1, Ok(ExistsResponse))
  {
    ScenarioPath(env, req);
    FreshUpload(env, Server({}, map[]), req);
  }

  /** A new hash with matching content is stored under its derived path,
      and the same request sent right after is answered `exists`. */
  lemma FreshUpload(env: Env, s: Server, req: UploadRequest)
    requires !Exists(s.ledger, req.fileHash) && env.sha256(req.content) == req.fileHash
    ensures var (s1, reply) := UploadFile(env, s, req);
            var path := Render(UploadPath(env, s, req));
            && reply == Ok(UploadResponse("success", Some(path), Some(req.fileHash), None))
            && UploadFile(env, s1, req) == (s1, Ok(ExistsResponse))
  {
    var result := UploadFile(env, s, req);
    assert Succeeded(result);
    assert Exists(result.0.ledger, req.fileHash);
  }

  lemma ScenarioPath(env: Env, req: UploadRequest)
    requires req.filename == Some("IMG_0001.jpg") && req.mimeType == Some("image/jpeg")
    requires req.source.None? && req.dateTaken.Some? && req.dateTaken.value != 0
    requires env.fromTimestamp(req.dateTaken.value) == Converted(CalendarDate(2024, 1))
    ensures Render(UploadPath(env, Server({}, map[]), req)) == "Photos/2024/01/IMG_0001.jpg"
  {
    var date: Date := CalendarDate(2024, 1);
    var base := ScenarioBase(env.unicodeWord);
    assert ParseDateTaken(env, req.dateTaken) == Some(date);
    assert ActualMime(req) == "image/jpeg";
    assert OrElse(req.filename, "unknown") == "IMG_0001.jpg";
    StoragePathFree({}, "IMG_0001.jpg", "image/jpeg", Some(date), None, env.now, env.unicodeWord);
    assert UploadPath(env, Server({}, map[]), req) == base;
    ScenarioRender(base);
  }

  lemma ScenarioRender(p: RelPath)
    requires p == RelPath("Photos", "2024", "01", "IMG_0001.jpg")
    ensures Render(p) == "Photos/2024/01/IMG_0001.jpg"
  {
  }

  lemma ScenarioBase(unicodeWord: char -> bool) returns (base: RelPath)
    ensures base == BasePath("IMG_0001.jpg", "image/jpeg", CalendarDate(2024, 1), None, unicodeWord)
    ensures base == RelPath("Photos", "2024", "01", "IMG_0001.jpg")
  {
    var name := "IMG_0001.jpg";
    ScenarioName(unicodeWord);
    ScenarioDate();
    base := BasePath(name, "image/jpeg", CalendarDate(2024, 1), None, unicodeWord);
  }

  lemma ScenarioName(unicodeWord: char -> bool)
    ensures Sanitize("IMG_0001.jpg", unicodeWord) == "IMG_0001.jpg"
  {
    var name := "IMG_0001.jpg";
    assert IsSanitized(name, unicodeWord) by {
      forall i | 0 <= i < |name| ensures IsSafeChar(name[i], unicodeWord) {
      }
    }
    SanitizeKeepsSanitized(name, unicodeWord);
  }

  lemma ScenarioDate()
    ensures Dec(2024) == "2024" && PadTwo(1) == "01"
  {
    assert Dec(2) == "2";
    assert Dec(20) == "20";
    assert Dec(202) == "202";
  }
}
