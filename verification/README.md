# Photo backup server: the intake core in Dafny

This project models the server side of a home photo-backup system. A phone
app hashes its photos and videos. It asks the server which hashes it already
holds (`POST /api/files/check`) and uploads the rest (`POST /api/files/upload`).
Both calls are guarded by an `X-API-Key` header. The server files each upload
under `Folder/YYYY/MM/name`. The folder is `Photos`, `Videos`, `Other`,
`WhatsApp`, `WeChat` or `Downloads`. It records the file's SHA-256 in a
deduplication ledger, so a known hash is never stored twice. For pairing, a
QR code carries a compact JSON object with the server id and the API key.

Modules, in dependency order:

- `Common`: `Option`, bytes, and Python's truthiness and `startswith`.
- `Decimal`: `str(year)`, `f"{month:02d}"`, and the parser that inverts them.
- `Filenames`: `_sanitize_filename`, with its regular expression and `strip(". ")`.
- `Storage`: the media folder, the path layout, pathlib's stem and suffix, and the collision search.
- `Dedup`: the `backed_up_files` table, seen as a map from hash to row.
- `Models`: the response records and HTTP errors.
- `Files`: `check_files`, and `upload_file` as a pure transition of the server state.
  The state is the set of stored relative paths plus the ledger.
- `App`: the API-key gate and the guarded endpoints.
- `Json` and `Pairing`: the pairing payload written by `json.dumps`, and a
  decoder that reads it back.

Things the code takes from outside become parameters, collected in `Files.Env`:

- SHA-256;
- `datetime.fromtimestamp` in local time, including which exception it raises;
- `datetime.now()`;
- the non-ASCII part of Python's `\w`. On ASCII, `\w` is modelled exactly.

Paths use `/` as the separator.

## Model

| member | source | states |
|---|---|---|
| Decimal.Dec | backup_server/server/services/storage.py:79 | `str(year)` is a non-empty run of digits without a leading zero |
| Decimal.ParseDec | backup_server/server/services/storage.py:79 | the year component reads back as the year |
| Decimal.PadTwo | backup_server/server/services/storage.py:80 | `f"{month:02d}"` is exactly two digits |
| Decimal.ParsePadTwo | backup_server/server/services/storage.py:80 | the month component reads back as the month |
| Decimal.DecInjective | backup_server/server/services/storage.py:89-94 | different collision counters give different numerals |
| Filenames.ReplaceUnsafe | backup_server/server/services/storage.py:35 | every character outside `[\w\-_. ]` becomes `_` and every other character is kept, position by position |
| Filenames.LeftCut | backup_server/server/services/storage.py:37 | `lstrip(". ")` skips a run of dots and spaces and stops at the first other character |
| Filenames.RightCut | backup_server/server/services/storage.py:37 | `rstrip(". ")` drops a run of dots and spaces and stops after the last other character |
| Filenames.Strip | backup_server/server/services/storage.py:37 | the stripped name neither starts nor ends with a dot or space, and nothing is left exactly when the name is all dots and spaces |
| Filenames.ReplaceKeepsCuts | backup_server/server/services/storage.py:35-37 | the replacement writes only `_`, so `strip` cuts the replaced name exactly where it would cut the original |
| Filenames.StripIsSafe | backup_server/server/services/storage.py:35-37 | stripping a name of safe characters leaves only safe characters |
| Filenames.Sanitize | backup_server/server/services/storage.py:32-38 | the result is never empty, holds only safe characters and has no dot or space at either end; an all-dot-and-space name becomes `unnamed` |
| Filenames.SanitizeKeepsMiddle | backup_server/server/services/storage.py:35-37 | outside its two cut points the name holds only dots and spaces, and unless it is all dots and spaces the result is the replaced name between the cut points |
| Filenames.SanitizeFixedPoints | backup_server/server/services/storage.py:32-38 | a name passes through unchanged exactly when it is something the sanitiser could return |
| Filenames.SanitizeIdempotent | backup_server/server/services/storage.py:32-38 | sanitising twice equals sanitising once |
| Filenames.SanitizedHasNoSeparator | backup_server/server/services/storage.py:35 | a sanitised name never contains `/`, so it stays one path component |
| Storage.MediaFolder | backup_server/server/services/storage.py:40-54 | the folder is always one of the six top-level folders |
| Storage.MediaFolderRouting | backup_server/server/services/storage.py:15-54 | `whatsapp`, `wechat` and `downloads` win over any MIME type; every other source goes by `image/`, `video/` or else `Other` |
| Storage.Render | backup_server/server/services/storage.py:77-82 | (definition) `str(relative_path)`: the four components joined with `/` |
| Storage.RenderSplits | backup_server/server/services/storage.py:77-82 | a rendered path splits on `/` into exactly folder, year, month and name |
| Storage.RenderInjective | backup_server/server/services/storage.py:77-82 | distinct well-formed paths render to distinct strings |
| Storage.LastDot | backup_server/server/services/storage.py:87-88 | the index found is the last dot, or -1 when there is none |
| Storage.Stem | backup_server/server/services/storage.py:87 | `full_path.stem` is a prefix of the name, empty only for the empty name, and together with the suffix it makes up the whole name (`Storage.StemSuffixSplit`) |
| Storage.Suffix | backup_server/server/services/storage.py:88 | `full_path.suffix` is non-empty exactly when the name's last dot is neither its first nor its last character, and is then the tail from that dot |
| Storage.StemSuffixSplit | backup_server/server/services/storage.py:87-88 | stem plus suffix is the name, the suffix is empty or starts with a dot, and the stem keeps the first character |
| Storage.CandidateName | backup_server/server/services/storage.py:87-91 | counter 0 is the name itself; a renamed candidate is the stem, then `_`, then the counter in decimal, then the suffix |
| Storage.CollisionNameExample | backup_server/server/services/storage.py:87-91 | a second collision on `archive.tar.gz` gives `archive.tar_2.gz`: only the last extension is kept apart |
| Storage.CandidateNameSanitized | backup_server/server/services/storage.py:91 | `f"{stem}_{counter}{suffix}"` is still a sanitised name |
| Storage.CandidateNameInjective | backup_server/server/services/storage.py:89-94 | different counters give different names |
| Storage.CandidatePathInjective | backup_server/server/services/storage.py:89-94 | different counters give different paths |
| Storage.CandidatePathsInjective | backup_server/server/services/storage.py:89-94 | the sequence of paths the loop tries never repeats a path |
| Storage.TakenBound | backup_server/server/services/storage.py:90-94 | for any non-repeating sequence of paths, if entries 0 to k are all taken, the tree holds more than k paths, so the loop ends |
| Storage.FirstFree | backup_server/server/services/storage.py:84-94 | the loop stops at the least counter whose path is free, for any non-repeating sequence of tried paths |
| Storage.BasePath | backup_server/server/services/storage.py:74-82 | (definition) the path before collision handling: media folder, `str(year)`, two-digit month and sanitised name |
| Storage.CandidateWellFormed | backup_server/server/services/storage.py:77-94 | every candidate path is four separator-free components with a sanitised name |
| Storage.StoragePath | backup_server/server/services/storage.py:56-96 | the path is free, laid out as folder/year/two-digit month/sanitised name, the year written without leading zeros, and its date is the given one or today |
| Storage.StoragePathCollision | backup_server/server/services/storage.py:84-96 | without a collision the name is the sanitised file name; with one it is `stem_N+suffix` for the least free `N >= 1` |
| Storage.StoragePathFree | backup_server/server/services/storage.py:84-96 | a free base path is returned unchanged |
| Storage.StoragePathLayout | backup_server/server/services/storage.py:77-96 | the rendered path splits into the four promised components, the year without leading zeros |
| Dedup.Exists | backup_server/server/services/dedup.py:50-56 | `exists` answers as `get_existing_hashes` does for that one hash |
| Dedup.ExistingHashes | backup_server/server/services/dedup.py:58-69 | the result holds exactly the requested hashes that have a row; an empty request gives the empty set |
| Dedup.Record | backup_server/server/services/dedup.py:71-104 | a row is inserted exactly when the hash was absent; existing rows never change and afterwards the hash exists |
| Dedup.AllHashes | backup_server/server/services/dedup.py:106-110 | `get_all_hashes` holds exactly the hashes that exist, as many as `get_stats` counts files |
| Dedup.TotalSize | backup_server/server/services/dedup.py:119 | `SUM(file_size)` over the table, with a missing size counting as 0, is non-negative when every size is; its value is fixed by `Dedup.StatsEmpty`, `Dedup.TotalSizeRemove` and `Dedup.StatsAfterRecord` |
| Dedup.GetStats | backup_server/server/services/dedup.py:112-131 | the file count is 0 exactly for the empty table; with byte-count sizes the total is non-negative and no smaller than any one file's size |
| Dedup.LookupsAgree | backup_server/server/services/dedup.py:50-110 | `exists`, `get_existing_hashes` and `get_all_hashes` agree |
| Dedup.RecordIdempotent | backup_server/server/services/dedup.py:71-104 | recording a hash a second time changes nothing and reports a duplicate |
| Dedup.TotalSizeRemove | backup_server/server/services/dedup.py:119 | `SUM(file_size)` does not depend on the order rows are visited in |
| Dedup.StatsEmpty | backup_server/server/services/dedup.py:126-128 | the empty table reports 0 files and 0 bytes |
| Dedup.StatsAfterRecord | backup_server/server/services/dedup.py:112-131 | a new row adds one file and its size; a duplicate changes neither |
| Files.FilterOut | backup_server/server/routes/files.py:43 | each hash keeps its multiplicity unless it was found, in which case it is dropped |
| Files.Listed | backup_server/server/routes/files.py:42 | `list(existing)` holds each found requested hash exactly once |
| Files.CheckFiles | backup_server/server/routes/files.py:29-44 | `existing` is duplicate-free and holds exactly the requested hashes in the ledger; `missing` is the rest with multiplicities; each requested hash is in exactly one list |
| Files.FilterOutAgrees | backup_server/server/routes/files.py:43 | the filter depends only on which requested hashes are found |
| Files.FilterOutAppend | backup_server/server/routes/files.py:43 | filtering a concatenation concatenates the filtered parts |
| Files.CheckFilesMissingIsFilter | backup_server/server/routes/files.py:39-43 | `missing` is the request filtered against the whole ledger |
| Files.CheckFilesMissingInOrder | backup_server/server/routes/files.py:43 | `missing` keeps the request's order |
| Files.ParseDateTakenAsWritten | backup_server/server/routes/files.py:76-82 | as written: `None` and `0` mean no date, `ValueError`/`OSError` mean no date, and `OverflowError` escapes |
| Files.ParseDateTaken | backup_server/server/routes/files.py:76-82 | as intended: the date is present exactly when the timestamp is non-zero and convertible |
| Files.ParseDateTakenAgrees | backup_server/server/routes/files.py:76-82 | wherever the code as written does not crash, it agrees with the intended reading |
| Files.DateOverflowCrashes | backup_server/server/routes/files.py:79-82 | a timestamp beyond the platform's `time_t` crashes the code as written but not the intended reading |
| Files.UploadPath | backup_server/server/routes/files.py:88-93 | the path derived for the request, with the name `unknown` when the part has none, is free and lies in the request's media folder |
| Files.UploadRow | backup_server/server/routes/files.py:110-118 | (definition) the row `dedup.record` writes: the rendered path, original path and file name, `len(content)`, the MIME type actually used and the device name |
| Files.UploadFile | backup_server/server/routes/files.py:47-124 | a known hash gives `exists` and no change; a digest mismatch gives the exact 400 and no change; otherwise the file is stored under a fresh path and recorded |
| Files.UploadIdempotent | backup_server/server/routes/files.py:72-74 | after a success, the same hash under any name or date is answered `exists` and changes nothing |
| Files.UploadPreservesConsistency | backup_server/server/routes/files.py:106-118 | every ledger row points at its own stored file |
| Files.SaveAndRecordKeepConsistent | backup_server/server/routes/files.py:106-118 | saving at a free path and recording a row that points there keeps every row on its own file, whether or not the hash had a row before |
| Files.CheckedExistingIsNotUploaded | backup_server/server/routes/files.py:72-74 | a hash reported as existing is never stored again |
| Files.UploadLayout | backup_server/server/routes/files.py:84-93 | a successful upload is filed under the media folder, year and month of its date, with a sanitised name |
| Files.ActualMime | backup_server/server/routes/files.py:85 | the MIME type is never empty and is the form field, the part's content type or `application/octet-stream` |
| Files.UploadDefaults | backup_server/server/routes/files.py:76-89 | the MIME type falls back to the content type and then `application/octet-stream`; a missing or zero date means today |
| Files.UploadStats | backup_server/server/routes/files.py:109-118 | a success adds one file and `len(content)` bytes to the statistics; other outcomes change nothing |
| Files.FreshUpload | backup_server/server/routes/files.py:72-124 | a new hash with matching content is stored under its derived path, and the same request sent right after is answered `exists` |
| Files.UploadScenario | backup_server/server/routes/files.py:72-124 | a January 2024 photo sent to an empty server lands at `Photos/2024/01/IMG_0001.jpg`, and sending it again answers `exists` |
| App.CompareDigest | backup_server/server/app.py:44 | `compare_digest` on `str` raises unless both are ASCII; otherwise it answers equality |
| App.VerifyApiKeyAsWritten | backup_server/server/app.py:40-48 | as written: no key or an empty key gives 401 "API key required", a non-ASCII key crashes, and a wrong key gives 401 "Invalid API key" |
| App.NonAsciiKeyCrashes | backup_server/server/app.py:44 | a header `é` gives a 500, not a 401 |
| App.VerifyApiKey | backup_server/server/app.py:40-48 | as intended: a request passes exactly when it carries the non-empty configured key; every refusal is a 401 with the matching detail |
| App.VerifyApiKeyAgrees | backup_server/server/app.py:40-48 | the gate as written crashes exactly on non-ASCII keys and otherwise decides as intended |
| App.CheckEndpoint | backup_server/server/routes/files.py:29-34 | the check runs only behind the gate, and a refusal is the gate's 401 |
| App.UploadEndpoint | backup_server/server/routes/files.py:47-58 | a refused upload changes nothing; an admitted one is exactly `upload_file` |
| App.UploadEndpointSafe | backup_server/server/app.py:40-54 | guarded uploads keep the server consistent, and only the configured key can change the state |
| Json.HexDigit | backup_server/server/services/pairing.py:21 | a hexadecimal digit is printable ASCII |
| Json.HexDigitSpelling | backup_server/server/services/pairing.py:21 | digit `d` is spelled as the lower-case table `0123456789abcdef` has it at position `d` |
| Json.Hex4 | backup_server/server/services/pairing.py:21 | `%04x` writes four printable digits |
| Json.Hex4Reads | backup_server/server/services/pairing.py:21 | the four digits read back as the number |
| Json.ShortCode | backup_server/server/services/pairing.py:21 | a character has a two-character escape exactly when it is `"`, `\`, newline, carriage return, tab, backspace or form feed; the letter is one of `"\nrtbf`, and plain characters have none |
| Json.UnicodeEscape | backup_server/server/services/pairing.py:21 | `\uXXXX` is six printable characters starting with a backslash |
| Json.SurrogateEscape | backup_server/server/services/pairing.py:21 | a character above U+FFFF is written as a surrogate pair: twelve printable characters starting with a backslash |
| Json.EscapeChar | backup_server/server/services/pairing.py:21 | each escape is non-empty printable ASCII; plain characters are kept as themselves and every other escape starts with a backslash |
| Json.Escape | backup_server/server/services/pairing.py:21 | the escaped body is printable ASCII and no shorter than the input |
| Json.Quote | backup_server/server/services/pairing.py:21 | a string literal is printable ASCII between two quotes |
| Json.DecodeAstral | backup_server/server/services/pairing.py:21 | a surrogate pair decodes back to the character U+10000 + v |
| Json.DecodeOneEscape | backup_server/server/services/pairing.py:21 | each escaped character decodes back to itself, whatever follows |
| Json.DecodeEscaped | backup_server/server/services/pairing.py:21 | an escaped body followed by a quote decodes back to the string and leaves the rest alone |
| Json.ParseQuoted | backup_server/server/services/pairing.py:21 | a literal parses back to its string |
| Json.QuoteInjective | backup_server/server/services/pairing.py:21 | distinct strings give distinct literals |
| Json.EscapePlain | backup_server/server/services/pairing.py:21 | printable ASCII without `"` or `\` is written verbatim |
| Pairing.PairingData | backup_server/server/services/pairing.py:10-21 | the payload is a JSON object: it starts with `{` and ends with `}` |
| Pairing.PairingDataPrintable | backup_server/server/services/pairing.py:10-21 | the payload is printable ASCII |
| Pairing.ParsePairingData | backup_server/server/services/pairing.py:17-21 | the payload reads back as exactly the server id and the API key |
| Pairing.PairingDataInjective | backup_server/server/services/pairing.py:10-21 | different ids or keys never share a payload |
| Pairing.PairingDataPlain | backup_server/server/services/pairing.py:17-21 | a UUID id and a URL-safe key appear verbatim: `{"id":"<id>","key":"<key>"}` |

## Left out

- Reading the upload, writing the file, creating directories and the SQLite connection are I/O. Saving a file is modelled as adding its path to the stored set.
- `save_file_streaming`, `compute_hash`, `delete_file` and `get_storage_info` are not used by the modelled endpoints.
- `_format_size` works in floating point and is not modelled.
- SHA-256 is a parameter, not an implementation.
- The `first_backup` and `last_backup` columns of `get_stats` come from the database clock and are not modelled.
- Dedup.GetStats: does not model SQLite raising on an integer overflow of `SUM(file_size)`.
- Files.CheckFiles: the order of `existing` is the iteration order of a Python set, which the code leaves unspecified. The model lists hashes in the order the request first names them. Its contract states only membership and the absence of duplicates.
- The model runs one request at a time. In the server, `upload_file` picks its path (files.py:88) and then awaits `file.read()` and `save_file` (files.py:96, 107) before it records the row, so two requests can interleave:
  - Two uploads of the same hash both pass `exists` and both save, and the second `record` is refused. When the two requests picked different paths, for instance because their names differ, one file is left with no ledger row. When they picked the same path, the second save rewrites identical bytes and nothing is orphaned.
  - Two uploads with different hashes, the same sanitised name and the same month can both find the same path free. The second save overwrites the first file, and two ledger rows then point at one path. That breaks `Files.Consistent` and the no-overwrite property, which `Files.UploadPreservesConsistency` proves only for requests taken one at a time.
- Files.UploadFile: derives the date with the corrected `Files.ParseDateTaken`. The code as written raises `OverflowError` at files.py:80 and answers 500 with no state change; see the first row under "## Findings".
- Files.UploadFile: reports success for any name, and checks the digest for any name. A sanitised or candidate name longer than the file system's component limit, typically 255 bytes, makes the server raise and answer 500. The raise can come at `save_file` (storage.py:103). It can also come earlier, at `full_path.exists()` (storage.py:86 or 90) once the month directory exists: up to Python 3.12, `Path.exists` re-raises an `ENAMETOOLONG` error, while Python 3.13 and later answer `False` there. The earlier raise happens inside `get_storage_path` (files.py:88-93), before the digest check at files.py:99-104, so a 300-character name with a wrong `file_hash` gets 500 where the model answers 400 "Hash mismatch".
- App.CheckEndpoint: composes the corrected gate `App.VerifyApiKey`. The code as written answers 500 for a non-ASCII key (app.py:44); see the second row under "## Findings".
- App.UploadEndpoint: composes the corrected gate `App.VerifyApiKey` and the corrected date reading of `Files.UploadFile`, so the two 500 outcomes under "## Findings" are not among its results.
- Storage.StoragePath: assumes a case-sensitive file system that does not normalise names. On a case-insensitive one, as Windows and macOS use by default, `IMG.jpg` already stored makes an upload of `img.jpg` collide and get `img_1.jpg`, while the model keeps `img.jpg`.
- Dedup.ExistingHashes: always answers. The code binds one SQL parameter per hash (dedup.py:64-67), and SQLite refuses more than its limit on bound parameters (32766 since version 3.32, 999 before) with `OperationalError`, so a very large `check` request ends in a 500.
- `datetime.fromtimestamp` and `datetime.now()` depend on the local time zone and the platform's `time_t`. They enter only through `Files.Env`.
- Python's `\w` beyond ASCII follows Unicode's tables. The model takes that part as the parameter `unicodeWord`.
- Windows path separators are not modelled. Paths are joined and split with `/`.
- The collision check asks the file system whether a path exists. The model asks whether the path is in the stored set, which stands for every entry under the storage root.
- `VALID_SOURCES` (storage.py:12) is never consulted by the code, and the model ignores it too.
- Form validation is done by FastAPI and pydantic, with 422 answers for malformed fields, and is not modelled. The model starts from validated fields.
- Python strings can hold lone surrogates, but a Dafny `char` cannot. `Json.EscapeChar` therefore never meets one. The model's decoder refuses unpaired surrogate escapes.
- The decoder is this model's own reader for string literals, following section 7 of RFC 8259. It is not Python's `json.loads`. It exists to prove that the payload can be read back.
- QR rendering (`generate_qr_ascii`, `save_qr_image`) and `generate_pairing_qr` are a foreign library plus file I/O.
- Not part of this model: mDNS discovery (`discovery.py`), settings and key files (`config.py`), `main.py`, the health routes and the Windows build script.

## Findings

| source | as written | input that shows it | evidently intended | confidence | as-written member | corrected member |
|---|---|---|---|---|---|---|
| backup_server/server/routes/files.py:79-82 | only `ValueError` and `OSError` are caught around `datetime.fromtimestamp(date_taken / 1000)`; Python documents `OverflowError` for timestamps beyond the platform's `time_t` | `date_taken = 10**25` ms, i.e. 10^22 s: the exception escapes and the upload fails with 500 | an unconvertible timestamp means "no date" and the file is stored under today's date | medium, not executed | Files.ParseDateTakenAsWritten (shown by Files.DateOverflowCrashes) | Files.ParseDateTaken |
| backup_server/server/app.py:44 | `secrets.compare_digest(x_api_key, settings.api_key)` on two `str` values raises `TypeError` when either holds a non-ASCII character; Starlette decodes headers as Latin-1 | header `X-API-Key: é`: the request fails with 500 instead of 401 "Invalid API key" | a wrong key of any spelling is refused with 401 "Invalid API key" | medium, not executed | App.VerifyApiKeyAsWritten (shown by App.NonAsciiKeyCrashes) | App.VerifyApiKey |
