/** The deduplication ledger (backup_server/server/services/dedup.py): the
    `backed_up_files` table, whose `sha256_hash` column is UNIQUE, seen as a
    finite map from hash to the rest of the row. */
module Dedup {
  import opened Common

  /** A SHA-256 digest as the table stores it (hex text). */
  type Hash = string

  /** One row of `backed_up_files`, less its id and timestamp. */
  datatype Row = Row(
    storagePath: string,
    originalPath: Option<string>,
    originalFilename: Option<string>,
    fileSize: Option<int>,
    mimeType: Option<string>,
    sourceDevice: Option<string>)

  /** The table; keying by hash is the uniqueness constraint. */
  type Ledger = map<Hash, Row>

  /** `get_existing_hashes`: the requested hashes that have a row. */
  function ExistingHashes(ledger: Ledger, hashes: seq<Hash>): (found: set<Hash>)
    ensures forall h :: h in found <==> h in hashes && h in ledger
    ensures |hashes| == 0 ==> found == {}
  {
    if |hashes| == 0 then {}
    else
      var rest := ExistingHashes(ledger, hashes[1..]);
      if hashes[0] in ledger then {hashes[0]} + rest else rest
  }

  /** `exists`: is there a row for this hash? The single lookup answers
      as the batch lookup of that one hash does. */
  function Exists(ledger: Ledger, h: Hash): (b: bool)
    ensures b <==> ExistingHashes(ledger, [h]) == {h}
  {
    assert h in ExistingHashes(ledger, [h]) <==> h in ledger;
    h in ledger
  }

  /** `record`: insert the row unless its hash is taken; report whether it
      was inserted. */
  function Record(ledger: Ledger, h: Hash, row: Row): (result: (Ledger, bool))
    ensures result.1 <==> !Exists(ledger, h)
    ensures Exists(result.0, h)
    ensures result.0.Keys == ledger.Keys + {h}
    ensures forall k :: k in ledger ==> result.0[k] == ledger[k]
    ensures result.1 ==> result.0[h] == row
  {
    if Exists(ledger, h) then (ledger, false) else (ledger[h := row], true)
  }

  /** `get_all_hashes`: the hashes that exist, one per row, so there are
      as many as `get_stats` counts files. */
  function AllHashes(ledger: Ledger): (r: set<Hash>)
    ensures forall h :: h in r <==> Exists(ledger, h)
    ensures |r| == GetStats(ledger).totalFiles
  {
    ledger.Keys
  }

  /** The three lookups agree: a hash exists exactly when it is among all
      hashes, and the batch lookup is the request cut down to all hashes. */
  lemma LookupsAgree(ledger: Ledger, hashes: seq<Hash>)
    ensures forall h :: Exists(ledger, h) <==> h in AllHashes(ledger)
    ensures ExistingHashes(ledger, hashes) == AllHashes(ledger) * set h | h in hashes
  {
  }

  /** Recording a hash that is already there changes nothing, so recording
      twice is recording once. */
  lemma RecordIdempotent(ledger: Ledger, h: Hash, first: Row, second: Row)
    ensures var (once, _) := Record(ledger, h, first);
            Record(once, h, second) == (once, false)
  {
  }

  /** Each row's contribution to `SUM(file_size)`; NULL adds nothing. */
  function SizeOf(row: Row): int {
    row.fileSize.GetOr(0)
  }

  ghost function Pick(ledger: Ledger): Hash
    requires ledger != map[]
  {
    var h :| h in ledger; h
  }

  /** Every recorded size is a byte count. */
  predicate SizesNonNegative(ledger: Ledger) {
    forall h :: h in ledger ==> SizeOf(ledger[h]) >= 0
  }

  /** `SUM(file_size)` over all rows, with `or 0` for the empty table. */
  ghost function TotalSize(ledger: Ledger): (total: int)
    ensures SizesNonNegative(ledger) ==> total >= 0
    decreases |ledger|
  {
    if ledger == map[] then 0
    else
      var h := Pick(ledger);
      SizeOf(ledger[h]) + TotalSize(ledger - {h})
  }

  /** The statistics `get_stats` reports apart from the timestamps. */
  datatype Stats = Stats(totalFiles: nat, totalSize: int)

  /** `get_stats`: no files exactly for the empty table, and, when sizes
      are byte counts, a total no smaller than any one file's size. */
  ghost function GetStats(ledger: Ledger): (r: Stats)
    ensures r.totalFiles == 0 <==> ledger == map[]
    ensures SizesNonNegative(ledger) ==> 0 <= r.totalSize
    ensures SizesNonNegative(ledger) ==>
              forall h :: h in ledger ==> SizeOf(ledger[h]) <= r.totalSize
  {
    SizeWithinTotal(ledger);
    Stats(|ledger|, TotalSize(ledger))
  }

  /** With byte-count sizes no single file outweighs the total. */
  lemma SizeWithinTotal(ledger: Ledger)
    ensures SizesNonNegative(ledger) ==>
              forall h :: h in ledger ==> SizeOf(ledger[h]) <= TotalSize(ledger)
  {
    if SizesNonNegative(ledger) {
      forall h | h in ledger ensures SizeOf(ledger[h]) <= TotalSize(ledger) {
        TotalSizeRemove(ledger, h);
        assert SizesNonNegative(ledger - {h});
      }
    }
  }

  /** The sum does not depend on the order rows are visited in. */
  lemma {:induction false} TotalSizeRemove(ledger: Ledger, k: Hash)
    requires k in ledger
    ensures TotalSize(ledger) == SizeOf(ledger[k]) + TotalSize(ledger - {k})
    decreases |ledger|
  {
    var h := Pick(ledger);
    if h != k {
      var both := ledger - {h} - {k};
      assert ledger - {k} - {h} == both;
      assert |ledger - {h}| < |ledger|;
      TotalSizeRemove(ledger - {h}, k);
      assert |ledger - {k}| < |ledger|;
      TotalSizeRemove(ledger - {k}, h);
    }
  }

  /** The empty table reports no files and no bytes. */
  lemma StatsEmpty()
    ensures GetStats(map[]) == Stats(0, 0)
  {
  }

  /** Recording a new hash adds one file and exactly that row's size;
      recording a known hash leaves both counts alone. */
  lemma StatsAfterRecord(ledger: Ledger, h: Hash, row: Row)
    ensures var (after, inserted) := Record(ledger, h, row);
            GetStats(after) == if inserted then Stats(|ledger| + 1, TotalSize(ledger) + SizeOf(row))
                               else GetStats(ledger)
  {
    if !Exists(ledger, h) {
      assert Record(ledger, h, row) == (ledger[h := row], true);
      InsertRow(ledger, h, row);
    } else {
      assert Record(ledger, h, row) == (ledger, false);
    }
  }

  /** A row under a new hash adds one file and its size. */
  lemma InsertRow(ledger: Ledger, h: Hash, row: Row)
    requires h !in ledger
    ensures GetStats(ledger[h := row]) == Stats(|ledger| + 1, TotalSize(ledger) + SizeOf(row))
  {
    var after := ledger[h := row];
    TotalSizeRemove(after, h);
    assert after - {h} == ledger;
  }

}
