/**
 * The write-ahead log. The log lives in the blocks of one file; the current
 * block is mirrored by an in-memory page whose first 8 bytes, the boundary,
 * hold the offset of the most recently appended record. Records are packed
 * from the page's tail backward, each as an 8-byte length and its payload.
 * When a record does not fit, the page is flushed, a new block is appended
 * and the page restarts with boundary = block size.
 *
 * The pure functions below give the state transition of each operation;
 * the LogManager methods are proved to perform exactly that transition.
 */
module LogManagers {
  import opened Errors
  import opened ByteBuffers
  import opened Pages
  import opened Files

  /** The header of a log page. */
  function Boundary(page: seq<byte>): u64
    requires INT_BYTES <= |page|
  {
    ReadInt(page, 0)
  }

  /** Bytes a record of `len` bytes takes: its length prefix and its payload. */
  function BytesNeeded(len: nat): nat
  {
    MaxLength(len)
  }

  /** The record and the header cannot both fit below `boundary`. */
  predicate NeedsRollover(boundary: nat, len: nat)
  {
    boundary < BytesNeeded(len) + INT_BYTES
  }

  /** Everything the log manager and the disk hold between two operations. */
  datatype LogState = LogState(page: seq<byte>, current: BlockId, latest: nat, saved: nat, disk: Disk)

  ghost predicate WellFormed(s: LogState, logFile: string, cfg: FileConfig)
  {
    INT_BYTES <= cfg.blocksize < U64_BOUND && |s.page| == cfg.blocksize &&
    Boundary(s.page) <= cfg.blocksize &&
    s.current.filename == logFile && HasBlock(s.disk, s.current) &&
    s.saved <= s.latest && DiskSized(s.disk, cfg.blocksize)
  }

  /**
   * Writes by others (a buffer flushing a data page) keep the log
   * well-formed: its current block survives because files never shrink.
   */
  lemma WellFormedOnGrownDisk(s: LogState, logFile: string, cfg: FileConfig, disk: Disk)
    requires WellFormed(s, logFile, cfg) && Grows(s.disk, disk) && DiskSized(disk, cfg.blocksize)
    ensures WellFormed(s.(disk := disk), logFile, cfg)
  {
    assert s.current.filename in s.disk;
  }

  /** `flush`: the page goes to the current block and everything appended so far is saved. */
  function FlushLog(s: LogState, cfg: FileConfig): (r: (LogState, Result<()>))
    ensures r.1.Ok? ==> r.0 == s.(disk := r.0.disk, saved := s.latest)
    ensures r.1.Ok? ==> HasBlock(r.0.disk, s.current) && Blocks(r.0.disk, s.current.filename)[s.current.number] == s.page
    ensures r.1.Err? ==> r.0 == s && r.1.error == IoError
    ensures forall f :: f != s.current.filename ==> Blocks(r.0.disk, f) == Blocks(s.disk, f)
  {
    var (disk, w) := WriteResult(s.disk, cfg, s.current, s.page);
    if w.Err? then (s, w) else (s.(disk := disk, saved := s.latest), w)
  }

  /** `flush_with_lsn`: flushes only when `lsn` is beyond what is already saved. */
  function FlushLogWithLsn(s: LogState, cfg: FileConfig, lsn: nat): (r: (LogState, Result<()>))
    ensures lsn <= s.saved ==> r.0 == s && r.1.Ok?
    ensures r.1.Ok? ==> lsn <= r.0.saved || r.0.saved == s.latest
    ensures r.0.page == s.page && r.0.current == s.current && r.0.latest == s.latest
    ensures s.saved <= s.latest ==> s.saved <= r.0.saved <= s.latest
    ensures forall f :: f != s.current.filename ==> Blocks(r.0.disk, f) == Blocks(s.disk, f)
  {
    if lsn > s.saved then FlushLog(s, cfg) else (s, Ok(()))
  }

  /** Writes `rec` just below `boundary` and makes its position the new boundary. */
  function PlaceRecord(s: LogState, boundary: nat, rec: seq<byte>): (r: (LogState, Result<nat>))
    requires INT_BYTES <= |s.page| < U64_BOUND && BytesNeeded(|rec|) <= boundary <= |s.page|
    ensures r.1 == Ok(s.latest + 1) && r.0 == s.(page := r.0.page, latest := s.latest + 1)
    ensures RecordPlaced(s.page, r.0.page, boundary, rec)
  {
    var recPos := boundary - BytesNeeded(|rec|);
    var page := WriteInt(WriteBytes(s.page, recPos, rec), 0, recPos);
    RecordBelowHeader(s.page, boundary, rec);
    (s.(page := page, latest := s.latest + 1), Ok(s.latest + 1))
  }

  /** Placing a record keeps the log well-formed. */
  lemma PlaceKeepsLog(s: LogState, logFile: string, cfg: FileConfig, boundary: nat, rec: seq<byte>)
    requires WellFormed(s, logFile, cfg) && BytesNeeded(|rec|) <= boundary <= cfg.blocksize
    ensures WellFormed(PlaceRecord(s, boundary, rec).0, logFile, cfg)
  {
  }

  /**
   * `after` is `before` with `rec` written just below `boundary` and the
   * header pointing at it: the record reads back unless it overlaps the
   * header, and no other byte past the header differs.
   */
  ghost predicate RecordPlaced(before: seq<byte>, after: seq<byte>, boundary: nat, rec: seq<byte>)
    requires BytesNeeded(|rec|) <= boundary
  {
    var recPos := boundary - BytesNeeded(|rec|);
    INT_BYTES <= |after| && |after| == |before| && Boundary(after) == recPos &&
    (INT_BYTES <= recPos ==> HasBytesAt(after, recPos) && ReadBytes(after, recPos) == rec) &&
    (forall i :: INT_BYTES <= i < |before| && !(recPos <= i < boundary) ==> after[i] == before[i])
  }

  lemma RecordBelowHeader(page: seq<byte>, boundary: nat, rec: seq<byte>)
    requires INT_BYTES <= |page| < U64_BOUND && BytesNeeded(|rec|) <= boundary <= |page|
    ensures var recPos := boundary - BytesNeeded(|rec|);
      RecordPlaced(page, WriteInt(WriteBytes(page, recPos, rec), 0, recPos), boundary, rec)
  {
    var recPos := boundary - BytesNeeded(|rec|);
    var written := WriteBytes(page, recPos, rec);
    ReadWriteBytes(page, recPos, rec);
    ReadWriteInt(written, 0, recPos);
    if INT_BYTES <= recPos {
      HeaderKeepsRecord(written, recPos, recPos);
    }
  }

  /** Rewriting the header leaves a byte string stored past it readable. */
  lemma HeaderKeepsRecord(s: seq<byte>, v: u64, at: nat)
    requires INT_BYTES <= at && HasBytesAt(s, at)
    ensures HasBytesAt(WriteInt(s, 0, v), at) && ReadBytes(WriteInt(s, 0, v), at) == ReadBytes(s, at)
  {
    ReadIntAfterSplice(s, 0, EncodeInt(v), at);
    var p := WriteInt(s, 0, v);
    var len := ReadInt(s, at);
    assert p[at + INT_BYTES..at + MaxLength(len)] == s[at + INT_BYTES..at + MaxLength(len)];
  }

  /**
   * The first half of an append on a full page: flush the page, append a
   * block, reset the header and write the page to the new block.
   */
  function Rollover(s: LogState, logFile: string, cfg: FileConfig): (r: (LogState, Result<()>))
    requires WellFormed(s, logFile, cfg)
    ensures WellFormed(r.0, logFile, cfg) && r.0.latest == s.latest
    ensures r.1.Err? ==> r.1.error == IoError
    ensures r.1.Ok? ==> Boundary(r.0.page) == cfg.blocksize
    ensures r.1.Ok? ==> r.0.page == WriteInt(s.page, 0, cfg.blocksize) && r.0.saved == s.latest
    ensures r.1.Ok? ==> RolledOver(s.disk, r.0.disk, s.current, s.page, r.0.page)
  {
    var (s1, f) := FlushLog(s, cfg);
    if f.Err? then (s1, f)
    else
      var (d2, b) := AppendResult(s1.disk, cfg, logFile);
      if b.Err? then (s1, Err(b.error))
      else
        var page := WriteInt(s1.page, 0, cfg.blocksize);
        ReadWriteInt(s1.page, 0, cfg.blocksize);
        var (d3, w) := WriteResult(d2, cfg, b.value, page);
        (s1.(disk := d3, current := b.value, page := page), w)
  }

  /** `append`: the whole state transition, including the partial effects of a failed write. */
  function AppendLog(s: LogState, logFile: string, cfg: FileConfig, rec: seq<byte>): (r: (LogState, Result<nat>))
    requires WellFormed(s, logFile, cfg) && BytesNeeded(|rec|) <= cfg.blocksize
    ensures WellFormed(r.0, logFile, cfg)
    ensures r.1.Ok? ==> r.1.value == r.0.latest == s.latest + 1
    ensures r.1.Err? ==> r.0.latest == s.latest && r.1.error == IoError
  {
    var boundary := Boundary(s.page);
    if NeedsRollover(boundary, |rec|) then
      var (s1, w) := Rollover(s, logFile, cfg);
      if w.Err? then (s1, Err(w.error))
      else PlaceRecord(s1, Boundary(s1.page), rec)
    else PlaceRecord(s, boundary, rec)
  }

  /**
   * The log file of `after` is that of `before` with `page` in block
   * `current` and one more block, holding `reset`, at the end.
   */
  ghost predicate RolledOver(before: Disk, after: Disk, current: BlockId, page: seq<byte>, reset: seq<byte>)
    requires HasBlock(before, current)
  {
    var old_blocks := Blocks(before, current.filename);
    var new_blocks := Blocks(after, current.filename);
    |new_blocks| == |old_blocks| + 1 &&
    new_blocks[current.number] == page && new_blocks[|old_blocks|] == reset &&
    forall i :: 0 <= i < |old_blocks| && i != current.number ==> new_blocks[i] == old_blocks[i]
  }

  /**
   * With room on the page the record goes right below the old boundary: the
   * disk and the current block stay as they are, the record reads back from
   * the new boundary, and no other byte past the header changes.
   */
  lemma AppendInPlace(s: LogState, logFile: string, cfg: FileConfig, rec: seq<byte>)
    requires WellFormed(s, logFile, cfg) && BytesNeeded(|rec|) <= cfg.blocksize
    requires !NeedsRollover(Boundary(s.page), |rec|)
    ensures var (s', r) := AppendLog(s, logFile, cfg, rec);
      var recPos := Boundary(s.page) - BytesNeeded(|rec|);
      r.Ok? && s'.disk == s.disk && s'.current == s.current && s'.saved == s.saved &&
      INT_BYTES <= recPos && RecordPlaced(s.page, s'.page, Boundary(s.page), rec) &&
      s'.page[recPos..recPos + INT_BYTES] == EncodeInt(|rec|) &&
      s'.page[recPos + INT_BYTES..Boundary(s.page)] == rec
  {
    var boundary := Boundary(s.page);
    var (s', r) := PlaceRecord(s, boundary, rec);
    assert AppendLog(s, logFile, cfg, rec) == (s', r);
    var recPos := boundary - BytesNeeded(|rec|);
    EncodeDecodeInt(s'.page[recPos..recPos + INT_BYTES]);
  }

  /**
   * On a full page a successful append flushes the page to the old block,
   * appends one block, writes the page with a reset header to it, and places
   * the record at the tail of the new page. Only the header is reset: the
   * bytes between the header and the record are the previous block's.
   */
  lemma AppendRollover(s: LogState, logFile: string, cfg: FileConfig, rec: seq<byte>)
    requires WellFormed(s, logFile, cfg) && BytesNeeded(|rec|) <= cfg.blocksize
    requires NeedsRollover(Boundary(s.page), |rec|)
    ensures var (s', r) := AppendLog(s, logFile, cfg, rec);
      var recPos := cfg.blocksize - BytesNeeded(|rec|);
      r.Ok? ==>
        s'.current == BlockId(logFile, |Blocks(s.disk, logFile)|) &&
        RolledOver(s.disk, s'.disk, s.current, s.page, WriteInt(s.page, 0, cfg.blocksize)) &&
        s'.saved == s.latest &&
        RecordPlaced(WriteInt(s.page, 0, cfg.blocksize), s'.page, cfg.blocksize, rec) &&
        (forall i :: INT_BYTES <= i < recPos ==> s'.page[i] == s.page[i])
  {
    var (s1, w) := Rollover(s, logFile, cfg);
    if w.Ok? {
      var recPos := cfg.blocksize - BytesNeeded(|rec|);
      var (s', r) := PlaceRecord(s1, cfg.blocksize, rec);
      assert AppendLog(s, logFile, cfg, rec) == (s', r);
      forall i | INT_BYTES <= i < recPos
        ensures s'.page[i] == s.page[i]
      {
        ReadWriteInt(s.page, 0, cfg.blocksize);
        assert s'.page[i] == s1.page[i];
      }
    }
  }

  /**
   * After a successful append the boundary is a valid offset with the record
   * inside the page, and a record of at most blocksize - 16 bytes never
   * overlaps the header.
   */
  lemma AppendBoundary(s: LogState, logFile: string, cfg: FileConfig, rec: seq<byte>)
    requires WellFormed(s, logFile, cfg) && BytesNeeded(|rec|) <= cfg.blocksize
    ensures var (s', r) := AppendLog(s, logFile, cfg, rec);
      r.Ok? ==>
        Boundary(s'.page) + BytesNeeded(|rec|) <= cfg.blocksize &&
        Boundary(s'.page) == NextBoundary(Boundary(s.page), |rec|, cfg.blocksize) &&
        (|rec| + 2 * INT_BYTES <= cfg.blocksize ==> INT_BYTES <= Boundary(s'.page))
  {
    if NeedsRollover(Boundary(s.page), |rec|) {
      AppendRollover(s, logFile, cfg, rec);
    } else {
      AppendInPlace(s, logFile, cfg, rec);
    }
  }

  /** The boundary after appending a record of `len` bytes to a page whose boundary is `boundary`. */
  function NextBoundary(boundary: nat, len: nat, blocksize: nat): int
  {
    (if NeedsRollover(boundary, len) then blocksize else boundary) - BytesNeeded(len)
  }

  /** Appends `recs` one after another: all but the last, then the last. */
  function AppendAll(s: LogState, logFile: string, cfg: FileConfig, recs: seq<seq<byte>>): (r: (LogState, seq<Result<nat>>))
    requires WellFormed(s, logFile, cfg)
    requires forall i :: 0 <= i < |recs| ==> BytesNeeded(|recs[i]|) <= cfg.blocksize
    ensures WellFormed(r.0, logFile, cfg) && |r.1| == |recs|
    decreases |recs|
  {
    if recs == [] then (s, [])
    else
      var (s1, rs) := AppendAll(s, logFile, cfg, recs[..|recs| - 1]);
      var (s2, r) := AppendLog(s1, logFile, cfg, recs[|recs| - 1]);
      (s2, rs + [r])
  }

  /** The number of successful results. */
  function CountOk(rs: seq<Result<nat>>): (n: nat)
    ensures n <= |rs|
  {
    if rs == [] then 0 else CountOk(rs[..|rs| - 1]) + (if rs[|rs| - 1].Ok? then 1 else 0)
  }

  /**
   * Every successful append raises the latest LSN by exactly one and returns
   * it: after N appends the LSN is the initial one plus the number that
   * succeeded, and when all succeed the i-th returned initial + i + 1.
   */
  lemma {:induction false} AppendAllLsn(s: LogState, logFile: string, cfg: FileConfig, recs: seq<seq<byte>>)
    requires WellFormed(s, logFile, cfg)
    requires forall i :: 0 <= i < |recs| ==> BytesNeeded(|recs[i]|) <= cfg.blocksize
    ensures var (s', rs) := AppendAll(s, logFile, cfg, recs);
      s'.latest == s.latest + CountOk(rs) &&
      (CountOk(rs) == |recs| ==> forall i :: 0 <= i < |rs| ==> rs[i].Ok? && rs[i].value == s.latest + i + 1)
    decreases |recs|
  {
    if recs != [] {
      var prefix := recs[..|recs| - 1];
      var (s1, rs) := AppendAll(s, logFile, cfg, prefix);
      AppendAllLsn(s, logFile, cfg, prefix);
      var (s2, r) := AppendLog(s1, logFile, cfg, recs[|recs| - 1]);
      var all := rs + [r];
      assert all[..|all| - 1] == rs;
      if CountOk(all) == |recs| {
        forall i | 0 <= i < |all|
          ensures all[i].Ok? && all[i].value == s.latest + i + 1
        {
          if i < |rs| {
            assert all[i] == rs[i];
          }
        }
      }
    }
  }

  class LogManager {
    const logFile: string
    const logPage: Page
    var currentBlock: BlockId
    var latestLsn: nat
    var lastSavedLsn: nat

    ghost function Repr(): set<object>
    {
      {this} + logPage.Repr()
    }

    ghost function State(fm: FileManager): LogState
      reads this, fm, logPage.bb.bytes
    {
      LogState(logPage.Bytes(), currentBlock, latestLsn, lastSavedLsn, fm.disk)
    }

    ghost predicate Valid(fm: FileManager)
      reads this, fm, logPage.bb.bytes
    {
      fm.Valid() && logPage.Size() == fm.blocksize && WellFormed(State(fm), logFile, fm.Config())
    }

    /**
     * `LogManager::new`: an existing log is continued in its last block;
     * otherwise a first block is appended and initialised with the header
     * set to the block size. Both LSNs start at 0.
     */
    constructor (fm: FileManager, logFile: string)
      requires fm.Valid() && INT_BYTES <= fm.blocksize
      requires logFile in fm.disk ==>
        |fm.disk[logFile]| > 0 && Boundary(fm.disk[logFile][|fm.disk[logFile]| - 1]) <= fm.blocksize
      requires logFile !in fm.disk ==> logFile !in fm.full && BlockId(logFile, 0) !in fm.faulty
      modifies fm
      ensures Valid(fm) && fresh(logPage) && fresh(logPage.bb) && fresh(logPage.bb.bytes)
      ensures this.logFile == logFile && latestLsn == 0 && lastSavedLsn == 0
      ensures old(logFile in fm.disk) ==>
        fm.disk == old(fm.disk) && currentBlock == BlockId(logFile, |fm.disk[logFile]| - 1) &&
        logPage.Bytes() == fm.disk[logFile][currentBlock.number]
      ensures old(logFile !in fm.disk) ==>
        currentBlock == BlockId(logFile, 0) && logPage.Bytes() == WriteInt(Zeros(fm.blocksize), 0, fm.blocksize) &&
        fm.disk == old(fm.disk)[logFile := [logPage.Bytes()]]
    {
      var page := new Page(fm.blocksize);
      var size := fm.Length(logFile);
      var block: BlockId;
      if size.Some? {
        block := BlockId(logFile, size.value - 1);
        var read := fm.Read(block, page);
      } else {
        var appended := fm.Append(logFile);
        block := appended.value;
        page.SetInt(0, fm.blocksize);
        ReadWriteInt(Zeros(fm.blocksize), 0, fm.blocksize);
        var written := fm.Write(block, page);
        assert fm.disk[logFile] == [page.Bytes()];
      }
      this.logFile := logFile;
      logPage := page;
      currentBlock := block;
      latestLsn := 0;
      lastSavedLsn := 0;
    }

    method Append(fm: FileManager, record: seq<byte>) returns (r: Result<nat>)
      requires Valid(fm) && BytesNeeded(|record|) <= fm.blocksize
      modifies this, fm, logPage.bb, logPage.bb.bytes
      ensures Valid(fm)
      ensures (State(fm), r) == AppendLog(old(State(fm)), logFile, fm.Config(), record)
    {
      var boundary := logPage.GetInt(0);
      var bytesNeeded := |record| + INT_BYTES;
      if boundary < bytesNeeded + INT_BYTES {
        var rolled := RollOver(fm);
        if rolled.Err? {
          return Err(rolled.error);
        }
        boundary := logPage.GetInt(0);
      }
      r := Place(fm, boundary, record);
    }

    /** The record-placing steps of `append`. */
    method Place(fm: FileManager, boundary: u64, record: seq<byte>) returns (r: Result<nat>)
      requires Valid(fm) && BytesNeeded(|record|) <= boundary <= fm.blocksize
      modifies this, logPage.bb, logPage.bb.bytes
      ensures Valid(fm)
      ensures (State(fm), r) == PlaceRecord(old(State(fm)), boundary, record)
    {
      ghost var s0 := State(fm);
      PlaceKeepsLog(s0, logFile, fm.Config(), boundary, record);
      ghost var s1 := PlaceRecord(s0, boundary, record).0;
      var recPos := boundary - BytesNeeded(|record|);
      logPage.SetBytes(recPos, record);
      logPage.SetInt(0, recPos);
      assert logPage.Bytes() == s1.page;
      latestLsn := latestLsn + 1;
      r := Ok(latestLsn);
      assert State(fm) == s1;
    }

    /** The rollover steps of `append`. */
    method RollOver(fm: FileManager) returns (r: Result<()>)
      requires Valid(fm)
      modifies this, fm, logPage.bb, logPage.bb.bytes
      ensures Valid(fm)
      ensures (State(fm), r) == Rollover(old(State(fm)), logFile, fm.Config())
    {
      r := Flush(fm);
      if r.Err? {
        return;
      }
      var appended := fm.Append(logFile);
      if appended.Err? {
        return Err(appended.error);
      }
      currentBlock := appended.value;
      ghost var before := logPage.Bytes();
      logPage.SetInt(0, fm.blocksize);
      ReadWriteInt(before, 0, fm.blocksize);
      r := fm.Write(currentBlock, logPage);
    }

    method Flush(fm: FileManager) returns (r: Result<()>)
      requires Valid(fm)
      modifies this, fm
      ensures Valid(fm)
      ensures (State(fm), r) == FlushLog(old(State(fm)), fm.Config())
    {
      r := fm.Write(currentBlock, logPage);
      if r.Ok? {
        lastSavedLsn := latestLsn;
      }
    }

    method FlushWithLsn(fm: FileManager, lsn: nat) returns (r: Result<()>)
      requires Valid(fm)
      modifies this, fm
      ensures Valid(fm)
      ensures (State(fm), r) == FlushLogWithLsn(old(State(fm)), fm.Config(), lsn)
    {
      if lsn > lastSavedLsn {
        r := Flush(fm);
      } else {
        r := Ok(());
      }
    }
  }
}
