/**
 * The log manager's own scenario: thirteen records `record1` .. `record13`
 * appended to a fresh log of 400-byte blocks, then a flush up to LSN 20.
 * Each record is built as the scenario builds it: a page just large enough
 * for the string `recordN` followed by the integer N + 100.
 */
module LogScenario {
  import opened Errors
  import opened ByteBuffers
  import opened Pages
  import opened Files
  import opened LogManagers

  /** The decimal digits of `n`. */
  function Digits(n: nat): (r: string)
    ensures IsAscii(r) && |r| == if n < 10 then 1 else if n < 100 then 2 else |r|
  {
    if n < 10 then [('0' as int + n) as char] else Digits(n / 10) + Digits(n % 10)
  }

  /** The `n`-th record; `npos` bytes of string, then one integer. */
  function TestRecord(n: nat): (r: seq<byte>)
    requires n < 100
    ensures |r| == if n < 10 then 23 else 24
  {
    var name := "record" + Digits(n);
    var npos := MaxLength(|name|);
    WriteInt(WriteBytes(Zeros(npos + INT_BYTES), 0, AsciiBytes(name)), npos, n + 100)
  }

  function TestRecords(from: nat, to: nat): (r: seq<seq<byte>>)
    requires from <= to <= 100
    ensures |r| == to - from && forall i :: 0 <= i < |r| ==> r[i] == TestRecord(from + i)
  {
    seq(to - from, i requires 0 <= i < to - from => TestRecord(from + i))
  }

  /** The page bytes that the records of `recs` take together. */
  function Needed(recs: seq<seq<byte>>): nat
  {
    if recs == [] then 0 else Needed(recs[..|recs| - 1]) + BytesNeeded(|recs[|recs| - 1]|)
  }

  /** The lengths of the scenario's records: nine of 23 bytes, then four of 24. */
  predicate TestShaped(recs: seq<seq<byte>>)
  {
    |recs| == 13 && forall i :: 0 <= i < 13 ==> |recs[i]| == if i < 9 then 23 else 24
  }

  /** The first `n` records of a test-shaped sequence take 31 bytes each up to 9, then 32. */
  lemma {:induction false} NeededTest(recs: seq<seq<byte>>, n: nat)
    requires TestShaped(recs) && n <= 13
    ensures Needed(recs[..n]) == if n <= 9 then 31 * n else 279 + 32 * (n - 9)
    decreases n
  {
    if n > 0 {
      assert recs[..n][..n - 1] == recs[..n - 1];
      NeededTest(recs, n - 1);
    }
  }

  /** Every record of `recs` fits on an empty page. */
  predicate AllFit(recs: seq<seq<byte>>, cfg: FileConfig)
  {
    forall i :: 0 <= i < |recs| ==> BytesNeeded(|recs[i]|) <= cfg.blocksize
  }

  /**
   * Records that fit below the boundary together are all placed on the
   * current page: the disk and the current block do not change and the
   * boundary drops by the bytes they take.
   */
  lemma {:induction false} InPlaceRun(s: LogState, logFile: string, cfg: FileConfig, recs: seq<seq<byte>>)
    requires WellFormed(s, logFile, cfg) && AllFit(recs, cfg)
    requires Needed(recs) + INT_BYTES <= Boundary(s.page)
    ensures var (s', rs) := AppendAll(s, logFile, cfg, recs);
      s'.disk == s.disk && s'.current == s.current && s'.saved == s.saved &&
      Boundary(s'.page) == Boundary(s.page) - Needed(recs) && CountOk(rs) == |recs|
    decreases |recs|
  {
    if recs != [] {
      var prefix := recs[..|recs| - 1];
      var last := recs[|recs| - 1];
      InPlaceRun(s, logFile, cfg, prefix);
      var (s1, rs) := AppendAll(s, logFile, cfg, prefix);
      AppendInPlace(s1, logFile, cfg, last);
      var (s2, r) := AppendLog(s1, logFile, cfg, last);
      assert (rs + [r])[..|rs|] == rs;
    }
  }

  /** A log just created on an empty disk of 400-byte blocks: one block whose header is the block size. */
  predicate FreshState(s: LogState)
  {
    INT_BYTES <= |s.page| && Boundary(s.page) == 400 && s.current == BlockId("logfile", 0) &&
    s.disk == map["logfile" := [s.page]] && s.latest == 0 && s.saved == 0
  }

  function FreshLog(): (r: LogState)
    ensures WellFormed(r, "logfile", FileConfig(400, {}, {})) && FreshState(r)
  {
    var page := WriteInt(Zeros(400), 0, 400);
    ReadWriteInt(Zeros(400), 0, 400);
    LogState(page, BlockId("logfile", 0), 0, 0, map["logfile" := [page]])
  }

  /** The first twelve records fill block 0 down to boundary 25 without touching the disk. */
  lemma FirstTwelve(s0: LogState, recs: seq<seq<byte>>)
    requires WellFormed(s0, "logfile", FileConfig(400, {}, {})) && FreshState(s0) && TestShaped(recs)
    ensures AllFit(recs[..12], FileConfig(400, {}, {}))
    ensures var (s, rs) := AppendAll(s0, "logfile", FileConfig(400, {}, {}), recs[..12]);
      s.disk == s0.disk && s.current == s0.current && s.latest == 12 && Boundary(s.page) == 25
  {
    NeededTest(recs, 12);
    InPlaceRun(s0, "logfile", FileConfig(400, {}, {}), recs[..12]);
    AppendAllLsn(s0, "logfile", FileConfig(400, {}, {}), recs[..12]);
  }

  /**
   * The thirteenth record, 24 bytes, does not fit above boundary 25: block
   * 0 is saved, block 1 is appended and the record goes right below its
   * end, at 368.
   */
  lemma LastAppend(sb: LogState, rec: seq<byte>) returns (sc: LogState, r: Result<nat>)
    requires WellFormed(sb, "logfile", FileConfig(400, {}, {})) && sb.current == BlockId("logfile", 0)
    requires |Blocks(sb.disk, "logfile")| == 1 && Boundary(sb.page) == 25 && |rec| == 24
    ensures AppendLog(sb, "logfile", FileConfig(400, {}, {}), rec) == (sc, r)
    ensures r == Ok(sb.latest + 1) && sc.latest == sb.latest + 1 && sc.saved == sb.latest &&
      sc.current == BlockId("logfile", 1) && |Blocks(sc.disk, "logfile")| == 2 &&
      Blocks(sc.disk, "logfile")[0] == sb.page && Boundary(sc.page) == 368 &&
      HasBytesAt(sc.page, 368) && ReadBytes(sc.page, 368) == rec
  {
    var s1 := FirstRollover(sb);
    assert BytesNeeded(|rec|) == 32 && NeedsRollover(Boundary(sb.page), |rec|);
    sc, r := PlaceAtEnd(s1, rec);
    assert AppendLog(sb, "logfile", FileConfig(400, {}, {}), rec) == (sc, r);
  }

  /** A 24-byte record on an empty 400-byte page goes to 368 and reads back from there. */
  lemma PlaceAtEnd(s1: LogState, rec: seq<byte>) returns (sc: LogState, r: Result<nat>)
    requires WellFormed(s1, "logfile", FileConfig(400, {}, {})) && Boundary(s1.page) == 400 && |rec| == 24
    ensures PlaceRecord(s1, 400, rec) == (sc, r)
    ensures r == Ok(s1.latest + 1) && sc == s1.(page := sc.page, latest := s1.latest + 1)
    ensures Boundary(sc.page) == 368 && HasBytesAt(sc.page, 368) && ReadBytes(sc.page, 368) == rec
  {
    sc, r := PlaceRecord(s1, 400, rec).0, PlaceRecord(s1, 400, rec).1;
    assert RecordPlaced(s1.page, sc.page, 400, rec);
  }

  /** The rollover out of block 0: the page is saved there and block 1 starts empty. */
  lemma FirstRollover(sb: LogState) returns (s1: LogState)
    requires WellFormed(sb, "logfile", FileConfig(400, {}, {})) && sb.current == BlockId("logfile", 0)
    requires |Blocks(sb.disk, "logfile")| == 1
    ensures Rollover(sb, "logfile", FileConfig(400, {}, {})) == (s1, Ok(()))
    ensures WellFormed(s1, "logfile", FileConfig(400, {}, {})) && s1.current == BlockId("logfile", 1)
    ensures |Blocks(s1.disk, "logfile")| == 2 && Blocks(s1.disk, "logfile")[0] == sb.page
    ensures Boundary(s1.page) == 400 && s1.latest == s1.saved == sb.latest
  {
    s1 := Rollover(sb, "logfile", FileConfig(400, {}, {})).0;
  }

  /** Flushing up to LSN 20 writes the page of block 1 and saves everything appended. */
  lemma FinalFlush(sc: LogState)
    requires WellFormed(sc, "logfile", FileConfig(400, {}, {})) && sc.current == BlockId("logfile", 1)
    requires |Blocks(sc.disk, "logfile")| == 2 && sc.saved < 20
    ensures var (s2, f) := FlushLogWithLsn(sc, FileConfig(400, {}, {}), 20);
      var blocks := Blocks(s2.disk, "logfile");
      f.Ok? && s2.latest == sc.latest && s2.saved == sc.latest &&
      |blocks| == 2 && blocks[0] == Blocks(sc.disk, "logfile")[0] && blocks[1] == sc.page &&
      |blocks[0]| == |blocks[1]| == 400
  {
    assert "logfile" in sc.disk;
  }

  /**
   * Thirteen records of the scenario's lengths on a fresh log, then a flush
   * up to LSN 20: all appends succeed with LSNs 1 to 13; the thirteenth
   * does not fit and starts a second block; the file then holds two
   * blocks, the first with boundary 25 (0x19), the second with boundary
   * 368 (0x170) and the thirteenth record read back from there.
   */
  lemma LogRun(s0: LogState, recs: seq<seq<byte>>)
    requires WellFormed(s0, "logfile", FileConfig(400, {}, {})) && FreshState(s0) && TestShaped(recs)
    ensures AllFit(recs, FileConfig(400, {}, {}))
    ensures var cfg := FileConfig(400, {}, {});
      var (s1, rs) := AppendAll(s0, "logfile", cfg, recs);
      var (s2, f) := FlushLogWithLsn(s1, cfg, 20);
      var blocks := Blocks(s2.disk, "logfile");
      (forall i :: 0 <= i < 13 ==> rs[i] == Ok(i + 1)) && f.Ok? && s2.latest == 13 && s2.saved == 13 &&
      |blocks| == 2 && |blocks[0]| == |blocks[1]| == 400 &&
      Boundary(blocks[0]) == 25 && Boundary(blocks[1]) == 368 &&
      HasBytesAt(blocks[1], 368) && ReadBytes(blocks[1], 368) == recs[12]
  {
    var sc, rs := ThirteenAppends(s0, recs);
    FinalFlush(sc);
  }

  /** The appends of `LogRun`, up to the state before the flush. */
  lemma ThirteenAppends(s0: LogState, recs: seq<seq<byte>>) returns (sc: LogState, rs: seq<Result<nat>>)
    requires WellFormed(s0, "logfile", FileConfig(400, {}, {})) && FreshState(s0) && TestShaped(recs)
    ensures AllFit(recs, FileConfig(400, {}, {}))
    ensures AppendAll(s0, "logfile", FileConfig(400, {}, {}), recs) == (sc, rs)
    ensures WellFormed(sc, "logfile", FileConfig(400, {}, {}))
    ensures |rs| == 13 && forall i :: 0 <= i < 13 ==> rs[i] == Ok(i + 1)
    ensures sc.latest == 13 && sc.saved == 12 && sc.current == BlockId("logfile", 1)
    ensures |Blocks(sc.disk, "logfile")| == 2 && Boundary(Blocks(sc.disk, "logfile")[0]) == 25
    ensures Boundary(sc.page) == 368 && HasBytesAt(sc.page, 368) && ReadBytes(sc.page, 368) == recs[12]
  {
    var cfg := FileConfig(400, {}, {});
    ShapedFit(recs);
    FirstTwelve(s0, recs);
    var (sb, rb) := AppendAll(s0, "logfile", cfg, recs[..12]);
    var rc;
    sc, rc := LastAppend(sb, recs[12]);
    rs := rb + [rc];
    assert |recs| - 1 == 12;
    AppendAllLsn(s0, "logfile", cfg, recs);
  }

  /** Records of the scenario's lengths all fit on an empty 400-byte page. */
  lemma ShapedFit(recs: seq<seq<byte>>)
    requires TestShaped(recs)
    ensures AllFit(recs, FileConfig(400, {}, {})) && AllFit(recs[..12], FileConfig(400, {}, {}))
  {
  }

  /** The records `record1` .. `record13` have the scenario's lengths, so `LogRun` describes them. */
  lemma LogTest()
    ensures TestShaped(TestRecords(1, 14))
  {
  }

  /** Without faulty blocks or full files every append succeeds. */
  lemma AppendFaultFree(s: LogState, logFile: string, cfg: FileConfig, rec: seq<byte>)
    requires WellFormed(s, logFile, cfg) && BytesNeeded(|rec|) <= cfg.blocksize
    requires cfg.faulty == {} && cfg.full == {}
    ensures AppendLog(s, logFile, cfg, rec).1.Ok?
  {
    if NeedsRollover(Boundary(s.page), |rec|) {
      var (s1, w) := Rollover(s, logFile, cfg);
      assert w.Ok?;
    }
  }
}
