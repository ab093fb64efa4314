/**
 * A buffer: one page of memory that may hold a copy of a disk block, with
 * a pin count and the stamp of the transaction that last modified it.
 *
 * Only the record and its constructor exist in the repository; pinning,
 * unpinning, flushing and assigning a buffer to a block follow the SimpleDB
 * design those fields are made for (a modified buffer first forces the log
 * up to its LSN, then writes its page and forgets the stamp).
 */
module Buffers {
  import opened Errors
  import opened ByteBuffers
  import opened Pages
  import opened Files
  import opened LogManagers

  /** Everything a buffer holds, as a value. */
  datatype BufferState = BufferState(
    block: Option<BlockId>, pins: nat, lsn: Option<nat>, txnum: Option<nat>, data: seq<byte>)

  /** A buffer stamped by a transaction holds a block to write back to. */
  predicate Stamped(b: BufferState)
  {
    b.txnum.Some? ==> b.block.Some?
  }

  /**
   * Flushing a buffer: nothing to do unless a transaction modified it;
   * otherwise the log is forced up to the buffer's LSN (write-ahead), the
   * page is written to its block and the stamp is cleared. The first error
   * stops the flush and leaves the buffer as it was.
   */
  function FlushBuffer(ls: LogState, cfg: FileConfig, b: BufferState): (r: (LogState, BufferState, Result<()>))
    requires Stamped(b)
    ensures r.1 == b.(txnum := r.1.txnum) && Stamped(r.1)
    ensures b.txnum.None? ==> r == (ls, b, Ok(()))
    ensures r.2.Err? ==> r.1 == b && r.2.error == IoError
    ensures r.2.Err? ==> forall f :: f != ls.current.filename ==> Blocks(r.0.disk, f) == Blocks(ls.disk, f)
    ensures r.2.Ok? ==> r.1.txnum.None?
    ensures r.2.Ok? && b.txnum.Some? ==>
      HasBlock(r.0.disk, b.block.value) && Blocks(r.0.disk, b.block.value.filename)[b.block.value.number] == b.data
    ensures r.2.Ok? && b.txnum.Some? && b.lsn.Some? ==> b.lsn.value <= r.0.saved || r.0.saved == ls.latest
    ensures r.0 == ls.(disk := r.0.disk, saved := r.0.saved)
    ensures ls.saved <= ls.latest ==> ls.saved <= r.0.saved <= ls.latest
    ensures Grows(ls.disk, r.0.disk)
    ensures DiskSized(ls.disk, cfg.blocksize) && |ls.page| == |b.data| == cfg.blocksize ==>
      DiskSized(r.0.disk, cfg.blocksize)
  {
    if b.txnum.None? then (ls, b, Ok(()))
    else
      var (ls1, forced) := if b.lsn.Some? then FlushLogWithLsn(ls, cfg, b.lsn.value) else (ls, Ok(()));
      if forced.Err? then (ls1, b, forced)
      else
        var (disk, written) := WriteResult(ls1.disk, cfg, b.block.value, b.data);
        if written.Err? then (ls1.(disk := disk), b, written)
        else (ls1.(disk := disk), b.(txnum := None), Ok(()))
  }

  /**
   * A flush writes only the buffer's own block and the log's current block:
   * every other block of a file other than the log's keeps its contents.
   */
  lemma FlushBufferKeeps(ls: LogState, cfg: FileConfig, b: BufferState, blk: BlockId)
    requires Stamped(b) && b.block != Some(blk) && blk.filename != ls.current.filename && HasBlock(ls.disk, blk)
    ensures var d := FlushBuffer(ls, cfg, b).0.disk;
      HasBlock(d, blk) && Blocks(d, blk.filename)[blk.number] == Blocks(ls.disk, blk.filename)[blk.number]
  {
    if b.txnum.Some? {
      var (ls1, forced) := if b.lsn.Some? then FlushLogWithLsn(ls, cfg, b.lsn.value) else (ls, Ok(()));
      assert Blocks(ls1.disk, blk.filename) == Blocks(ls.disk, blk.filename);
    }
  }

  /** The log manager treats a buffer's writes as growth of a disk it does not own. */
  lemma FlushBufferKeepsLog(ls: LogState, logFile: string, cfg: FileConfig, b: BufferState)
    requires WellFormed(ls, logFile, cfg) && Stamped(b) && |b.data| == cfg.blocksize
    ensures WellFormed(FlushBuffer(ls, cfg, b).0, logFile, cfg)
  {
    var r := FlushBuffer(ls, cfg, b);
    if b.txnum.Some? && b.lsn.Some? && b.lsn.value > ls.saved {
      var (ls1, forced) := FlushLogWithLsn(ls, cfg, b.lsn.value);
      if forced.Ok? {
        WellFormedOnGrownDisk(ls, logFile, cfg, ls1.disk);
        WellFormedOnGrownDisk(ls1, logFile, cfg, r.0.disk);
      }
    } else {
      WellFormedOnGrownDisk(ls, logFile, cfg, r.0.disk);
    }
  }

  /**
   * Assigning a buffer to `blk`: the old contents are flushed, then the
   * block is read into the page and the buffer starts unpinned. A failed
   * read leaves the (flushed) buffer on its old block.
   */
  function AssignResult(ls: LogState, cfg: FileConfig, b: BufferState, blk: BlockId): (r: (LogState, BufferState, Result<()>))
    requires Stamped(b)
    ensures Stamped(r.1)
    ensures r.2.Ok? ==>
      r.1.block == Some(blk) && r.1.pins == 0 && r.1.txnum.None? &&
      HasBlock(r.0.disk, blk) && r.1.data == Blocks(r.0.disk, blk.filename)[blk.number]
    ensures r.2.Err? ==> r.1 == b.(txnum := r.1.txnum)
    ensures r.2 == Err(CorruptionError) ==> r.1.txnum.None? && !HasBlock(r.0.disk, blk)
    ensures r.1.lsn == b.lsn && r.0 == FlushBuffer(ls, cfg, b).0
  {
    var (ls1, b1, flushed) := FlushBuffer(ls, cfg, b);
    if flushed.Err? then (ls1, b1, flushed)
    else if !HasBlock(ls1.disk, blk) then (ls1, b1, Err(CorruptionError))
    else (ls1, b1.(block := Some(blk), pins := 0, data := Blocks(ls1.disk, blk.filename)[blk.number]), Ok(()))
  }

  class Buffer {
    const contents: Page
    var block: Option<BlockId>
    var pins: nat
    var lsn: Option<nat>
    var txnum: Option<nat>

    /** The objects a buffer is made of. */
    ghost function Repr(): set<object>
    {
      {this, contents, contents.bb, contents.bb.bytes}
    }

    ghost function State(): BufferState
      reads this, contents.bb.bytes
    {
      BufferState(block, pins, lsn, txnum, contents.Bytes())
    }

    /** `Buffer::new`: a zero page of one block, on no block, unpinned and unstamped. */
    constructor (fm: FileManager)
      ensures State() == BufferState(None, 0, None, None, Zeros(fm.blocksize))
      ensures contents.Size() == fm.blocksize
      ensures fresh(contents) && fresh(contents.bb) && fresh(contents.bb.bytes)
    {
      contents := new Page(fm.blocksize);
      block := None;
      pins := 0;
      lsn := None;
      txnum := None;
    }

    predicate IsPinned()
      reads this
    {
      pins > 0
    }

    method Pin()
      modifies this
      ensures State() == old(State()).(pins := old(pins) + 1)
    {
      pins := pins + 1;
    }

    method Unpin()
      requires pins > 0
      modifies this
      ensures State() == old(State()).(pins := old(pins) - 1)
    {
      pins := pins - 1;
    }

    /** Stamps the buffer as modified by `tx`; a modification without a log record keeps the old LSN. */
    method SetModified(tx: nat, newLsn: Option<nat>)
      requires block.Some?
      modifies this
      ensures State() == old(State()).(txnum := Some(tx), lsn := if newLsn.Some? then newLsn else old(lsn))
      ensures Stamped(State())
    {
      txnum := Some(tx);
      if newLsn.Some? {
        lsn := newLsn;
      }
    }

    method Flush(fm: FileManager, lm: LogManager) returns (r: Result<()>)
      requires fm.Valid() && lm.Valid(fm) && contents.Size() == fm.blocksize && Stamped(State())
      modifies this, fm, lm
      ensures fm.Valid() && lm.Valid(fm)
      ensures (lm.State(fm), State(), r) == FlushBuffer(old(lm.State(fm)), fm.Config(), old(State()))
    {
      ghost var ls0 := lm.State(fm);
      FlushBufferKeepsLog(ls0, lm.logFile, fm.Config(), State());
      if txnum.None? {
        return Ok(());
      }
      if lsn.Some? {
        r := lm.FlushWithLsn(fm, lsn.value);
        if r.Err? {
          return;
        }
      }
      ghost var ls1 := lm.State(fm);
      r := fm.Write(block.value, contents);
      assert lm.State(fm) == ls1.(disk := fm.disk);
      if r.Err? {
        return;
      }
      txnum := None;
    }

    method AssignToBlock(fm: FileManager, lm: LogManager, blk: BlockId) returns (r: Result<()>)
      requires fm.Valid() && lm.Valid(fm) && contents.Size() == fm.blocksize && Stamped(State())
      requires lm.Repr() !! Repr()
      modifies this, fm, lm, contents.bb, contents.bb.bytes
      ensures fm.Valid() && lm.Valid(fm)
      ensures (lm.State(fm), State(), r) == AssignResult(old(lm.State(fm)), fm.Config(), old(State()), blk)
    {
      r := Flush(fm, lm);
      if r.Err? {
        return;
      }
      ghost var flushed := lm.State(fm);
      r := fm.Read(blk, contents);
      assert lm.State(fm) == flushed;
      if r.Err? {
        return;
      }
      assert r.value == ();
      block := Some(blk);
      pins := 0;
    }
  }
}
