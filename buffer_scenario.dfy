/**
 * The buffer manager's own scenario: a pool of three buffers over a file
 * `testfile` of at least four blocks. Blocks 0, 1 and 2 are pinned; buffer
 * 1 is unpinned; block 0 is pinned again in place and block 1 is found
 * again in its old buffer; block 3 then finds every buffer pinned and
 * fails; after buffer 2 is unpinned, block 3 gets buffer 2. `FillPool`
 * covers the first three pins and `Repin` the rest, starting from the
 * pool `FillPool` ends with.
 */
module BufferScenario {
  import opened Errors
  import opened ByteBuffers
  import opened Pages
  import opened Files
  import opened LogManagers
  import opened Buffers
  import opened BufferManagers

  /** A buffer that no transaction has stamped is flushed without effect. */
  lemma FlushClean(ls: LogState, cfg: FileConfig, b: BufferState)
    requires b.txnum.None?
    ensures FlushBuffer(ls, cfg, b) == (ls, b, Ok(()))
  {
  }

  /**
   * A block no buffer holds goes to the first unpinned buffer; when that
   * buffer is unstamped nothing is written, and the block is read into it.
   */
  lemma PinFresh(ls: LogState, cfg: FileConfig, bufs: seq<BufferState>, blk: BlockId, i: nat)
    requires AllStamped(bufs) && i < |bufs| && HasBlock(ls.disk, blk)
    requires forall j :: 0 <= j < |bufs| ==> bufs[j].block != Some(blk)
    requires bufs[i].pins == 0 && bufs[i].txnum.None? && forall j :: 0 <= j < i ==> bufs[j].pins > 0
    ensures PinResult(ls, cfg, bufs, blk) ==
      (ls, bufs[i := bufs[i].(block := Some(blk), pins := 1, data := Blocks(ls.disk, blk.filename)[blk.number])], Ok(i))
  {
    assert FindBlock(bufs, blk).None?;
    assert FirstUnpinned(bufs) == Some(i);
    FlushClean(ls, cfg, bufs[i]);
  }

  function Block(n: nat): BlockId
  {
    BlockId("testfile", n)
  }

  /** `bufs` with one pin less on buffer `i`, as `unpin` leaves it. */
  function Unpinned(bufs: seq<BufferState>, i: nat): (r: seq<BufferState>)
    requires i < |bufs| && bufs[i].pins > 0
    ensures |r| == |bufs| && r[i].pins == bufs[i].pins - 1
    ensures forall j :: 0 <= j < |bufs| && j != i ==> r[j] == bufs[j]
    ensures r[i] == bufs[i].(pins := r[i].pins)
  {
    bufs[i := bufs[i].(pins := bufs[i].pins - 1)]
  }

  /** The first three pins fill the pool in order: block k goes to buffer k. */
  lemma FillPool(ls: LogState, cfg: FileConfig, bufs: seq<BufferState>)
    requires |bufs| == 3 && forall i :: 0 <= i < 3 ==> bufs[i].block.None? && bufs[i].pins == 0 && bufs[i].txnum.None?
    requires forall n :: 0 <= n < 4 ==> HasBlock(ls.disk, Block(n))
    ensures AllStamped(bufs)
    ensures var p1 := PinResult(ls, cfg, bufs, Block(0));
      var p2 := PinResult(p1.0, cfg, p1.1, Block(1));
      var p3 := PinResult(p2.0, cfg, p2.1, Block(2));
      p1.2 == Ok(0) && p2.2 == Ok(1) && p3.2 == Ok(2) && p3.0 == ls &&
      |p3.1| == 3 && forall i :: 0 <= i < 3 ==>
        p3.1[i].block == Some(Block(i)) && p3.1[i].pins == 1 && p3.1[i].txnum.None?
  {
    PinFresh(ls, cfg, bufs, Block(0), 0);
    var p1 := PinResult(ls, cfg, bufs, Block(0));
    PinFresh(ls, cfg, p1.1, Block(1), 1);
    var p2 := PinResult(ls, cfg, p1.1, Block(1));
    PinFresh(ls, cfg, p2.1, Block(2), 2);
  }

  /**
   * The rest of the scenario, from a pool holding blocks 0, 1 and 2 once
   * each: unpin buffer 1; block 0 is pinned in buffer 0 and block 1 in
   * buffer 1 again; block 3 fails for want of a free buffer and changes
   * nothing; unpin buffer 2; block 3 then goes to buffer 2.
   */
  lemma Repin(ls: LogState, cfg: FileConfig, bufs: seq<BufferState>)
    requires |bufs| == 3 && forall i :: 0 <= i < 3 ==>
      bufs[i].block == Some(Block(i)) && bufs[i].pins == 1 && bufs[i].txnum.None?
    requires HasBlock(ls.disk, Block(3))
    ensures AllStamped(bufs) && DistinctBlocks(bufs)
    ensures var u1 := Unpinned(bufs, 1);
      var p4 := PinResult(ls, cfg, u1, Block(0));
      var p5 := PinResult(p4.0, cfg, p4.1, Block(1));
      var p6 := PinResult(p5.0, cfg, p5.1, Block(3));
      p4.2 == Ok(0) && p5.2 == Ok(1) && p6.2 == Err(ExhaustedError) && p6.1 == p5.1 &&
      p6.1[0].pins == 2 && p6.1[1].pins == 1 && p6.1[2].pins == 1 &&
      var u2 := Unpinned(p6.1, 2);
      var p7 := PinResult(p6.0, cfg, u2, Block(3));
      p7.2 == Ok(2) && p7.1[2].block == Some(Block(3)) &&
      forall i :: 0 <= i < 3 ==> p7.1[i].pins > 0
  {
    var u1 := Unpinned(bufs, 1);
    PinResident(ls, cfg, u1, Block(0), 0);
    var p4 := PinResult(ls, cfg, u1, Block(0));
    PinResident(ls, cfg, p4.1, Block(1), 1);
    var p5 := PinResult(ls, cfg, p4.1, Block(1));
    PinExhausted(ls, cfg, p5.1, Block(3));
    var u2 := Unpinned(p5.1, 2);
    PinFresh(ls, cfg, u2, Block(3), 2);
  }
}
