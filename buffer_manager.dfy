/**
 * The buffer manager: a pool of buffers fixed at construction and a count
 * of the unpinned ones. Buffers are addressed by their index in the pool.
 *
 * `new`, `unpin` and `flush_all` exist in the repository; `pin` does not and
 * is modelled after the SimpleDB design the pool's test exercises: a block
 * already in a buffer is pinned again in place, otherwise the first unpinned
 * buffer is flushed and given the block, and with neither the pin fails.
 */
module BufferManagers {
  import opened Errors
  import opened ByteBuffers
  import opened Pages
  import opened Files
  import opened LogManagers
  import opened Buffers

  /** The number of unpinned buffers. */
  function FreeCount(bufs: seq<BufferState>): (r: nat)
    ensures r <= |bufs|
  {
    if bufs == [] then 0 else (if bufs[0].pins == 0 then 1 else 0) + FreeCount(bufs[1..])
  }

  /** Replacing one buffer changes the count by that buffer's contribution only. */
  lemma {:induction false} FreeCountUpdate(bufs: seq<BufferState>, i: nat, b: BufferState)
    requires i < |bufs|
    ensures FreeCount(bufs[i := b]) + (if bufs[i].pins == 0 then 1 else 0) ==
            FreeCount(bufs) + (if b.pins == 0 then 1 else 0)
  {
    if i > 0 {
      FreeCountUpdate(bufs[1..], i - 1, b);
      assert bufs[i := b][1..] == bufs[1..][i - 1 := b];
    }
  }

  /** The count looks at pin counts only. */
  lemma {:induction false} FreeCountPins(a: seq<BufferState>, b: seq<BufferState>)
    requires |a| == |b| && forall i :: 0 <= i < |a| ==> a[i].pins == b[i].pins
    ensures FreeCount(a) == FreeCount(b)
  {
    if a != [] {
      FreeCountPins(a[1..], b[1..]);
    }
  }

  /** No buffer is free exactly when every buffer is pinned. */
  lemma {:induction false} FreeCountZero(bufs: seq<BufferState>)
    ensures FreeCount(bufs) == 0 <==> forall i :: 0 <= i < |bufs| ==> bufs[i].pins > 0
  {
    if bufs != [] {
      FreeCountZero(bufs[1..]);
      assert forall i :: 1 <= i < |bufs| ==> bufs[i] == bufs[1..][i - 1];
    }
  }

  /** A pool in which nothing is pinned is entirely free. */
  lemma {:induction false} FreeCountAll(bufs: seq<BufferState>)
    requires forall i :: 0 <= i < |bufs| ==> bufs[i].pins == 0
    ensures FreeCount(bufs) == |bufs|
  {
    if bufs != [] {
      FreeCountAll(bufs[1..]);
    }
  }

  predicate AllStamped(bufs: seq<BufferState>)
  {
    forall i :: 0 <= i < |bufs| ==> Stamped(bufs[i])
  }

  /** No block is held by two buffers. */
  predicate DistinctBlocks(bufs: seq<BufferState>)
  {
    forall i, j :: 0 <= i < j < |bufs| && bufs[i].block.Some? ==> bufs[i].block != bufs[j].block
  }

  /** The first buffer holding `blk`. */
  function FindBlock(bufs: seq<BufferState>, blk: BlockId): (r: Option<nat>)
    ensures r.Some? ==> r.value < |bufs| && bufs[r.value].block == Some(blk)
    ensures forall j :: 0 <= j < |bufs| && (r.None? || j < r.value) ==> bufs[j].block != Some(blk)
  {
    if bufs == [] then None
    else if bufs[0].block == Some(blk) then Some(0)
    else match FindBlock(bufs[1..], blk)
      case None => None
      case Some(k) => Some(k + 1)
  }

  /** The first unpinned buffer. */
  function FirstUnpinned(bufs: seq<BufferState>): (r: Option<nat>)
    ensures r.Some? ==> r.value < |bufs| && bufs[r.value].pins == 0
    ensures forall j :: 0 <= j < |bufs| && (r.None? || j < r.value) ==> bufs[j].pins > 0
  {
    if bufs == [] then None
    else if bufs[0].pins == 0 then Some(0)
    else match FirstUnpinned(bufs[1..])
      case None => None
      case Some(k) => Some(k + 1)
  }

  /** Pinning `blk`: the buffer index on success, and the new log, disk and pool. */
  function PinResult(ls: LogState, cfg: FileConfig, bufs: seq<BufferState>, blk: BlockId): (r: (LogState, seq<BufferState>, Result<nat>))
    requires AllStamped(bufs)
    ensures |r.1| == |bufs| && AllStamped(r.1)
    ensures r.2.Ok? ==> r.2.value < |bufs| && r.1[r.2.value].block == Some(blk) && r.1[r.2.value].pins > 0
    ensures r.2.Ok? ==> forall j :: 0 <= j < |bufs| && j != r.2.value ==> r.1[j] == bufs[j]
  {
    var found := FindBlock(bufs, blk);
    if found.Some? then
      var i := found.value;
      (ls, bufs[i := bufs[i].(pins := bufs[i].pins + 1)], Ok(i))
    else
      var free := FirstUnpinned(bufs);
      if free.None? then (ls, bufs, Err(ExhaustedError))
      else
        var i := free.value;
        var (ls1, b1, loaded) := AssignResult(ls, cfg, bufs[i], blk);
        if loaded.Err? then (ls1, bufs[i := b1], Err(loaded.error))
        else (ls1, bufs[i := b1.(pins := b1.pins + 1)], Ok(i))
  }

  /** `PinResult` when the block is absent and buffer `index` is the first free one, assigned with outcome `(ls1, b1, loaded)`. */
  lemma PinLoadedResult(ls: LogState, cfg: FileConfig, bufs: seq<BufferState>, blk: BlockId, index: nat,
                        ls1: LogState, b1: BufferState, loaded: Result<()>)
    requires AllStamped(bufs) && FindBlock(bufs, blk).None? && FirstUnpinned(bufs) == Some(index)
    requires (ls1, b1, loaded) == AssignResult(ls, cfg, bufs[index], blk)
    ensures loaded.Err? ==> PinResult(ls, cfg, bufs, blk) == (ls1, bufs[index := b1], Err(loaded.error))
    ensures loaded.Ok? ==> PinResult(ls, cfg, bufs, blk) == (ls1, bufs[index := b1.(pins := b1.pins + 1)], Ok(index))
  {
  }

  /** A block already in the pool is pinned in place: no I/O and no free buffer needed. */
  lemma PinResident(ls: LogState, cfg: FileConfig, bufs: seq<BufferState>, blk: BlockId, i: nat)
    requires AllStamped(bufs) && DistinctBlocks(bufs)
    requires i < |bufs| && bufs[i].block == Some(blk)
    ensures PinResult(ls, cfg, bufs, blk) == (ls, bufs[i := bufs[i].(pins := bufs[i].pins + 1)], Ok(i))
  {
    assert FindBlock(bufs, blk) == Some(i);
  }

  /** Pinning fails for lack of buffers exactly when the block is absent and all buffers are pinned. */
  lemma PinExhausted(ls: LogState, cfg: FileConfig, bufs: seq<BufferState>, blk: BlockId)
    requires AllStamped(bufs)
    ensures var r := PinResult(ls, cfg, bufs, blk);
      r.2 == Err(ExhaustedError) <==>
        (forall i :: 0 <= i < |bufs| ==> bufs[i].block != Some(blk)) &&
        (forall i :: 0 <= i < |bufs| ==> bufs[i].pins > 0)
    ensures var r := PinResult(ls, cfg, bufs, blk);
      r.2 == Err(ExhaustedError) ==> r.0 == ls && r.1 == bufs
  {
    var found := FindBlock(bufs, blk);
    if found.None? {
      var free := FirstUnpinned(bufs);
      if free.Some? {
        var loaded := AssignResult(ls, cfg, bufs[free.value], blk);
        assert loaded.2.Err? ==> loaded.2.error == IoError || loaded.2.error == CorruptionError;
      }
    }
  }

  /**
   * A buffer newly given to `blk` was unpinned and now holds the block as
   * read from the disk after its old contents were flushed.
   */
  lemma PinMiss(ls: LogState, cfg: FileConfig, bufs: seq<BufferState>, blk: BlockId)
    requires AllStamped(bufs)
    requires forall i :: 0 <= i < |bufs| ==> bufs[i].block != Some(blk)
    ensures var r := PinResult(ls, cfg, bufs, blk);
      r.2.Ok? ==>
        bufs[r.2.value].pins == 0 && r.1[r.2.value].pins == 1 && r.1[r.2.value].txnum.None? &&
        HasBlock(r.0.disk, blk) && r.1[r.2.value].data == Blocks(r.0.disk, blk.filename)[blk.number] &&
        forall j :: 0 <= j < r.2.value ==> bufs[j].pins > 0
  {
  }

  /** Pinning keeps every block in at most one buffer and uses up one free buffer exactly when it pins a free one. */
  lemma PinKeepsPool(ls: LogState, cfg: FileConfig, bufs: seq<BufferState>, blk: BlockId)
    requires AllStamped(bufs) && DistinctBlocks(bufs)
    ensures var r := PinResult(ls, cfg, bufs, blk);
      DistinctBlocks(r.1) &&
      FreeCount(r.1) + (if r.2.Ok? && bufs[r.2.value].pins == 0 then 1 else 0) == FreeCount(bufs)
  {
    var r := PinResult(ls, cfg, bufs, blk);
    var found := FindBlock(bufs, blk);
    if found.Some? {
      var i := found.value;
      FreeCountUpdate(bufs, i, r.1[i]);
    } else {
      var free := FirstUnpinned(bufs);
      if free.Some? {
        var i := free.value;
        FreeCountUpdate(bufs, i, r.1[i]);
        assert bufs[i := r.1[i]] == r.1;
        forall j, k | 0 <= j < k < |r.1| && r.1[j].block.Some?
          ensures r.1[j].block != r.1[k].block
        {
          if j != i && k != i {
            assert r.1[j] == bufs[j] && r.1[k] == bufs[k];
          }
        }
      }
    }
  }

  /** One buffer of the `flush_all(txnum)` walk: flushed if `txnum` stamped it, skipped otherwise. */
  function VisitBuffer(ls: LogState, cfg: FileConfig, b: BufferState, txnum: nat): (r: (LogState, BufferState, Result<()>))
    requires Stamped(b)
  {
    if b.txnum == Some(txnum) then FlushBuffer(ls, cfg, b) else (ls, b, Ok(()))
  }

  /**
   * `flush_all(txnum)`: walks the pool in order, flushing each buffer
   * stamped by `txnum` and skipping the others; the first failing flush
   * ends the walk with its error.
   */
  function FlushMatching(ls: LogState, cfg: FileConfig, bufs: seq<BufferState>, txnum: nat): (r: (LogState, seq<BufferState>, Result<()>))
    requires AllStamped(bufs)
    decreases |bufs|
    ensures |r.1| == |bufs|
  {
    if bufs == [] then (ls, [], Ok(()))
    else
      var (ls1, b1, visited) := VisitBuffer(ls, cfg, bufs[0], txnum);
      if visited.Err? then (ls1, [b1] + bufs[1..], visited)
      else
        var (ls', rest, res) := FlushMatching(ls1, cfg, bufs[1..], txnum);
        (ls', [b1] + rest, res)
  }

  /**
   * `flush_all` changes nothing but stamps, and only those of buffers
   * stamped by `txnum`; when it succeeds none of them is left.
   */
  lemma {:induction false} FlushMatchingFrame(ls: LogState, cfg: FileConfig, bufs: seq<BufferState>, txnum: nat)
    requires AllStamped(bufs)
    decreases |bufs|
    ensures var r := FlushMatching(ls, cfg, bufs, txnum);
      AllStamped(r.1) &&
      (forall i :: 0 <= i < |bufs| ==> r.1[i] == bufs[i].(txnum := r.1[i].txnum)) &&
      (forall i :: 0 <= i < |bufs| && bufs[i].txnum != Some(txnum) ==> r.1[i] == bufs[i]) &&
      (r.2.Ok? ==> forall i :: 0 <= i < |bufs| ==> r.1[i].txnum != Some(txnum))
  {
    if bufs != [] {
      var r := FlushMatching(ls, cfg, bufs, txnum);
      var (ls1, head, visited) := VisitBuffer(ls, cfg, bufs[0], txnum);
      if visited.Err? {
        assert r.1 == [head] + bufs[1..];
        return;
      }
      FlushMatchingFrame(ls1, cfg, bufs[1..], txnum);
      var rest := FlushMatching(ls1, cfg, bufs[1..], txnum);
      assert r == (rest.0, [head] + rest.1, rest.2);
      forall i | 1 <= i < |bufs|
        ensures r.1[i] == rest.1[i - 1] && bufs[i] == bufs[1..][i - 1]
      {
      }
    }
  }

  /**
   * `flush_all` leaves the log's page, block and latest LSN alone, moves
   * its saved LSN only forward, and fails only with an I/O error.
   */
  lemma {:induction false} FlushMatchingLog(ls: LogState, cfg: FileConfig, bufs: seq<BufferState>, txnum: nat)
    requires AllStamped(bufs)
    decreases |bufs|
    ensures var r := FlushMatching(ls, cfg, bufs, txnum);
      (r.2.Err? ==> r.2.error == IoError) &&
      r.0.page == ls.page && r.0.current == ls.current && r.0.latest == ls.latest &&
      (ls.saved <= ls.latest ==> ls.saved <= r.0.saved <= ls.latest)
  {
    if bufs != [] {
      var (ls1, head, visited) := VisitBuffer(ls, cfg, bufs[0], txnum);
      if visited.Ok? {
        FlushMatchingLog(ls1, cfg, bufs[1..], txnum);
      }
    }
  }

  /**
   * A failed `flush_all` stopped at buffer `k`: it was stamped by `txnum`
   * and is unchanged, every stamped buffer before it was flushed, and no
   * buffer after it was touched.
   */
  lemma {:induction false} FlushMatchingStop(ls: LogState, cfg: FileConfig, bufs: seq<BufferState>, txnum: nat) returns (k: nat)
    requires AllStamped(bufs) && FlushMatching(ls, cfg, bufs, txnum).2.Err?
    decreases |bufs|
    ensures var r := FlushMatching(ls, cfg, bufs, txnum);
      k < |bufs| && bufs[k].txnum == Some(txnum) && r.1[k] == bufs[k] &&
      (forall j :: 0 <= j < k && bufs[j].txnum == Some(txnum) ==> r.1[j].txnum.None?) &&
      (forall j :: k < j < |bufs| ==> r.1[j] == bufs[j])
  {
    var r := FlushMatching(ls, cfg, bufs, txnum);
    var (ls1, head, visited) := VisitBuffer(ls, cfg, bufs[0], txnum);
    if visited.Err? {
      assert r.1 == [head] + bufs[1..];
      return 0;
    }
    var rest := FlushMatching(ls1, cfg, bufs[1..], txnum);
    assert r == (rest.0, [head] + rest.1, rest.2);
    var k' := FlushMatchingStop(ls1, cfg, bufs[1..], txnum);
    k := k' + 1;
    forall j | 1 <= j < |bufs|
      ensures r.1[j] == rest.1[j - 1] && bufs[j] == bufs[1..][j - 1]
    {
    }
  }

  /**
   * `flush_all` writes only the blocks of the buffers it flushes and the
   * log's current block: any other block outside the log file keeps its
   * contents.
   */
  lemma {:induction false} FlushMatchingKeeps(ls: LogState, cfg: FileConfig, bufs: seq<BufferState>, txnum: nat, blk: BlockId)
    requires AllStamped(bufs) && HasBlock(ls.disk, blk) && blk.filename != ls.current.filename
    requires forall i :: 0 <= i < |bufs| ==> bufs[i].block != Some(blk)
    decreases |bufs|
    ensures var d := FlushMatching(ls, cfg, bufs, txnum).0.disk;
      HasBlock(d, blk) && Blocks(d, blk.filename)[blk.number] == Blocks(ls.disk, blk.filename)[blk.number]
  {
    if bufs != [] {
      var (ls1, b1, visited) := VisitBuffer(ls, cfg, bufs[0], txnum);
      if bufs[0].txnum == Some(txnum) {
        FlushBufferKeeps(ls, cfg, bufs[0], blk);
      }
      if visited.Ok? {
        assert forall i :: 0 <= i < |bufs| - 1 ==> bufs[1..][i] == bufs[i + 1];
        FlushMatchingKeeps(ls1, cfg, bufs[1..], txnum, blk);
      }
    }
  }

  /**
   * A successful `flush_all(txnum)` leaves the page of every buffer stamped
   * by `txnum` in that buffer's block, and the log saved at least up to the
   * buffer's LSN (or entirely): the write-ahead rule for the whole pool.
   */
  lemma {:induction false} FlushMatchingWrites(ls: LogState, cfg: FileConfig, bufs: seq<BufferState>, txnum: nat)
    requires AllStamped(bufs) && DistinctBlocks(bufs) && ls.saved <= ls.latest
    requires forall i :: 0 <= i < |bufs| && bufs[i].block.Some? ==> bufs[i].block.value.filename != ls.current.filename
    decreases |bufs|
    ensures var r := FlushMatching(ls, cfg, bufs, txnum);
      r.2.Ok? ==> forall i :: 0 <= i < |bufs| && bufs[i].txnum == Some(txnum) ==>
        HasBlock(r.0.disk, bufs[i].block.value) &&
        Blocks(r.0.disk, bufs[i].block.value.filename)[bufs[i].block.value.number] == bufs[i].data &&
        (bufs[i].lsn.Some? ==> bufs[i].lsn.value <= r.0.saved || r.0.saved == r.0.latest)
  {
    if bufs != [] {
      var r := FlushMatching(ls, cfg, bufs, txnum);
      var (ls1, b1, visited) := VisitBuffer(ls, cfg, bufs[0], txnum);
      if visited.Ok? {
        var tail := bufs[1..];
        assert forall i :: 0 <= i < |tail| ==> tail[i] == bufs[i + 1];
        FlushMatchingWrites(ls1, cfg, tail, txnum);
        FlushMatchingLog(ls1, cfg, tail, txnum);
        assert r.0 == FlushMatching(ls1, cfg, tail, txnum).0;
        if bufs[0].txnum == Some(txnum) {
          FlushMatchingKeeps(ls1, cfg, tail, txnum, bufs[0].block.value);
        }
      }
    }
  }

  /** `flush_all` continued from a pool whose first part `done` is already walked. */
  function FlushRest(ls: LogState, cfg: FileConfig, done: seq<BufferState>, rest: seq<BufferState>, txnum: nat): (LogState, seq<BufferState>, Result<()>)
    requires AllStamped(rest)
  {
    var (ls', rest', res) := FlushMatching(ls, cfg, rest, txnum);
    (ls', done + rest', res)
  }

  /** One step of the walk, through a buffer visited with outcome `(ls1, b1, visited)`. */
  lemma FlushRestStep(ls: LogState, cfg: FileConfig, done: seq<BufferState>, rest: seq<BufferState>, txnum: nat,
                      ls1: LogState, b1: BufferState, visited: Result<()>)
    requires AllStamped(rest) && rest != []
    requires (ls1, b1, visited) == VisitBuffer(ls, cfg, rest[0], txnum)
    ensures visited.Err? ==> FlushRest(ls, cfg, done, rest, txnum) == (ls1, done + [b1] + rest[1..], visited)
    ensures visited.Ok? ==> FlushRest(ls, cfg, done, rest, txnum) == FlushRest(ls1, cfg, done + [b1], rest[1..], txnum)
  {
    assert done + ([b1] + rest[1..]) == done + [b1] + rest[1..];
    if visited.Ok? {
      var (l, rest', res) := FlushMatching(ls1, cfg, rest[1..], txnum);
      assert done + ([b1] + rest') == done + [b1] + rest';
    }
  }

  /** A pool with one buffer replaced, cut at that buffer. */
  lemma UpdateSplit(bufs: seq<BufferState>, i: nat, b: BufferState)
    requires i < |bufs|
    ensures bufs[i := b] == bufs[..i] + [b] + bufs[i + 1..]
    ensures bufs[i := b][..i + 1] == bufs[..i] + [b]
  {
  }

  /**
   * One step of `flush_all`'s loop on the whole pool: visiting buffer `i`
   * of `before`, whose tail still is that of `start`, either ends the walk
   * or leaves the rest of it to the buffers after `i`.
   */
  lemma FlushWalkStep(ls: LogState, cfg: FileConfig, start: seq<BufferState>, before: seq<BufferState>, i: nat,
                      txnum: nat, expected: (LogState, seq<BufferState>, Result<()>),
                      ls1: LogState, b1: BufferState, visited: Result<()>)
    requires AllStamped(start) && i < |start| == |before| && before[i..] == start[i..]
    requires expected == FlushRest(ls, cfg, before[..i], start[i..], txnum)
    requires (ls1, b1, visited) == VisitBuffer(ls, cfg, before[i], txnum)
    ensures before[i := b1][i + 1..] == start[i + 1..]
    ensures visited.Err? ==> expected == (ls1, before[i := b1], visited)
    ensures visited.Ok? ==> expected == FlushRest(ls1, cfg, before[i := b1][..i + 1], start[i + 1..], txnum)
  {
    assert start[i..][0] == before[i] && start[i..][1..] == start[i + 1..] == before[i + 1..];
    FlushRestStep(ls, cfg, before[..i], start[i..], txnum, ls1, b1, visited);
    UpdateSplit(before, i, b1);
  }

  /** The walk starts on the whole pool and ends with nothing left to visit. */
  lemma FlushWalkEnds(ls: LogState, cfg: FileConfig, bufs: seq<BufferState>, txnum: nat)
    requires AllStamped(bufs)
    ensures FlushRest(ls, cfg, bufs[..0], bufs[0..], txnum) == FlushMatching(ls, cfg, bufs, txnum)
    ensures FlushRest(ls, cfg, bufs, bufs[|bufs|..], txnum) == (ls, bufs, Ok(()))
  {
    assert bufs[..0] == [] && bufs[0..] == bufs && bufs[|bufs|..] == [];
    var r := FlushMatching(ls, cfg, bufs, txnum);
    assert [] + r.1 == r.1 && bufs + [] == bufs;
  }

  /** Changing one buffer's pin count keeps the pool's invariants. */
  lemma RepinKeepsPool(before: seq<BufferState>, i: nat, b: BufferState)
    requires i < |before| && AllStamped(before) && DistinctBlocks(before)
    requires b == before[i].(pins := b.pins)
    ensures AllStamped(before[i := b]) && DistinctBlocks(before[i := b])
  {
  }

  /** Giving one buffer a block no buffer holds, with an unchanged pin count, keeps the pool's invariants and its free count. */
  lemma ReblockKeepsPool(before: seq<BufferState>, i: nat, b: BufferState)
    requires i < |before| && AllStamped(before) && DistinctBlocks(before) && Stamped(b)
    requires b.pins == before[i].pins
    requires b.block.Some? ==> b.block == before[i].block || forall j :: 0 <= j < |before| ==> before[j].block != b.block
    ensures AllStamped(before[i := b]) && DistinctBlocks(before[i := b])
    ensures FreeCount(before[i := b]) == FreeCount(before)
  {
    FreeCountPins(before, before[i := b]);
  }

  /** Changing one buffer's stamp keeps the pool's invariants and its free count. */
  lemma RestampKeepsPool(before: seq<BufferState>, i: nat, b: BufferState)
    requires i < |before| && AllStamped(before) && DistinctBlocks(before)
    requires b == before[i].(txnum := b.txnum) && Stamped(b)
    ensures AllStamped(before[i := b]) && DistinctBlocks(before[i := b])
    ensures FreeCount(before[i := b]) == FreeCount(before)
  {
    FreeCountPins(before, before[i := b]);
  }

  /** Stamping one buffer with a transaction and an LSN keeps the pool's invariants and its free count. */
  lemma ModifyKeepsPool(before: seq<BufferState>, i: nat, b: BufferState)
    requires i < |before| && AllStamped(before) && DistinctBlocks(before)
    requires b == before[i].(txnum := b.txnum, lsn := b.lsn) && Stamped(b)
    ensures AllStamped(before[i := b]) && DistinctBlocks(before[i := b])
    ensures FreeCount(before[i := b]) == FreeCount(before)
  {
    FreeCountPins(before, before[i := b]);
  }

  /** Two buffers of the pool share none of their objects. */
  predicate Separate(pool: seq<Buffer>)
  {
    forall i, j :: 0 <= i < j < |pool| ==>
      pool[i] != pool[j] && pool[i].contents != pool[j].contents &&
      pool[i].contents.bb != pool[j].contents.bb && pool[i].contents.bb.bytes != pool[j].contents.bb.bytes
  }

  class BufferManager {
    const bufferpool: seq<Buffer>
    var available: nat
    ghost const blocksize: nat
    ghost const Repr: set<object>

    /** The pool as values, one per buffer. */
    ghost function States(): (r: seq<BufferState>)
      reads bufferpool, set i | 0 <= i < |bufferpool| :: bufferpool[i].contents.bb.bytes
      ensures |r| == |bufferpool| && forall i {:trigger r[i]} :: 0 <= i < |bufferpool| ==> r[i] == bufferpool[i].State()
    {
      seq(|bufferpool|, i requires 0 <= i < |bufferpool|
        reads if 0 <= i < |bufferpool| then {bufferpool[i], bufferpool[i].contents.bb.bytes} else {} =>
        bufferpool[i].State())
    }

    /** The buffers are separate objects, owned by the pool, with pages of one block. */
    ghost predicate Static()
    {
      (forall i :: 0 <= i < |bufferpool| ==> bufferpool[i].Repr() <= Repr && bufferpool[i].contents.Size() == blocksize) &&
      Separate(bufferpool)
    }

    /**
     * On top of the static layout: a stamped buffer has a block, no block
     * is in two buffers, and `available` counts the unpinned buffers.
     */
    ghost predicate Pool()
      reads this, Repr
    {
      Static() && AllStamped(States()) && DistinctBlocks(States()) && available == FreeCount(States())
    }

    /** The pool works on pages of the file manager's block size. */
    ghost predicate Valid(fm: FileManager)
      reads this, fm, Repr
    {
      fm.Valid() && fm.blocksize == blocksize && Pool()
    }

    /** The pool and the log manager are both valid on the same disk. */
    ghost predicate ValidWith(fm: FileManager, lm: LogManager)
      reads this, fm, Repr, lm, lm.logPage.bb.bytes
    {
      Valid(fm) && lm.Valid(fm)
    }

    /** `BufferManager::new`: `numbuffs` fresh buffers, all free. */
    constructor (fm: FileManager, numbuffs: nat)
      requires fm.Valid()
      ensures Valid(fm) && |bufferpool| == numbuffs && available == numbuffs
      ensures forall i :: 0 <= i < numbuffs ==> States()[i] == BufferState(None, 0, None, None, Zeros(fm.blocksize))
      ensures fresh(Repr)
    {
      var pool: seq<Buffer> := [];
      ghost var objects: set<object> := {};
      for k := 0 to numbuffs
        invariant |pool| == k && fresh(objects)
        invariant forall i :: 0 <= i < k ==> pool[i].Repr() <= objects
        invariant Separate(pool)
        invariant forall i :: 0 <= i < k ==> pool[i].contents.Size() == fm.blocksize
        invariant forall i :: 0 <= i < k ==> pool[i].State() == BufferState(None, 0, None, None, Zeros(fm.blocksize))
      {
        var b := new Buffer(fm);
        pool := pool + [b];
        objects := objects + b.Repr();
      }
      bufferpool := pool;
      available := numbuffs;
      blocksize := fm.blocksize;
      Repr := objects;
      new;
      FreeCountAll(States());
    }

    /** `unpin`: one pin less; the buffer becomes available when its last pin goes. */
    method Unpin(index: nat)
      requires Pool() && index < |bufferpool| && bufferpool[index].pins > 0
      modifies this, bufferpool[index]
      ensures Pool()
      ensures States() == old(States())[index := old(States()[index]).(pins := old(bufferpool[index].pins) - 1)]
      ensures available == old(available) + (if bufferpool[index].pins == 0 then 1 else 0)
    {
      ghost var before := States();
      var buff := bufferpool[index];
      buff.Unpin();
      assert States() == before[index := buff.State()];
      FreeCountUpdate(before, index, buff.State());
      RepinKeepsPool(before, index, buff.State());
      if buff.pins == 0 {
        available := available + 1;
      }
    }

    /** Marks buffer `index` as modified by `tx`, with the LSN of its log record when there is one. */
    method SetModified(index: nat, tx: nat, newLsn: Option<nat>)
      requires Pool() && index < |bufferpool| && bufferpool[index].block.Some?
      modifies bufferpool[index]
      ensures Pool() && available == old(available)
      ensures States() == old(States())[index := old(States()[index]).(txnum := Some(tx),
        lsn := if newLsn.Some? then newLsn else old(States()[index].lsn))]
    {
      ghost var before := States();
      var buff := bufferpool[index];
      buff.SetModified(tx, newLsn);
      assert States() == before[index := buff.State()];
      ModifyKeepsPool(before, index, buff.State());
    }

    method FindExistingBuffer(blk: BlockId) returns (r: Option<nat>)
      ensures r == FindBlock(States(), blk)
    {
      var i := 0;
      while i < |bufferpool|
        invariant i <= |bufferpool|
        invariant forall j :: 0 <= j < i ==> States()[j].block != Some(blk)
      {
        assert States()[i] == bufferpool[i].State();
        if bufferpool[i].block == Some(blk) {
          return Some(i);
        }
        i := i + 1;
      }
      return None;
    }

    method ChooseUnpinnedBuffer() returns (r: Option<nat>)
      ensures r == FirstUnpinned(States())
    {
      var i := 0;
      while i < |bufferpool|
        invariant i <= |bufferpool|
        invariant forall j :: 0 <= j < i ==> States()[j].pins > 0
      {
        assert States()[i] == bufferpool[i].State();
        if !bufferpool[i].IsPinned() {
          return Some(i);
        }
        i := i + 1;
      }
      return None;
    }

    /** One step of `flush_all(txnum)`: buffer `i` is flushed if `txnum` stamped it. */
    method VisitAt(fm: FileManager, lm: LogManager, txnum: nat, i: nat) returns (r: Result<()>)
      requires ValidWith(fm, lm) && i < |bufferpool|
      modifies fm, lm, bufferpool[i]
      ensures ValidWith(fm, lm)
      ensures var (ls1, b1, visited) := VisitBuffer(old(lm.State(fm)), fm.Config(), old(States()[i]), txnum);
        lm.State(fm) == ls1 && States() == old(States())[i := b1] && r == visited
    {
      ghost var before := States();
      var buff := bufferpool[i];
      assert before[i] == buff.State();
      if buff.txnum == Some(txnum) {
        r := buff.Flush(fm, lm);
        assert States() == before[i := buff.State()];
        RestampKeepsPool(before, i, buff.State());
      } else {
        r := Ok(());
        assert before[i := before[i]] == before;
      }
    }

    /** `flush_all(txnum)`. */
    method FlushAll(fm: FileManager, lm: LogManager, txnum: nat) returns (r: Result<()>)
      requires ValidWith(fm, lm)
      modifies fm, lm, bufferpool
      ensures ValidWith(fm, lm)
      ensures (lm.State(fm), States(), r) == FlushMatching(old(lm.State(fm)), fm.Config(), old(States()), txnum)
    {
      ghost var start := States();
      ghost var expected := FlushMatching(lm.State(fm), fm.Config(), start, txnum);
      FlushWalkEnds(lm.State(fm), fm.Config(), start, txnum);
      var i := 0;
      while i < |bufferpool|
        invariant i <= |bufferpool| && ValidWith(fm, lm)
        invariant |States()| == |start| && States()[i..] == start[i..]
        invariant expected == FlushRest(lm.State(fm), fm.Config(), States()[..i], start[i..], txnum)
      {
        ghost var ls := lm.State(fm);
        ghost var before := States();
        ghost var v := VisitBuffer(ls, fm.Config(), before[i], txnum);
        r := VisitAt(fm, lm, txnum, i);
        FlushWalkStep(ls, fm.Config(), start, before, i, txnum, expected, v.0, v.1, v.2);
        if r.Err? {
          return;
        }
        i := i + 1;
      }
      FlushWalkEnds(lm.State(fm), fm.Config(), States(), txnum);
      return Ok(());
    }

    /** One more pin on a buffer; a buffer pinned for the first time is no longer available. */
    method PinBuffer(index: nat)
      requires Pool() && index < |bufferpool|
      modifies this, bufferpool[index]
      ensures Pool()
      ensures States() == old(States())[index := old(States()[index]).(pins := old(bufferpool[index].pins) + 1)]
      ensures available + (if old(bufferpool[index].pins) == 0 then 1 else 0) == old(available)
    {
      ghost var before := States();
      var buff := bufferpool[index];
      FreeCountUpdate(before, index, buff.State().(pins := buff.pins + 1));
      RepinKeepsPool(before, index, buff.State().(pins := buff.pins + 1));
      if !buff.IsPinned() {
        available := available - 1;
      }
      buff.Pin();
      assert States() == before[index := buff.State()];
    }

    /** Gives the free buffer `index` to `blk`, a block no buffer holds. */
    method LoadBuffer(fm: FileManager, lm: LogManager, blk: BlockId, index: nat) returns (r: Result<()>)
      requires ValidWith(fm, lm) && lm.Repr() !! Repr
      requires index < |bufferpool| && bufferpool[index].pins == 0
      requires forall j :: 0 <= j < |bufferpool| ==> States()[j].block != Some(blk)
      modifies fm, lm, bufferpool[index], bufferpool[index].contents.bb, bufferpool[index].contents.bb.bytes
      ensures ValidWith(fm, lm)
      ensures var (ls, b, res) := AssignResult(old(lm.State(fm)), fm.Config(), old(States()[index]), blk);
        lm.State(fm) == ls && States() == old(States())[index := b] && r == res
    {
      ghost var before := States();
      var buff := bufferpool[index];
      assert buff.Repr() <= Repr && before[index] == buff.State();
      r := buff.AssignToBlock(fm, lm, blk);
      assert States() == before[index := buff.State()];
      ReblockKeepsPool(before, index, buff.State());
    }

    /** Pinning a block no buffer holds into the free buffer `index`: assigned, then pinned if that worked. */
    method PinLoaded(fm: FileManager, lm: LogManager, blk: BlockId, index: nat) returns (r: Result<nat>)
      requires ValidWith(fm, lm) && lm.Repr() !! Repr
      requires index < |bufferpool| && bufferpool[index].pins == 0
      requires forall j :: 0 <= j < |bufferpool| ==> States()[j].block != Some(blk)
      modifies this, fm, lm, Repr
      ensures ValidWith(fm, lm)
      ensures var (ls, b, res) := AssignResult(old(lm.State(fm)), fm.Config(), old(States()[index]), blk);
        lm.State(fm) == ls && r == (if res.Ok? then Ok(index) else Err(res.error)) &&
        States() == old(States())[index := if res.Ok? then b.(pins := b.pins + 1) else b]
    {
      ghost var bufs0 := States();
      var loaded := LoadBuffer(fm, lm, blk, index);
      if loaded.Err? {
        return Err(loaded.error);
      }
      ghost var b1 := States()[index];
      PinBuffer(index);
      assert bufs0[index := b1][index := b1.(pins := b1.pins + 1)] == bufs0[index := b1.(pins := b1.pins + 1)];
      r := Ok(index);
    }

    /** Pinning a block no buffer holds: the first unpinned buffer gets it, or the pin fails. */
    method PinAbsent(fm: FileManager, lm: LogManager, blk: BlockId) returns (r: Result<nat>)
      requires ValidWith(fm, lm) && lm.Repr() !! Repr && FindBlock(States(), blk).None?
      modifies this, fm, lm, Repr
      ensures ValidWith(fm, lm)
      ensures (lm.State(fm), States(), r) == PinResult(old(lm.State(fm)), fm.Config(), old(States()), blk)
    {
      ghost var ls0 := lm.State(fm);
      ghost var bufs0 := States();
      var free := ChooseUnpinnedBuffer();
      if free.None? {
        return Err(ExhaustedError);
      }
      ghost var outcome := AssignResult(ls0, fm.Config(), bufs0[free.value], blk);
      PinLoadedResult(ls0, fm.Config(), bufs0, blk, free.value, outcome.0, outcome.1, outcome.2);
      r := PinLoaded(fm, lm, blk, free.value);
    }

    /** Pinning as the design describes it; see `PinResult`. */
    method Pin(fm: FileManager, lm: LogManager, blk: BlockId) returns (r: Result<nat>)
      requires ValidWith(fm, lm) && lm.Repr() !! Repr
      modifies this, fm, lm, Repr
      ensures ValidWith(fm, lm)
      ensures (lm.State(fm), States(), r) == PinResult(old(lm.State(fm)), fm.Config(), old(States()), blk)
    {
      var found := FindExistingBuffer(blk);
      if found.None? {
        r := PinAbsent(fm, lm, blk);
        return;
      }
      PinResident(lm.State(fm), fm.Config(), States(), blk, found.value);
      PinBuffer(found.value);
      r := Ok(found.value);
    }
  }
}
