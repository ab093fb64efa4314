/**
 * The block-addressable file store, modelled as a map from file name to the
 * file's sequence of blocks. The file system's failures are represented by two
 * fixed sets: blocks whose writes fail and files that cannot be extended.
 */
module Files {
  import opened Errors
  import opened ByteBuffers
  import opened Pages

  /** A block of a file: (file name, block number). */
  datatype BlockId = BlockId(filename: string, number: nat)

  type Disk = map<string, seq<seq<byte>>>

  /** The fixed parameters of a file manager. */
  datatype FileConfig = FileConfig(blocksize: nat, faulty: set<BlockId>, full: set<string>)

  /** The blocks of `filename`; an absent file has none. */
  function Blocks(disk: Disk, filename: string): seq<seq<byte>>
  {
    if filename in disk then disk[filename] else []
  }

  predicate HasBlock(disk: Disk, blk: BlockId)
  {
    blk.number < |Blocks(disk, blk.filename)|
  }

  /** Every block of every file is exactly one block size long. */
  ghost predicate DiskSized(disk: Disk, blocksize: nat)
  {
    forall f, i :: f in disk && 0 <= i < |disk[f]| ==> |disk[f][i]| == blocksize
  }

  /** No file disappears or shrinks. */
  ghost predicate Grows(before: Disk, after: Disk)
  {
    forall f :: f in before ==> f in after && |before[f]| <= |after[f]|
  }

  /**
   * `blocks` with block `n` set to `data`; a write past the end first fills
   * the gap with zero blocks.
   */
  function PutBlock(blocks: seq<seq<byte>>, n: nat, data: seq<byte>, blocksize: nat): (r: seq<seq<byte>>)
    ensures |r| == if n < |blocks| then |blocks| else n + 1
    ensures r[n] == data
    ensures forall i :: 0 <= i < |blocks| && i != n ==> r[i] == blocks[i]
    ensures forall i :: |blocks| <= i < |r| && i != n ==> r[i] == Zeros(blocksize)
  {
    if n < |blocks| then blocks[n := data]
    else blocks + seq(n - |blocks|, _ => Zeros(blocksize)) + [data]
  }

  /** The disk after writing `data` to `blk`, and whether the write succeeded. */
  function WriteResult(disk: Disk, cfg: FileConfig, blk: BlockId, data: seq<byte>): (r: (Disk, Result<()>))
    ensures r.1.Err? <==> blk in cfg.faulty
    ensures r.1.Err? ==> r.1.error == IoError && r.0 == disk
    ensures |Blocks(disk, blk.filename)| <= |Blocks(r.0, blk.filename)|
    ensures r.1.Ok? ==> HasBlock(r.0, blk) && Blocks(r.0, blk.filename)[blk.number] == data
    ensures r.1.Ok? ==> forall i :: 0 <= i < |Blocks(disk, blk.filename)| && i != blk.number ==>
      Blocks(r.0, blk.filename)[i] == Blocks(disk, blk.filename)[i]
    ensures r.1.Ok? ==> forall f :: f != blk.filename ==> (f in r.0 <==> f in disk) && Blocks(r.0, f) == Blocks(disk, f)
    ensures Grows(disk, r.0)
    ensures DiskSized(disk, cfg.blocksize) && |data| == cfg.blocksize ==> DiskSized(r.0, cfg.blocksize)
  {
    if blk in cfg.faulty then (disk, Err(IoError))
    else (disk[blk.filename := PutBlock(Blocks(disk, blk.filename), blk.number, data, cfg.blocksize)], Ok(()))
  }

  /** The disk after extending `filename` by one zero block, and the new block. */
  function AppendResult(disk: Disk, cfg: FileConfig, filename: string): (r: (Disk, Result<BlockId>))
    ensures r.1.Err? <==> filename in cfg.full
    ensures r.1.Err? ==> r.1.error == IoError && r.0 == disk
    ensures r.1.Ok? ==> r.1.value == BlockId(filename, |Blocks(disk, filename)|)
    ensures r.1.Ok? ==> Blocks(r.0, filename) == Blocks(disk, filename) + [Zeros(cfg.blocksize)]
    ensures r.1.Ok? ==> forall f :: f != filename ==> (f in r.0 <==> f in disk) && Blocks(r.0, f) == Blocks(disk, f)
    ensures Grows(disk, r.0)
    ensures DiskSized(disk, cfg.blocksize) ==> DiskSized(r.0, cfg.blocksize)
  {
    if filename in cfg.full then (disk, Err(IoError))
    else
      var blocks := Blocks(disk, filename);
      (disk[filename := blocks + [Zeros(cfg.blocksize)]], Ok(BlockId(filename, |blocks|)))
  }

  /** Reading a block after writing it returns what was written. */
  lemma ReadAfterWrite(disk: Disk, cfg: FileConfig, blk: BlockId, data: seq<byte>, other: BlockId)
    requires blk !in cfg.faulty
    requires HasBlock(disk, other) && other != blk
    ensures var d := WriteResult(disk, cfg, blk, data).0;
      Blocks(d, blk.filename)[blk.number] == data &&
      HasBlock(d, other) && Blocks(d, other.filename)[other.number] == Blocks(disk, other.filename)[other.number]
  {
  }

  class FileManager {
    const blocksize: nat
    const faulty: set<BlockId>
    const full: set<string>
    var disk: Disk

    function Config(): FileConfig
    {
      FileConfig(blocksize, faulty, full)
    }

    ghost predicate Valid()
      reads this
    {
      0 < blocksize < U64_BOUND && DiskSized(disk, blocksize)
    }

    constructor (blocksize: nat, disk: Disk, faulty: set<BlockId>, full: set<string>)
      requires 0 < blocksize < U64_BOUND && DiskSized(disk, blocksize)
      ensures Valid() && Config() == FileConfig(blocksize, faulty, full) && this.disk == disk
    {
      this.blocksize := blocksize;
      this.faulty := faulty;
      this.full := full;
      this.disk := disk;
    }

    /** The number of blocks of `filename`, or None when there is no such file. */
    function Length(filename: string): (r: Option<nat>)
      reads this
      ensures r.Some? <==> filename in disk
      ensures r.Some? ==> r.value == |Blocks(disk, filename)|
    {
      if filename in disk then Some(|disk[filename]|) else None
    }

    /** Copies block `blk` into `page`; a missing block is a corruption error. */
    method Read(blk: BlockId, page: Page) returns (r: Result<()>)
      requires Valid() && page.Size() == blocksize
      modifies page.bb, page.bb.bytes
      ensures r.Ok? <==> HasBlock(disk, blk)
      ensures r.Ok? ==> page.Bytes() == Blocks(disk, blk.filename)[blk.number] && page.bb.position == 0
      ensures r.Err? ==> r.error == CorruptionError && page.Bytes() == old(page.Bytes())
    {
      if !HasBlock(disk, blk) {
        return Err(CorruptionError);
      }
      var data := disk[blk.filename][blk.number];
      var a := page.bb.Contents();
      forall i | 0 <= i < a.Length {
        a[i] := data[i];
      }
      assert a[..] == data;
      r := Ok(());
    }

    method Write(blk: BlockId, page: Page) returns (r: Result<()>)
      requires Valid() && page.Size() == blocksize
      modifies this
      ensures Valid()
      ensures (disk, r) == WriteResult(old(disk), Config(), blk, page.Bytes())
    {
      if blk in faulty {
        return Err(IoError);
      }
      var data := page.bb.Bytes();
      disk := disk[blk.filename := PutBlock(Blocks(disk, blk.filename), blk.number, data, blocksize)];
      r := Ok(());
    }

    method Append(filename: string) returns (r: Result<BlockId>)
      requires Valid()
      modifies this
      ensures Valid()
      ensures (disk, r) == AppendResult(old(disk), Config(), filename)
    {
      if filename in full {
        return Err(IoError);
      }
      var blocks := Blocks(disk, filename);
      disk := disk[filename := blocks + [Zeros(blocksize)]];
      r := Ok(BlockId(filename, |blocks|));
    }
  }
}
