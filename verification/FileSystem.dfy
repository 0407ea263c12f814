/**
 The read-only file system image (student-distrib/filesystem.c): a boot block with the directory,
 one block per inode, then the data blocks. Addresses are offsets from the start of the image.
 */
module FileSystem {

  type byte = x: int | 0 <= x < 256

  const BLOCK := 4096
  const NEWLINE: byte := 10
  const SPACE: byte := 32
  const U32_LIMIT := 0x1_0000_0000

  /** The little-endian 32-bit word at `a`. */
  function U32(img: seq<byte>, a: nat): (w: nat)
    requires a + 4 <= |img|
    ensures w < U32_LIMIT
  {
    img[a] as int + 0x100 * img[a + 1] as int + 0x1_0000 * img[a + 2] as int + 0x100_0000 * img[a + 3] as int
  }

  /** The same word read as a C `int`. */
  function Signed(w: nat): int { if w < 0x8000_0000 then w else w - U32_LIMIT }

  function NumEntries(img: seq<byte>): nat requires |img| >= 12 { U32(img, 0) }
  function NumInodes(img: seq<byte>): nat requires |img| >= 12 { U32(img, 4) }
  function NumBlocks(img: seq<byte>): nat requires |img| >= 12 { U32(img, 8) }

  /** The image has the size its boot block announces, with room for the directory. */
  ghost predicate Sized(img: seq<byte>) {
    && |img| >= BLOCK
    && |img| == (1 + NumInodes(img) + NumBlocks(img)) * BLOCK
    && NumBlocks(img) < 0x8000_0000
    && NumEntries(img) <= 63
  }

  /** Where word `j` of an inode lies. */
  function SlotAddr(inode: nat, j: nat): nat { BLOCK + inode * BLOCK + 4 * j }

  /** Word 0 of an inode is the file's length; word j + 1 is the number of its j-th block. */
  function InodeWord(img: seq<byte>, inode: nat, j: nat): nat
    requires SlotAddr(inode, j) + 4 <= |img|
  {
    U32(img, SlotAddr(inode, j))
  }

  function Length(img: seq<byte>, inode: nat): nat
    requires Sized(img) && inode < NumInodes(img)
  {
    InodeWord(img, inode, 0)
  }

  function BlockNumber(img: seq<byte>, inode: nat, j: nat): nat
    requires Sized(img) && inode < NumInodes(img) && j < 1023
  {
    InodeWord(img, inode, j + 1)
  }

  /** The inode's length fits its 1023 slots, and the slots the length needs name data blocks. The
      remaining slots may hold anything. */
  ghost predicate GoodInode(img: seq<byte>, inode: nat)
    requires Sized(img)
  {
    && inode < NumInodes(img)
    && Length(img, inode) <= 1023 * BLOCK
    && forall j :: 0 <= j < 1023 && j * BLOCK < Length(img, inode) ==> BlockNumber(img, inode, j) < NumBlocks(img)
  }

  function DataBase(img: seq<byte>): nat
    requires Sized(img)
  {
    (1 + NumInodes(img)) * BLOCK
  }

  function BlockAddr(img: seq<byte>, b: nat): nat
    requires Sized(img)
  {
    DataBase(img) + b * BLOCK
  }

  /** Boot block, inodes and data blocks lie one behind the other and fill the image. */
  lemma RegionsTile(img: seq<byte>, inode: nat, b: nat)
    requires Sized(img)
    ensures SlotAddr(0, 0) == 4096 && SlotAddr(inode + 1, 0) == SlotAddr(inode, 0) + 4096
    ensures SlotAddr(NumInodes(img), 0) == BlockAddr(img, 0) && BlockAddr(img, b + 1) == BlockAddr(img, b) + 4096
    ensures BlockAddr(img, NumBlocks(img)) == |img|
  {
  }

  ghost function BlockBytes(img: seq<byte>, b: nat): (bytes: seq<byte>)
    requires Sized(img) && b < NumBlocks(img)
    ensures |bytes| == BLOCK
  {
    img[BlockAddr(img, b)..BlockAddr(img, b) + BLOCK]
  }

  /** The first `n` blocks of the file, one after the other. */
  ghost function Blocks(img: seq<byte>, inode: nat, n: nat): (bytes: seq<byte>)
    requires Sized(img) && GoodInode(img, inode) && n <= 1023 && (n > 0 ==> (n - 1) * BLOCK < Length(img, inode))
    ensures |bytes| == n * BLOCK
  {
    if n == 0 then [] else Blocks(img, inode, n - 1) + BlockBytes(img, BlockNumber(img, inode, n - 1))
  }

  /** The file: its blocks joined and cut to its length. */
  ghost function File(img: seq<byte>, inode: nat): (bytes: seq<byte>)
    requires Sized(img) && GoodInode(img, inode)
    ensures |bytes| == Length(img, inode)
  {
    var len := Length(img, inode);
    Blocks(img, inode, (len + BLOCK - 1) / BLOCK)[..len]
  }

  lemma {:induction false} BlocksAt(img: seq<byte>, inode: nat, n: nat, k: nat)
    requires Sized(img) && GoodInode(img, inode) && n <= 1023 && (n > 0 ==> (n - 1) * BLOCK < Length(img, inode))
    requires k < n * BLOCK
    ensures k / BLOCK < n && BlockNumber(img, inode, k / BLOCK) < NumBlocks(img)
    ensures Blocks(img, inode, n)[k] == BlockBytes(img, BlockNumber(img, inode, k / BLOCK))[k % BLOCK]
  {
    assert k / BLOCK < n && k == k / BLOCK * BLOCK + k % BLOCK;
    if k < (n - 1) * BLOCK {
      BlocksAt(img, inode, n - 1, k);
    } else {
      assert k / BLOCK == n - 1;
    }
  }

  /** Where byte `k` of the file lies in the image. */
  ghost function ByteAddress(img: seq<byte>, inode: nat, k: nat): nat
    requires Sized(img) && inode < NumInodes(img) && k / BLOCK < 1023
  {
    BlockAddr(img, BlockNumber(img, inode, k / BLOCK)) + k % BLOCK
  }

  lemma FileAt(img: seq<byte>, inode: nat, k: nat)
    requires Sized(img) && GoodInode(img, inode) && k < Length(img, inode)
    ensures k / BLOCK < 1023 && ByteAddress(img, inode, k) < |img|
    ensures File(img, inode)[k] == img[ByteAddress(img, inode, k)]
  {
    hide U32, Blocks;
    var len := Length(img, inode);
    BlocksAt(img, inode, (len + BLOCK - 1) / BLOCK, k);
    var b := BlockNumber(img, inode, k / BLOCK);
    assert (b + 1) * BLOCK <= NumBlocks(img) * BLOCK;
  }

  /** What a read at exactly the end of the file runs into: when the length is a multiple of the block
      size, the slot after the last block is inspected although no byte of it is wanted. */
  ghost predicate BadSlotAtEnd(img: seq<byte>, inode: nat)
    requires Sized(img) && GoodInode(img, inode)
  {
    var len := Length(img, inode);
    && len % BLOCK == 0
    && SlotAddr(inode, len / BLOCK + 1) + 4 <= |img|
    && Signed(InodeWord(img, inode, len / BLOCK + 1)) > NumBlocks(img)
  }

  function Min(a: int, b: int): int { if a < b then a else b }

  /** What `read_data` promises to return. */
  ghost function ReadCount(img: seq<byte>, inode: nat, offset: nat, length: nat): int
    requires Sized(img) && GoodInode(img, inode)
  {
    var len := Length(img, inode);
    if offset > len then 0
    else if offset == len && BadSlotAtEnd(img, inode) then -1
    else Min(length, len - offset)
  }

  /** A read delivers the next part of the file, as long as asked for or up to the end; exactly at the end
      a bad slot makes it an error; and beyond the end it delivers nothing. */
  lemma CountIsPart(img: seq<byte>, inode: nat, length: nat, before: seq<byte>, part: seq<byte>, behind: seq<byte>)
    requires Sized(img) && GoodInode(img, inode) && File(img, inode) == before + part + behind
    requires |part| == length || (|part| < length && behind == [])
    ensures ReadCount(img, inode, |before|, length) ==
            if part == [] && behind == [] && BadSlotAtEnd(img, inode) then -1 else |part|
    ensures forall offset :: offset > |before| + |part| + |behind| ==> ReadCount(img, inode, offset, length) == 0
  {
    hide BadSlotAtEnd, File;
  }

  lemma SlotInImage(img: seq<byte>, inode: nat, k: nat)
    requires Sized(img) && GoodInode(img, inode) && k <= Length(img, inode)
    ensures SlotAddr(inode, k / BLOCK + 1) + 4 <= |img|
  {
    var n := NumInodes(img);
    assert k / BLOCK <= 1023;
    assert (inode + 1) * BLOCK <= n * BLOCK;
    if k / BLOCK == 1023 {
      assert BlockNumber(img, inode, 0) < NumBlocks(img);
      assert (1 + n + 1) * BLOCK <= |img|;
    }
  }

  /** `read_data`: `buf` from index `at` on receives the bytes of the file from `offset` on. */
  method ReadData(img: seq<byte>, inode: nat, offset: nat, buf: array<byte>, at: nat, length: nat) returns (ret: int)
    requires Sized(img) && GoodInode(img, inode)
    requires at + length <= buf.Length
    modifies buf
    ensures ret == ReadCount(img, inode, offset, length)
    ensures ret > 0 ==> offset + ret <= Length(img, inode) && buf[at..at + ret] == File(img, inode)[offset..offset + ret]
    ensures forall j :: 0 <= j < buf.Length && !(at <= j < at + ret) ==> buf[j] == old(buf[j])
  {
    var fileLength := InodeWord(img, inode, 0);
    if offset > fileLength {
      return 0;
    }
    var wanted := if length > fileLength then fileLength else length;
    SlotInImage(img, inode, offset);
    SlotChecked(img, inode, offset);
    var blockNumber: nat := InodeWord(img, inode, offset / BLOCK + 1);
    if Signed(blockNumber) > NumBlocks(img) {
      return -1;
    }
    if wanted == 0 {
      return 0;
    }
    ret := CopyBlocks(img, inode, offset, buf, at, wanted);
  }

  /** The check on the first block number rejects a well-formed file only at its very end. */
  lemma SlotChecked(img: seq<byte>, inode: nat, offset: nat)
    requires Sized(img) && GoodInode(img, inode) && offset <= Length(img, inode)
    requires SlotAddr(inode, offset / BLOCK + 1) + 4 <= |img|
    ensures Signed(InodeWord(img, inode, offset / BLOCK + 1)) > NumBlocks(img) <==>
            offset == Length(img, inode) && BadSlotAtEnd(img, inode)
  {
    if offset < Length(img, inode) {
      assert offset / BLOCK * BLOCK <= offset;
      assert BlockNumber(img, inode, offset / BLOCK) < NumBlocks(img);
    } else if offset % BLOCK != 0 {
      assert offset / BLOCK * BLOCK < offset;
      assert BlockNumber(img, inode, offset / BLOCK) < NumBlocks(img);
    }
  }

  /** The loop's variables `offsetTemp`, `k` and `blockNumber` stand for position `pos` of a read that
      begins in block `first` of the file. */
  ghost predicate Cursor(img: seq<byte>, inode: nat, first: nat, pos: nat, offsetTemp: nat, k: nat, blockNumber: nat) {
    && Sized(img) && GoodInode(img, inode) && pos <= Length(img, inode)
    && offsetTemp == pos % BLOCK && first + k == pos / BLOCK + 1
    && SlotAddr(inode, pos / BLOCK + 1) + 4 <= |img|
    && blockNumber == InodeWord(img, inode, pos / BLOCK + 1)
  }

  lemma CursorStart(img: seq<byte>, inode: nat, offset: nat)
    requires Sized(img) && GoodInode(img, inode) && offset <= Length(img, inode)
    ensures SlotAddr(inode, offset / BLOCK + 1) + 4 <= |img|
    ensures Cursor(img, inode, offset / BLOCK, offset, offset % BLOCK, 1, InodeWord(img, inode, offset / BLOCK + 1))
  {
    SlotInImage(img, inode, offset);
  }

  lemma CursorByte(img: seq<byte>, inode: nat, first: nat, pos: nat, offsetTemp: nat, k: nat, blockNumber: nat, file: seq<byte>)
    requires Cursor(img, inode, first, pos, offsetTemp, k, blockNumber) && file == File(img, inode) && pos < |file|
    ensures BlockAddr(img, blockNumber) + offsetTemp < |img|
    ensures file[pos] == img[BlockAddr(img, blockNumber) + offsetTemp]
  {
    FileAt(img, inode, pos);
  }

  lemma CursorNext(img: seq<byte>, inode: nat, first: nat, pos: nat, offsetTemp: nat, k: nat, blockNumber: nat)
    requires Cursor(img, inode, first, pos, offsetTemp, k, blockNumber) && pos < Length(img, inode)
    ensures if offsetTemp + 1 > BLOCK - 1 then
              && SlotAddr(inode, first + k + 1) + 4 <= |img|
              && Cursor(img, inode, first, pos + 1, 0, k + 1, InodeWord(img, inode, first + k + 1))
            else Cursor(img, inode, first, pos + 1, offsetTemp + 1, k, blockNumber)
  {
    NextPosition(pos);
    SlotInImage(img, inode, pos + 1);
  }

  /** `i` bytes of the file are in the buffer from `at` on; the rest of it is as before. */
  ghost predicate Copied(file: seq<byte>, from: nat, before: seq<byte>, buf: array<byte>, at: nat, i: nat)
    reads buf
  {
    && from + i <= |file| && at + i <= |before| == buf.Length
    && (forall j :: 0 <= j < |before| && !(at <= j < at + i) ==> buf[j] == before[j])
    && buf[at..at + i] == file[from..from + i]
  }

  /** `memcpy` of one byte. */
  method CopyOne(ghost file: seq<byte>, ghost from: nat, ghost before: seq<byte>, buf: array<byte>, at: nat, i: nat, b: byte)
    requires from + i < |file| && at + i < |before| && b == file[from + i]
    requires Copied(file, from, before, buf, at, i)
    modifies buf
    ensures Copied(file, from, before, buf, at, i + 1)
  {
    ghost var done := buf[at..at + i];
    buf[at + i] := b;
    assert buf[at..at + (i + 1)] == done + [b];
    assert file[from..from + (i + 1)] == file[from..from + i] + [file[from + i]];
  }

  /** The next byte of the block, or of the next block named in the inode. */
  method NextInBlocks(img: seq<byte>, inode: nat, first: nat, ghost pos: nat, offsetTemp: nat, k: nat, blockNumber: nat)
    returns (offsetTemp': nat, k': nat, blockNumber': nat)
    requires Cursor(img, inode, first, pos, offsetTemp, k, blockNumber) && pos < Length(img, inode)
    ensures Cursor(img, inode, first, pos + 1, offsetTemp', k', blockNumber')
  {
    hide Cursor;
    CursorNext(img, inode, first, pos, offsetTemp, k, blockNumber);
    offsetTemp', k', blockNumber' := offsetTemp + 1, k, blockNumber;
    if offsetTemp' > BLOCK - 1 {
      k' := k + 1;
      blockNumber' := InodeWord(img, inode, first + k');
      offsetTemp' := 0;
    }
  }

  /** The loop of `read_data`: byte by byte, taking the next block number from the inode each time a
      block is used up. */
  method CopyBlocks(img: seq<byte>, inode: nat, offset: nat, buf: array<byte>, at: nat, wanted: nat) returns (i: nat)
    requires Sized(img) && GoodInode(img, inode)
    requires offset <= Length(img, inode) && at + wanted <= buf.Length
    modifies buf
    ensures i == Min(wanted, Length(img, inode) - offset)
    ensures Copied(File(img, inode), offset, old(buf[..]), buf, at, i)
  {
    assert inode < NumInodes(img);
    hide Cursor, File, U32, GoodInode, Sized, Copied, SlotAddr, BlockAddr;
    ghost var file, before := File(img, inode), buf[..];
    var fileLength := Length(img, inode);
    CursorStart(img, inode, offset);
    var first: nat, offsetTemp: nat := offset / BLOCK, offset % BLOCK;
    var k: nat := 1;
    var blockNumber: nat := InodeWord(img, inode, first + 1);
    i := 0;
    NothingCopied(file, offset, buf, at);
    while i < wanted && offset + i < fileLength
      invariant 0 <= i <= wanted && offset + i <= fileLength
      invariant Cursor(img, inode, first, offset + i, offsetTemp, k, blockNumber)
      invariant Copied(file, offset, before, buf, at, i)
    {
      CursorByte(img, inode, first, offset + i, offsetTemp, k, blockNumber, file);
      CopyOne(file, offset, before, buf, at, i, img[BlockAddr(img, blockNumber) + offsetTemp]);
      i := i + 1;
      offsetTemp, k, blockNumber := NextInBlocks(img, inode, first, offset + i - 1, offsetTemp, k, blockNumber);
    }
  }

  lemma NothingCopied(file: seq<byte>, from: nat, buf: array<byte>, at: nat)
    requires from <= |file| && at <= buf.Length
    ensures Copied(file, from, buf[..], buf, at, 0)
  {
  }

  lemma NextPosition(p: nat)
    ensures if p % BLOCK == BLOCK - 1 then (p + 1) % BLOCK == 0 && (p + 1) / BLOCK == p / BLOCK + 1
            else (p + 1) % BLOCK == p % BLOCK + 1 && (p + 1) / BLOCK == p / BLOCK
  {
  }
}
