/**
 The layout of the file system image, written from a directory, inodes and data blocks, and read back
 by the functions that model the code: a boot block with three counts and 64-byte entries, then one
 block of 4096 bytes per inode, then the data blocks. Words are little-endian.
 */
module DiskImage {
  import opened Common
  import opened FileSystem
  import opened Descriptors

  datatype Dentry = Dentry(name: seq<byte>, kind: nat, inode: nat)

  datatype Inode = Inode(length: nat, blocks: seq<nat>)

  datatype Disk = Disk(entries: seq<Dentry>, inodes: seq<Inode>, data: seq<seq<byte>>)

  predicate FitsWord(v: nat) { v < 0x1_0000_0000 }

  predicate ProperEntry(e: Dentry) { |e.name| <= 32 && 0 !in e.name && FitsWord(e.kind) && FitsWord(e.inode) }

  predicate ProperInode(n: Inode) {
    FitsWord(n.length) && |n.blocks| <= 1023 && forall j :: 0 <= j < |n.blocks| ==> FitsWord(n.blocks[j])
  }

  predicate Proper(d: Disk) {
    && |d.entries| <= 63 && FitsWord(|d.inodes|) && |d.data| < 0x8000_0000
    && (forall i :: 0 <= i < |d.entries| ==> ProperEntry(d.entries[i]))
    && (forall i :: 0 <= i < |d.inodes| ==> ProperInode(d.inodes[i]))
    && (forall b :: 0 <= b < |d.data| ==> |d.data[b]| == 4096)
  }

  function Word(v: nat): (w: seq<byte>)
    requires FitsWord(v)
    ensures |w| == 4
  {
    [v % 256, v / 256 % 256, v / 65536 % 256, v / 16777216]
  }

  function Padded(s: seq<byte>, n: nat): (p: seq<byte>)
    requires |s| <= n
    ensures |p| == n && p[..|s|] == s && forall k :: |s| <= k < n ==> p[k] == 0
  {
    s + seq(n - |s|, _ => 0)
  }

  function Join(pieces: seq<seq<byte>>): seq<byte>
    decreases |pieces|
  {
    if pieces == [] then [] else Join(pieces[..|pieces| - 1]) + pieces[|pieces| - 1]
  }

  function EntryBytes(e: Dentry): (bytes: seq<byte>)
    requires ProperEntry(e)
    ensures |bytes| == 64
  {
    Padded(Padded(e.name, 32) + Word(e.kind) + Word(e.inode), 64)
  }

  function Words(blocks: seq<nat>): (pieces: seq<seq<byte>>)
    requires forall j :: 0 <= j < |blocks| ==> FitsWord(blocks[j])
    ensures |pieces| == |blocks| && forall j :: 0 <= j < |blocks| ==> pieces[j] == Word(blocks[j])
  {
    seq(|blocks|, j requires 0 <= j < |blocks| => Word(blocks[j]))
  }

  function InodeBytes(n: Inode): (bytes: seq<byte>)
    requires ProperInode(n)
    ensures |bytes| == 4096
  {
    JoinLength(Words(n.blocks), 4);
    Padded(Word(n.length) + Join(Words(n.blocks)), 4096)
  }

  function EntryPieces(d: Disk): (pieces: seq<seq<byte>>)
    requires Proper(d)
    ensures |pieces| == |d.entries| && forall i :: 0 <= i < |pieces| ==> pieces[i] == EntryBytes(d.entries[i])
  {
    seq(|d.entries|, i requires 0 <= i < |d.entries| => EntryBytes(d.entries[i]))
  }

  function InodePieces(d: Disk): (pieces: seq<seq<byte>>)
    requires Proper(d)
    ensures |pieces| == |d.inodes| && forall i :: 0 <= i < |pieces| ==> pieces[i] == InodeBytes(d.inodes[i])
  {
    seq(|d.inodes|, i requires 0 <= i < |d.inodes| => InodeBytes(d.inodes[i]))
  }

  function Counts(d: Disk): (bytes: seq<byte>)
    requires Proper(d)
    ensures |bytes| == 64
  {
    Padded(Word(|d.entries|) + Word(|d.inodes|) + Word(|d.data|), 64)
  }

  function BootBlock(d: Disk): (bytes: seq<byte>)
    requires Proper(d)
    ensures |bytes| == 4096
  {
    JoinLength(EntryPieces(d), 64);
    Padded(Counts(d) + Join(EntryPieces(d)), 4096)
  }

  function Image(d: Disk): seq<byte>
    requires Proper(d)
  {
    BootBlock(d) + Join(InodePieces(d)) + Join(d.data)
  }

  // ---- joining and reading back ----

  /** Where the i-th of the pieces of `n` bytes begins. */
  function Start(n: nat, i: nat): nat { if i == 0 then 0 else Start(n, i - 1) + n }

  lemma {:induction false} StartIs(n: nat, i: nat)
    ensures Start(n, i) == n * i
  {
    if i > 0 {
      StartIs(n, i - 1);
      assert n * i == n * (i - 1) + n;
    }
  }

  ghost predicate Uniform(pieces: seq<seq<byte>>, n: nat) { forall i :: 0 <= i < |pieces| ==> |pieces[i]| == n }

  lemma {:induction false} JoinStart(pieces: seq<seq<byte>>, n: nat)
    requires Uniform(pieces, n)
    ensures |Join(pieces)| == Start(n, |pieces|)
    decreases |pieces|
  {
    if pieces != [] { JoinStart(pieces[..|pieces| - 1], n); }
  }

  lemma JoinLength(pieces: seq<seq<byte>>, n: nat)
    requires forall i :: 0 <= i < |pieces| ==> |pieces[i]| == n
    ensures |Join(pieces)| == n * |pieces|
  {
    JoinStart(pieces, n);
    StartIs(n, |pieces|);
  }

  lemma {:induction false} PieceStart(pieces: seq<seq<byte>>, n: nat, i: nat)
    requires Uniform(pieces, n) && i < |pieces|
    ensures Start(n, i) + n <= |Join(pieces)| && Join(pieces)[Start(n, i)..Start(n, i) + n] == pieces[i]
    decreases |pieces|
  {
    var last := |pieces| - 1;
    var before, at := Join(pieces[..last]), Start(n, i);
    JoinStart(pieces[..last], n);
    if i < last { PieceStart(pieces[..last], n, i); }
    assert Join(pieces) == before + pieces[last] && |pieces[last]| == n;
    hide *;
    SliceOfSum(before, pieces[last], at, n);
  }

  lemma SliceOfSum(before: seq<byte>, last: seq<byte>, at: nat, n: nat)
    requires |last| == n && (at + n <= |before| || at == |before|)
    ensures (before + last)[at..at + n] == if at + n <= |before| then before[at..at + n] else last
  {
  }

  lemma PieceAt(pieces: seq<seq<byte>>, n: nat, i: nat)
    requires (forall i :: 0 <= i < |pieces| ==> |pieces[i]| == n) && i < |pieces|
    ensures n * i + n <= |Join(pieces)| && Join(pieces)[n * i..n * i + n] == pieces[i]
  {
    PieceStart(pieces, n, i);
    StartIs(n, i);
  }

  lemma {:induction false} PrefixStart(pieces: seq<seq<byte>>, n: nat, k: nat)
    requires Uniform(pieces, n) && k <= |pieces|
    ensures Start(n, k) <= |Join(pieces)| && Join(pieces)[..Start(n, k)] == Join(pieces[..k])
    decreases |pieces|
  {
    JoinStart(pieces, n);
    if k == |pieces| {
      assert pieces[..k] == pieces;
    } else {
      var last := |pieces| - 1;
      PrefixStart(pieces[..last], n, k);
      assert pieces[..last][..k] == pieces[..k];
    }
  }

  lemma JoinPrefix(pieces: seq<seq<byte>>, n: nat, k: nat)
    requires (forall i :: 0 <= i < |pieces| ==> |pieces[i]| == n) && k <= |pieces|
    ensures n * k <= |Join(pieces)| && Join(pieces)[..n * k] == Join(pieces[..k])
  {
    PrefixStart(pieces, n, k);
    StartIs(n, k);
  }

  /** A word is read from the four bytes at its address, lowest first. */
  lemma ReadWord(img: seq<byte>, a: nat, v: nat)
    requires FitsWord(v) && a + 4 <= |img| && img[a..a + 4] == Word(v)
    ensures U32(img, a) == v
  {
    var w := Word(v);
    assert img[a] == w[0] && img[a + 1] == w[1] && img[a + 2] == w[2] && img[a + 3] == w[3];
    Digits(v);
  }

  lemma Digits(v: nat)
    requires FitsWord(v)
    ensures v % 256 + 256 * (v / 256 % 256) + 65536 * (v / 65536 % 256) + 16777216 * (v / 16777216) == v
  {
    var a, b, c := v / 256, v / 65536, v / 16777216;
    assert b == a / 256 && c == b / 256;
  }

  lemma SubSlice(s: seq<byte>, i: nat, j: nat, k: nat, n: nat)
    requires i <= j <= |s| && k + n <= j - i
    ensures s[i..j][k..k + n] == s[i + k..i + k + n]
  {
    var t := s[i..j];
    forall x: nat {:trigger s[i + k..i + k + n][x]} | x < n ensures t[k..k + n][x] == s[i + k..i + k + n][x] {
      assert t[k + x] == s[i + (k + x)];
    }
  }

  /** The boot block tells the sizes, and with them where everything lies. */
  lemma CountsReadBack(d: Disk)
    requires Proper(d)
    ensures var img := Image(d);
            && |img| == 4096 + 4096 * |d.inodes| + 4096 * |d.data|
            && NumEntries(img) == |d.entries| && NumInodes(img) == |d.inodes| && NumBlocks(img) == |d.data|
            && Sized(img)
  {
    var img := Image(d);
    JoinLength(InodePieces(d), 4096);
    JoinLength(d.data, 4096);
    JoinLength(EntryPieces(d), 64);
    var head := Word(|d.entries|) + Word(|d.inodes|) + Word(|d.data|);
    assert img[..64] == BootBlock(d)[..64] == Counts(d) && img[..12] == Counts(d)[..12] == head;
    assert img[0..4] == head[0..4] == Word(|d.entries|);
    assert img[4..8] == head[4..8] == Word(|d.inodes|);
    assert img[8..12] == head[8..12] == Word(|d.data|);
    ReadWord(img, 0, |d.entries|);
    ReadWord(img, 4, |d.inodes|);
    ReadWord(img, 8, |d.data|);
  }

  lemma EntryInImage(d: Disk, i: nat)
    requires Proper(d) && i < |d.entries|
    ensures 128 + 64 * i <= |Image(d)| && Image(d)[64 + 64 * i..128 + 64 * i] == EntryBytes(d.entries[i])
  {
    CountsReadBack(d);
    var entries := Join(EntryPieces(d));
    JoinLength(EntryPieces(d), 64);
    PieceAt(EntryPieces(d), 64, i);
    assert Image(d)[64..64 + |entries|] == BootBlock(d)[64..64 + |entries|] == entries;
    SubSlice(Image(d), 64, 64 + |entries|, 64 * i, 64);
  }

  /** The directory reads back as it was written: names, types and inode numbers. */
  lemma EntryReadsBack(d: Disk, i: nat)
    requires Proper(d) && i < |d.entries|
    ensures EntryAddr(i) + 64 <= |Image(d)| && EntryName(Image(d), i) == d.entries[i].name
    ensures FileType(Image(d), i) == d.entries[i].kind && EntryInode(Image(d), i) == d.entries[i].inode
  {
    EntryInImage(d, i);
    var img, e := Image(d), d.entries[i];
    hide *;
    EntryParts(img, 64 + 64 * i, e);
    NameParts(e);
    assert EntryAddr(i) == 64 + 64 * i by { EntryPlace(i); }
    EntryIs(img, i, e);
  }

  lemma EntryPlace(i: nat)
    ensures EntryAddr(i) == 64 + 64 * i
  {
  }

  lemma NameParts(e: Dentry)
    requires ProperEntry(e)
    ensures CutAtNul(Padded(e.name, 32)) == e.name
  {
    var padded := Padded(e.name, 32);
    assert padded[..|e.name|] == e.name;
    CutUnique(padded, |e.name|);
  }

  lemma EntryParts(img: seq<byte>, a: nat, e: Dentry)
    requires ProperEntry(e) && a + 64 <= |img| && img[a..a + 64] == EntryBytes(e)
    ensures img[a..a + 32] == Padded(e.name, 32) && U32(img, a + 32) == e.kind && U32(img, a + 36) == e.inode
  {
    var bytes := EntryBytes(e);
    assert bytes[0..32] == Padded(e.name, 32) && bytes[32..36] == Word(e.kind) && bytes[36..40] == Word(e.inode);
    hide *;
    assert |e.name| <= 32 by { EntryFits(e); }
    SubSlice(img, a, a + 64, 0, 32);
    SubSlice(img, a, a + 64, 32, 4);
    SubSlice(img, a, a + 64, 36, 4);
    ReadWord(img, a + 32, e.kind);
    ReadWord(img, a + 36, e.inode);
  }

  lemma EntryFits(e: Dentry)
    requires ProperEntry(e)
    ensures |e.name| <= 32 && FitsWord(e.kind) && FitsWord(e.inode)
  {
  }

  lemma EntryIs(img: seq<byte>, i: nat, e: Dentry)
    requires ProperEntry(e) && EntryAddr(i) + 64 <= |img|
    requires img[EntryAddr(i)..EntryAddr(i) + 32] == Padded(e.name, 32) && CutAtNul(Padded(e.name, 32)) == e.name
    requires U32(img, EntryAddr(i) + 32) == e.kind && U32(img, EntryAddr(i) + 36) == e.inode
    ensures EntryName(img, i) == e.name && FileType(img, i) == e.kind && EntryInode(img, i) == e.inode
  {
    hide U32, CutAtNul, Padded;
  }

  /** Opening by name finds the first entry written under that name. */
  lemma LookupReadsBack(d: Disk, fname: seq<byte>)
    requires Proper(d)
    ensures Sized(Image(d))
    ensures match Lookup(Image(d), fname, 0)
            case Some(i) => i < |d.entries| && d.entries[i].name == fname[..Min(32, |fname|)]
                            && forall j :: 0 <= j < i ==> d.entries[j].name != fname[..Min(32, |fname|)]
            case None => forall j :: 0 <= j < |d.entries| ==> d.entries[j].name != fname[..Min(32, |fname|)]
  {
    CountsReadBack(d);
    var img := Image(d);
    assert NumEntries(img) == |d.entries|;
    forall i: nat | i < |d.entries| ensures NamedAs(img, i, d.entries[i].name) {
      EntryReadsBack(d, i);
      IsNamedAs(img, i);
    }
    hide *;
    LookupFinds(img, d.entries, fname);
  }

  ghost predicate NamedAs(img: seq<byte>, i: nat, name: seq<byte>) {
    EntryAddr(i) + 64 <= |img| && EntryName(img, i) == name
  }

  lemma IsNamedAs(img: seq<byte>, i: nat)
    requires EntryAddr(i) + 64 <= |img|
    ensures NamedAs(img, i, EntryName(img, i))
  {
  }

  lemma LookupFinds(img: seq<byte>, entries: seq<Dentry>, fname: seq<byte>)
    requires Sized(img) && NumEntries(img) == |entries| && forall i :: 0 <= i < |entries| ==> NamedAs(img, i, entries[i].name)
    ensures match Lookup(img, fname, 0)
            case Some(i) => i < |entries| && entries[i].name == fname[..Min(32, |fname|)]
                            && forall j :: 0 <= j < i ==> entries[j].name != fname[..Min(32, |fname|)]
            case None => forall j :: 0 <= j < |entries| ==> entries[j].name != fname[..Min(32, |fname|)]
  {
    hide Lookup, Sized, EntryName, NumEntries;
    var found := Lookup(img, fname, 0);
    var n: nat := if found.Some? then found.value else |entries|;
    forall j: nat | j < n ensures entries[j].name != fname[..Min(32, |fname|)] {
      assert NamedAs(img, j, entries[j].name) && !Named(img, j, fname);
    }
    if found.Some? { assert NamedAs(img, n, entries[n].name) && Named(img, n, fname); }
  }

  lemma InodeInImage(d: Disk, i: nat)
    requires Proper(d) && i < |d.inodes|
    ensures 8192 + 4096 * i <= |Image(d)| && Image(d)[4096 + 4096 * i..8192 + 4096 * i] == InodeBytes(d.inodes[i])
  {
    var inodes := Join(InodePieces(d));
    JoinLength(InodePieces(d), 4096);
    PieceAt(InodePieces(d), 4096, i);
    assert Image(d)[4096..4096 + |inodes|] == inodes;
    SubSlice(Image(d), 4096, 4096 + |inodes|, 4096 * i, 4096);
  }

  lemma InodeWords(n: Inode, j: nat)
    requires ProperInode(n) && j < |n.blocks|
    ensures InodeBytes(n)[..4] == Word(n.length) && InodeBytes(n)[4 + 4 * j..8 + 4 * j] == Word(n.blocks[j])
  {
    var words := Words(n.blocks);
    JoinLength(words, 4);
    PieceAt(words, 4, j);
    assert InodeBytes(n)[4..4 + |Join(words)|] == Join(words);
    SubSlice(InodeBytes(n), 4, 4 + |Join(words)|, 4 * j, 4);
  }

  /** An inode's length and block numbers read back as they were written. */
  lemma InodeReadsBack(d: Disk, i: nat)
    requires Proper(d) && i < |d.inodes|
    ensures Sized(Image(d)) && i < NumInodes(Image(d)) && Length(Image(d), i) == d.inodes[i].length
    ensures forall j :: 0 <= j < |d.inodes[i].blocks| ==> BlockNumber(Image(d), i, j) == d.inodes[i].blocks[j]
  {
    var img, n := Image(d), d.inodes[i];
    CountsReadBack(d);
    InodeInImage(d, i);
    assert InodeBytes(n)[..4] == Word(n.length);
    hide Image, InodeBytes, U32;
    SubSlice(img, 4096 + 4096 * i, 8192 + 4096 * i, 0, 4);
    ReadWord(img, 4096 + 4096 * i, n.length);
    forall j: nat | j < |n.blocks| ensures BlockNumber(img, i, j) == n.blocks[j] {
      BlockNumberReadsBack(img, d.inodes[i], i, j);
    }
  }

  lemma BlockNumberReadsBack(img: seq<byte>, n: Inode, i: nat, j: nat)
    requires Sized(img) && i < NumInodes(img) && ProperInode(n) && j < |n.blocks|
    requires 8192 + 4096 * i <= |img| && img[4096 + 4096 * i..8192 + 4096 * i] == InodeBytes(n)
    ensures BlockNumber(img, i, j) == n.blocks[j]
  {
    hide Sized, InodeBytes, U32;
    InodeWords(n, j);
    SubSlice(img, 4096 + 4096 * i, 8192 + 4096 * i, 4 + 4 * j, 4);
    ReadWord(img, 4096 + 4096 * i + 4 + 4 * j, n.blocks[j]);
  }

  lemma BlockReadsBack(d: Disk, b: nat)
    requires Proper(d) && b < |d.data|
    ensures Sized(Image(d)) && b < NumBlocks(Image(d)) && BlockBytes(Image(d), b) == d.data[b]
  {
    CountsReadBack(d);
    JoinLength(InodePieces(d), 4096);
    PieceAt(d.data, 4096, b);
    var start := 4096 + 4096 * |d.inodes|;
    assert Image(d)[start..start + |Join(d.data)|] == Join(d.data);
    SubSlice(Image(d), start, start + |Join(d.data)|, 4096 * b, 4096);
  }

  /** The inode's blocks are on the disk and hold its whole length. */
  predicate Stored(d: Disk, i: nat)
    requires i < |d.inodes|
  {
    d.inodes[i].length <= 4096 * |d.inodes[i].blocks| && forall j :: 0 <= j < |d.inodes[i].blocks| ==> d.inodes[i].blocks[j] < |d.data|
  }

  function Pieces(d: Disk, i: nat): (pieces: seq<seq<byte>>)
    requires i < |d.inodes| && Stored(d, i)
    ensures |pieces| == |d.inodes[i].blocks| && forall j :: 0 <= j < |pieces| ==> pieces[j] == d.data[d.inodes[i].blocks[j]]
  {
    seq(|d.inodes[i].blocks|, j requires 0 <= j < |d.inodes[i].blocks| => d.data[d.inodes[i].blocks[j]])
  }

  lemma StoredIsGood(d: Disk, i: nat)
    requires Proper(d) && i < |d.inodes| && Stored(d, i)
    ensures Sized(Image(d)) && GoodInode(Image(d), i) && Length(Image(d), i) == d.inodes[i].length
  {
    InodeReadsBack(d, i);
    CountsReadBack(d);
    hide Image, NumBlocks, NumInodes;
  }

  lemma MoreBlocks(img: seq<byte>, i: nat, n: nat, pieces: seq<seq<byte>>)
    requires Sized(img) && GoodInode(img, i) && 0 < n <= 1023 && (n - 1) * BLOCK < Length(img, i) && n <= |pieces|
    requires n > 1 ==> (n - 2) * BLOCK < Length(img, i)
    requires BlockNumber(img, i, n - 1) < NumBlocks(img) && BlockBytes(img, BlockNumber(img, i, n - 1)) == pieces[n - 1]
    requires Blocks(img, i, n - 1) == Join(pieces[..n - 1])
    ensures Blocks(img, i, n) == Join(pieces[..n])
  {
    hide Sized, GoodInode, BlockNumber, BlockBytes, NumBlocks;
    assert pieces[..n][..n - 1] == pieces[..n - 1];
  }

  lemma {:induction false} BlocksReadBack(d: Disk, i: nat, n: nat)
    requires Proper(d) && i < |d.inodes| && Stored(d, i)
    requires n <= |d.inodes[i].blocks| && (n > 0 ==> (n - 1) * 4096 < d.inodes[i].length)
    requires Sized(Image(d)) && GoodInode(Image(d), i)
    ensures n > 0 ==> (n - 1) * 4096 < Length(Image(d), i)
    ensures Blocks(Image(d), i, n) == Join(Pieces(d, i)[..n])
    decreases n
  {
    InodeReadsBack(d, i);
    if n > 0 {
      var img, pieces := Image(d), Pieces(d, i);
      BlocksReadBack(d, i, n - 1);
      BlockReadsBack(d, d.inodes[i].blocks[n - 1]);
      assert BlockBytes(img, BlockNumber(img, i, n - 1)) == pieces[n - 1];
      hide *;
      MoreBlocks(img, i, n, pieces);
    }
  }

  lemma FileIsCut(img: seq<byte>, i: nat, n: nat)
    requires Sized(img) && GoodInode(img, i) && n == (Length(img, i) + 4095) / 4096
    ensures n <= 1023 && (n > 0 ==> (n - 1) * BLOCK < Length(img, i))
    ensures Length(img, i) <= n * BLOCK && File(img, i) == Blocks(img, i, n)[..Length(img, i)]
  {
    hide Blocks;
  }

  lemma CutJoin(pieces: seq<seq<byte>>, len: nat, n: nat)
    requires (forall j :: 0 <= j < |pieces| ==> |pieces[j]| == 4096) && n <= |pieces| && len <= 4096 * n
    ensures len <= |Join(pieces)| && len <= |Join(pieces[..n])| && Join(pieces[..n])[..len] == Join(pieces)[..len]
  {
    JoinLength(pieces, 4096);
    JoinPrefix(pieces, 4096, n);
  }

  /** A file reads back as the blocks its inode names, joined in order and cut to its length, wherever on
      the disk they are. */
  lemma FileReadsBack(d: Disk, i: nat)
    requires Proper(d) && i < |d.inodes| && Stored(d, i)
    ensures Sized(Image(d)) && GoodInode(Image(d), i)
    ensures d.inodes[i].length <= |Join(Pieces(d, i))|
    ensures File(Image(d), i) == Join(Pieces(d, i))[..d.inodes[i].length]
  {
    StoredIsGood(d, i);
    var len := d.inodes[i].length;
    var n := (len + 4095) / 4096;
    var pieces := Pieces(d, i);
    assert n <= |d.inodes[i].blocks| && (n > 0 ==> (n - 1) * 4096 < len);
    assert forall j :: 0 <= j < |pieces| ==> |pieces[j]| == 4096;
    FileIsCut(Image(d), i, n);
    BlocksReadBack(d, i, n);
    hide *;
    CutJoin(pieces, len, n);
  }

  lemma UnusedWord(n: Inode, j: nat)
    requires ProperInode(n) && |n.blocks| <= j < 1023
    ensures InodeBytes(n)[4 + 4 * j..8 + 4 * j] == Word(0)
  {
    JoinLength(Words(n.blocks), 4);
    var bytes := InodeBytes(n);
    assert bytes[4 + 4 * j..8 + 4 * j] == [bytes[4 + 4 * j], bytes[5 + 4 * j], bytes[6 + 4 * j], bytes[7 + 4 * j]];
  }

  /** With a slot to spare in the inode, the read at the end of a file is never rejected. */
  lemma StoredNeverRejected(d: Disk, i: nat)
    requires Proper(d) && i < |d.inodes| && Stored(d, i) && |d.inodes[i].blocks| < 1023
    ensures Sized(Image(d)) && GoodInode(Image(d), i) && !BadSlotAtEnd(Image(d), i)
  {
    StoredIsGood(d, i);
    var img, n := Image(d), d.inodes[i];
    var j := n.length / 4096;
    CountsReadBack(d);
    InodeInImage(d, i);
    assert j <= |n.blocks| && (j < |n.blocks| ==> n.blocks[j] < |d.data|);
    hide Image, Proper;
    NextSlot(img, n, i, j, |d.data|);
  }

  lemma NextSlot(img: seq<byte>, n: Inode, i: nat, j: nat, limit: nat)
    requires Sized(img) && i < NumInodes(img) && ProperInode(n) && j <= |n.blocks| < 1023 && (j < |n.blocks| ==> n.blocks[j] < limit)
    requires 8192 + 4096 * i <= |img| && img[4096 + 4096 * i..8192 + 4096 * i] == InodeBytes(n) && limit == NumBlocks(img)
    ensures SlotAddr(i, j + 1) + 4 <= |img| && Signed(InodeWord(img, i, j + 1)) <= NumBlocks(img)
  {
    if j < |n.blocks| {
      BlockNumberReadsBack(img, n, i, j);
    } else {
      UnusedWord(n, j);
      hide InodeBytes, U32, Word;
      SubSlice(img, 4096 + 4096 * i, 8192 + 4096 * i, 4 + 4 * j, 4);
      ReadWord(img, 4096 + 4096 * i + 4 + 4 * j, 0);
    }
  }

  /** The slot behind a file that fills its last block makes the read at its end fail exactly if, taken as
      a C int, it holds more than the number of data blocks. */
  lemma BadSlotExactly(d: Disk, i: nat, j: nat)
    requires Proper(d) && i < |d.inodes| && j < |d.inodes[i].blocks| && d.inodes[i].length == 4096 * j
    requires Sized(Image(d)) && GoodInode(Image(d), i)
    ensures BadSlotAtEnd(Image(d), i) <==> |d.data| < d.inodes[i].blocks[j] < 0x8000_0000
  {
    InodeReadsBack(d, i);
    CountsReadBack(d);
    assert j < 1023;
    hide *;
    SlotBehind(Image(d), i, j);
  }

  lemma SlotBehind(img: seq<byte>, i: nat, j: nat)
    requires Sized(img) && GoodInode(img, i) && Length(img, i) == 4096 * j && j < 1023
    ensures BadSlotAtEnd(img, i) <==> NumBlocks(img) < BlockNumber(img, i, j) < 0x8000_0000
  {
    var n := NumInodes(img);
    assert (i + 1) * 4096 <= n * 4096;
    hide U32;
  }

  predicate StoredEntry(d: Disk, e: Dentry) {
    e.kind < 256 && (e.kind == 2 ==> e.inode < |d.inodes| && Stored(d, e.inode))
  }

  /** A disk whose regular files are stored is one the system calls work on. */
  lemma StoredIsWellFormed(d: Disk)
    requires Proper(d) && forall i :: 0 <= i < |d.entries| ==> StoredEntry(d, d.entries[i])
    ensures WellFormed(Image(d))
  {
    CountsReadBack(d);
    var img := Image(d);
    forall i: nat | i < NumEntries(img)
      ensures FileType(img, i) < 256 && (FileType(img, i) == 2 ==> GoodInode(img, EntryInode(img, i)))
    {
      EntryReadsBack(d, i);
      assert StoredEntry(d, d.entries[i]);
      hide Image, FileType, EntryInode, GoodInode, Proper;
      if FileType(img, i) == 2 { StoredIsGood(d, d.entries[i].inode); }
    }
  }
}
