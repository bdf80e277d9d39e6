/** Reading a file through its direct blocks: ext2_file_read of src/fs/ext2.c. */
module Ext2 {
  import opened Words

  type Byte = b: nat | b < 0x100
  type Dword = w: nat | w < 0x1_0000_0000

  const DIRECT_BLOCKS := 12

  /** block_read of one block: its bytes, or None for a device error. */
  type Device = Dword -> Option<seq<Byte>>

  /** An open file: its inode's size and block table, and the file system it lies on. */
  datatype File = File(size: Dword, blocks: seq<Dword>, blockSize: nat, dev: Device)

  ghost predicate Ok(f: File) {
    && |f.blocks| == 15 && 512 <= f.blockSize <= 4096
    && forall n :: f.dev(n).Some? ==> |f.dev(n).value| == f.blockSize
  }

  /** The bytes of block number k of the file, if the reader can get at them. */
  function BlockOf(f: File, k: nat): (b: Option<seq<Byte>>)
    requires Ok(f)
    ensures b.Some? ==> |b.value| == f.blockSize
  {
    if k >= DIRECT_BLOCKS || f.blocks[k] == 0 then None else f.dev(f.blocks[k])
  }

  function BlockNo(i: nat, size: nat): nat
    requires 0 < size
  {
    i / size
  }

  function BlockOff(i: nat, size: nat): (o: nat)
    requires 0 < size
    ensures o < size
  {
    i % size
  }

  /** Byte i of the file: None in a hole, in an unreadable block and behind the direct blocks. */
  function ByteAt(f: File, i: nat): Option<Byte>
    requires Ok(f)
  {
    var b := BlockOf(f, BlockNo(i, f.blockSize));
    if b.None? then None else
    Some(b.value[BlockOff(i, f.blockSize)])
  }

  /** How many of the n bytes from offset on can be read before the first one that cannot. */
  function Readable(f: File, offset: nat, n: nat): (k: nat)
    requires Ok(f)
    ensures k <= n
    decreases n
  {
    if n == 0 || ByteAt(f, offset).None? then 0 else 1 + Readable(f, offset + 1, n - 1)
  }

  /** The k bytes from offset on. */
  function Slice(f: File, offset: nat, k: nat): (s: seq<Byte>)
    requires Ok(f) && k <= Readable(f, offset, k)
    ensures |s| == k
    decreases k
  {
    if k == 0 then [] else [ByteAt(f, offset).value] + Slice(f, offset + 1, k - 1)
  }

  /** Length of the request after it has been cut at the end of the file; the sum is one of size_t. */
  function Wanted(f: File, offset: Word, len: Word): nat {
    if offset >= f.size then 0
    else if (offset + len) % TWO64 > f.size then f.size - offset else len
  }

  /** Readable is the length of the longest readable prefix of the request. */
  lemma {:induction false} ReadableIs(f: File, offset: nat, n: nat, k: nat)
    requires Ok(f) && k <= n
    ensures Readable(f, offset, n) == k <==>
            (forall i :: offset <= i < offset + k ==> ByteAt(f, i).Some?) && (k < n ==> ByteAt(f, offset + k).None?)
    decreases n
  {
    if n > 0 && k > 0 { ReadableIs(f, offset + 1, n - 1, k - 1); }
  }

  lemma {:induction false} SliceAt(f: File, offset: nat, k: nat, i: nat)
    requires Ok(f) && i < k <= Readable(f, offset, k)
    ensures ByteAt(f, offset + i) == Some(Slice(f, offset, k)[i])
    decreases k
  {
    if i > 0 { SliceAt(f, offset + 1, k - 1, i - 1); }
  }

  lemma InBlock(i: nat, j: nat, size: nat)
    requires 0 < size && BlockOff(i, size) + j < size
    ensures BlockNo(i + j, size) == BlockNo(i, size) && BlockOff(i + j, size) == BlockOff(i, size) + j
  {
    var q, r := i / size, i % size;
    assert i + j == q * size + (r + j);
    DivMod(size, r + j, q);
  }

  method Locate(i: nat, size: nat) returns (blockIndex: nat, blockOff: nat)
    requires 0 < size
    ensures blockIndex == BlockNo(i, size) && blockOff == BlockOff(i, size)
  {
    blockIndex := i / size;
    blockOff := i % size;
  }

  /** The block that holds byte i of the file, and where in it the byte is. */
  method BlockAt(f: File, i: nat) returns (data: Option<seq<Byte>>, blockOff: nat)
    requires Ok(f)
    ensures data == BlockOf(f, BlockNo(i, f.blockSize)) && blockOff == BlockOff(i, f.blockSize)
  {
    hide BlockNo, BlockOff;
    var blockIndex;
    blockIndex, blockOff := Locate(i, f.blockSize);
    if blockIndex >= 12 { return None, blockOff; }
    var blk := f.blocks[blockIndex];
    if blk == 0 { return None, blockOff; }
    data := f.dev(blk);
  }

  /** ext2_file_read: the readable prefix of the request, in blocks, and nothing else of the buffer is touched. */
  method FileRead(f: File, buf: array<Byte>, offset: Word, len: Word) returns (copied: nat)
    requires Ok(f) && Wanted(f, offset, len) <= buf.Length
    modifies buf
    ensures copied == Readable(f, offset, Wanted(f, offset, len)) && copied <= Readable(f, offset, copied)
    ensures buf[..copied] == Slice(f, offset, copied) && buf[copied..] == old(buf[..])[copied..]
  {
    hide ByteAt, BlockOf, BlockNo, BlockOff, Readable, Slice;
    ghost var before := buf[..];
    copied := 0;
    var n: nat := len;
    if offset >= f.size { n := 0; }
    else if (offset + len) % TWO64 > f.size { n := f.size - offset; }
    while copied < n
      invariant copied <= n <= buf.Length
      invariant forall i: nat :: offset <= i < offset + copied ==> ByteAt(f, i) == Some(buf[i - offset])
      invariant buf[copied..] == before[copied..]
    {
      var data, blockOff := BlockAt(f, offset + copied);
      NextByte(f, offset + copied);
      if data.None? { break; }
      var toCopy := f.blockSize - blockOff;
      if toCopy > n - copied { toCopy := n - copied; }
      NextBytes(f, offset + copied, toCopy);
      ghost var rest := buf[copied..];
      forall j | 0 <= j < toCopy { buf[copied + j] := data.value[blockOff + j]; }
      copied := copied + toCopy;
      assert buf[copied..] == rest[toCopy..] == before[copied..];
    }
    Prefix(f, offset, n, copied, buf[..copied]);
  }

  lemma NextByte(f: File, i: nat)
    requires Ok(f)
    ensures ByteAt(f, i).None? <==> BlockOf(f, BlockNo(i, f.blockSize)).None?
  {
  }

  lemma NextBytes(f: File, i: nat, n: nat)
    requires Ok(f) && BlockOff(i, f.blockSize) + n <= f.blockSize
    requires BlockOf(f, BlockNo(i, f.blockSize)).Some?
    ensures var d := BlockOf(f, BlockNo(i, f.blockSize)).value;
            |d| == f.blockSize && forall k: nat :: i <= k < i + n ==> ByteAt(f, k) == Some(d[BlockOff(i, f.blockSize) + (k - i)])
  {
    hide BlockOf, BlockNo, BlockOff;
    forall k: nat | i <= k < i + n ensures ByteAt(f, k) == Some(BlockOf(f, BlockNo(i, f.blockSize)).value[BlockOff(i, f.blockSize) + (k - i)]) {
      InBlock(i, k - i, f.blockSize);
    }
  }

  /** Bytes read one after the other up to the first unreadable one are the slice. */
  lemma Prefix(f: File, offset: nat, n: nat, k: nat, s: seq<Byte>)
    requires Ok(f) && k <= n && |s| == k && (forall i: nat :: offset <= i < offset + k ==> ByteAt(f, i) == Some(s[i - offset]))
    requires k < n ==> ByteAt(f, offset + k).None?
    ensures Readable(f, offset, n) == k && Readable(f, offset, k) == k && Slice(f, offset, k) == s
  {
    hide ByteAt;
    ReadableIs(f, offset, n, k);
    ReadableIs(f, offset, k, k);
    forall i: nat | i < k ensures Slice(f, offset, k)[i] == s[i] { SliceAt(f, offset, k, i); }
  }

  /** Two adjacent reads that both succeed in full are one larger read. */
  lemma AdjacentReads(f: File, offset: nat, a: nat, b: nat)
    requires Ok(f) && Readable(f, offset, a) == a && Readable(f, offset + a, b) == b
    ensures Readable(f, offset, a + b) == a + b
    ensures Slice(f, offset, a + b) == Slice(f, offset, a) + Slice(f, offset + a, b)
  {
    var s := Slice(f, offset, a) + Slice(f, offset + a, b);
    forall i: nat | offset <= i < offset + (a + b) ensures ByteAt(f, i) == Some(s[i - offset]) {
      if i < offset + a { SliceAt(f, offset, a, i - offset); } else { SliceAt(f, offset + a, b, i - offset - a); }
    }
    Prefix(f, offset, a + b, a + b, s);
  }

  /** The file holds these bytes: each is where block table and device put it. */
  ghost predicate Stores(f: File, data: seq<Byte>)
    requires Ok(f)
  {
    && |data| == f.size <= 12 * f.blockSize
    && forall k: nat, o: nat :: Holds(f, data, k, o)
  }

  /** Byte o of block k is in its place on the device; block number 0 is a hole. */
  ghost predicate Holds(f: File, data: seq<Byte>, k: nat, o: nat)
    requires Ok(f)
  {
    o < f.blockSize && k * f.blockSize + o < |data| ==>
      k < 15 && f.blocks[k] != 0 && f.dev(f.blocks[k]).Some? && f.dev(f.blocks[k]).value[o] == data[k * f.blockSize + o]
  }

  /** A file of up to twelve blocks reads back what it stores. */
  lemma ReadsStored(f: File, data: seq<Byte>, offset: nat, n: nat)
    requires Ok(f) && Stores(f, data) && offset + n <= |data|
    ensures Readable(f, offset, n) == n && Slice(f, offset, n) == data[offset..offset + n]
  {
    var s := data[offset..offset + n];
    forall i: nat | offset <= i < offset + n ensures ByteAt(f, i) == Some(s[i - offset]) {
      StoredByte(f, data, i);
    }
    Prefix(f, offset, n, n, s);
  }

  lemma StoredByte(f: File, data: seq<Byte>, i: nat)
    requires Ok(f) && Stores(f, data) && i < |data|
    ensures ByteAt(f, i) == Some(data[i])
  {
    hide BlockNo, BlockOff;
    var k, o := BlockNo(i, f.blockSize), BlockOff(i, f.blockSize);
    Parts(i, f.blockSize);
    if k >= 12 { MulMono(12, k, f.blockSize); }
    assert Holds(f, data, k, o);
  }

  lemma Parts(i: nat, size: nat)
    requires 0 < size
    ensures i == BlockNo(i, size) * size + BlockOff(i, size)
  {
  }

  /** A byte behind the twelfth block cannot be read, whatever the block table says. */
  lemma BehindDirect(f: File, i: nat)
    requires Ok(f) && 12 * f.blockSize <= i
    ensures ByteAt(f, i) == None
  {
    hide BlockNo, BlockOff;
    Parts(i, f.blockSize);
    if BlockNo(i, f.blockSize) < 12 { MulMono(BlockNo(i, f.blockSize) + 1, 12, f.blockSize); }
  }

  /** The request is cut to the file exactly when offset + len does not wrap around. */
  lemma WantedInside(f: File, offset: Word, len: Word)
    requires offset < f.size
    ensures offset + Wanted(f, offset, len) <= f.size <==> offset + len < TWO64
  {
  }
}
