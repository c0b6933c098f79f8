/** Reads from the disk through its sector cache (src/block/ata.c), and from files of the ECE391 file
    system on top of it (src/fs/ece391fs.c). */
module BlockReads {
  import opened GrowArrays

  const SECTOR_SIZE: nat := 512
  const SIGNED_LIMIT: nat := 0x8000_0000
  const EIO: int := -5
  const ENOMEM: int := -12
  const EINVAL: int := -22

  type Byte = b: int | 0 <= b < 256

  datatype Seek = SeekSet | SeekCur | SeekEnd

  /** What filling the cache for a sector comes to. */
  datatype Fill = Filled | NoMemory | IoError

  /** The device refuses the sector, with this error. */
  predicate Refuses(io: nat -> Fill, sector: nat, error: int) {
    (error == ENOMEM && io(sector) == NoMemory) || (error == EIO && io(sector) == IoError)
  }

  /** The error comes from the device, at some sector of the disk. */
  ghost predicate FromDevice(io: nat -> Fill, disk: seq<Byte>, error: int) {
    exists n: nat :: n * SECTOR_SIZE < |disk| && Refuses(io, n, error)
  }

  function Min(a: nat, b: nat): nat {
    if a < b then a else b
  }

  predicate DiskOk(disk: seq<Byte>) {
    |disk| % SECTOR_SIZE == 0 && |disk| < SIGNED_LIMIT
  }

  function Sector(disk: seq<Byte>, n: nat): seq<Byte>
    requires (n + 1) * SECTOR_SIZE <= |disk|
  {
    disk[n * SECTOR_SIZE..(n + 1) * SECTOR_SIZE]
  }

  /** Every cached sector equals the sector on the disk. */
  ghost predicate CacheOk(disk: seq<Byte>, slots: seq<nat>, buffers: map<nat, seq<Byte>>, unused: nat) {
    && unused > 0 && (forall b :: b in buffers ==> b < unused)
    && forall n: nat :: Get(slots, n) != 0 ==> SlotOk(disk, slots, buffers, n)
  }

  ghost predicate SlotOk(disk: seq<Byte>, slots: seq<nat>, buffers: map<nat, seq<Byte>>, n: nat) {
    (n + 1) * SECTOR_SIZE <= |disk| && Get(slots, n) in buffers && buffers[Get(slots, n)] == Sector(disk, n)
  }

  lemma CacheGrows(disk: seq<Byte>, slots: seq<nat>, buffers: map<nat, seq<Byte>>, unused: nat, n: nat)
    requires CacheOk(disk, slots, buffers, unused) && (n + 1) * SECTOR_SIZE <= |disk| < SIGNED_LIMIT
    requires |slots| <= INDEX_LIMIT
    ensures CacheOk(disk, Set(slots, n, unused), buffers[unused := Sector(disk, n)], unused + 1)
  {
    forall m: nat ensures Get(Set(slots, n, unused), m) == if m == n then unused else Get(slots, m) {
      GetAfterSet(slots, n, unused, m);
    }
    hide Get, Set, Sector;
    forall m: nat | Get(Set(slots, n, unused), m) != 0
      ensures SlotOk(disk, Set(slots, n, unused), buffers[unused := Sector(disk, n)], m)
    {
      assert m != n ==> SlotOk(disk, slots, buffers, m);
    }
  }

  /** Bytes from p on, as they lie in the sector of p. */
  lemma SliceOfSector(disk: seq<Byte>, p: nat, n: nat)
    requires p % SECTOR_SIZE + n <= SECTOR_SIZE && (p / SECTOR_SIZE + 1) * SECTOR_SIZE <= |disk|
    ensures p + n <= |disk|
    ensures Sector(disk, p / SECTOR_SIZE)[p % SECTOR_SIZE..p % SECTOR_SIZE + n] == disk[p..p + n]
  {
    var k, off := p / SECTOR_SIZE, p % SECTOR_SIZE;
    assert p == k * SECTOR_SIZE + off && (k + 1) * SECTOR_SIZE == k * SECTOR_SIZE + SECTOR_SIZE;
    SliceOfSlice(disk, k * SECTOR_SIZE, (k + 1) * SECTOR_SIZE, off, off + n);
  }

  lemma SliceOfSlice(s: seq<Byte>, a: nat, b: nat, c: nat, d: nat)
    requires a <= b <= |s| && c <= d <= b - a
    ensures s[a..b][c..d] == s[a + c..a + d]
  {
    var x, y := s[a..b][c..d], s[a + c..a + d];
    assert |x| == |y|;
    forall i: nat | i < |x| ensures x[i] == y[i] {
      assert x[i] == s[a..b][c + i] == s[a + (c + i)];
    }
  }

  lemma SectorInside(disk: seq<Byte>, p: nat)
    requires DiskOk(disk) && p < |disk|
    ensures (p / SECTOR_SIZE + 1) * SECTOR_SIZE <= |disk|
  {
  }

  lemma RefusedIsFromDevice(io: nat -> Fill, disk: seq<Byte>, sector: nat, error: int)
    requires Refuses(io, sector, error) && (sector + 1) * SECTOR_SIZE <= |disk|
    ensures FromDevice(io, disk, error) && error < 0
  {
  }

  class BlockFile {
    const disk: seq<Byte>
    const slots: PointerArray
    var buffers: map<nat, seq<Byte>>
    var nextBuffer: nat
    var pos: nat

    ghost predicate Valid()
      reads this, slots, slots.values
    {
      && DiskOk(disk) && pos <= |disk| && slots.Valid() && CacheOk(disk, slots.View(), buffers, nextBuffer)
    }

    constructor (disk: seq<Byte>)
      requires DiskOk(disk)
      ensures Valid() && this.disk == disk && pos == 0 && fresh(slots) && fresh(slots.values)
    {
      this.disk := disk;
      slots := new PointerArray();
      buffers, nextBuffer, pos := map[], 1, 0;
    }

    /** The cached sector, read from the disk when it is not there yet. */
    method CachedSector(n: nat, io: nat -> Fill) returns (res: int, data: seq<Byte>)
      requires Valid() && (n + 1) * SECTOR_SIZE <= |disk|
      modifies this`buffers, this`nextBuffer, slots, slots.values
      ensures Valid() && (slots.values == old(slots.values) || fresh(slots.values))
      ensures res == 0 ==> data == disk[n * 512..(n + 1) * 512] && data == Sector(disk, n) && |data| == 512
      ensures res != 0 ==> (res == -12 && io(n) == NoMemory) || (res == -5 && io(n) == IoError)
      ensures res != 0 ==> Refuses(io, n, res) && Get(slots.View(), n) == 0 && slots.View() == old(slots.View())
    {
      assert |Sector(disk, n)| == SECTOR_SIZE;
      hide Get, Set, Sector;
      var head := slots.ArrayGet(n);
      if head != 0 {
        assert SlotOk(disk, slots.View(), buffers, n);
        return 0, buffers[head];
      }
      if io(n) == NoMemory { return ENOMEM, []; }
      if io(n) == IoError { return EIO, []; }
      CacheGrows(disk, slots.View(), buffers, nextBuffer, n);
      data := Sector(disk, n);
      buffers := buffers[nextBuffer := data];
      assert n < INDEX_LIMIT;
      var overrun := slots.ArraySet(n, nextBuffer);
      nextBuffer := nextBuffer + 1;
      return 0, data;
    }

    /** ata_read: the disk from the position on, as far as asked and as far as it goes.  An error
        leaves the position behind the bytes read so far. */
    method Read(nbytes: nat, io: nat -> Fill) returns (ret: int, buf: seq<Byte>)
      requires Valid()
      modifies this`buffers, this`nextBuffer, this`pos, slots, slots.values
      ensures Valid() && (slots.values == old(slots.values) || fresh(slots.values))
      ensures pos == old(pos) + |buf| && buf == disk[old(pos)..pos]
      ensures ret >= 0 ==> ret == |buf| == Min(nbytes, |disk| - old(pos))
      ensures ret < 0 ==> pos < |disk| && |buf| < nbytes && Refuses(io, pos / SECTOR_SIZE, ret)
      ensures ret < 0 ==> Get(slots.View(), pos / SECTOR_SIZE) == 0
      ensures ret < 0 ==> FromDevice(io, disk, ret)
    {
      var left: nat := nbytes;
      if left > |disk| - pos { left := |disk| - pos; }
      buf := [];
      if left == 0 { return 0, []; }
      hide CacheOk, Sector, DiskOk, Get, Refuses, FromDevice;
      var p := pos;
      while left > 0
        invariant Valid() && (slots.values == old(slots.values) || fresh(slots.values))
        invariant pos == old(pos) && pos <= p && p + left <= |disk| && buf == disk[pos..p]
        invariant p - pos + left == Min(nbytes, |disk| - pos)
      {
        var num, off := p / SECTOR_SIZE, p % SECTOR_SIZE;
        SectorInside(disk, p);
        var res, head := CachedSector(num, io);
        if res != 0 {
          RefusedIsFromDevice(io, disk, num, res);
          assert |buf| == p - pos < nbytes;
          pos := p;
          return res, buf;
        }
        var inner := SECTOR_SIZE - off;
        if inner > left { inner := left; }
        SliceOfSector(disk, p, inner);
        buf := buf + head[off..off + inner];
        left := left - inner;
        p := p + inner;
      }
      pos := p;
      return |buf|, buf;
    }

    /** ata_seek: the position stays inside the disk. */
    method SeekTo(offset: int, whence: Seek) returns (ret: int)
      requires Valid() && 0 <= offset + SIGNED_LIMIT < 2 * SIGNED_LIMIT
      modifies this`pos
      ensures Valid()
      ensures var to := match whence
                        case SeekSet => offset
                        case SeekCur => old(pos) + offset
                        case SeekEnd => |disk| + offset;
              if 0 <= to < |disk| then ret == pos == to else ret == EINVAL && pos == old(pos)
    {
      var to := match whence case SeekSet => offset case SeekCur => pos + offset case SeekEnd => |disk| + offset;
      if to >= SIGNED_LIMIT { to := to - 2 * SIGNED_LIMIT; }
      if to < 0 || to >= |disk| { return EINVAL; }
      pos := to;
      return to;
    }
  }

  // ---- Files of blocks -----------------------------------------------------------------------

  const BLOCK_SIZE: nat := 4096

  function Word(s: seq<Byte>): nat
    requires |s| == 4
  {
    (s[0] as nat) + 256 * (s[1] as nat) + 65536 * (s[2] as nat) + 16777216 * (s[3] as nat)
  }

  function IdPos(inode: nat, k: nat): nat {
    (inode + 1) * BLOCK_SIZE + (k + 1) * 4
  }

  /** The number of the k-th data block of a file. */
  function BlockId(disk: seq<Byte>, inode: nat, k: nat): nat
    requires IdPos(inode, k) + 4 <= |disk|
  {
    Word(disk[IdPos(inode, k)..IdPos(inode, k) + 4])
  }

  function DataPos(inodes: nat, id: nat): nat {
    (inodes + id + 1) * BLOCK_SIZE
  }

  /** The disk is the boot block, the blocks of the inodes, and the data blocks, one behind the other. */
  lemma BlocksApart(inodes: nat, inode: nat, id: nat, other: nat)
    requires inode < inodes
    ensures DataPos(inodes, id) >= 4096 && DataPos(inodes, id) >= (inode + 1) * 4096 + 4096
    ensures DataPos(inodes, 0) == inodes * 4096 + 4096 && DataPos(inodes, id + 1) == DataPos(inodes, id) + 4096
    ensures id < other ==> DataPos(inodes, id) + 4096 <= DataPos(inodes, other)
  {
  }

  /** The block numbers of a file stand behind its size in the block of its inode, as many as fit. */
  lemma IdsInInode(inode: nat, k: nat)
    ensures IdPos(inode, 0) == (inode + 1) * 4096 + 4 && IdPos(inode, k + 1) == IdPos(inode, k) + 4
    ensures k < 1023 <==> IdPos(inode, k) + 4 <= (inode + 2) * 4096
  {
  }

  /** A number of 32 bits as it lies in memory, the low byte first. */
  function WordBytes(n: nat): (s: seq<Byte>)
    requires n < WORD
    ensures |s| == 4
  {
    [n % 256, n / 256 % 256, n / 65536 % 256, n / 16777216]
  }

  lemma WordRoundTrip(n: nat)
    requires n < WORD
    ensures Word(WordBytes(n)) == n
  {
    assert n / 256 / 256 == n / 65536 && n / 65536 / 256 == n / 16777216;
    assert n == n / 256 * 256 + n % 256;
    assert n / 256 == n / 65536 * 256 + n / 256 % 256;
    assert n / 65536 == n / 16777216 * 256 + n / 65536 % 256;
  }

  /** All blocks of the file are on the disk. */
  ghost predicate FileOk(disk: seq<Byte>, inodes: nat, inode: nat, size: nat) {
    && size < SIGNED_LIMIT
    && forall k: nat :: k * BLOCK_SIZE < size ==> BlockOk(disk, inodes, inode, k)
  }

  ghost predicate BlockOk(disk: seq<Byte>, inodes: nat, inode: nat, k: nat) {
    IdPos(inode, k) + 4 <= |disk| && DataPos(inodes, BlockId(disk, inode, k)) + BLOCK_SIZE <= |disk|
  }

  /** Byte i of the file: its data blocks one after the other. */
  ghost function FileByte(disk: seq<Byte>, inodes: nat, inode: nat, size: nat, i: nat): Byte
    requires FileOk(disk, inodes, inode, size) && i < size
  {
    var k := i / BLOCK_SIZE;
    assert BlockOk(disk, inodes, inode, k);
    disk[DataPos(inodes, BlockId(disk, inode, k)) + i % BLOCK_SIZE]
  }

  ghost function FileData(disk: seq<Byte>, inodes: nat, inode: nat, size: nat): (data: seq<Byte>)
    requires FileOk(disk, inodes, inode, size)
    ensures |data| == size
  {
    seq(size, i requires 0 <= i < size => FileByte(disk, inodes, inode, size, i))
  }

  lemma SameBlock(i: nat, j: nat)
    requires i % BLOCK_SIZE + j < BLOCK_SIZE
    ensures (i + j) / BLOCK_SIZE == i / BLOCK_SIZE && (i + j) % BLOCK_SIZE == i % BLOCK_SIZE + j
  {
  }

  /** A stretch inside one block. */
  lemma InOneBlock(disk: seq<Byte>, inodes: nat, inode: nat, size: nat, i: nat, n: nat)
    requires FileOk(disk, inodes, inode, size) && i + n <= size && n > 0 && i % BLOCK_SIZE + n <= BLOCK_SIZE
    ensures BlockOk(disk, inodes, inode, i / BLOCK_SIZE)
    ensures var at := DataPos(inodes, BlockId(disk, inode, i / BLOCK_SIZE)) + i % BLOCK_SIZE;
            at + n <= |disk| && FileData(disk, inodes, inode, size)[i..i + n] == disk[at..at + n]
  {
  }

  /** The file is its data blocks in the order of their numbers in the inode, cut to its size. */
  lemma FileIsItsBlocks(disk: seq<Byte>, inodes: nat, inode: nat, size: nat, k: nat)
    requires FileOk(disk, inodes, inode, size) && k * 4096 < size
    ensures (inode + 1) * 4096 + 4 + 4 * k + 4 <= |disk|
    ensures var id := Word(disk[(inode + 1) * 4096 + 4 + 4 * k..(inode + 1) * 4096 + 4 + 4 * k + 4]);
            var n := Min(size - k * 4096, 4096);
            && DataPos(inodes, id) + n <= |disk|
            && FileData(disk, inodes, inode, size)[k * 4096..k * 4096 + n]
               == disk[DataPos(inodes, id)..DataPos(inodes, id) + n]
  {
    InOneBlock(disk, inodes, inode, size, k * 4096, Min(size - k * 4096, 4096));
    hide Word, FileData, FileOk;
  }

  class BlocksFile {
    const dev: BlockFile
    const inodes: nat
    const inode: nat
    const size: nat
    var pos: nat

    constructor (dev: BlockFile, inodes: nat, inode: nat, size: nat)
      ensures this.dev == dev && this.inodes == inodes && this.inode == inode && this.size == size && pos == 0
    {
      this.dev, this.inodes, this.inode, this.size, pos := dev, inodes, inode, size, 0;
    }

    ghost predicate Valid()
      reads this, dev, dev.slots, dev.slots.values
    {
      dev.Valid() && FileOk(dev.disk, inodes, inode, size) && pos <= size
    }

    /** The first half of ece391fs_read_data: the number of the k-th block. */
    method ReadBlockId(k: nat, io: nat -> Fill) returns (res: int, id: int)
      requires dev.Valid() && IdPos(inode, k) + 4 <= |dev.disk|
      modifies dev`buffers, dev`nextBuffer, dev`pos, dev.slots, dev.slots.values
      ensures dev.Valid() && (dev.slots.values == old(dev.slots.values) || fresh(dev.slots.values))
      ensures res >= 0 ==> id == BlockId(dev.disk, inode, k)
      ensures res < 0 ==> FromDevice(io, dev.disk, res)
    {
      hide CacheOk, Word;
      id := 0;
      var inodeBlockPos := (inode + 1) * BLOCK_SIZE;
      res := dev.SeekTo(inodeBlockPos + (k + 1) * 4, SeekSet);
      if res < 0 { return; }
      var bytes;
      res, bytes := dev.Read(4, io);
      if res < 0 { return; }
      id := Word(bytes);
    }

    /** ece391fs_read_data: at most to the end of one block. */
    method ReadData(offset: nat, length: nat, io: nat -> Fill) returns (res: int, buf: seq<Byte>)
      requires Valid() && offset + length <= size && length > 0
      modifies dev`buffers, dev`nextBuffer, dev`pos, dev.slots, dev.slots.values
      ensures Valid() && (dev.slots.values == old(dev.slots.values) || fresh(dev.slots.values))
      ensures res >= 0 ==> res == |buf| == Min(length, BLOCK_SIZE - offset % BLOCK_SIZE)
                           && buf == FileData(dev.disk, inodes, inode, size)[offset..offset + |buf|]
      ensures res < 0 ==> FromDevice(io, dev.disk, res)
    {
      hide CacheOk, FileOk, FileData, BlockId;
      var k := offset / BLOCK_SIZE;
      InOneBlock(dev.disk, inodes, inode, size, offset, Min(length, BLOCK_SIZE - offset % BLOCK_SIZE));
      var blockId;
      res, blockId := ReadBlockId(k, io);
      if res < 0 { return res, []; }
      res := dev.SeekTo((inodes + blockId + 1) * BLOCK_SIZE + offset % BLOCK_SIZE, SeekSet);
      if res < 0 { return res, []; }
      var len := length;
      if len > BLOCK_SIZE - offset % BLOCK_SIZE { len := BLOCK_SIZE - offset % BLOCK_SIZE; }
      res, buf := dev.Read(len, io);
    }

    /** ece391fs_read: the slice of the file at the position, clamped to its size. */
    method Read(nbytes: nat, io: nat -> Fill) returns (ret: int, buf: seq<Byte>)
      requires Valid()
      modifies this`pos, dev`buffers, dev`nextBuffer, dev`pos, dev.slots, dev.slots.values
      ensures Valid() && (dev.slots.values == old(dev.slots.values) || fresh(dev.slots.values))
      ensures pos == old(pos) + |buf| && buf == FileData(dev.disk, inodes, inode, size)[old(pos)..pos]
      ensures ret >= 0 ==> ret == |buf| == Min(nbytes, size - old(pos))
      ensures ret < 0 ==> pos < size && |buf| < nbytes && FromDevice(io, dev.disk, ret)
    {
      hide FromDevice, CacheOk, DiskOk, FileOk;
      var left: nat := nbytes;
      if left > size - pos { left := size - pos; }
      var read := left;
      buf := [];
      ghost var data := FileData(dev.disk, inodes, inode, size);
      while left > 0
        invariant Valid() && (dev.slots.values == old(dev.slots.values) || fresh(dev.slots.values))
        invariant pos == old(pos) + |buf| && pos + left <= size && |buf| + left == read
        invariant buf == data[old(pos)..pos]
      {
        var res, part := ReadData(pos, left, io);
        if res < 0 { return res, buf; }
        assert data[old(pos)..pos] + data[pos..pos + res] == data[old(pos)..pos + res];
        left := left - res;
        buf := buf + part;
        pos := pos + res;
      }
      return read, buf;
    }

    /** Splitting a read never changes the bytes. */
    method ReadTwice(m: nat, n: nat, io: nat -> Fill) returns (ok: bool, buf: seq<Byte>)
      requires Valid()
      modifies this`pos, dev`buffers, dev`nextBuffer, dev`pos, dev.slots, dev.slots.values
      ensures Valid()
      ensures ok ==> buf == FileData(dev.disk, inodes, inode, size)[old(pos)..old(pos) + Min(m + n, size - old(pos))]
      ensures !ok ==> exists error :: FromDevice(io, dev.disk, error)
    {
      var r1, b1 := Read(m, io);
      if r1 < 0 { return false, b1; }
      var r2, b2 := Read(n, io);
      if r2 < 0 { return false, b1 + b2; }
      return true, b1 + b2;
    }
  }
}
