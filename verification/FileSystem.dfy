/**
 * The flat part of the file-system simulator, with its tables updated in place: bitmaps, inodes,
 * the current directory and the disk.
 */
module FileSystem {
  import opened Blocks
  import opened BitAllocator
  import opened FlatFs
  import opened FsTheorems
  import opened FsLayout

  class FS {
    const blocks: Allocator
    const inodes: Allocator
    const inode: array<Inode>
    const disk: array<Block>
    const dentry: array<Entry>
    var numEntry: nat

    /** The specification state that the tables stand for. */
    ghost var view: Fs
    /** Where each file lies, and which file owns each block. */
    ghost var place: map<nat, Place>
    ghost var owner: map<nat, nat>

    ghost predicate Shape() {
      && blocks != inodes && blocks.bits != inodes.bits
      && (var b: object := blocks.bits; b != inode && b != disk && b != dentry)
      && (var b: object := inodes.bits; b != inode && b != disk && b != dentry)
      && (var b: object := inode; b != disk && b != dentry)
      && (var b: object := disk; b != dentry)
      && blocks.limit == MAX_BLOCK && inodes.limit == MAX_INODE
      && inode.Length == MAX_INODE && disk.Length == MAX_BLOCK && dentry.Length == MAX_DIR_ENTRY
    }

    /** Both counters agree with their maps and with the space that the files leave over. */
    ghost predicate CountersHold(s: Fs)
      reads blocks, blocks.bits, inodes, inodes.bits
    {
      && blocks.Valid() && inodes.Valid()
      && blocks.free == FreeBlocks(s) && inodes.free == FreeInodes(s)
    }

    ghost predicate DirHolds(dir: seq<Entry>)
      requires Shape()
      reads this`numEntry, dentry
    {
      numEntry == |dir| <= MAX_DIR_ENTRY && dentry[..numEntry] == dir
    }

    ghost predicate TablesHold(s: Fs, p: map<nat, Place>, o: map<nat, nat>)
      requires Shape()
      reads blocks.bits, inodes.bits, inode, disk
    {
      Consistent(blocks.Used(), inodes.Used(), inode[..], disk[..], s, p, o)
    }

    ghost predicate Valid()
      reads this, blocks, blocks.bits, inodes, inodes.bits, inode, disk, dentry
    {
      Shape() && CountersHold(view) && DirHolds(view.dir) && TablesHold(view, place, owner)
    }

    // ----- formatting

    /** Mounting a new disk. The image is how the directory structure looks as a block. */
    constructor (image: Block)
      ensures Valid() && view == Formatted(image[0])
      ensures fresh(blocks) && fresh(blocks.bits) && fresh(inodes) && fresh(inodes.bits)
      ensures fresh(inode) && fresh(disk) && fresh(dentry)
    {
      hide Allocator.Used, Allocator.Valid, CountersHold, DirHolds, TablesHold, Formatted;
      blocks := new Allocator(MAX_BLOCK / 8);
      inodes := new Allocator(MAX_INODE / 8);
      inode := new Inode[MAX_INODE](_ => Inode(File, 0, 0, seq(DIRECT, _ => 0), 0, 0));
      disk := new Block[MAX_BLOCK](_ => seq(BLOCK_SIZE, _ => 0));
      dentry := new Entry[MAX_DIR_ENTRY](_ => Entry("", 0));
      numEntry := 0;
      view, place, owner := Fs([], map[]), map[], map[];
      new;
      InitInodeMap();
      InitBlockMap();
      InitRoot(image);
    }

    /** Writes the first bits of the inode map; the rest are clear already. */
    method InitInodeMap()
      requires Shape() && inodes.Valid()
      requires forall i :: 0 <= i < MAX_INODE ==> !inodes.Used()[i]
      modifies inodes, inodes.bits
      ensures inodes.Valid() && inodes.free == MAX_INODE
      ensures forall i :: 0 <= i < MAX_INODE ==> !inodes.Used()[i]
    {
      hide Flags, CountClear;
      ghost var was := inodes.Used();
      AllClear(was);
      inodes.free := MAX_INODE;
      for i := 0 to MAX_INODE / 8
        invariant inodes.Used() == was && inodes.free == MAX_INODE
      {
        inodes.SetBit(i, 0);
      }
    }

    /** Marks the reserved blocks among the first bits of the block map; the rest are clear already. */
    method InitBlockMap()
      requires Shape() && blocks.Valid()
      requires forall i :: 0 <= i < MAX_BLOCK ==> !blocks.Used()[i]
      modifies blocks, blocks.bits
      ensures blocks.Valid() && blocks.free == MAX_BLOCK - RESERVED
      ensures forall i :: 0 <= i < MAX_BLOCK ==> (blocks.Used()[i] <==> i < RESERVED)
    {
      hide Flags, CountClear;
      AllClear(blocks.Used());
      blocks.free := MAX_BLOCK - RESERVED;
      for i := 0 to MAX_BLOCK / 8
        invariant blocks.free == MAX_BLOCK - RESERVED
        invariant forall j :: 0 <= j < MAX_BLOCK ==> (blocks.Used()[j] <==> j < i && j < RESERVED)
        invariant CountClear(blocks.Used()) == MAX_BLOCK - if i < RESERVED then i else RESERVED
      {
        CountUpdate(blocks.Used(), i, i < RESERVED);
        if i < RESERVED {
          blocks.SetBit(i, 1);
        } else {
          blocks.SetBit(i, 0);
        }
      }
    }

    /** The root directory gets the first free inode and the first free block. */
    method TakeRoot() returns (rootInode: int, curDirInode: int)
      requires Shape() && blocks.Valid() && inodes.Valid()
      requires blocks.free == MAX_BLOCK - RESERVED && inodes.free == MAX_INODE
      requires forall i :: 0 <= i < MAX_BLOCK ==> (blocks.Used()[i] <==> i < RESERVED)
      requires forall i :: 0 <= i < MAX_INODE ==> !inodes.Used()[i]
      modifies blocks, blocks.bits, inodes, inodes.bits
      ensures rootInode == 0 && curDirInode == RESERVED
      ensures blocks.Valid() && inodes.Valid()
      ensures blocks.free == MAX_BLOCK - RESERVED - 1 && inodes.free == MAX_INODE - 1
      ensures forall i :: 0 <= i < MAX_BLOCK ==> (blocks.Used()[i] <==> i <= RESERVED)
      ensures forall i :: 0 <= i < MAX_INODE ==> (inodes.Used()[i] <==> i == 0)
    {
      hide Flags, CountClear;
      ghost var bu, iu := blocks.Used(), inodes.Used();
      assert !iu[0] && !bu[RESERVED];
      rootInode := inodes.Get();
      curDirInode := blocks.Get();
    }

    /** Makes the root directory. */
    method InitRoot(image: Block)
      requires Shape() && blocks.Valid() && inodes.Valid()
      requires blocks.free == MAX_BLOCK - RESERVED && inodes.free == MAX_INODE
      requires forall i :: 0 <= i < MAX_BLOCK ==> (blocks.Used()[i] <==> i < RESERVED)
      requires forall i :: 0 <= i < MAX_INODE ==> !inodes.Used()[i]
      modifies this, blocks, blocks.bits, inodes, inodes.bits, inode, disk, dentry
      ensures Valid() && view == Formatted(image[0])
    {
      hide Allocator.Used, Allocator.Valid, Consistent, SumCost;
      var rootInode, curDirInode := TakeRoot();
      ghost var bu, iu := blocks.Used(), inodes.Used();
      inode[rootInode] := inode[rootInode].(kind := Directory, size := 1, blockCount := 1,
                                            direct := inode[rootInode].direct[0 := curDirInode]);
      numEntry := 1;
      dentry[0] := Entry(".", rootInode);
      var ok := WriteDiskBlock(curDirInode, image);
      view, place, owner := Formatted(image[0]), map[0 := Place([RESERVED], 0)], map[RESERVED := 0];
      FormattedSpace(image[0]);
      assert blocks.Used() == bu && inodes.Used() == iu;
      FormattedConsistent(bu, iu, inode[..], disk[..], image);
    }

    // ----- reading

    /** The inode number of a name, or -1. */
    method SearchCurDir(name: string) returns (id: int)
      requires Shape() && DirHolds(view.dir)
      ensures id == Lookup(view.dir, name)
    {
      hide Lookup;
      for i := 0 to numEntry
        invariant forall j :: 0 <= j < i ==> view.dir[j].name != name
      {
        assert view.dir[i] == dentry[i];
        if dentry[i].name == name {
          LookupAt(view.dir, name, i);
          return dentry[i].inode;
        }
      }
      return -1;
    }

    /** A copy of the block, unless the number is out of range. */
    method ReadDiskBlock(block: int) returns (ok: bool, buf: Block)
      requires Shape()
      ensures ok <==> 0 <= block < MAX_BLOCK
      ensures ok ==> buf == disk[block]
    {
      if block < 0 || block >= MAX_BLOCK {
        return false, seq(BLOCK_SIZE, _ => 0);
      }
      return true, disk[block];
    }

    method WriteDiskBlock(block: int, buf: Block) returns (ok: bool)
      requires Shape()
      modifies disk
      ensures ok <==> 0 <= block < MAX_BLOCK
      ensures disk[..] == if ok then old(disk[..])[block := buf] else old(disk[..])
    {
      if block < 0 || block >= MAX_BLOCK {
        return false;
      }
      disk[block] := buf;
      return true;
    }

    /** Copies the first n bytes of a block to position at of the buffer. */
    method Memcpy(str: array<byte>, at: nat, buf: Block, n: nat)
      requires n <= BLOCK_SIZE && at + n <= str.Length
      modifies str
      ensures str[..] == old(str[..])[..at] + buf[..n] + old(str[..])[at + n..]
    {
      ghost var was := str[..];
      for j := 0 to n
        invariant str[..] == was[..at] + buf[..j] + was[at + j..]
      {
        str[at + j] := buf[j];
      }
    }

    /** Copies block number `block`, which holds the i-th 512 bytes of a file of the given size. */
    method CopyOut(str: array<byte>, i: nat, block: int, left: nat, ghost bytes: seq<byte>) returns (left': nat)
      requires Shape() && 0 <= block < MAX_BLOCK && Matches(disk[block], bytes, i)
      requires str.Length == |bytes| && BLOCK_SIZE * i + left == |bytes| && left > 0
      requires str[..BLOCK_SIZE * i] == bytes[..BLOCK_SIZE * i]
      modifies str
      ensures left' == if left >= BLOCK_SIZE then left - BLOCK_SIZE else left
      ensures left >= BLOCK_SIZE ==> str[..BLOCK_SIZE * (i + 1)] == bytes[..BLOCK_SIZE * (i + 1)]
      ensures left < BLOCK_SIZE ==> str[..] == bytes
    {
      var ok, buf := ReadDiskBlock(block);
      left' := left;
      if left >= BLOCK_SIZE {
        Memcpy(str, BLOCK_SIZE * i, buf, BLOCK_SIZE);
        left' := left - BLOCK_SIZE;
        assert str[..BLOCK_SIZE * (i + 1)] == bytes[..BLOCK_SIZE * i] + buf[..BLOCK_SIZE];
        assert buf[..BLOCK_SIZE] == bytes[BLOCK_SIZE * i..BLOCK_SIZE * (i + 1)];
      } else {
        Memcpy(str, BLOCK_SIZE * i, buf, left);
        assert str[..] == bytes[..BLOCK_SIZE * i] + buf[..left];
        assert buf[..left] == bytes[BLOCK_SIZE * i..];
      }
    }

    /** Where a live file is found from its inode. */
    lemma Located(id: nat)
      requires Valid() && id in view.files
      ensures Shape() && id < MAX_INODE
      ensures Reachable(inode[id], disk[..], view.files[id])
    {
      hide FileFits, Reachable;
      ConsistentAt(blocks.Used(), inodes.Used(), inode[..], disk[..], view, place, owner, id);
      FitsReachable(inode[..], disk[..], view, id, place[id], owner);
    }

    /** Whether the first i blocks of the file have been copied and `left` is right. */
    ghost predicate Copied(str: array<byte>, i: nat, left: nat, bytes: seq<byte>)
      reads str
    {
      && str.Length == |bytes|
      && i <= BlocksFor(|bytes|)
      && (i < BlocksFor(|bytes|) ==>
        BLOCK_SIZE * i + left == |bytes| && left > 0 && str[..BLOCK_SIZE * i] == bytes[..BLOCK_SIZE * i])
      && (i == BlocksFor(|bytes|) ==> str[..] == bytes)
    }

    lemma CopiedEnds(str: array<byte>, i: nat, left: nat, bytes: seq<byte>)
      requires str.Length == |bytes| >= 1
      ensures Copied(str, 0, |bytes|, bytes)
      ensures Copied(str, i, left, bytes) && i == BlocksFor(|bytes|) ==> str[..] == bytes
    {
    }

    /** One more block, as long as there are any. */
    method CopyNext(str: array<byte>, i: nat, block: int, left: nat, ghost bytes: seq<byte>) returns (left': nat)
      requires Shape() && 0 <= block < MAX_BLOCK && Matches(disk[block], bytes, i)
      requires Copied(str, i, left, bytes) && i < BlocksFor(|bytes|)
      modifies str
      ensures Copied(str, i + 1, left', bytes)
    {
      IndirectIff(|bytes|);
      left' := CopyOut(str, i, block, left, bytes);
      assert BLOCK_SIZE * (i + 1) == |bytes| ==>
        str[..BLOCK_SIZE * (i + 1)] == str[..] && bytes[..BLOCK_SIZE * (i + 1)] == bytes;
    }

    /** Shows the content of a file. */
    method FileCat(name: string) returns (code: Code, shown: seq<byte>)
      requires Valid()
      ensures (code, shown) == Show(view, name)
    {
      hide Consistent, CountersHold, DirHolds, TablesHold, Lookup, Decode, Matches, Copied, Allocator.Used,
           Allocator.Valid;
      var inodeNum := SearchCurDir(name);
      if inodeNum < 0 {
        return Failed(NotFound), [];
      }
      Named(name);
      Located(inodeNum);
      ghost var bytes := view.files[inodeNum].bytes;
      var ino := inode[inodeNum];
      var numBlock: nat := ino.size / BLOCK_SIZE;
      if ino.size % BLOCK_SIZE > 0 {
        numBlock := numBlock + 1;
      }
      if ino.kind == Directory {
        return Failed(IsDirectory), [];
      }
      IndirectIff(|bytes|);
      var str := new byte[ino.size];
      var i: nat, left: nat := 0, ino.size;
      CopiedEnds(str, i, left, bytes);
      while i < DIRECT && i < numBlock
        invariant i <= DIRECT && i <= numBlock && Copied(str, i, left, bytes)
      {
        left := CopyNext(str, i, ino.direct[i], left, bytes);
        i := i + 1;
      }
      if ino.size > DIRECT_SIZE {
        var ok, buf := ReadDiskBlock(ino.indirect);
        var indirectMap := Decode(buf);
        while i < numBlock
          invariant DIRECT <= i <= numBlock && Copied(str, i, left, bytes)
        {
          assert Listed(disk[..], ino.indirect, bytes, i);
          left := CopyNext(str, i, indirectMap[i - DIRECT], left, bytes);
          i := i + 1;
        }
      }
      CopiedEnds(str, i, left, bytes);
      return Done, str[..];
    }

    lemma Named(name: string)
      requires Valid()
      ensures Lookup(view.dir, name) >= 0 ==> Lookup(view.dir, name) in view.files
    {
    }

    // ----- taking and filling blocks

    /** Since used0 and disk0 the blocks taken were allocated, and those of data hold the first part of bytes. */
    ghost predicate Fill(used0: seq<bool>, disk0: seq<Block>, taken: seq<nat>, data: seq<nat>, bytes: seq<byte>)
      reads blocks, blocks.bits, disk
    {
      && blocks.Valid()
      && |used0| == MAX_BLOCK && (forall r :: 0 <= r < RESERVED ==> used0[r])
      && Filling(used0, blocks.Used(), disk0, disk[..], taken, data, bytes)
    }

    /** A free block. The counter has been checked, so there is one. */
    method TakeBlock(ghost used0: seq<bool>, ghost disk0: seq<Block>, ghost taken: seq<nat>, ghost data: seq<nat>,
                     ghost bytes: seq<byte>)
      returns (block: int)
      requires Shape() && Fill(used0, disk0, taken, data, bytes) && blocks.free > 0
      modifies blocks, blocks.bits
      ensures 0 <= block < MAX_BLOCK && Fill(used0, disk0, taken + [block], data, bytes)
      ensures block in taken + [block] && block !in taken && (forall i :: 0 <= i < |data| ==> data[i] != block)
      ensures blocks.free == old(blocks.free) - 1
    {
      hide Filling;
      ghost var was := blocks.Used();
      block := blocks.Get();
      if block == -1 {
        assert false;
      }
      FillTake(used0, was, disk0, disk[..], taken, data, bytes, block);
    }

    /** Writes the next part of the bytes to a block just taken. */
    method PutData(block: int, buf: Block, ghost used0: seq<bool>, ghost disk0: seq<Block>, ghost taken: seq<nat>,
                   ghost data: seq<nat>, ghost bytes: seq<byte>)
      requires Shape() && Fill(used0, disk0, taken, data, bytes)
      requires 0 <= block < MAX_BLOCK && block in taken && (forall i :: 0 <= i < |data| ==> data[i] != block)
      requires Matches(buf, bytes, |data|)
      modifies disk
      ensures Fill(used0, disk0, taken, data + [block], bytes)
    {
      hide Filling, Matches;
      FillPut(used0, blocks.Used(), disk0, disk[..], taken, data, bytes, block, buf);
      var ok := WriteDiskBlock(block, buf);
    }

    /** Writes the map of block numbers to the indirect block. */
    method PutMap(block: int, indirectMap: BlockMap, ghost used0: seq<bool>, ghost disk0: seq<Block>,
                  ghost taken: seq<nat>, ghost data: seq<nat>, ghost bytes: seq<byte>)
      requires Shape() && Fill(used0, disk0, taken, data, bytes)
      requires 0 <= block < MAX_BLOCK && block in taken && (forall i :: 0 <= i < |data| ==> data[i] != block)
      modifies disk
      ensures Fill(used0, disk0, taken, data, bytes) && Decode(disk[block]) == indirectMap
    {
      hide Filling, Matches, Decode, Encode;
      FillPut(used0, blocks.Used(), disk0, disk[..], taken, data, bytes, block, Encode(indirectMap));
      var ok := WriteDiskBlock(block, Encode(indirectMap));
      DecodeEncode(indirectMap);
      assert disk[..][block] == disk[block];
    }

    // ----- creating

    /** Writes the first blocks of the content and returns the direct block numbers. */
    method CreateDirect(tmp: seq<byte>, numBlock: nat, ghost used0: seq<bool>, ghost disk0: seq<Block>,
                        ghost bytes: seq<byte>)
      returns (direct: Directs, ghost data: seq<nat>)
      requires Shape() && Fill(used0, disk0, [], [], bytes)
      requires blocks.free >= numBlock && Chunks(tmp, numBlock, bytes)
      modifies blocks, blocks.bits, disk
      ensures |data| == (if numBlock < DIRECT then numBlock else DIRECT) && Fill(used0, disk0, data, data, bytes)
      ensures forall i :: 0 <= i < |data| ==> direct[i] == data[i]
      ensures blocks.free == old(blocks.free) - |data|
    {
      hide Fill, Matches;
      direct := *;
      data := [];
      var i := 0;
      while i < DIRECT && i < numBlock
        invariant i == |data| <= DIRECT && i <= numBlock
        invariant Fill(used0, disk0, data, data, bytes)
        invariant forall n :: 0 <= n < i ==> direct[n] == data[n]
        invariant blocks.free == old(blocks.free) - i
      {
        var block := TakeBlock(used0, disk0, data, data, bytes);
        direct := direct[i := block];
        PutData(block, Chunk(tmp, i), used0, disk0, data + [block], data, bytes);
        data := data + [block];
        i := i + 1;
      }
    }

    /** Takes an indirect block, writes the rest of the content and then the map of its blocks. */
    method CreateIndirect(tmp: seq<byte>, numBlock: nat, ghost used0: seq<bool>, ghost disk0: seq<Block>,
                          ghost first: seq<nat>, ghost bytes: seq<byte>)
      returns (indirect: int32, ghost more: seq<nat>)
      requires Shape() && Fill(used0, disk0, first, first, bytes) && |first| == DIRECT
      requires DIRECT < numBlock <= DIRECT + INDIRECT && blocks.free >= numBlock - DIRECT + 1
      requires Chunks(tmp, numBlock, bytes)
      modifies blocks, blocks.bits, disk
      ensures 0 <= indirect < MAX_BLOCK && |more| == numBlock - DIRECT
      ensures Fill(used0, disk0, first + [indirect] + more, first + more, bytes)
      ensures Lists(disk[indirect], first + more)
      ensures blocks.free == old(blocks.free) - |more| - 1
    {
      hide Fill, Matches, Decode;
      indirect := TakeBlock(used0, disk0, first, first, bytes);
      var indirectMap: BlockMap := *;
      more := [];
      assert first + [indirect] + more == first + [indirect] && first + more == first;
      var i := DIRECT;
      while i < numBlock
        invariant i == DIRECT + |more| <= numBlock
        invariant Fill(used0, disk0, first + [indirect] + more, first + more, bytes)
        invariant forall n :: 0 <= n < |more| ==> indirectMap[n] == more[n]
        invariant blocks.free == old(blocks.free) - |more| - 1
      {
        ghost var taken, data := first + [indirect] + more, first + more;
        var block := TakeBlock(used0, disk0, taken, data, bytes);
        indirectMap := indirectMap[i - DIRECT := block];
        PutData(block, Chunk(tmp, i), used0, disk0, taken + [block], data, bytes);
        assert taken + [block] == first + [indirect] + (more + [block]) && data + [block] == first + (more + [block]);
        more := more + [block];
        i := i + 1;
      }
      IndirectApart(used0, disk0, first, indirect, more, bytes);
      PutMap(indirect, indirectMap, used0, disk0, first + [indirect] + more, first + more, bytes);
    }

    lemma IndirectApart(used0: seq<bool>, disk0: seq<Block>, first: seq<nat>, indirect: nat, more: seq<nat>,
                        bytes: seq<byte>)
      requires Shape() && Fill(used0, disk0, first + [indirect] + more, first + more, bytes)
      ensures indirect in first + [indirect] + more
      ensures forall i :: 0 <= i < |first + more| ==> (first + more)[i] != indirect
    {
      var taken := first + [indirect] + more;
      assert taken[|first|] == indirect;
      assert forall i :: 0 <= i < |first + more| ==> (first + more)[i] == taken[if i < |first| then i else i + 1];
    }

    /** Writes the inode of a new file whose blocks are filled and whose name is entered. */
    method FinishNew(name: string, id: nat, ino: Inode, ghost bu0: seq<bool>, ghost iu0: seq<bool>,
                     ghost disk0: seq<Block>, ghost taken: seq<nat>, ghost p: Place, ghost f: FileData)
      requires Shape() && id < MAX_INODE && id !in view.files
      requires Consistent(bu0, iu0, inode[..], disk0, view, place, owner)
      requires Grown(bu0, blocks.Used(), disk0, disk[..], taken) && NewPlace(p, taken)
      requires inodes.Used() == iu0[id := true]
      requires Lookup(view.dir, name) == -1 && |view.dir| < MAX_DIR_ENTRY && 1 <= |f.bytes| <= MAX_SIZE
      requires InodeFits(ino, f, p) && ino.linkCount == 1 && Stored(disk[..], f.bytes, p)
      requires DirHolds(view.dir + [Entry(name, id)])
      requires blocks.Valid() && inodes.Valid()
      requires blocks.free == FreeBlocks(view) - Cost(|f.bytes|) && inodes.free == FreeInodes(view) - 1
      modifies this`view, this`place, this`owner, inode
      ensures Valid()
      ensures view == Fs(old(view.dir) + [Entry(name, id)], old(view.files)[id := f])
      ensures id in place && place[id] == p
    {
      hide Consistent, Grown, NewPlace, Stored, InodeFits, Claim, Cost, SumCost, Lookup, Allocator.Used,
           Allocator.Valid;
      SpaceAfterAdd(view, name, id, f);
      FileAdded(bu0, blocks.Used(), iu0, inode[..], disk0, disk[..], taken, view, place, owner, name, id, ino, f, p);
      ghost var before := inode[..];
      inode[id] := ino;
      view, place, owner := Fs(view.dir + [Entry(name, id)], view.files[id := f]), place[id := p],
      Claim(owner, Layout(p), id);
      assert inode[..] == before[id := ino];
      Assemble();
    }

    lemma Assemble()
      requires Shape() && DirHolds(view.dir)
      requires blocks.Valid() && inodes.Valid() && blocks.free == FreeBlocks(view) && inodes.free == FreeInodes(view)
      requires Consistent(blocks.Used(), inodes.Used(), inode[..], disk[..], view, place, owner)
      ensures Valid()
    {
    }

    lemma ValidParts()
      requires Valid()
      ensures Shape() && DirHolds(view.dir)
      ensures blocks.Valid() && inodes.Valid() && blocks.free == FreeBlocks(view) && inodes.free == FreeInodes(view)
      ensures Consistent(blocks.Used(), inodes.Used(), inode[..], disk[..], view, place, owner)
      ensures Inv(view) && |view.dir| <= MAX_DIR_ENTRY && numEntry == |view.dir| && dentry.Length == MAX_DIR_ENTRY
    {
    }

    /** Enters a name in the current directory. */
    method AddEntry(name: string, id: nat)
      requires Shape() && DirHolds(view.dir) && |view.dir| < MAX_DIR_ENTRY
      modifies this`numEntry, dentry
      ensures DirHolds(view.dir + [Entry(name, id)])
    {
      dentry[numEntry] := Entry(name, id);
      numEntry := numEntry + 1;
    }

    /** The first free inode. The counter has been checked, so there is one. */
    method TakeInode() returns (id: int)
      requires Valid() && inodes.free >= 1
      modifies inodes, inodes.bits
      ensures id == FirstFree(view.files, 0) && 0 <= id < MAX_INODE && id !in view.files
      ensures inodes.Valid() && inodes.free == old(inodes.free) - 1 && inodes.Used() == old(inodes.Used())[id := true]
    {
      hide Valid, Consistent, Inv, Flags, CountClear, DirHolds, SumCost, FirstFree;
      ValidParts();
      ghost var iu := inodes.Used();
      InodeMapParts(blocks.Used(), iu, inode[..], disk[..], view, place, owner);
      id := inodes.Get();
      if id == -1 {
        assert false;
      }
      FirstFreeIs(view.files, 0, id);
    }

    /** Creates a file with the first `size` bytes of the buffer, which stands for the random content. */
    method FileCreate(name: string, size: int, tmp: seq<byte>) returns (code: Code)
      requires Valid() && (0 < size <= MAX_SIZE ==> size <= |tmp| && BLOCK_SIZE * BlocksFor(size) <= |tmp|)
      modifies this, blocks, blocks.bits, inodes, inodes.bits, inode, disk, dentry
      ensures Valid()
      ensures (view, code) == CreateFile(old(view), name, size, Given(tmp, size))
      ensures code == Done ==>
        TookUp(old(blocks.Used()), blocks.Used(), old(inodes.Used()), inodes.Used(), place,
               FirstFree(old(view.files), 0))
      ensures code != Done ==> unchanged(this, blocks, blocks.bits, inodes, inodes.bits, inode, disk, dentry)
    {
      hide *;
      code := CheckCreate(name, size);
      GivenIs(tmp, size);
      CreateParts(view, name, size, Given(tmp, size));
      if code != Done {
        return code;
      }
      ValidParts();
      MakeFile(name, size, BlocksFor(size), tmp);
    }

    /** The checks of file_create, in its order. */
    method CheckCreate(name: string, size: int) returns (code: Code)
      requires Valid()
      ensures code == CreateFile(view, name, size, []).1
    {
      hide Valid, Consistent, Allocator.Used, Allocator.Valid, SumCost, Lookup, DirHolds, Inv, FirstFree;
      ValidParts();
      if size <= 0 || size > MAX_SIZE {
        return Failed(BadSize);
      }
      var inodeNum := SearchCurDir(name);
      if inodeNum >= 0 {
        return Failed(Exists);
      }
      if numEntry + 1 > MAX_DIR_ENTRY {
        return Failed(DirectoryFull);
      }
      if inodes.free < 1 {
        return Failed(InodesFull);
      }
      var numBlock := size / BLOCK_SIZE;
      if size % BLOCK_SIZE > 0 {
        numBlock := numBlock + 1;
      }
      if size > DIRECT_SIZE {
        if numBlock + 1 > blocks.free {
          return Failed(BlocksFull);
        }
      } else {
        if numBlock > blocks.free {
          return Failed(BlocksFull);
        }
      }
      return Done;
    }

    /** The part of file_create after its checks. */
    method MakeFile(name: string, size: nat, numBlock: nat, tmp: seq<byte>)
      requires Valid() && 0 < size <= MAX_SIZE && numBlock == BlocksFor(size) && BLOCK_SIZE * numBlock <= |tmp|
      requires Lookup(view.dir, name) == -1 && |view.dir| < MAX_DIR_ENTRY && inodes.free >= 1
      requires Cost(size) <= blocks.free
      modifies this`numEntry, this`view, this`place, this`owner, blocks, blocks.bits, inodes, inodes.bits, inode
      modifies disk, dentry
      ensures Valid()
      ensures var id := FirstFree(old(view.files), 0);
        view == Fs(old(view.dir) + [Entry(name, id)], old(view.files)[id := FileData(File, tmp[..size])])
        && TookUp(old(blocks.Used()), blocks.Used(), old(inodes.Used()), inodes.Used(), place, id)
    {
      hide Consistent, Filling, Allocator.Used, Allocator.Valid, SumCost, Lookup, DirHolds, Inv, FirstFree, Matches,
           Stored, NewPlace, Grown, Lists;
      ValidParts();
      ghost var bu0, iu0, disk0, bytes := blocks.Used(), inodes.Used(), disk[..], tmp[..size];
      IndirectIff(size);
      ChunksHold(tmp, numBlock, size);
      FillStart(bytes);
      var inodeNum := TakeInode();
      AddEntry(name, inodeNum);
      var direct, first := CreateDirect(tmp, numBlock, bu0, disk0, bytes);
      var indirect: int32 := *;
      ghost var p, taken;
      if size > DIRECT_SIZE {
        ghost var more;
        indirect, more := CreateIndirect(tmp, numBlock, bu0, disk0, first, bytes);
        PlaceLarge(bu0, blocks.Used(), disk0, disk[..], first, more, indirect, bytes);
        p, taken := Place(first + more, indirect), first + [indirect as nat] + more;
      } else {
        PlaceSmall(bu0, blocks.Used(), disk0, disk[..], first, bytes);
        p, taken := Place(first, 0), first;
      }
      FillingGrown(bu0, blocks.Used(), disk0, disk[..], taken, p.data, bytes);
      GrownTook(bu0, blocks.Used(), disk0, disk[..], taken, p);
      FinishNew(name, inodeNum, Inode(File, size, numBlock, direct, indirect, 1), bu0, iu0, disk0, taken, p,
                FileData(File, bytes));
    }

    lemma FillStart(bytes: seq<byte>)
      requires Valid()
      ensures Fill(blocks.Used(), disk[..], [], [], bytes)
    {
      hide Consistent, Filling, Inv, Allocator.Used, Allocator.Valid;
      FillNothing(blocks.Used(), inodes.Used(), inode[..], disk[..], view, place, owner, bytes);
    }

    // ----- copying

    /** Copies a block that was in use before to one just taken. */
    method CopyBlock(from: int, to: int, ghost used0: seq<bool>, ghost disk0: seq<Block>, ghost taken: seq<nat>,
                     ghost data: seq<nat>, ghost bytes: seq<byte>)
      requires Shape() && Fill(used0, disk0, taken, data, bytes)
      requires 0 <= from < MAX_BLOCK == |used0| == |disk0| && used0[from] && Matches(disk0[from], bytes, |data|)
      requires 0 <= to < MAX_BLOCK && to in taken && (forall i :: 0 <= i < |data| ==> data[i] != to)
      modifies disk
      ensures Fill(used0, disk0, taken, data + [to], bytes)
    {
      hide Filling, Matches;
      UsedBlockKept(used0, blocks.Used(), disk0, disk[..], taken, data, bytes, from);
      var ok, buf := ReadDiskBlock(from);
      assert buf == disk[..][from];
      PutData(to, buf, used0, disk0, taken, data, bytes);
    }

    method CopyDirect(src: Inode, numBlock: nat, ghost used0: seq<bool>, ghost disk0: seq<Block>, ghost f: FileData)
      returns (direct: Directs, ghost data: seq<nat>)
      requires Shape() && Fill(used0, disk0, [], [], f.bytes)
      requires Reachable(src, disk0, f) && InUse(src, disk0, used0, f)
      requires numBlock == BlocksFor(|f.bytes|) <= blocks.free
      modifies blocks, blocks.bits, disk
      ensures |data| == (if numBlock < DIRECT then numBlock else DIRECT) && Fill(used0, disk0, data, data, f.bytes)
      ensures forall i :: 0 <= i < |data| ==> direct[i] == data[i]
      ensures blocks.free == old(blocks.free) - |data|
    {
      hide Fill, Matches, Decode, Listed, ListedInUse, BlocksFor;
      direct := *;
      data := [];
      var i := 0;
      while i < DIRECT && i < numBlock
        invariant i == |data| <= DIRECT && i <= numBlock
        invariant Fill(used0, disk0, data, data, f.bytes)
        invariant forall n :: 0 <= n < i ==> direct[n] == data[n]
        invariant blocks.free == old(blocks.free) - i
      {
        var block := TakeBlock(used0, disk0, data, data, f.bytes);
        direct := direct[i := block];
        CopyBlock(src.direct[i], block, used0, disk0, data + [block], data, f.bytes);
        data := data + [block];
        i := i + 1;
      }
    }

    method CopyIndirect(src: Inode, numBlock: nat, ghost used0: seq<bool>, ghost disk0: seq<Block>,
                        ghost first: seq<nat>, ghost f: FileData)
      returns (indirect: int32, ghost more: seq<nat>)
      requires Shape() && Fill(used0, disk0, first, first, f.bytes) && |first| == DIRECT
      requires Reachable(src, disk0, f) && InUse(src, disk0, used0, f) && numBlock == BlocksFor(|f.bytes|)
      requires DIRECT < numBlock <= DIRECT + INDIRECT && blocks.free >= numBlock - DIRECT + 1
      modifies blocks, blocks.bits, disk
      ensures 0 <= indirect < MAX_BLOCK && |more| == numBlock - DIRECT
      ensures Fill(used0, disk0, first + [indirect] + more, first + more, f.bytes)
      ensures Lists(disk[indirect], first + more)
      ensures blocks.free == old(blocks.free) - |more| - 1
    {
      hide Fill, Matches, Decode, BlocksFor;
      indirect := TakeBlock(used0, disk0, first, first, f.bytes);
      FillUsedKept(used0, disk0, first + [indirect], first, f.bytes, src.indirect);
      var ok, buf := ReadDiskBlock(src.indirect);
      var srcMap, destMap: BlockMap := Decode(buf), *;
      more := [];
      assert first + [indirect] + more == first + [indirect] && first + more == first;
      var i := DIRECT;
      while i < numBlock
        invariant i == DIRECT + |more| <= numBlock
        invariant Fill(used0, disk0, first + [indirect] + more, first + more, f.bytes)
        invariant forall n :: 0 <= n < |more| ==> destMap[n] == more[n]
        invariant blocks.free == old(blocks.free) - |more| - 1
      {
        ghost var taken, data := first + [indirect] + more, first + more;
        var block := TakeBlock(used0, disk0, taken, data, f.bytes);
        assert Listed(disk0, src.indirect, f.bytes, i) && ListedInUse(disk0, src.indirect, used0, i);
        destMap := destMap[i - DIRECT := block];
        CopyBlock(srcMap[i - DIRECT], block, used0, disk0, taken + [block], data, f.bytes);
        assert taken + [block] == first + [indirect] + (more + [block]) && data + [block] == first + (more + [block]);
        more := more + [block];
        i := i + 1;
      }
      IndirectApart(used0, disk0, first, indirect, more, f.bytes);
      PutMap(indirect, destMap, used0, disk0, first + [indirect] + more, first + more, f.bytes);
    }

    lemma FillUsedKept(used0: seq<bool>, disk0: seq<Block>, taken: seq<nat>, data: seq<nat>, bytes: seq<byte>, b: nat)
      requires Shape() && Fill(used0, disk0, taken, data, bytes) && b < MAX_BLOCK && used0[b]
      ensures |disk0| == MAX_BLOCK && disk[b] == disk0[b]
    {
      UsedBlockKept(used0, blocks.Used(), disk0, disk[..], taken, data, bytes, b);
    }

    /** Copies a file to a new inode and new blocks. */
    method FileCopy(src: string, dest: string) returns (code: Code)
      requires Valid()
      modifies this, blocks, blocks.bits, inodes, inodes.bits, inode, disk, dentry
      ensures Valid() && (view, code) == CopyFile(old(view), src, dest)
      ensures code == Done ==>
        TookUp(old(blocks.Used()), blocks.Used(), old(inodes.Used()), inodes.Used(), place,
               FirstFree(old(view.files), 0))
      ensures code != Done ==> unchanged(this, blocks, blocks.bits, inodes, inodes.bits, inode, disk, dentry)
    {
      hide Valid, Consistent, Allocator.Used, Allocator.Valid, SumCost, Lookup, DirHolds, Inv, FirstFree;
      ValidParts();
      var srcInodeNum := SearchCurDir(src);
      var destInodeNum := SearchCurDir(dest);
      if srcInodeNum < 0 {
        return Failed(NotFound);
      }
      Named(src);
      SourceSize(srcInodeNum);
      var srcInode := inode[srcInodeNum];
      var numBlock := srcInode.size / BLOCK_SIZE;
      if srcInode.size % BLOCK_SIZE > 0 {
        numBlock := numBlock + 1;
      }
      if destInodeNum >= 0 {
        return Failed(Exists);
      } else if numEntry + 1 > MAX_DIR_ENTRY {
        return Failed(DirectoryFull);
      } else if inodes.free < 1 {
        return Failed(InodesFull);
      } else if (srcInode.size > DIRECT_SIZE && numBlock + 1 > blocks.free) || numBlock > blocks.free {
        return Failed(BlocksFull);
      }
      MakeCopy(srcInodeNum, srcInode, numBlock, dest);
      return Done;
    }

    lemma SourceSize(id: nat)
      requires Valid() && id in view.files
      ensures id < MAX_INODE == inode.Length && Reachable(inode[id], disk[..], view.files[id])
      ensures inode[id].size == |view.files[id].bytes| && inode[id].kind == view.files[id].kind
      ensures inode[id].blockCount == BlocksFor(|view.files[id].bytes|) && 1 <= |view.files[id].bytes| <= MAX_SIZE
    {
      Located(id);
    }

    /** The part of file_copy after its checks. */
    method MakeCopy(ghost srcNum: nat, src: Inode, numBlock: nat, dest: string)
      requires Valid() && srcNum in view.files && srcNum < MAX_INODE == inode.Length && src == inode[srcNum]
      requires numBlock == BlocksFor(|view.files[srcNum].bytes|)
      requires Lookup(view.dir, dest) == -1 && |view.dir| < MAX_DIR_ENTRY
      requires inodes.free >= 1 && Cost(|view.files[srcNum].bytes|) <= blocks.free
      modifies this`numEntry, this`view, this`place, this`owner, blocks, blocks.bits, inodes, inodes.bits, inode
      modifies disk, dentry
      ensures Valid()
      ensures var id := FirstFree(old(view.files), 0);
        view == Fs(old(view.dir) + [Entry(dest, id)], old(view.files)[id := old(view.files)[srcNum]])
        && TookUp(old(blocks.Used()), blocks.Used(), old(inodes.Used()), inodes.Used(), place, id)
    {
      hide Consistent, Filling, Allocator.Used, Allocator.Valid, SumCost, Lookup, DirHolds, Inv, FirstFree, Stored,
           NewPlace, Grown, Lists, Reachable, InUse;
      ValidParts();
      ghost var bu0, iu0, disk0, f := blocks.Used(), inodes.Used(), disk[..], view.files[srcNum];
      IndirectIff(|f.bytes|);
      SourceSize(srcNum);
      FitsInUse(bu0, iu0, inode[..], disk0, view, place, owner, srcNum);
      FillStart(f.bytes);
      var destInodeNum := TakeInode();
      var direct, first := CopyDirect(src, numBlock, bu0, disk0, f);
      var indirect: int32 := *;
      ghost var p, taken;
      if src.size > DIRECT_SIZE {
        ghost var more;
        indirect, more := CopyIndirect(src, numBlock, bu0, disk0, first, f);
        PlaceLarge(bu0, blocks.Used(), disk0, disk[..], first, more, indirect, f.bytes);
        p, taken := Place(first + more, indirect), first + [indirect as nat] + more;
      } else {
        PlaceSmall(bu0, blocks.Used(), disk0, disk[..], first, f.bytes);
        p, taken := Place(first, 0), first;
      }
      FillingGrown(bu0, blocks.Used(), disk0, disk[..], taken, p.data, f.bytes);
      GrownTook(bu0, blocks.Used(), disk0, disk[..], taken, p);
      AddEntry(dest, destInodeNum);
      FinishNew(dest, destInodeNum, Inode(src.kind, src.size, src.blockCount, direct, indirect, 1), bu0, iu0, disk0,
                taken, p, f);
    }

    // ----- linking and removing

    /** Gives a file a second name. */
    method HardLink(src: string, dest: string) returns (code: Code)
      requires Valid()
      modifies this, inode, dentry
      ensures Valid() && (view, code) == LinkFile(old(view), src, dest)
      ensures code != Done ==> unchanged(this, inode, dentry)
    {
      hide Valid, Consistent, Allocator.Used, Allocator.Valid, SumCost, Lookup, DirHolds, Inv;
      ValidParts();
      var srcInodeNum := SearchCurDir(src);
      var destInodeNum := SearchCurDir(dest);
      if srcInodeNum < 0 {
        return Failed(NotFound);
      }
      Named(src);
      SourceSize(srcInodeNum);
      var srcInode := inode[srcInodeNum];
      if destInodeNum >= 0 {
        return Failed(Exists);
      } else if srcInode.kind == Directory {
        return Failed(IsDirectory);
      } else if numEntry + 1 > MAX_DIR_ENTRY {
        return Failed(DirectoryFull);
      } else if srcInode.blockCount > blocks.free {
        return Failed(BlocksFull);
      } else if inodes.free < 1 {
        return Failed(InodesFull);
      }
      AddLink(src, dest, srcInodeNum, srcInode);
      return Done;
    }

    /** The part of hard_link after its checks. */
    method AddLink(ghost src: string, dest: string, id: nat, ino: Inode)
      requires Valid() && LinkFile(view, src, dest).1.Done? && id == Lookup(view.dir, src)
      requires id < MAX_INODE == inode.Length && ino == inode[id]
      modifies this`numEntry, this`view, inode, dentry
      ensures Valid() && view == LinkFile(old(view), src, dest).0
    {
      hide Valid, Consistent, Allocator.Used, Allocator.Valid, SumCost, Lookup, DirHolds, Inv;
      ValidParts();
      NameAdded(blocks.Used(), inodes.Used(), inode[..], disk[..], view, place, owner, src, dest, id);
      ghost var was := inode[..];
      inode[id] := ino.(linkCount := ino.linkCount + 1);
      assert inode[..] == was[id := was[id].(linkCount := was[id].linkCount + 1)];
      AddEntry(dest, id);
      view := LinkFile(view, src, dest).0;
      Assemble();
    }

    /** The position of the first entry of this name. */
    method FindEntry(name: string) returns (k: nat)
      requires Shape() && DirHolds(view.dir) && Lookup(view.dir, name) >= 0
      ensures k < numEntry && Without(view.dir, name) == view.dir[..k] + view.dir[k + 1..]
    {
      hide Lookup, Without;
      k := 0;
      while k < numEntry && dentry[k].name != name
        invariant k <= numEntry
        invariant forall j :: 0 <= j < k ==> view.dir[j].name != name
      {
        assert view.dir[k] == dentry[k];
        k := k + 1;
      }
      assert k < numEntry && view.dir[k] == dentry[k];
      WithoutAt(view.dir, name, k);
    }

    /** The entries after position k move up by one, over entry k. */
    method ShiftEntries(k: nat)
      requires Shape() && k < numEntry <= MAX_DIR_ENTRY
      modifies this`numEntry, dentry
      ensures numEntry == old(numEntry) - 1
      ensures dentry[..numEntry] == old(dentry[..k] + dentry[k + 1..numEntry])
    {
      var i := k;
      while i + 1 < numEntry
        invariant k <= i < numEntry == old(numEntry)
        invariant forall j :: 0 <= j < i ==> dentry[j] == old(if j < k then dentry[j] else dentry[j + 1])
        invariant forall j :: i <= j < numEntry ==> dentry[j] == old(dentry[j])
      {
        dentry[i] := dentry[i + 1];
        i := i + 1;
      }
      numEntry := numEntry - 1;
    }

    /** Takes the first entry of this name out of the directory. */
    method RemoveEntry(name: string)
      requires Shape() && DirHolds(view.dir) && Lookup(view.dir, name) >= 0
      modifies this`numEntry, dentry
      ensures DirHolds(Without(view.dir, name))
    {
      hide Lookup, Without;
      var k := FindEntry(name);
      ShiftEntries(k);
      assert view.dir[..k] + view.dir[k + 1..] == old(dentry[..k] + dentry[k + 1..numEntry]);
    }

    method FreeDirect(ino: Inode, numBlock: nat, ghost used0: seq<bool>, ghost p: Place)
      requires Shape() && blocks.Valid() && blocks.Used() == used0
      requires Releasable(ino, disk[..], used0, p) && numBlock == |p.data|
      modifies blocks, blocks.bits
      ensures blocks.Valid()
      ensures var n := if numBlock < DIRECT then numBlock else DIRECT;
        Shrunk(used0, blocks.Used(), p.data[..n]) && blocks.free == old(blocks.free) + n
    {
      hide Allocator.Used, Allocator.Valid, Releasable, Decode;
      var i := 0;
      assert Shrunk(used0, blocks.Used(), p.data[..0]);
      hide Shrunk;
      while i < DIRECT && i < numBlock
        invariant 0 <= i <= DIRECT && i <= numBlock
        invariant blocks.Valid() && Shrunk(used0, blocks.Used(), p.data[..i]) && blocks.free == old(blocks.free) + i
      {
        DataNotFreed(ino, disk[..], used0, p, i);
        ReleaseStep(used0, blocks.Used(), p.data[..i], p.data[i]);
        blocks.Release(ino.direct[i]);
        i := i + 1;
      }
    }

    method FreeIndirect(ino: Inode, numBlock: nat, ghost used0: seq<bool>, ghost p: Place)
      requires Shape() && blocks.Valid() && numBlock == |p.data| > DIRECT
      requires Releasable(ino, disk[..], used0, p) && Shrunk(used0, blocks.Used(), p.data[..DIRECT])
      modifies blocks, blocks.bits
      ensures blocks.Valid() && Shrunk(used0, blocks.Used(), Layout(p))
      ensures blocks.free == old(blocks.free) + numBlock - DIRECT + 1
    {
      hide Allocator.Used, Allocator.Valid, Releasable, Decode, Shrunk, Layout;
      IndirectNotFreed(ino, disk[..], used0, p);
      var ok, buf := ReadDiskBlock(ino.indirect);
      var indirectMap := Decode(buf);
      assert buf == disk[..][p.indirect];
      var i := DIRECT;
      while i < numBlock
        invariant DIRECT <= i <= numBlock
        invariant blocks.Valid() && Shrunk(used0, blocks.Used(), p.data[..i])
        invariant blocks.free == old(blocks.free) + i - DIRECT
      {
        DataNotFreed(ino, disk[..], used0, p, i);
        ReleaseStep(used0, blocks.Used(), p.data[..i], p.data[i]);
        blocks.Release(indirectMap[i - DIRECT]);
        i := i + 1;
      }
      assert p.data[..numBlock] == p.data;
      ReleaseStep(used0, blocks.Used(), p.data, p.indirect);
      blocks.Release(ino.indirect);
    }

    /** Removes a name and, if it was the last one, the file. */
    method FileRemove(name: string) returns (code: Code)
      requires Valid()
      modifies this, blocks, blocks.bits, inodes, inodes.bits, inode, dentry
      ensures Valid() && (view, code) == RemoveFile(old(view), name)
      ensures code == Done && Links(old(view.dir), Lookup(old(view.dir), name)) == 1 ==>
        GaveBack(old(blocks.Used()), blocks.Used(), old(inodes.Used()), inodes.Used(), old(place),
                 Lookup(old(view.dir), name))
      ensures code != Done ==> unchanged(this, blocks, blocks.bits, inodes, inodes.bits, inode, dentry)
    {
      hide Valid, Consistent, Allocator.Used, Allocator.Valid, SumCost, Lookup, DirHolds, Inv, Without, Links;
      ValidParts();
      var inodeNum := SearchCurDir(name);
      if inodeNum < 0 {
        return Failed(NotFound);
      }
      Named(name);
      SourceSize(inodeNum);
      var ino := inode[inodeNum];
      if ino.kind == Directory {
        return Failed(IsDirectory);
      }
      if numEntry == 0 {
        assert false;
      }
      LinkCountIs(blocks.Used(), inodes.Used(), inode[..], disk[..], view, place, owner, inodeNum);
      if ino.linkCount == 1 {
        RemoveLast(name, inodeNum, ino);
      } else {
        RemoveLink(name, inodeNum, ino);
      }
      return Done;
    }

    /** One of several names goes. */
    method RemoveLink(name: string, id: nat, ino: Inode)
      requires Valid() && RemoveFile(view, name).1.Done? && id == Lookup(view.dir, name) && Links(view.dir, id) != 1
      requires id < MAX_INODE == inode.Length && ino == inode[id]
      modifies this`numEntry, this`view, inode, dentry
      ensures Valid() && view == RemoveFile(old(view), name).0
    {
      hide Valid, Consistent, Allocator.Used, Allocator.Valid, SumCost, Lookup, DirHolds, Inv, Without, Links;
      ValidParts();
      NameDropped(blocks.Used(), inodes.Used(), inode[..], disk[..], view, place, owner, name, id);
      RemoveEntry(name);
      ghost var was := inode[..];
      inode[id] := ino.(linkCount := ino.linkCount - 1);
      assert inode[..] == was[id := was[id].(linkCount := was[id].linkCount - 1)];
      view := RemoveFile(view, name).0;
      Assemble();
    }

    /** The last name goes: the blocks and the inode are given back. */
    method RemoveLast(name: string, id: nat, ino: Inode)
      requires Valid() && RemoveFile(view, name).1.Done? && id == Lookup(view.dir, name) && Links(view.dir, id) == 1
      requires id < MAX_INODE == inode.Length && ino == inode[id] && id in view.files
      requires ino.size == |view.files[id].bytes|
      modifies this`numEntry, this`view, this`place, this`owner, blocks, blocks.bits, inodes, inodes.bits, dentry
      ensures Valid() && view == RemoveFile(old(view), name).0
      ensures GaveBack(old(blocks.Used()), blocks.Used(), old(inodes.Used()), inodes.Used(), old(place), id)
    {
      hide Valid, Consistent, Allocator.Used, Allocator.Valid, SumCost, Lookup, DirHolds, Inv, Without, Links,
           Releasable, Shrunk, Cost, Layout;
      ValidParts();
      ghost var bu0, iu0 := blocks.Used(), inodes.Used();
      FitsReleasable(bu0, iu0, inode[..], disk[..], view, place, owner, id);
      InodeMapParts(bu0, iu0, inode[..], disk[..], view, place, owner);
      RemoveEntry(name);
      FreeBlocksOf(ino, bu0, place[id]);
      inodes.Release(id);
      FileDropped(bu0, blocks.Used(), iu0, inode[..], disk[..], view, place, owner, name, id);
      SpaceAfterDrop(view, name);
      owner := Disown(owner, Layout(place[id]));
      place := place - {id};
      view := RemoveFile(view, name).0;
      Assemble();
    }

    /** Gives back the blocks of a file. */
    method FreeBlocksOf(ino: Inode, ghost used0: seq<bool>, ghost p: Place)
      requires Shape() && blocks.Valid() && blocks.Used() == used0 && Releasable(ino, disk[..], used0, p)
      requires 0 <= ino.size && |p.data| == BlocksFor(ino.size) && |Layout(p)| == Cost(ino.size)
      modifies blocks, blocks.bits
      ensures blocks.Valid() && Shrunk(used0, blocks.Used(), Layout(p)) && blocks.free == old(blocks.free) + |Layout(p)|
    {
      hide Allocator.Used, Allocator.Valid, Releasable, Shrunk;
      IndirectIff(ino.size);
      var numBlock := ino.size / BLOCK_SIZE;
      if ino.size % BLOCK_SIZE > 0 {
        numBlock := numBlock + 1;
      }
      FreeDirect(ino, numBlock, used0, p);
      if ino.size > DIRECT_SIZE {
        FreeIndirect(ino, numBlock, used0, p);
      } else {
        assert p.data[..numBlock] == p.data;
      }
    }

    /** Creating a file and removing it again restores both bitmaps byte for byte. */
    method CreateAndRemove(name: string, size: int, tmp: seq<byte>) returns (code: Code)
      requires Valid() && (0 < size <= MAX_SIZE ==> size <= |tmp| && BLOCK_SIZE * BlocksFor(size) <= |tmp|)
      modifies this, blocks, blocks.bits, inodes, inodes.bits, inode, disk, dentry
      ensures Valid() && view == old(view)
      ensures code == CreateFile(old(view), name, size, []).1
      ensures blocks.bits[..] == old(blocks.bits[..]) && inodes.bits[..] == old(inodes.bits[..])
      ensures blocks.free == old(blocks.free) && inodes.free == old(inodes.free)
    {
      hide *;
      ghost var s, bu, iu := view, blocks.Used(), inodes.Used();
      ValidParts();
      blocks.UsedIs();
      inodes.UsedIs();
      CreateParts(view, name, size, Given(tmp, size));
      InodeClear(bu, iu, inode[..], disk[..], view, place, owner);
      code := FileCreate(name, size, tmp);
      if code != Done {
        return code;
      }
      GivenLength(tmp, size);
      RemoveCreated(name, Given(tmp, size), s, bu, iu);
      ValidParts();
      blocks.UsedDetermines(old(blocks.bits[..]));
      inodes.UsedDetermines(old(inodes.bits[..]));
    }

    method RemoveCreated(name: string, ghost content: seq<byte>, ghost s: Fs, ghost bu: seq<bool>, ghost iu: seq<bool>)
      requires Valid() && Inv(s) && CreateFile(s, name, |content|, content) == (view, Done)
      requires TookUp(bu, blocks.Used(), iu, inodes.Used(), place, FirstFree(s.files, 0))
      requires FirstFree(s.files, 0) < |iu| && !iu[FirstFree(s.files, 0)]
      modifies this, blocks, blocks.bits, inodes, inodes.bits, inode, dentry
      ensures Valid() && view == s && blocks.Used() == bu && inodes.Used() == iu
    {
      hide *;
      ghost var bu', iu', place' := blocks.Used(), inodes.Used(), place;
      FsTheorems.CreateThenRemove(s, name, content);
      CreatedLinks(s, name, content);
      var code := FileRemove(name);
      TookThenGave(bu, bu', blocks.Used(), iu, iu', inodes.Used(), place', FirstFree(s.files, 0));
    }

    // ----- commands

    /** One command. The slack is what follows the content in the buffer of a create command. */
    method Execute(c: Command, slack: seq<byte>) returns (reply: Reply)
      requires Valid() && FsTheorems.Wf(c) && |slack| >= BLOCK_SIZE
      modifies this, blocks, blocks.bits, inodes, inodes.bits, inode, disk, dentry
      ensures Valid() && (view, reply) == Step(old(view), c)
      ensures !reply.code.Done? ==> unchanged(this, blocks, blocks.bits, inodes, inodes.bits, inode, disk, dentry)
    {
      hide *;
      StepIs(view, c, slack);
      match c {
        case Create(name, size, content) =>
          var code := FileCreate(name, size, content + slack);
          return Reply(code, []);
        case Cat(name) =>
          var code, shown := FileCat(name);
          return Reply(code, shown);
        case Rm(name) =>
          var code := FileRemove(name);
          return Reply(code, []);
        case Ln(src, dest) =>
          var code := HardLink(src, dest);
          return Reply(code, []);
        case Cp(src, dest) =>
          var code := FileCopy(src, dest);
          return Reply(code, []);
      }
    }

    /** A run of commands agrees with the specification in every reply and in the final state. */
    method RunScript(cs: seq<Command>, slack: seq<byte>) returns (replies: seq<Reply>)
      requires Valid() && |slack| >= BLOCK_SIZE && forall i :: 0 <= i < |cs| ==> FsTheorems.Wf(cs[i])
      modifies this, blocks, blocks.bits, inodes, inodes.bits, inode, disk, dentry
      ensures Valid() && view == Run(old(view), cs)
      ensures |replies| == |cs|
      ensures forall i :: 0 <= i < |cs| ==> replies[i] == Step(Run(old(view), cs[..i]), cs[i]).1
    {
      hide *;
      replies := [];
      RunNone(view, cs);
      for n := 0 to |cs|
        invariant Valid() && view == Run(old(view), cs[..n])
        invariant |replies| == n
        invariant forall i :: 0 <= i < n ==> replies[i] == Step(Run(old(view), cs[..i]), cs[i]).1
      {
        RunNext(old(view), cs, n);
        var reply := Execute(cs[n], slack);
        replies := replies + [reply];
      }
      assert cs[..|cs|] == cs;
    }
  }

  /** The blocks of l, all free before, are the ones taken. */
  ghost predicate Took(used0: seq<bool>, used: seq<bool>, l: seq<nat>) {
    && |used0| == |used| == MAX_BLOCK
    && (forall i :: 0 <= i < |l| ==> l[i] < MAX_BLOCK && !used0[l[i]])
    && forall b :: 0 <= b < MAX_BLOCK ==> (used[b] <==> used0[b] || b in l)
  }

  lemma GrownTook(used0: seq<bool>, used: seq<bool>, disk0: seq<Block>, disk: seq<Block>, taken: seq<nat>, p: Place)
    requires Grown(used0, used, disk0, disk, taken) && NewPlace(p, taken)
    ensures Took(used0, used, Layout(p))
  {
    NewBlocksWereFree(used0, used, disk0, disk, taken, p);
  }

  /** A new file took exactly the blocks of its place and its inode. */
  ghost predicate TookUp(bu0: seq<bool>, bu: seq<bool>, iu0: seq<bool>, iu: seq<bool>, place: map<nat, Place>,
                         id: nat) {
    && id in place && Took(bu0, bu, Layout(place[id]))
    && id < |iu0| && iu == iu0[id := true]
  }

  /** A file that went gave back exactly the blocks of its place and its inode. */
  ghost predicate GaveBack(bu0: seq<bool>, bu: seq<bool>, iu0: seq<bool>, iu: seq<bool>, place0: map<nat, Place>,
                           id: nat) {
    && id in place0 && Shrunk(bu0, bu, Layout(place0[id]))
    && id < |iu0| && iu == iu0[id := false]
  }

  lemma TookThenGave(bu0: seq<bool>, bu1: seq<bool>, bu2: seq<bool>, iu0: seq<bool>, iu1: seq<bool>, iu2: seq<bool>,
                     place: map<nat, Place>, id: nat)
    requires TookUp(bu0, bu1, iu0, iu1, place, id) && GaveBack(bu1, bu2, iu1, iu2, place, id)
    requires id < |iu0| && !iu0[id]
    ensures bu2 == bu0 && iu2 == iu0
  {
  }

  lemma InodeClear(bu: seq<bool>, iu: seq<bool>, inodes: seq<Inode>, disk: seq<Block>,
                   view: Fs, place: map<nat, Place>, owner: map<nat, nat>)
    requires Consistent(bu, iu, inodes, disk, view, place, owner)
    ensures |iu| == MAX_INODE && FirstFree(view.files, 0) < MAX_INODE && !iu[FirstFree(view.files, 0)]
  {
    hide Inv, FilesFit, FirstFree, SumCost;
    SpaceNeverRunsOut(view);
    FirstFreeExists(view.files);
  }

  lemma GivenLength(tmp: seq<byte>, size: int)
    ensures 0 < size <= |tmp| ==> |Given(tmp, size)| == size
  {
  }

  lemma CreatedLinks(s: Fs, name: string, content: seq<byte>)
    requires Inv(s) && CreateFile(s, name, |content|, content).1.Done?
    ensures var t, id := CreateFile(s, name, |content|, content).0, FirstFree(s.files, 0);
      Lookup(t.dir, name) == id && Links(t.dir, id) == 1 && id !in s.files && id < MAX_INODE
  {
    hide Inv, SumCost, FirstFree, Lookup, Links;
    var id := FirstFree(s.files, 0);
    FirstFreeExists(s.files);
    LookupAppend(s.dir, Entry(name, id), name);
    LinksAppend(s.dir, Entry(name, id), id);
    NoLinks(s, id);
  }

  /** The content of the file to be created. */
  function Given(tmp: seq<byte>, size: int): seq<byte> {
    if 0 < size <= |tmp| then tmp[..size] else []
  }

  lemma GivenIs(tmp: seq<byte>, size: int)
    ensures 0 < size <= |tmp| ==> Given(tmp, size) == tmp[..size]
  {
  }

  /** The outcome does not depend on the content; what success means. */
  lemma CreateParts(s: Fs, name: string, size: int, content: seq<byte>)
    ensures CreateFile(s, name, size, content).1 == CreateFile(s, name, size, []).1
    ensures if CreateFile(s, name, size, []).1.Done? then
        && 0 < size <= MAX_SIZE && Lookup(s.dir, name) == -1 && |s.dir| < MAX_DIR_ENTRY
        && FreeInodes(s) >= 1 && Cost(size) <= FreeBlocks(s)
        && var id := FirstFree(s.files, 0);
           CreateFile(s, name, size, content).0 == Fs(s.dir + [Entry(name, id)], s.files[id := FileData(File, content)])
      else CreateFile(s, name, size, content).0 == s
  {
  }

  lemma {:induction false} LookupAt(dir: seq<Entry>, name: string, k: nat)
    requires k < |dir| && dir[k].name == name && forall j :: 0 <= j < k ==> dir[j].name != name
    ensures Lookup(dir, name) == dir[k].inode
  {
    if k == 0 {
    } else {
      LookupAt(dir[1..], name, k - 1);
    }
  }

  lemma {:induction false} WithoutAt(dir: seq<Entry>, name: string, k: nat)
    requires k < |dir| && dir[k].name == name && forall j :: 0 <= j < k ==> dir[j].name != name
    ensures Without(dir, name) == dir[..k] + dir[k + 1..]
  {
    if k == 0 {
    } else {
      WithoutAt(dir[1..], name, k - 1);
      assert dir[..k] == [dir[0]] + dir[1..][..k - 1];
    }
  }

  lemma RunNone(s: Fs, cs: seq<Command>)
    ensures Run(s, cs[..0]) == s
  {
  }

  lemma RunNext(s: Fs, cs: seq<Command>, n: nat)
    requires n < |cs|
    ensures Run(s, cs[..n + 1]) == Step(Run(s, cs[..n]), cs[n]).0
  {
    assert cs[..n + 1][..n] == cs[..n];
  }

  /** The step of a command in terms of the operation that carries it out. */
  lemma StepIs(s: Fs, c: Command, slack: seq<byte>)
    requires FsTheorems.Wf(c) && |slack| >= BLOCK_SIZE
    ensures match c
      case Create(name, size, content) =>
        var (t, code) := CreateFile(s, name, size, Given(content + slack, size));
        && Step(s, c) == (t, Reply(code, []))
        && (0 < size <= MAX_SIZE ==> size <= |content + slack| && BLOCK_SIZE * BlocksFor(size) <= |content + slack|)
      case Cat(name) => Step(s, c) == (s, Reply(Show(s, name).0, Show(s, name).1))
      case Rm(name) => Step(s, c) == (RemoveFile(s, name).0, Reply(RemoveFile(s, name).1, []))
      case Ln(src, dest) => Step(s, c) == (LinkFile(s, src, dest).0, Reply(LinkFile(s, src, dest).1, []))
      case Cp(src, dest) => Step(s, c) == (CopyFile(s, src, dest).0, Reply(CopyFile(s, src, dest).1, []))
  {
    hide SumCost, Lookup, FirstFree, Without, Links;
    if c.Create? {
      IndirectIff(if c.size > 0 then c.size else 0);
      if 0 < c.size <= MAX_SIZE {
        assert (c.content + slack)[..c.size] == c.content;
      }
    }
  }

  lemma ChunksHold(tmp: seq<byte>, n: nat, size: nat)
    requires BLOCK_SIZE * n <= |tmp| && size <= |tmp|
    ensures Chunks(tmp, n, tmp[..size])
  {
  }

  lemma FillingGrown(used0: seq<bool>, used: seq<bool>, disk0: seq<Block>, disk: seq<Block>, taken: seq<nat>,
                     data: seq<nat>, bytes: seq<byte>)
    requires Filling(used0, used, disk0, disk, taken, data, bytes)
    ensures Grown(used0, used, disk0, disk, taken)
  {
  }

  lemma InodeMapParts(bu: seq<bool>, iu: seq<bool>, inodes: seq<Inode>, disk: seq<Block>,
                      view: Fs, place: map<nat, Place>, owner: map<nat, nat>)
    requires Consistent(bu, iu, inodes, disk, view, place, owner)
    ensures InodeMapFits(iu, view.files)
  {
  }

  lemma {:induction false} FirstFreeIs(files: map<nat, FileData>, n: nat, id: nat)
    requires n <= id < MAX_INODE && id !in files && forall i :: n <= i < id ==> i in files
    ensures FirstFree(files, n) == id
    decreases id - n
  {
    if n == id {
    } else {
      FirstFreeIs(files, n + 1, id);
    }
  }

  /** The i-th 512 bytes of the buffer. */
  function Chunk(tmp: seq<byte>, i: nat): Block
    requires BLOCK_SIZE * (i + 1) <= |tmp|
  {
    tmp[BLOCK_SIZE * i..BLOCK_SIZE * (i + 1)]
  }

  /** The buffer has n blocks, which hold the bytes. */
  ghost predicate Chunks(tmp: seq<byte>, n: nat, bytes: seq<byte>) {
    BLOCK_SIZE * n <= |tmp| && forall i :: 0 <= i < n ==> Matches(Chunk(tmp, i), bytes, i)
  }

  lemma FormattedConsistent(bu: seq<bool>, iu: seq<bool>, inodes: seq<Inode>, disk: seq<Block>, image: Block)
    requires |bu| == MAX_BLOCK && forall b :: 0 <= b < MAX_BLOCK ==> (bu[b] <==> b <= RESERVED)
    requires |iu| == MAX_INODE && forall i :: 0 <= i < MAX_INODE ==> (iu[i] <==> i == 0)
    requires |inodes| == MAX_INODE && |disk| == MAX_BLOCK && disk[RESERVED] == image
    requires inodes[0].kind == Directory && inodes[0].size == 1 && inodes[0].blockCount == 1
    requires inodes[0].direct[0] == RESERVED
    ensures Consistent(bu, iu, inodes, disk, Formatted(image[0]), map[0 := Place([RESERVED], 0)], map[RESERVED := 0])
  {
    hide Inv;
    FormattedInv(image[0]);
    var p := Place([RESERVED], 0);
    assert Layout(p) == [RESERVED];
    assert Layout(p)[0] == RESERVED;
    assert FileFits(inodes, disk, Formatted(image[0]), 0, p, map[RESERVED := 0]);
  }
}
