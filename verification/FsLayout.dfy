/**
 * How the files of the specification lie on the disk: inodes, direct and indirect blocks, and who
 * owns which block.
 */
module FsLayout {
  import opened Sequences
  import opened Blocks
  import opened FlatFs
  import opened FsTheorems

  type Directs = d: seq<int32> | |d| == DIRECT witness seq(DIRECT, _ => 0)

  datatype Inode = Inode(kind: Kind, size: int, blockCount: int, direct: Directs, indirect: int32, linkCount: int)

  /** The blocks of one file: those of its data in order, and its indirect block if it has one. */
  datatype Place = Place(data: seq<nat>, indirect: nat)

  function Layout(p: Place): seq<nat> {
    if |p.data| > DIRECT then p.data + [p.indirect] else p.data
  }

  /** Block b holds the i-th 512 bytes, as far as there are any; what follows is unspecified. */
  ghost predicate Matches(b: Block, bytes: seq<byte>, i: nat) {
    forall j :: 0 <= j < BLOCK_SIZE && BLOCK_SIZE * i + j < |bytes| ==> b[j] == bytes[BLOCK_SIZE * i + j]
  }

  /** Block b lists the data blocks beyond the direct ones. */
  ghost predicate Lists(b: Block, data: seq<nat>) {
    |data| <= DIRECT + INDIRECT && forall i {:trigger data[i]} :: DIRECT <= i < |data| ==>
      Decode(b)[i - DIRECT] == data[i]
  }

  ghost predicate OnDisk(p: Place) {
    forall i :: 0 <= i < |Layout(p)| ==> RESERVED <= Layout(p)[i] < MAX_BLOCK
  }

  ghost predicate Stored(disk: seq<Block>, bytes: seq<byte>, p: Place)
    requires |disk| == MAX_BLOCK && OnDisk(p)
  {
    && (forall i :: 0 <= i < |p.data| ==> Matches(disk[Layout(p)[i]], bytes, i))
    && (|p.data| > DIRECT ==> Lists(disk[Layout(p)[|p.data|]], p.data))
  }

  ghost predicate InodeFits(ino: Inode, f: FileData, p: Place) {
    && ino.kind == f.kind
    && ino.size == |f.bytes|
    && ino.blockCount == BlocksFor(|f.bytes|) == |p.data|
    && (forall i :: 0 <= i < |p.data| && i < DIRECT ==> ino.direct[i] == p.data[i])
    && (|p.data| > DIRECT ==> ino.indirect == p.indirect)
  }

  /** The root directory, file 0, is the one whose link count is not kept. */
  ghost predicate LinksFit(ino: Inode, dir: seq<Entry>, id: nat) {
    id != 0 ==> ino.linkCount == Links(dir, id)
  }

  ghost predicate Owns(p: Place, id: nat, owner: map<nat, nat>) {
    && Distinct(Layout(p))
    && forall i :: 0 <= i < |Layout(p)| ==> Layout(p)[i] in owner && owner[Layout(p)[i]] == id
  }

  /** Each owned block belongs to the layout of its one owner. */
  ghost predicate Partition(owner: map<nat, nat>, place: map<nat, Place>) {
    forall b :: b in owner ==> owner[b] in place && b in Layout(place[owner[b]])
  }

  ghost predicate BlockMapFits(used: seq<bool>, owner: map<nat, nat>) {
    |used| == MAX_BLOCK && forall b :: 0 <= b < MAX_BLOCK ==> (used[b] <==> b < RESERVED || b in owner)
  }

  ghost predicate InodeMapFits(used: seq<bool>, files: map<nat, FileData>) {
    |used| == MAX_INODE && forall i :: 0 <= i < MAX_INODE ==> (used[i] <==> i in files)
  }

  /** File id is laid out on the disk as its place says. */
  ghost predicate FileFits(inodes: seq<Inode>, disk: seq<Block>, view: Fs, id: nat, p: Place, owner: map<nat, nat>)
    requires |inodes| == MAX_INODE && |disk| == MAX_BLOCK && id in view.files && id < MAX_INODE
  {
    && OnDisk(p)
    && Owns(p, id, owner)
    && InodeFits(inodes[id], view.files[id], p)
    && LinksFit(inodes[id], view.dir, id)
    && Stored(disk, view.files[id].bytes, p)
  }

  ghost predicate FilesFit(inodes: seq<Inode>, disk: seq<Block>, view: Fs, place: map<nat, Place>,
                           owner: map<nat, nat>) {
    && |inodes| == MAX_INODE && |disk| == MAX_BLOCK
    && place.Keys == view.files.Keys
    && forall id :: id in view.files ==> id < MAX_INODE && FileFits(inodes, disk, view, id, place[id], owner)
  }

  ghost predicate Consistent(blocksUsed: seq<bool>, inodesUsed: seq<bool>, inodes: seq<Inode>, disk: seq<Block>,
                             view: Fs, place: map<nat, Place>, owner: map<nat, nat>)
  {
    && Inv(view)
    && FilesFit(inodes, disk, view, place, owner)
    && Partition(owner, place)
    && BlockMapFits(blocksUsed, owner)
    && InodeMapFits(inodesUsed, view.files)
  }

  /** No two files share a block. */
  lemma NoSharing(inodes: seq<Inode>, disk: seq<Block>, view: Fs, place: map<nat, Place>, owner: map<nat, nat>,
                  id: nat, id': nat, b: nat)
    requires FilesFit(inodes, disk, view, place, owner)
    requires id in place && id' in place && id != id'
    requires b in Layout(place[id])
    ensures b !in Layout(place[id'])
  {
    assert FileFits(inodes, disk, view, id, place[id], owner);
    assert FileFits(inodes, disk, view, id', place[id'], owner);
  }

  /** A block is marked as used exactly when it is reserved or part of some file. */
  lemma UsedIffOwned(bu: seq<bool>, iu: seq<bool>, inodes: seq<Inode>, disk: seq<Block>,
                     view: Fs, place: map<nat, Place>, owner: map<nat, nat>, b: nat)
    requires Consistent(bu, iu, inodes, disk, view, place, owner) && b < MAX_BLOCK
    ensures |bu| == MAX_BLOCK && (bu[b] <==> b < RESERVED || exists id :: id in place && b in Layout(place[id]))
    ensures b < RESERVED ==> forall id :: id in place ==> b !in Layout(place[id])
  {
    hide Inv, InodeFits, LinksFit, Stored;
    forall id | id in place && b in Layout(place[id]) ensures b in owner && RESERVED <= b {
      assert FileFits(inodes, disk, view, id, place[id], owner);
      var i := IndexOf(Layout(place[id]), b);
    }
  }

  /** The i-th 512 bytes are in a block that the indirect block lists. */
  ghost predicate Listed(disk: seq<Block>, indirect: int, bytes: seq<byte>, i: nat) {
    && |disk| == MAX_BLOCK && 0 <= indirect < MAX_BLOCK && DIRECT <= i < DIRECT + INDIRECT
    && var b := Decode(disk[indirect])[i - DIRECT];
       0 <= b < MAX_BLOCK && Matches(disk[b], bytes, i)
  }

  /** Everything about a file that can be reached from its inode. */
  ghost predicate Reachable(ino: Inode, disk: seq<Block>, f: FileData) {
    var n := BlocksFor(|f.bytes|);
    && |disk| == MAX_BLOCK
    && ino.size == |f.bytes| && 1 <= |f.bytes| <= MAX_SIZE && ino.kind == f.kind && ino.blockCount == n
    && (forall i :: 0 <= i < DIRECT && i < n ==>
      0 <= ino.direct[i] < MAX_BLOCK && Matches(disk[ino.direct[i]], f.bytes, i))
    && (n > DIRECT ==> 0 <= ino.indirect < MAX_BLOCK)
    && (forall i :: DIRECT <= i < n ==> Listed(disk, ino.indirect, f.bytes, i))
  }

  lemma ConsistentAt(bu: seq<bool>, iu: seq<bool>, inodes: seq<Inode>, disk: seq<Block>,
                     view: Fs, place: map<nat, Place>, owner: map<nat, nat>, id: nat)
    requires Consistent(bu, iu, inodes, disk, view, place, owner) && id in view.files
    ensures |inodes| == MAX_INODE && |disk| == MAX_BLOCK
    ensures id < MAX_INODE && id in place && FileFits(inodes, disk, view, id, place[id], owner)
    ensures 1 <= |view.files[id].bytes| <= MAX_SIZE
  {
  }

  lemma FitsReachable(inodes: seq<Inode>, disk: seq<Block>, view: Fs, id: nat, p: Place, owner: map<nat, nat>)
    requires |inodes| == MAX_INODE && |disk| == MAX_BLOCK && id in view.files && id < MAX_INODE
    requires FileFits(inodes, disk, view, id, p, owner) && 1 <= |view.files[id].bytes| <= MAX_SIZE
    ensures Reachable(inodes[id], disk, view.files[id])
  {
    hide Matches, Decode, Owns, LinksFit;
    var bytes := view.files[id].bytes;
    var n := BlocksFor(|bytes|);
    IndirectIff(|bytes|);
    assert forall i :: 0 <= i < n ==> Layout(p)[i] == p.data[i];
    if n > DIRECT {
      assert Layout(p)[n] == p.indirect;
      forall i | DIRECT <= i < n ensures Listed(disk, p.indirect, bytes, i) {
        assert Decode(disk[p.indirect])[i - DIRECT] == p.data[i];
        assert RESERVED <= Layout(p)[i] < MAX_BLOCK;
      }
    }
  }

  /** The blocks that can be reached from the inode are marked as used. */
  ghost predicate InUse(ino: Inode, disk: seq<Block>, used: seq<bool>, f: FileData) {
    var n := BlocksFor(|f.bytes|);
    && |disk| == |used| == MAX_BLOCK
    && (forall i :: 0 <= i < DIRECT && i < n ==> 0 <= ino.direct[i] < MAX_BLOCK && used[ino.direct[i]])
    && (n > DIRECT ==> 0 <= ino.indirect < MAX_BLOCK && used[ino.indirect])
    && (forall i :: DIRECT <= i < n ==> ListedInUse(disk, ino.indirect, used, i))
  }

  ghost predicate ListedInUse(disk: seq<Block>, indirect: int, used: seq<bool>, i: nat) {
    && |disk| == |used| == MAX_BLOCK && 0 <= indirect < MAX_BLOCK && DIRECT <= i < DIRECT + INDIRECT
    && var b := Decode(disk[indirect])[i - DIRECT]; 0 <= b < MAX_BLOCK && used[b]
  }

  lemma LayoutInUse(bu: seq<bool>, iu: seq<bool>, inodes: seq<Inode>, disk: seq<Block>,
                    view: Fs, place: map<nat, Place>, owner: map<nat, nat>, id: nat)
    requires Consistent(bu, iu, inodes, disk, view, place, owner) && id in place
    ensures |bu| == MAX_BLOCK && Distinct(Layout(place[id]))
    ensures forall i :: 0 <= i < |Layout(place[id])| ==>
      RESERVED <= Layout(place[id])[i] < MAX_BLOCK && bu[Layout(place[id])[i]]
  {
    hide Inv, Stored, InodeFits, LinksFit, Partition, Layout, Distinct;
    assert FileFits(inodes, disk, view, id, place[id], owner);
  }

  lemma FitsInUse(bu: seq<bool>, iu: seq<bool>, inodes: seq<Inode>, disk: seq<Block>,
                  view: Fs, place: map<nat, Place>, owner: map<nat, nat>, id: nat)
    requires Consistent(bu, iu, inodes, disk, view, place, owner) && id in view.files
    ensures id < |inodes| && InUse(inodes[id], disk, bu, view.files[id])
  {
    hide Consistent, Matches, Decode, Owns;
    ConsistentAt(bu, iu, inodes, disk, view, place, owner, id);
    LayoutInUse(bu, iu, inodes, disk, view, place, owner, id);
    var p, bytes := place[id], view.files[id].bytes;
    var n := BlocksFor(|bytes|);
    IndirectIff(|bytes|);
    assert forall i :: 0 <= i < n ==> Layout(p)[i] == p.data[i];
    if n > DIRECT {
      assert Layout(p)[n] == p.indirect;
      forall i | DIRECT <= i < n ensures ListedInUse(disk, p.indirect, bu, i) {
        assert Decode(disk[p.indirect])[i - DIRECT] == p.data[i];
        assert RESERVED <= Layout(p)[i] < MAX_BLOCK && bu[Layout(p)[i]];
      }
    }
  }

  // ----- blocks taken one by one

  /** Since used0 and disk0 the blocks taken, and no others, were allocated and written. */
  ghost predicate Grown(used0: seq<bool>, used: seq<bool>, disk0: seq<Block>, disk: seq<Block>, taken: seq<nat>) {
    && |used0| == |used| == |disk0| == |disk| == MAX_BLOCK
    && Distinct(taken)
    && (forall i :: 0 <= i < |taken| ==> RESERVED <= taken[i] < MAX_BLOCK && !used0[taken[i]])
    && (forall b :: 0 <= b < MAX_BLOCK ==> (used[b] <==> used0[b] || b in taken))
    && (forall b :: 0 <= b < MAX_BLOCK && b !in taken ==> disk[b] == disk0[b])
  }

  lemma FillNothing(bu: seq<bool>, iu: seq<bool>, inodes: seq<Inode>, disk: seq<Block>,
                    view: Fs, place: map<nat, Place>, owner: map<nat, nat>, bytes: seq<byte>)
    requires Consistent(bu, iu, inodes, disk, view, place, owner)
    ensures |bu| == MAX_BLOCK && (forall r :: 0 <= r < RESERVED ==> bu[r]) && Filling(bu, bu, disk, disk, [], [], bytes)
  {
    hide Inv, FileFits, Partition;
  }

  lemma GrownTake(used0: seq<bool>, used: seq<bool>, disk0: seq<Block>, disk: seq<Block>, taken: seq<nat>, b: nat)
    requires Grown(used0, used, disk0, disk, taken)
    requires b < MAX_BLOCK && !used[b] && forall r :: 0 <= r < RESERVED ==> used0[r]
    ensures Grown(used0, used[b := true], disk0, disk, taken + [b]) && b !in taken
  {
    var taken' := taken + [b];
    forall x | x in taken ensures x in taken' {
      assert taken'[IndexOf(taken, x)] == x;
    }
    assert taken'[|taken|] == b;
  }

  /** Besides, the blocks of data, all among those taken, hold the first part of bytes. */
  ghost predicate Filling(used0: seq<bool>, used: seq<bool>, disk0: seq<Block>, disk: seq<Block>, taken: seq<nat>,
                          data: seq<nat>, bytes: seq<byte>)
  {
    && Grown(used0, used, disk0, disk, taken)
    && forall i :: 0 <= i < |data| ==> data[i] in taken && data[i] < MAX_BLOCK && Matches(disk[data[i]], bytes, i)
  }

  /** A block that was in use before has not been written. */
  lemma UsedBlockKept(used0: seq<bool>, used: seq<bool>, disk0: seq<Block>, disk: seq<Block>, taken: seq<nat>,
                      data: seq<nat>, bytes: seq<byte>, b: nat)
    requires Filling(used0, used, disk0, disk, taken, data, bytes) && b < MAX_BLOCK && used0[b]
    ensures disk[b] == disk0[b]
  {
  }

  lemma FillTake(used0: seq<bool>, used: seq<bool>, disk0: seq<Block>, disk: seq<Block>, taken: seq<nat>,
                 data: seq<nat>, bytes: seq<byte>, b: nat)
    requires Filling(used0, used, disk0, disk, taken, data, bytes)
    requires b < MAX_BLOCK && !used[b] && forall r :: 0 <= r < RESERVED ==> used0[r]
    ensures Filling(used0, used[b := true], disk0, disk, taken + [b], data, bytes)
    ensures b !in taken && b in taken + [b] && (forall i :: 0 <= i < |data| ==> data[i] != b)
  {
    GrownTake(used0, used, disk0, disk, taken, b);
    hide Matches;
    assert (taken + [b])[|taken|] == b;
  }

  lemma FillPut(used0: seq<bool>, used: seq<bool>, disk0: seq<Block>, disk: seq<Block>, taken: seq<nat>,
                data: seq<nat>, bytes: seq<byte>, b: nat, buf: Block)
    requires Filling(used0, used, disk0, disk, taken, data, bytes)
    requires b < MAX_BLOCK && b in taken && (forall i :: 0 <= i < |data| ==> data[i] != b)
    ensures Filling(used0, used, disk0, disk[b := buf], taken, data, bytes)
    ensures Matches(buf, bytes, |data|) ==> Filling(used0, used, disk0, disk[b := buf], taken, data + [b], bytes)
  {
    hide Matches;
  }

  /** A file that was there before keeps its place and its bytes. */
  lemma OldFileKept(used0: seq<bool>, used: seq<bool>, inodes: seq<Inode>, disk0: seq<Block>, disk: seq<Block>,
                    taken: seq<nat>, view: Fs, id: nat, p: Place, owner: map<nat, nat>)
    requires Grown(used0, used, disk0, disk, taken) && BlockMapFits(used0, owner)
    requires |inodes| == MAX_INODE && id in view.files && id < MAX_INODE
    requires FileFits(inodes, disk0, view, id, p, owner)
    ensures FileFits(inodes, disk, view, id, p, owner)
  {
    forall i | 0 <= i < |Layout(p)| ensures disk[Layout(p)[i]] == disk0[Layout(p)[i]] {
      assert used0[Layout(p)[i]];
    }
    if |p.data| > DIRECT {
      var b := Layout(p)[|p.data|];
      assert disk[b] == disk0[b];
    }
  }

  function Claim(owner: map<nat, nat>, bs: seq<nat>, id: nat): (r: map<nat, nat>)
    ensures forall b :: b in r <==> b in owner || b in bs
    ensures forall b :: b in r ==> r[b] == if b in bs then id else owner[b]
  {
    owner + map b | b in bs :: id
  }

  /** What the blocks of a new file have to do with those just taken. */
  ghost predicate NewPlace(p: Place, taken: seq<nat>) {
    OnDisk(p) && Distinct(Layout(p)) && forall b :: b in Layout(p) <==> b in taken
  }

  lemma ClaimOwns(p: Place, id: nat, owner: map<nat, nat>)
    requires Distinct(Layout(p))
    ensures Owns(p, id, Claim(owner, Layout(p), id))
  {
  }

  lemma OthersStillOwn(used0: seq<bool>, q: Place, id': nat, p: Place, id: nat, owner: map<nat, nat>)
    requires BlockMapFits(used0, owner) && OnDisk(q) && Owns(q, id', owner)
    requires forall b :: b in Layout(p) ==> b < MAX_BLOCK && !used0[b]
    ensures Owns(q, id', Claim(owner, Layout(p), id))
  {
    forall i | 0 <= i < |Layout(q)| ensures Layout(q)[i] !in Layout(p) {
      assert used0[Layout(q)[i]];
    }
  }

  lemma ClaimPartition(p: Place, id: nat, place: map<nat, Place>, owner: map<nat, nat>)
    requires Partition(owner, place) && id !in place
    ensures Partition(Claim(owner, Layout(p), id), place[id := p])
  {
  }

  lemma ClaimMap(used0: seq<bool>, used: seq<bool>, disk0: seq<Block>, disk: seq<Block>, taken: seq<nat>, p: Place,
                 id: nat, owner: map<nat, nat>)
    requires BlockMapFits(used0, owner) && Grown(used0, used, disk0, disk, taken) && NewPlace(p, taken)
    ensures BlockMapFits(used, Claim(owner, Layout(p), id))
  {
  }

  lemma NewBlocksWereFree(used0: seq<bool>, used: seq<bool>, disk0: seq<Block>, disk: seq<Block>, taken: seq<nat>,
                          p: Place)
    requires Grown(used0, used, disk0, disk, taken) && NewPlace(p, taken)
    ensures forall b :: b in Layout(p) ==> b < MAX_BLOCK && !used0[b]
  {
    forall b | b in Layout(p) ensures b < MAX_BLOCK && !used0[b] {
      var i := IndexOf(taken, b);
    }
  }

  /** The whole layout after a file has been added under a new name. */
  lemma FileAdded(bu0: seq<bool>, bu: seq<bool>, iu: seq<bool>, inodes: seq<Inode>, disk0: seq<Block>,
                  disk: seq<Block>, taken: seq<nat>, view: Fs, place: map<nat, Place>, owner: map<nat, nat>,
                  name: string, id: nat, ino: Inode, f: FileData, p: Place)
    requires Consistent(bu0, iu, inodes, disk0, view, place, owner)
    requires Grown(bu0, bu, disk0, disk, taken) && NewPlace(p, taken)
    requires id < MAX_INODE && id !in view.files
    requires Lookup(view.dir, name) == -1 && |view.dir| < MAX_DIR_ENTRY && 1 <= |f.bytes| <= MAX_SIZE
    requires |disk| == MAX_BLOCK && InodeFits(ino, f, p) && ino.linkCount == 1 && Stored(disk, f.bytes, p)
    ensures Consistent(bu, iu[id := true], inodes[id := ino], disk,
                       Fs(view.dir + [Entry(name, id)], view.files[id := f]), place[id := p],
                       Claim(owner, Layout(p), id))
  {
    hide Inv, Grown, Stored, Owns, OnDisk, NewPlace, Partition, BlockMapFits, InodeFits, Links, Lookup, FileFits,
         Layout, Claim;
    var view' := Fs(view.dir + [Entry(name, id)], view.files[id := f]);
    var owner' := Claim(owner, Layout(p), id);
    AddInv(view, name, id, f);
    ClaimPartition(p, id, place, owner);
    ClaimMap(bu0, bu, disk0, disk, taken, p, id, owner);
    NewBlocksWereFree(bu0, bu, disk0, disk, taken, p);
    NoLinks(view, id);
    NewFileFits(inodes[id := ino], disk, view', id, p, owner, taken, view.dir, name);
    forall x | x in view.files ensures FileFits(inodes[id := ino], disk, view', x, place[x], owner') {
      OldFileKept(bu0, bu, inodes, disk0, disk, taken, view, x, place[x], owner);
      OldFileFits(bu0, inodes, disk, view, x, place[x], owner, name, id, ino, f, p);
    }
  }

  /** A file that was there before still fits when another has been added. */
  lemma OldFileFits(used0: seq<bool>, inodes: seq<Inode>, disk: seq<Block>, view: Fs, x: nat, q: Place,
                    owner: map<nat, nat>, name: string, id: nat, ino: Inode, f: FileData, p: Place)
    requires BlockMapFits(used0, owner) && |inodes| == MAX_INODE && |disk| == MAX_BLOCK
    requires x in view.files && x < MAX_INODE && id < MAX_INODE && x != id
    requires FileFits(inodes, disk, view, x, q, owner)
    requires forall b :: b in Layout(p) ==> b < MAX_BLOCK && !used0[b]
    ensures FileFits(inodes[id := ino], disk, Fs(view.dir + [Entry(name, id)], view.files[id := f]), x, q,
                     Claim(owner, Layout(p), id))
  {
    hide Stored, Owns, OnDisk, BlockMapFits, InodeFits, Links, Layout;
    OthersStillOwn(used0, q, x, p, id, owner);
    LinksAppend(view.dir, Entry(name, id), x);
  }

  lemma NoLinks(view: Fs, id: nat)
    requires Inv(view) && id !in view.files
    ensures Links(view.dir, id) == 0
  {
    LinksIff(view.dir, id);
  }

  lemma NewFileFits(inodes: seq<Inode>, disk: seq<Block>, view: Fs, id: nat, p: Place, owner: map<nat, nat>,
                    taken: seq<nat>, dir: seq<Entry>, name: string)
    requires |inodes| == MAX_INODE && |disk| == MAX_BLOCK && id in view.files && id < MAX_INODE
    requires NewPlace(p, taken) && InodeFits(inodes[id], view.files[id], p) && inodes[id].linkCount == 1
    requires Stored(disk, view.files[id].bytes, p)
    requires view.dir == dir + [Entry(name, id)] && Links(dir, id) == 0
    ensures FileFits(inodes, disk, view, id, p, Claim(owner, Layout(p), id))
  {
    hide Stored, InodeFits, Links;
    ClaimOwns(p, id, owner);
    LinksAppend(dir, Entry(name, id), id);
  }

  // ----- names that come and go

  /** A second name for a file: its inode counts one more link. */
  lemma NameAdded(bu: seq<bool>, iu: seq<bool>, inodes: seq<Inode>, disk: seq<Block>, view: Fs,
                  place: map<nat, Place>, owner: map<nat, nat>, src: string, dest: string, id: nat)
    requires Consistent(bu, iu, inodes, disk, view, place, owner)
    requires LinkFile(view, src, dest).1.Done? && id == Lookup(view.dir, src)
    ensures Consistent(bu, iu, inodes[id := inodes[id].(linkCount := inodes[id].linkCount + 1)], disk,
                       LinkFile(view, src, dest).0, place, owner)
  {
    hide Stored, Owns, OnDisk, Partition, BlockMapFits, Links, Lookup, Inv, SumCost;
    LinkInv(view, src, dest);
    forall x | x in view.files
      ensures FileFits(inodes[id := inodes[id].(linkCount := inodes[id].linkCount + 1)], disk,
                       LinkFile(view, src, dest).0, x, place[x], owner)
    {
      LinksAppend(view.dir, Entry(dest, id), x);
    }
  }

  /** One of several names goes: its inode counts one link less. */
  lemma NameDropped(bu: seq<bool>, iu: seq<bool>, inodes: seq<Inode>, disk: seq<Block>, view: Fs,
                    place: map<nat, Place>, owner: map<nat, nat>, name: string, id: nat)
    requires Consistent(bu, iu, inodes, disk, view, place, owner)
    requires RemoveFile(view, name).1.Done? && id == Lookup(view.dir, name) && Links(view.dir, id) != 1
    ensures Consistent(bu, iu, inodes[id := inodes[id].(linkCount := inodes[id].linkCount - 1)], disk,
                       RemoveFile(view, name).0, place, owner)
  {
    hide Stored, Owns, OnDisk, Partition, BlockMapFits, Links, Lookup, Without, Inv;
    RemoveInv(view, name);
    InvNames(view);
    forall x | x in view.files
      ensures FileFits(inodes[id := inodes[id].(linkCount := inodes[id].linkCount - 1)], disk,
                       RemoveFile(view, name).0, x, place[x], owner)
    {
      WithoutParts(view.dir, name, x);
    }
  }

  lemma InvNames(view: Fs)
    requires Inv(view)
    ensures NamesDistinct(view.dir)
  {
  }

  /** The blocks freed, and no others, have been given back. */
  ghost predicate Shrunk(used0: seq<bool>, used: seq<bool>, freed: seq<nat>) {
    && |used0| == |used| == MAX_BLOCK
    && forall b :: 0 <= b < MAX_BLOCK ==> (used[b] <==> used0[b] && b !in freed)
  }

  function Disown(owner: map<nat, nat>, bs: seq<nat>): map<nat, nat> {
    map b | b in owner && b !in bs :: owner[b]
  }

  lemma DisownMap(used0: seq<bool>, used: seq<bool>, p: Place, owner: map<nat, nat>)
    requires BlockMapFits(used0, owner) && OnDisk(p) && Shrunk(used0, used, Layout(p))
    ensures BlockMapFits(used, Disown(owner, Layout(p)))
  {
  }

  lemma DisownPartition(id: nat, place: map<nat, Place>, owner: map<nat, nat>)
    requires Partition(owner, place) && id in place && Owns(place[id], id, owner)
    ensures Partition(Disown(owner, Layout(place[id])), place - {id})
  {
  }

  lemma OthersKeep(q: Place, x: nat, p: Place, id: nat, owner: map<nat, nat>)
    requires Owns(q, x, owner) && Owns(p, id, owner) && x != id
    ensures Owns(q, x, Disown(owner, Layout(p)))
  {
    forall b | b in Layout(p) ensures b in owner && owner[b] == id {
      var j := IndexOf(Layout(p), b);
    }
  }

  /** The last name goes: the file's blocks and its inode are free again. */
  lemma FileDropped(bu0: seq<bool>, bu: seq<bool>, iu: seq<bool>, inodes: seq<Inode>, disk: seq<Block>, view: Fs,
                    place: map<nat, Place>, owner: map<nat, nat>, name: string, id: nat)
    requires Consistent(bu0, iu, inodes, disk, view, place, owner)
    requires RemoveFile(view, name).1.Done? && id == Lookup(view.dir, name) && Links(view.dir, id) == 1
    requires id < MAX_INODE
    requires id in place && Shrunk(bu0, bu, Layout(place[id]))
    ensures Consistent(bu, iu[id := false], inodes, disk, RemoveFile(view, name).0, place - {id},
                       Disown(owner, Layout(place[id])))
  {
    hide Stored, Owns, OnDisk, Partition, BlockMapFits, Links, Lookup, Without, Inv, Shrunk;
    var p := place[id];
    assert FileFits(inodes, disk, view, id, p, owner);
    RemoveInv(view, name);
    InvNames(view);
    DisownMap(bu0, bu, p, owner);
    DisownPartition(id, place, owner);
    forall x | x in view.files && x != id
      ensures FileFits(inodes, disk, RemoveFile(view, name).0, x, place[x], Disown(owner, Layout(p)))
    {
      assert FileFits(inodes, disk, view, x, place[x], owner);
      WithoutParts(view.dir, name, x);
      OthersKeep(place[x], x, p, id, owner);
    }
  }

  // ----- the place of a file just written

  /** A small file: its blocks are exactly those taken. */
  lemma PlaceSmall(used0: seq<bool>, used: seq<bool>, disk0: seq<Block>, disk: seq<Block>, data: seq<nat>,
                   bytes: seq<byte>)
    requires Filling(used0, used, disk0, disk, data, data, bytes) && |data| <= DIRECT
    ensures NewPlace(Place(data, 0), data) && Stored(disk, bytes, Place(data, 0))
  {
    hide Matches;
    assert Layout(Place(data, 0)) == data;
  }

  /** A large file: the indirect block was taken between the direct ones and the rest. */
  lemma PlaceLarge(used0: seq<bool>, used: seq<bool>, disk0: seq<Block>, disk: seq<Block>, first: seq<nat>,
                   more: seq<nat>, indirect: nat, bytes: seq<byte>)
    requires Filling(used0, used, disk0, disk, first + [indirect] + more, first + more, bytes)
    requires |first| == DIRECT && more != [] && indirect < MAX_BLOCK && Lists(disk[indirect], first + more)
    ensures var p := Place(first + more, indirect);
            NewPlace(p, first + [indirect] + more) && Stored(disk, bytes, p)
  {
    hide Matches, Lists, Filling, Distinct;
    var p, taken := Place(first + more, indirect), first + [indirect] + more;
    var l := Layout(p);
    FillingParts(used0, used, disk0, disk, taken, p.data, bytes);
    DistinctParts(first + [indirect], more);
    DistinctParts(first, [indirect]);
    DistinctJoin(first, more);
    DistinctJoin(p.data, [indirect]);
    forall b ensures b in l <==> b in taken {
      assert b in first + [indirect] <==> b in first || b == indirect;
    }
    assert forall i :: 0 <= i < |l| ==> l[i] in l;
    assert forall i :: 0 <= i < |p.data| ==> l[i] == p.data[i];
  }

  lemma FillingParts(used0: seq<bool>, used: seq<bool>, disk0: seq<Block>, disk: seq<Block>, taken: seq<nat>,
                     data: seq<nat>, bytes: seq<byte>)
    requires Filling(used0, used, disk0, disk, taken, data, bytes)
    ensures |disk| == MAX_BLOCK && Distinct(taken) && forall b :: b in taken ==> RESERVED <= b < MAX_BLOCK
    ensures forall i :: 0 <= i < |data| ==> data[i] < MAX_BLOCK && Matches(disk[data[i]], bytes, i)
  {
    hide Matches, Distinct;
    forall b | b in taken ensures RESERVED <= b < MAX_BLOCK {
      var i := IndexOf(taken, b);
    }
  }

  // ----- the blocks of a file that goes

  lemma ReleaseStep(used0: seq<bool>, used: seq<bool>, freed: seq<nat>, b: nat)
    requires Shrunk(used0, used, freed) && b < MAX_BLOCK && used0[b] && b !in freed
    ensures used[b] && Shrunk(used0, used[b := false], freed + [b])
  {
    var freed' := freed + [b];
    assert freed'[|freed|] == b;
    assert forall x :: x in freed' <==> x in freed || x == b;
  }

  /** The blocks of the file, all different and all in use, as its inode and indirect block give them. */
  ghost predicate Releasable(ino: Inode, disk: seq<Block>, used: seq<bool>, p: Place) {
    && |disk| == |used| == MAX_BLOCK
    && Distinct(Layout(p)) && |p.data| <= DIRECT + INDIRECT
    && (forall i :: 0 <= i < |Layout(p)| ==> Layout(p)[i] < MAX_BLOCK && used[Layout(p)[i]])
    && (forall i :: 0 <= i < |p.data| && i < DIRECT ==> ino.direct[i] == p.data[i])
    && (|p.data| > DIRECT ==> ino.indirect == p.indirect < MAX_BLOCK && Lists(disk[p.indirect], p.data))
  }

  lemma FitsReleasable(bu: seq<bool>, iu: seq<bool>, inodes: seq<Inode>, disk: seq<Block>,
                       view: Fs, place: map<nat, Place>, owner: map<nat, nat>, id: nat)
    requires Consistent(bu, iu, inodes, disk, view, place, owner) && id in view.files
    ensures id in place && id < |inodes| && Releasable(inodes[id], disk, bu, place[id])
    ensures |place[id].data| == BlocksFor(|view.files[id].bytes|) && |Layout(place[id])| == Cost(|view.files[id].bytes|)
  {
    hide Consistent, Matches, Lists, Owns, OnDisk, Distinct;
    ConsistentAt(bu, iu, inodes, disk, view, place, owner, id);
    LayoutInUse(bu, iu, inodes, disk, view, place, owner, id);
    var p, n := place[id], |place[id].data|;
    IndirectIff(|view.files[id].bytes|);
    if n > DIRECT {
      assert Layout(p)[n] == p.indirect;
    }
  }

  /** A place in the data blocks, when the ones before it have been freed. */
  lemma DataNotFreed(ino: Inode, disk: seq<Block>, used: seq<bool>, p: Place, i: nat)
    requires Releasable(ino, disk, used, p) && i < |p.data|
    ensures p.data[i] < |used| && used[p.data[i]]
    ensures p.data[i] !in p.data[..i] && p.data[..i] + [p.data[i]] == p.data[..i + 1]
    ensures i < DIRECT ==> ino.direct[i] == p.data[i]
    ensures DIRECT <= i ==>
      i - DIRECT < INDIRECT && p.indirect < |disk| && Decode(disk[p.indirect])[i - DIRECT] == p.data[i]
  {
    hide Decode;
    assert forall j :: 0 <= j <= i ==> p.data[j] == Layout(p)[j];
  }

  lemma IndirectNotFreed(ino: Inode, disk: seq<Block>, used: seq<bool>, p: Place)
    requires Releasable(ino, disk, used, p) && |p.data| > DIRECT
    ensures p.indirect < |used| == |disk| && used[p.indirect] && ino.indirect == p.indirect
    ensures p.indirect !in p.data && p.data + [p.indirect] == Layout(p)
  {
    hide Lists;
    assert p.indirect == Layout(p)[|p.data|];
    assert forall j :: 0 <= j < |p.data| ==> p.data[j] == Layout(p)[j];
  }

  /** The link count of a regular file is the number of its names. */
  lemma LinkCountIs(bu: seq<bool>, iu: seq<bool>, inodes: seq<Inode>, disk: seq<Block>,
                    view: Fs, place: map<nat, Place>, owner: map<nat, nat>, id: nat)
    requires Consistent(bu, iu, inodes, disk, view, place, owner) && id in view.files && view.files[id].kind.File?
    ensures id < |inodes| && inodes[id].linkCount == Links(view.dir, id)
  {
    hide Links, OnDisk, Owns, InodeFits, Stored;
    ConsistentAt(bu, iu, inodes, disk, view, place, owner, id);
  }
}
