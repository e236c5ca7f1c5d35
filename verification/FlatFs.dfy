/**
 * The specification of the flat file system: one directory that names files, and what each file
 * holds. There are no blocks, bitmaps or inodes here; free space is what the sizes leave over.
 */
module FlatFs {
  import opened Blocks

  const MAX_BLOCK := 4096
  const MAX_INODE := 512
  const MAX_DIR_ENTRY := 21
  const DIRECT := 15
  const MAX_SIZE := 73216
  const DIRECT_SIZE := 7680
  /** The superblock, the two bitmaps and the inode blocks. */
  const RESERVED := 131

  datatype Kind = File | Directory

  datatype FileData = FileData(kind: Kind, bytes: seq<byte>)

  datatype Entry = Entry(name: string, inode: nat)

  datatype Fs = Fs(dir: seq<Entry>, files: map<nat, FileData>)

  datatype Error = BadSize | NotFound | Exists | IsDirectory | DirectoryFull | InodesFull | BlocksFull

  datatype Code = Done | Failed(why: Error)

  // ----- space

  function BlocksFor(size: nat): nat {
    size / BLOCK_SIZE + if size % BLOCK_SIZE > 0 then 1 else 0
  }

  /** The blocks a file takes: its data, and an indirect block beyond 15 of them. */
  function Cost(size: nat): nat {
    BlocksFor(size) + if size > DIRECT_SIZE then 1 else 0
  }

  /** A file needs an indirect block exactly when its data do not fit the direct blocks. */
  lemma IndirectIff(size: nat)
    ensures size > DIRECT_SIZE <==> BlocksFor(size) > DIRECT
    ensures size <= MAX_SIZE <==> BlocksFor(size) <= DIRECT + INDIRECT
    ensures BlocksFor(size) * BLOCK_SIZE >= size > (BlocksFor(size) - 1) * BLOCK_SIZE || size == 0
  {
  }

  function CostAt(files: map<nat, FileData>, id: nat): nat {
    if id in files then Cost(|files[id].bytes|) else 0
  }

  /** What the files with numbers below n take together. */
  function SumCost(files: map<nat, FileData>, n: nat): nat {
    if n == 0 then 0 else SumCost(files, n - 1) + CostAt(files, n - 1)
  }

  function FreeBlocks(s: Fs): int {
    MAX_BLOCK - RESERVED - SumCost(s.files, MAX_INODE)
  }

  function FreeInodes(s: Fs): int {
    MAX_INODE - |s.files|
  }

  lemma {:induction false} SumCostUpdate(files: map<nat, FileData>, id: nat, f: FileData, n: nat)
    ensures SumCost(files[id := f], n)
         == SumCost(files, n) + if id < n then Cost(|f.bytes|) - CostAt(files, id) else 0
  {
    if n == 0 {
    } else {
      SumCostUpdate(files, id, f, n - 1);
    }
  }

  lemma {:induction false} SumCostRemove(files: map<nat, FileData>, id: nat, n: nat)
    ensures SumCost(files - {id}, n) == SumCost(files, n) - if id < n then CostAt(files, id) else 0
  {
    if n == 0 {
    } else {
      SumCostRemove(files, id, n - 1);
    }
  }

  /** The lowest number from n on that no file has. */
  function FirstFree(files: map<nat, FileData>, n: nat): (id: nat)
    requires n <= MAX_INODE
    ensures n <= id <= MAX_INODE
    ensures id < MAX_INODE ==> id !in files
    ensures forall i :: n <= i < id ==> i in files
    decreases MAX_INODE - n
  {
    if n == MAX_INODE || n !in files then n else FirstFree(files, n + 1)
  }

  // ----- the directory

  /** The number of the file of this name, or -1. */
  function Lookup(dir: seq<Entry>, name: string): (id: int)
    ensures id == -1 <==> forall i :: 0 <= i < |dir| ==> dir[i].name != name
    ensures id >= -1 && (id != -1 ==> exists i :: 0 <= i < |dir| && dir[i] == Entry(name, id))
  {
    if dir == [] then -1
    else if dir[0].name == name then dir[0].inode
    else
      var id := Lookup(dir[1..], name);
      assert forall i :: 0 < i < |dir| ==> dir[i] == dir[1..][i - 1];
      assert id == -1 ==> forall i :: 0 <= i < |dir| ==> dir[i].name != name;
      assert id != -1 ==> exists i :: 0 <= i < |dir| && dir[i] == Entry(name, id) by {
        if id != -1 {
          var i :| 0 <= i < |dir[1..]| && dir[1..][i] == Entry(name, id);
          assert dir[i + 1] == Entry(name, id);
        }
      }
      id
  }

  /** The directory without the first entry of this name. */
  function Without(dir: seq<Entry>, name: string): seq<Entry> {
    if dir == [] then []
    else if dir[0].name == name then dir[1..]
    else [dir[0]] + Without(dir[1..], name)
  }

  /** How many entries name the file. */
  function Links(dir: seq<Entry>, id: nat): nat {
    if dir == [] then 0 else Links(dir[1..], id) + if dir[0].inode == id then 1 else 0
  }

  // ----- the commands

  function CreateFile(s: Fs, name: string, size: int, content: seq<byte>): (Fs, Code) {
    if size <= 0 || size > MAX_SIZE then (s, Failed(BadSize))
    else if Lookup(s.dir, name) >= 0 then (s, Failed(Exists))
    else if |s.dir| + 1 > MAX_DIR_ENTRY then (s, Failed(DirectoryFull))
    else if FreeInodes(s) < 1 then (s, Failed(InodesFull))
    else if Cost(size) > FreeBlocks(s) then (s, Failed(BlocksFull))
    else
      var id := FirstFree(s.files, 0);
      (Fs(s.dir + [Entry(name, id)], s.files[id := FileData(File, content)]), Done)
  }

  /** The bytes shown, if any. */
  function Show(s: Fs, name: string): (Code, seq<byte>) {
    var id := Lookup(s.dir, name);
    if id < 0 || id !in s.files then (Failed(NotFound), [])
    else if s.files[id].kind.Directory? then (Failed(IsDirectory), [])
    else (Done, s.files[id].bytes)
  }

  function RemoveFile(s: Fs, name: string): (Fs, Code) {
    var id := Lookup(s.dir, name);
    if id < 0 || id !in s.files then (s, Failed(NotFound))
    else if s.files[id].kind.Directory? then (s, Failed(IsDirectory))
    else (Fs(Without(s.dir, name), if Links(s.dir, id) == 1 then s.files - {id} else s.files), Done)
  }

  /** A link needs neither a block nor an inode, but it is refused as if it did. */
  function LinkFile(s: Fs, src: string, dest: string): (Fs, Code) {
    var id := Lookup(s.dir, src);
    if id < 0 || id !in s.files then (s, Failed(NotFound))
    else if Lookup(s.dir, dest) >= 0 then (s, Failed(Exists))
    else if s.files[id].kind.Directory? then (s, Failed(IsDirectory))
    else if |s.dir| + 1 > MAX_DIR_ENTRY then (s, Failed(DirectoryFull))
    else if BlocksFor(|s.files[id].bytes|) > FreeBlocks(s) then (s, Failed(BlocksFull))
    else if FreeInodes(s) < 1 then (s, Failed(InodesFull))
    else (s.(dir := s.dir + [Entry(dest, id)]), Done)
  }

  function CopyFile(s: Fs, src: string, dest: string): (Fs, Code) {
    var id := Lookup(s.dir, src);
    if id < 0 || id !in s.files then (s, Failed(NotFound))
    else if Lookup(s.dir, dest) >= 0 then (s, Failed(Exists))
    else if |s.dir| + 1 > MAX_DIR_ENTRY then (s, Failed(DirectoryFull))
    else if FreeInodes(s) < 1 then (s, Failed(InodesFull))
    else if Cost(|s.files[id].bytes|) > FreeBlocks(s) then (s, Failed(BlocksFull))
    else
      var newId := FirstFree(s.files, 0);
      (Fs(s.dir + [Entry(dest, newId)], s.files[newId := s.files[id]]), Done)
  }
}
