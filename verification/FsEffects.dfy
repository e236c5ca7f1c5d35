/** What each command of the file system does when it succeeds, and why it fails when it does not. */
module FsEffects {
  import opened Sequences
  import opened Blocks
  import opened FlatFs
  import opened FsTheorems

  /** A new file under a new name; every other name, file and link is as it was. */
  ghost predicate FileIsNew(s: Fs, r: Fs, name: string, f: FileData) {
    var id := Lookup(r.dir, name);
    && 0 <= id < MAX_INODE && id !in s.files && (forall i :: 0 <= i < id ==> i in s.files)
    && r.files.Keys == s.files.Keys + {id} && r.files[id] == f && Links(r.dir, id) == 1
    && (forall x :: x in s.files ==> r.files[x] == s.files[x] && Links(r.dir, x) == Links(s.dir, x))
    && (forall n :: n != name ==> Lookup(r.dir, n) == Lookup(s.dir, n))
    && FreeBlocks(r) == FreeBlocks(s) - Cost(|f.bytes|) && FreeInodes(r) == FreeInodes(s) - 1
  }

  lemma AddedIsNew(s: Fs, name: string, f: FileData)
    requires Inv(s) && Lookup(s.dir, name) == -1
    ensures FirstFree(s.files, 0) < MAX_INODE
    ensures var id := FirstFree(s.files, 0);
      FileIsNew(s, Fs(s.dir + [Entry(name, id)], s.files[id := f]), name, f)
  {
    hide Inv, Lookup, Links, SumCost, FirstFree;
    SpaceNeverRunsOut(s);
    FirstFreeExists(s.files);
    var id := FirstFree(s.files, 0);
    var e, r := Entry(name, id), Fs(s.dir + [Entry(name, id)], s.files[id := f]);
    SpaceAfterAdd(s, name, id, f);
    NoLinksYet(s, id);
    forall x: nat ensures Links(r.dir, x) == Links(s.dir, x) + if x == id then 1 else 0 {
      LinksAppend(s.dir, e, x);
    }
    forall n ensures Lookup(r.dir, n) == if n == name then id else Lookup(s.dir, n) {
      LookupAppend(s.dir, e, n);
    }
  }

  lemma NoLinksYet(s: Fs, id: nat)
    requires Inv(s) && id !in s.files
    ensures Links(s.dir, id) == 0
  {
    LinksIff(s.dir, id);
  }

  /** create makes a new regular file of the content, with the lowest free inode. */
  lemma CreateMakesFile(s: Fs, name: string, content: seq<byte>)
    requires Inv(s) && CreateFile(s, name, |content|, content).1.Done?
    ensures FileIsNew(s, CreateFile(s, name, |content|, content).0, name, FileData(File, content))
  {
    hide Inv, FileIsNew, Lookup, FirstFree, SumCost;
    AddedIsNew(s, name, FileData(File, content));
  }

  /** So does cp, of the content of its source: a copy is never a link. */
  lemma CopyMakesFile(s: Fs, src: string, dest: string)
    requires Inv(s) && CopyFile(s, src, dest).1.Done?
    ensures Lookup(s.dir, src) in s.files
    ensures FileIsNew(s, CopyFile(s, src, dest).0, dest, s.files[Lookup(s.dir, src)])
  {
    hide Inv, FileIsNew, Lookup, FirstFree, SumCost;
    AddedIsNew(s, dest, s.files[Lookup(s.dir, src)]);
  }

  /** ln makes no file: the new name leads to the source's own, which has one link more. */
  lemma LinkSharesFile(s: Fs, src: string, dest: string)
    requires Inv(s) && LinkFile(s, src, dest).1.Done?
    ensures var id, r := Lookup(s.dir, src), LinkFile(s, src, dest).0;
      && id >= 0 && Lookup(r.dir, dest) == id && r.files == s.files
      && (forall x: nat :: Links(r.dir, x) == Links(s.dir, x) + if x == id then 1 else 0)
      && (forall n :: n != dest ==> Lookup(r.dir, n) == Lookup(s.dir, n))
      && FreeBlocks(r) == FreeBlocks(s) && FreeInodes(r) == FreeInodes(s)
  {
    hide Inv, Lookup, Links, SumCost;
    var id, r := Lookup(s.dir, src), LinkFile(s, src, dest).0;
    forall x: nat ensures Links(r.dir, x) == Links(s.dir, x) + if x == id then 1 else 0 {
      LinksAppend(s.dir, Entry(dest, id), x);
    }
    forall n ensures Lookup(r.dir, n) == if n == dest then id else Lookup(s.dir, n) {
      LookupAppend(s.dir, Entry(dest, id), n);
    }
  }

  /** rm takes the name away and one link; the file and its space go with the last one only. */
  lemma RemoveDropsName(s: Fs, name: string)
    requires Inv(s) && RemoveFile(s, name).1.Done?
    ensures var id, r := Lookup(s.dir, name), RemoveFile(s, name).0;
      && id in s.files && Lookup(r.dir, name) == -1
      && (forall x: nat :: Links(r.dir, x) == Links(s.dir, x) - if x == id then 1 else 0)
      && (forall n :: n != name ==> Lookup(r.dir, n) == Lookup(s.dir, n))
      && r.files == (if Links(s.dir, id) > 1 then s.files else s.files - {id})
      && FreeBlocks(r) == FreeBlocks(s) + (if Links(s.dir, id) > 1 then 0 else Cost(|s.files[id].bytes|))
      && FreeInodes(r) == FreeInodes(s) + if Links(s.dir, id) > 1 then 0 else 1
  {
    hide Lookup, Links, Without, SumCost;
    var id, r := Lookup(s.dir, name), RemoveFile(s, name).0;
    assert NamesDistinct(s.dir) && Links(s.dir, id) >= 1 && id < MAX_INODE;
    hide Inv;
    if Links(s.dir, id) == 1 {
      SpaceAfterDrop(s, name);
    }
    forall x: nat ensures Links(r.dir, x) == Links(s.dir, x) - if x == id then 1 else 0 {
      WithoutParts(s.dir, name, x);
    }
    WithoutParts(s.dir, name, id);
    forall n | n != name ensures Lookup(r.dir, n) == Lookup(s.dir, n) {
      LookupWithout(s.dir, name, n);
    }
    assert forall i :: 0 <= i < |r.dir| ==> r.dir[i] in r.dir;
  }

  // ----- refusals

  ghost predicate Missing(s: Fs, name: string) {
    Lookup(s.dir, name) == -1
  }

  ghost predicate IsDir(s: Fs, name: string) {
    var id := Lookup(s.dir, name);
    id in s.files && s.files[id].kind.Directory?
  }

  ghost predicate NoRoom(s: Fs) {
    |s.dir| == MAX_DIR_ENTRY
  }

  /**
   * Which refusal a command answers with: the first that applies, in the order of the program. There
   * is always a free inode and enough blocks, so the last two never come.
   */
  lemma RefusesIff(s: Fs, c: Command, why: Error)
    requires Inv(s)
    ensures Step(s, c).1.code == Failed(why) <==>
      match (c, why)
      case (Create(_, size, _), BadSize) => size < 1 || size > 73216
      case (Create(name, size, _), Exists) => 1 <= size <= 73216 && !Missing(s, name)
      case (Create(name, size, _), DirectoryFull) => 1 <= size <= 73216 && Missing(s, name) && NoRoom(s)
      case (Cat(name), NotFound) => Missing(s, name)
      case (Cat(name), IsDirectory) => IsDir(s, name)
      case (Rm(name), NotFound) => Missing(s, name)
      case (Rm(name), IsDirectory) => IsDir(s, name)
      case (Ln(src, _), NotFound) => Missing(s, src)
      case (Ln(src, dest), Exists) => !Missing(s, src) && !Missing(s, dest)
      case (Ln(src, dest), IsDirectory) => Missing(s, dest) && IsDir(s, src)
      case (Ln(src, dest), DirectoryFull) => !Missing(s, src) && Missing(s, dest) && !IsDir(s, src) && NoRoom(s)
      case (Cp(src, _), NotFound) => Missing(s, src)
      case (Cp(src, dest), Exists) => !Missing(s, src) && !Missing(s, dest)
      case (Cp(src, dest), DirectoryFull) => !Missing(s, src) && Missing(s, dest) && NoRoom(s)
      case _ => false
  {
    hide Lookup, SumCost, FirstFree, Links, Without;
    SpaceNeverRunsOut(s);
    forall size: nat | size <= MAX_SIZE ensures Cost(size) <= MAX_COST && BlocksFor(size) <= MAX_COST {
      CostBound(size);
    }
  }

  /** Only a cat that succeeds shows anything: the bytes of the file that the name leads to. */
  lemma OnlyCatShows(s: Fs, c: Command)
    requires Step(s, c).1.shown != []
    ensures c.Cat? && Step(s, c).1.code.Done? && Step(s, c).0 == s
    ensures Content(s, c.name) == Holds(FileData(File, Step(s, c).1.shown))
  {
    hide SumCost, FirstFree, Links, Without, Lookup;
  }

  /** On a new disk there is one name, that of the directory itself. */
  lemma NewDisk(first: byte, name: string)
    ensures Lookup(Formatted(first).dir, name) == if name == "." then 0 else -1
    ensures IsDir(Formatted(first), ".") && Links(Formatted(first).dir, 0) == 1
  {
    var dir := Formatted(first).dir;
    assert dir[1..] == [];
  }
}
