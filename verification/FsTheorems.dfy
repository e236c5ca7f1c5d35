/** What the flat file system guarantees over whole runs of commands. */
module FsTheorems {
  import opened Sequences
  import opened Blocks
  import opened FlatFs

  datatype Command =
    | Create(name: string, size: int, content: seq<byte>)
    | Cat(name: string)
    | Rm(name: string)
    | Ln(src: string, dest: string)
    | Cp(src: string, dest: string)

  datatype Reply = Reply(code: Code, shown: seq<byte>)

  /** A create command brings the content that the original draws at random. */
  predicate Wf(c: Command) {
    c.Create? ==> c.size == |c.content| || c.size <= 0
  }

  function Step(s: Fs, c: Command): (Fs, Reply) {
    match c
    case Create(name, size, content) => var (t, code) := CreateFile(s, name, size, content); (t, Reply(code, []))
    case Cat(name) => var (code, shown) := Show(s, name); (s, Reply(code, shown))
    case Rm(name) => var (t, code) := RemoveFile(s, name); (t, Reply(code, []))
    case Ln(src, dest) => var (t, code) := LinkFile(s, src, dest); (t, Reply(code, []))
    case Cp(src, dest) => var (t, code) := CopyFile(s, src, dest); (t, Reply(code, []))
  }

  function Run(s: Fs, cs: seq<Command>): Fs {
    if cs == [] then s else Step(Run(s, cs[..|cs| - 1]), cs[|cs| - 1]).0
  }

  // ----- the invariant

  ghost predicate NamesDistinct(dir: seq<Entry>) {
    forall i, j :: 0 <= i < j < |dir| ==> dir[i].name != dir[j].name
  }

  /** Every entry names a file, every file has a name, sizes are in range, and file 0 is the root directory. */
  ghost predicate Inv(s: Fs) {
    && 0 in s.files && s.files[0].kind.Directory? && |s.files[0].bytes| == 1
    && |s.dir| <= MAX_DIR_ENTRY
    && NamesDistinct(s.dir)
    && (forall i :: 0 <= i < |s.dir| ==> s.dir[i].inode in s.files)
    && (forall id :: id in s.files ==> id < MAX_INODE && 1 <= |s.files[id].bytes| <= MAX_SIZE && Links(s.dir, id) >= 1)
  }

  lemma {:induction false} LinksIff(dir: seq<Entry>, id: nat)
    ensures Links(dir, id) >= 1 <==> exists i :: 0 <= i < |dir| && dir[i].inode == id
  {
    if dir == [] {
    } else {
      LinksIff(dir[1..], id);
      if dir[0].inode != id && Links(dir[1..], id) >= 1 {
        var i :| 0 <= i < |dir[1..]| && dir[1..][i].inode == id;
        assert dir[i + 1].inode == id;
      }
      if i :| 0 <= i < |dir| && dir[i].inode == id {
        if i > 0 { assert dir[1..][i - 1].inode == id; }
      }
    }
  }

  lemma {:induction false} LinksAppend(dir: seq<Entry>, e: Entry, id: nat)
    ensures Links(dir + [e], id) == Links(dir, id) + if e.inode == id then 1 else 0
  {
    if dir == [] {
      assert dir + [e] == [e];
    } else {
      assert (dir + [e])[1..] == dir[1..] + [e];
      LinksAppend(dir[1..], e, id);
    }
  }

  lemma NamesCons(dir: seq<Entry>)
    requires dir != []
    ensures NamesDistinct(dir) <==> NamesDistinct(dir[1..]) && forall e :: e in dir[1..] ==> e.name != dir[0].name
  {
    if NamesDistinct(dir) {
      forall e | e in dir[1..] ensures e.name != dir[0].name {
        var i :| 0 <= i < |dir[1..]| && dir[1..][i] == e;
        assert dir[i + 1] == e;
      }
    }
  }

  /** Removing a name takes one link from its file and changes nothing for the other names. */
  lemma {:induction false} WithoutParts(dir: seq<Entry>, name: string, id: nat)
    requires NamesDistinct(dir) && Lookup(dir, name) >= 0
    ensures Links(Without(dir, name), id) == Links(dir, id) - if Lookup(dir, name) == id then 1 else 0
    ensures |Without(dir, name)| == |dir| - 1
    ensures forall e :: e in Without(dir, name) <==> e in dir && e.name != name
    ensures NamesDistinct(Without(dir, name))
  {
    hide NamesDistinct;
    NamesCons(dir);
    assert forall e :: e in dir <==> e == dir[0] || e in dir[1..] by {
      assert dir == [dir[0]] + dir[1..];
    }
    if dir[0].name == name {
    } else {
      WithoutParts(dir[1..], name, id);
      NamesCons([dir[0]] + Without(dir[1..], name));
    }
  }

  lemma {:induction false} LookupEntry(dir: seq<Entry>, name: string, id: nat)
    requires NamesDistinct(dir)
    ensures Lookup(dir, name) == id <==> Entry(name, id) in dir
  {
    if dir == [] {
    } else {
      assert dir == [dir[0]] + dir[1..];
      assert NamesDistinct(dir[1..]);
      LookupEntry(dir[1..], name, id);
      forall i | 0 <= i < |dir[1..]| ensures dir[1..][i].name != dir[0].name {
        assert dir[1..][i] == dir[i + 1];
      }
    }
  }

  // ----- space never runs out

  function Numbers(n: nat): (r: set<nat>)
    ensures forall i :: i in r <==> 0 <= i < n
  {
    if n == 0 then {} else Numbers(n - 1) + {n - 1}
  }

  lemma {:induction false} NumbersCount(n: nat)
    ensures |Numbers(n)| == n
  {
    if n == 0 {
    } else {
      NumbersCount(n - 1);
    }
  }

  lemma KeysCount(m: map<nat, FileData>)
    ensures |m| == |m.Keys|
  {
  }

  /** While fewer than 512 files are live, one of the numbers is free. */
  lemma FirstFreeExists(files: map<nat, FileData>)
    requires |files| < MAX_INODE
    ensures FirstFree(files, 0) < MAX_INODE
  {
    if FirstFree(files, 0) == MAX_INODE {
      NumbersCount(MAX_INODE);
      SubsetCount(Numbers(MAX_INODE), files.Keys);
      KeysCount(files);
    }
  }

  function Targets(dir: seq<Entry>): (r: set<nat>)
    ensures forall id :: id in r <==> exists i :: 0 <= i < |dir| && dir[i].inode == id
  {
    set i | 0 <= i < |dir| :: dir[i].inode
  }

  lemma {:induction false} TargetsCount(dir: seq<Entry>)
    ensures |Targets(dir)| <= |dir|
  {
    if dir == [] {
    } else {
      var n := |dir| - 1;
      TargetsCount(dir[..n]);
      assert Targets(dir) == Targets(dir[..n]) + {dir[n].inode} by {
        forall id | id in Targets(dir) ensures id in Targets(dir[..n]) + {dir[n].inode} {
          var i :| 0 <= i < |dir| && dir[i].inode == id;
          assert i < n ==> dir[..n][i].inode == id;
        }
        forall id | id in Targets(dir[..n]) ensures id in Targets(dir) {
          var i :| 0 <= i < |dir[..n]| && dir[..n][i].inode == id;
          assert dir[i].inode == id;
        }
      }
    }
  }

  /** There are no more files than names. */
  lemma FilesHaveNames(s: Fs)
    requires Inv(s)
    ensures |s.files| <= |s.dir|
  {
    forall id | id in s.files.Keys ensures id in Targets(s.dir) {
      LinksIff(s.dir, id);
    }
    SubsetCount(s.files.Keys, Targets(s.dir));
    TargetsCount(s.dir);
    KeysCount(s.files);
  }

  const MAX_COST := 144

  lemma CostBound(size: nat)
    requires size <= MAX_SIZE
    ensures Cost(size) <= MAX_COST
  {
  }

  function Below(files: map<nat, FileData>, n: nat): (r: set<nat>)
    ensures forall id :: id in r <==> id in files && id < n
  {
    set id | id in files && id < n
  }

  lemma {:induction false} SumCostBound(files: map<nat, FileData>, n: nat)
    requires forall id :: id in files ==> |files[id].bytes| <= MAX_SIZE
    ensures SumCost(files, n) <= MAX_COST * |Below(files, n)|
  {
    if n == 0 {
    } else {
      SumCostBound(files, n - 1);
      if n - 1 in files {
        CostBound(|files[n - 1].bytes|);
        assert Below(files, n) == Below(files, n - 1) + {n - 1};
      } else {
        assert Below(files, n) == Below(files, n - 1);
      }
    }
  }

  /**
   * A directory of 21 entries cannot exhaust the disk or the inodes: whatever the commands did,
   * there is room for the largest file, so the checks for free blocks and free inodes, in
   * create, cp and even ln, never refuse anything.
   */
  lemma SpaceNeverRunsOut(s: Fs)
    requires Inv(s)
    ensures FreeBlocks(s) >= 1084 && FreeInodes(s) >= 491
  {
    hide SumCost;
    FilesHaveNames(s);
    var others := s.files - {0};
    SumCostRemove(s.files, 0, MAX_INODE);
    SumCostBound(others, MAX_INODE);
    KeysCount(s.files);
    SubsetCount(Below(others, MAX_INODE), s.files.Keys - {0});
    assert |Below(others, MAX_INODE)| <= 20;
  }

  lemma SpaceAfterAdd(s: Fs, name: string, id: nat, f: FileData)
    requires id !in s.files && id < MAX_INODE
    ensures var t := Fs(s.dir + [Entry(name, id)], s.files[id := f]);
            FreeBlocks(t) == FreeBlocks(s) - Cost(|f.bytes|) && FreeInodes(t) == FreeInodes(s) - 1
  {
    SumCostUpdate(s.files, id, f, MAX_INODE);
  }

  /** Removing the last name gives back the cost of the file and one inode. */
  lemma SpaceAfterDrop(s: Fs, name: string)
    requires RemoveFile(s, name).1.Done? && Links(s.dir, Lookup(s.dir, name)) == 1 && Lookup(s.dir, name) < MAX_INODE
    ensures var id, t := Lookup(s.dir, name), RemoveFile(s, name).0;
            FreeBlocks(t) == FreeBlocks(s) + Cost(|s.files[id].bytes|) && FreeInodes(t) == FreeInodes(s) + 1
  {
    var id := Lookup(s.dir, name);
    SumCostRemove(s.files, id, MAX_INODE);
    DropCount(s.files, id);
  }

  lemma DropCount(files: map<nat, FileData>, id: nat)
    requires id in files
    ensures |files - {id}| == |files| - 1
  {
    var r := files - {id};
    assert files.Keys == r.Keys + {id};
    assert |files.Keys| == |r.Keys| + 1;
  }

  /** A name for each i. */
  function Letter(i: nat): string
    requires i < 20
  {
    ['a' + i as char]
  }

  /** The largest files, one after the other. */
  function Largest(content: seq<byte>, n: nat): (cs: seq<Command>)
    requires n <= 20
    ensures |cs| == n
  {
    if n == 0 then [] else Largest(content, n - 1) + [Create(Letter(n - 1), MAX_SIZE, content)]
  }

  lemma LargestNext(s: Fs, n: nat, content: seq<byte>)
    requires Inv(s) && |content| == MAX_SIZE && n < 20 && |s.dir| == n + 1 && Lookup(s.dir, Letter(n)) == -1
    ensures var r := Step(s, Create(Letter(n), MAX_SIZE, content));
      && r.1.code.Done? && Inv(r.0) && FreeBlocks(r.0) == FreeBlocks(s) - 144 && FreeInodes(r.0) == FreeInodes(s) - 1
      && |r.0.dir| == n + 2
      && forall m :: n < m < 20 && Lookup(s.dir, Letter(m)) == -1 ==> Lookup(r.0.dir, Letter(m)) == -1
  {
    hide SumCost, Inv, Lookup;
    var id, f := FirstFree(s.files, 0), FileData(File, content);
    SpaceNeverRunsOut(s);
    FirstFreeExists(s.files);
    AddInv(s, Letter(n), id, f);
    SpaceAfterAdd(s, Letter(n), id, f);
    forall m | n < m < 20 && Lookup(s.dir, Letter(m)) == -1
      ensures Lookup(s.dir + [Entry(Letter(n), id)], Letter(m)) == -1
    {
      LookupAppend(s.dir, Entry(Letter(n), id), Letter(m));
      assert Letter(m)[0] != Letter(n)[0];
    }
  }

  lemma {:induction false} LargestFill(first: byte, content: seq<byte>, n: nat)
    requires |content| == MAX_SIZE && n <= 20
    ensures var s := Run(Formatted(first), Largest(content, n));
      && Inv(s) && FreeBlocks(s) == 3964 - 144 * n && FreeInodes(s) == 511 - n
      && |s.dir| == n + 1 && forall m :: n <= m < 20 ==> Lookup(s.dir, Letter(m)) == -1
  {
    hide SumCost, Inv, Step;
    if n == 0 {
      FormattedInv(first);
      FormattedSpace(first);
    } else {
      LargestFill(first, content, n - 1);
      LargestNext(Run(Formatted(first), Largest(content, n - 1)), n - 1, content);
      assert Largest(content, n)[..n - 1] == Largest(content, n - 1);
    }
  }

  /** What a new disk has left. */
  lemma FormattedSpace(first: byte)
    ensures FreeBlocks(Formatted(first)) == 3964 && FreeInodes(Formatted(first)) == 511
    ensures forall m: nat :: m < 20 ==> Lookup(Formatted(first).dir, Letter(m)) == -1
  {
    var none: map<nat, FileData> := map[];
    SumCostNone(MAX_INODE);
    SumCostUpdate(none, 0, FileData(Directory, [first]), MAX_INODE);
    assert Formatted(first).files == none[0 := FileData(Directory, [first])];
    forall m: nat | m < 20 ensures Lookup(Formatted(first).dir, Letter(m)) == -1 {
      assert Letter(m)[0] != '.';
    }
  }

  lemma {:induction false} SumCostNone(n: nat)
    ensures SumCost(map[], n) == 0
  {
    if n == 0 {
    } else {
      SumCostNone(n - 1);
    }
  }

  /** Twenty files of the largest size are the most there can be, and they leave exactly that much. */
  lemma LeastSpace(first: byte, content: seq<byte>)
    requires |content| == MAX_SIZE
    ensures var s := Run(Formatted(first), Largest(content, 20)); FreeBlocks(s) == 1084 && FreeInodes(s) == 491
  {
    hide *;
    LargestFill(first, content, 20);
  }

  // ----- the invariant over runs

  lemma AddInv(s: Fs, name: string, id: nat, f: FileData)
    requires Inv(s) && Lookup(s.dir, name) == -1 && |s.dir| < MAX_DIR_ENTRY
    requires id !in s.files && id < MAX_INODE && 1 <= |f.bytes| <= MAX_SIZE
    ensures Inv(Fs(s.dir + [Entry(name, id)], s.files[id := f]))
  {
    forall i ensures Links(s.dir + [Entry(name, id)], i) == Links(s.dir, i) + if i == id then 1 else 0 {
      LinksAppend(s.dir, Entry(name, id), i);
    }
  }

  lemma LinkInv(s: Fs, src: string, dest: string)
    requires Inv(s)
    ensures Inv(LinkFile(s, src, dest).0)
  {
    var id := Lookup(s.dir, src);
    if LinkFile(s, src, dest).1.Done? {
      forall i: nat ensures Links(s.dir + [Entry(dest, id)], i) == Links(s.dir, i) + if i == id then 1 else 0 {
        LinksAppend(s.dir, Entry(dest, id), i);
      }
    }
  }

  lemma RemoveInv(s: Fs, name: string)
    requires Inv(s)
    ensures Inv(RemoveFile(s, name).0)
  {
    hide Lookup, Without, Links;
    var id := Lookup(s.dir, name);
    if RemoveFile(s, name).1.Done? {
      var w, r := Without(s.dir, name), RemoveFile(s, name).0;
      WithoutParts(s.dir, name, id);
      forall i | 0 <= i < |w| ensures w[i].inode in r.files {
        assert w[i] in w;
        if Links(s.dir, id) == 1 && w[i].inode == id {
          LinksIff(w, id);
        }
      }
      forall i | i in r.files ensures Links(w, i) >= 1 {
        WithoutParts(s.dir, name, i);
      }
    }
  }

  /** Every command keeps the invariant. */
  lemma StepInv(s: Fs, c: Command)
    requires Inv(s) && Wf(c)
    ensures Inv(Step(s, c).0)
  {
    hide Inv, SumCost, Lookup, Links, FirstFree;
    match c
    case Create(name, size, content) =>
      if CreateFile(s, name, size, content).1.Done? {
        FirstFreeExists(s.files);
        Room(s);
        AddInv(s, name, FirstFree(s.files, 0), FileData(File, content));
      }
    case Cat(name) =>
    case Rm(name) =>
      RemoveInv(s, name);
    case Ln(src, dest) =>
      LinkInv(s, src, dest);
    case Cp(src, dest) =>
      if CopyFile(s, src, dest).1.Done? {
        FirstFreeExists(s.files);
        Room(s);
        AddInv(s, dest, FirstFree(s.files, 0), s.files[Lookup(s.dir, src)]);
      }
  }

  lemma Room(s: Fs)
    requires Inv(s)
    ensures forall id :: id in s.files ==> 1 <= |s.files[id].bytes| <= MAX_SIZE
  {
  }

  lemma {:induction false} RunInv(s: Fs, cs: seq<Command>)
    requires Inv(s) && forall i :: 0 <= i < |cs| ==> Wf(cs[i])
    ensures Inv(Run(s, cs))
  {
    if cs == [] {
    } else {
      RunInv(s, cs[..|cs| - 1]);
      StepInv(Run(s, cs[..|cs| - 1]), cs[|cs| - 1]);
    }
  }

  /** The file system right after it is formatted: the directory itself, in one block. */
  function Formatted(first: byte): Fs {
    Fs([Entry(".", 0)], map[0 := FileData(Directory, [first])])
  }

  lemma FormattedInv(first: byte)
    ensures Inv(Formatted(first))
  {
    var dir := Formatted(first).dir;
    assert dir[1..] == [];
    assert Links(dir, 0) == 1;
  }

  /** When a command succeeds, as a function of what its caller can see. */
  lemma SucceedsIff(s: Fs, c: Command)
    requires Inv(s)
    ensures Step(s, c).1.code.Done? <==>
      match c
      case Create(name, size, _) => 1 <= size <= MAX_SIZE && Lookup(s.dir, name) == -1 && |s.dir| < MAX_DIR_ENTRY
      case Cat(name) => Lookup(s.dir, name) >= 0 && s.files[Lookup(s.dir, name)].kind.File?
      case Rm(name) => Lookup(s.dir, name) >= 0 && s.files[Lookup(s.dir, name)].kind.File?
      case Ln(src, dest) => Lookup(s.dir, src) >= 0 && s.files[Lookup(s.dir, src)].kind.File?
                            && Lookup(s.dir, dest) == -1 && |s.dir| < MAX_DIR_ENTRY
      case Cp(src, dest) => Lookup(s.dir, src) >= 0 && Lookup(s.dir, dest) == -1 && |s.dir| < MAX_DIR_ENTRY
  {
    SpaceNeverRunsOut(s);
    forall size: nat | size <= MAX_SIZE ensures Cost(size) <= MAX_COST && BlocksFor(size) <= MAX_COST {
      CostBound(size);
    }
  }

  // ----- what names hold

  datatype Held = Nothing | Holds(data: FileData)

  /** What the file of this name holds. */
  function Content(s: Fs, name: string): Held {
    var id := Lookup(s.dir, name);
    if id >= 0 && id in s.files then Holds(s.files[id]) else Nothing
  }

  /** The name whose meaning the command may change. */
  function Target(c: Command): TargetName
  {
    match c
    case Create(name, _, _) => Name(name)
    case Cat(_) => NoName
    case Rm(name) => Name(name)
    case Ln(_, dest) => Name(dest)
    case Cp(_, dest) => Name(dest)
  }

  datatype TargetName = NoName | Name(name: string)

  lemma {:induction false} LookupAppend(dir: seq<Entry>, e: Entry, name: string)
    ensures Lookup(dir + [e], name) == if Lookup(dir, name) == -1 && e.name == name then e.inode else Lookup(dir, name)
  {
    if dir == [] {
      assert dir + [e] == [e] && [e][1..] == [];
    } else {
      assert (dir + [e])[1..] == dir[1..] + [e];
      LookupAppend(dir[1..], e, name);
    }
  }

  lemma {:induction false} LookupWithout(dir: seq<Entry>, name: string, other: string)
    requires other != name
    ensures Lookup(Without(dir, name), other) == Lookup(dir, other)
  {
    if dir == [] || dir[0].name == name {
    } else {
      LookupWithout(dir[1..], name, other);
      assert Without(dir, name)[1..] == Without(dir[1..], name);
    }
  }

  /** Another name keeps its file when one name is removed. */
  lemma OtherNameHasLink(s: Fs, name: string, other: string)
    requires Inv(s) && name != other && Lookup(s.dir, name) >= 0 && Lookup(s.dir, other) == Lookup(s.dir, name)
    ensures Links(s.dir, Lookup(s.dir, name)) >= 2
  {
    var id := Lookup(s.dir, name);
    WithoutParts(s.dir, name, id);
    LookupEntry(s.dir, other, id);
    var w := Without(s.dir, name);
    assert Entry(other, id) in w;
    var i :| 0 <= i < |w| && w[i] == Entry(other, id);
    LinksIff(w, id);
  }

  /** No command changes what any other name holds, even if it names the same file. */
  lemma OthersUntouched(s: Fs, c: Command, name: string)
    requires Inv(s) && Target(c) != Name(name)
    ensures Content(Step(s, c).0, name) == Content(s, name)
  {
    hide Inv, Links, Without, SumCost, Lookup, FirstFree;
    match c
    case Create(n, size, content) =>
      if CreateFile(s, n, size, content).1.Done? {
        AddedElsewhere(s, n, FirstFree(s.files, 0), FileData(File, content), name);
      }
    case Cat(n) =>
    case Rm(n) =>
      LookupWithout(s.dir, n, name);
      if Lookup(s.dir, n) >= 0 && Lookup(s.dir, name) == Lookup(s.dir, n) {
        OtherNameHasLink(s, n, name);
      }
    case Ln(src, dest) =>
      if Lookup(s.dir, src) >= 0 {
        LookupAppend(s.dir, Entry(dest, Lookup(s.dir, src)), name);
      }
    case Cp(src, dest) =>
      if CopyFile(s, src, dest).1.Done? {
        AddedElsewhere(s, dest, FirstFree(s.files, 0), s.files[Lookup(s.dir, src)], name);
      }
  }

  lemma AddedElsewhere(s: Fs, n: string, id: nat, f: FileData, name: string)
    requires Inv(s) && n != name && id == FirstFree(s.files, 0) && |s.files| < MAX_INODE
    ensures Content(Fs(s.dir + [Entry(n, id)], s.files[id := f]), name) == Content(s, name)
  {
    hide Inv, FirstFree, Lookup;
    FirstFreeExists(s.files);
    LookupAppend(s.dir, Entry(n, id), name);
    Known(s, name);
  }

  lemma Known(s: Fs, name: string)
    requires Inv(s)
    ensures Lookup(s.dir, name) >= 0 ==> Lookup(s.dir, name) in s.files
  {
  }

  lemma {:induction false} OthersUntouchedRun(s: Fs, cs: seq<Command>, name: string)
    requires Inv(s) && forall i :: 0 <= i < |cs| ==> Wf(cs[i]) && Target(cs[i]) != Name(name)
    ensures Content(Run(s, cs), name) == Content(s, name)
  {
    if cs == [] {
    } else {
      var v := cs[..|cs| - 1];
      OthersUntouchedRun(s, v, name);
      RunInv(s, v);
      OthersUntouched(Run(s, v), cs[|cs| - 1], name);
    }
  }

  lemma JustCreated(s: Fs, name: string, content: seq<byte>)
    requires Inv(s) && CreateFile(s, name, |content|, content).1.Done?
    ensures Content(CreateFile(s, name, |content|, content).0, name) == Holds(FileData(File, content))
  {
    hide Inv, SumCost, FirstFree, Lookup;
    LookupAppend(s.dir, Entry(name, FirstFree(s.files, 0)), name);
  }

  lemma JustCopied(s: Fs, src: string, dest: string)
    requires Inv(s) && CopyFile(s, src, dest).1.Done?
    ensures Content(CopyFile(s, src, dest).0, dest) == Content(s, src)
  {
    hide Inv, SumCost, FirstFree, Lookup;
    LookupAppend(s.dir, Entry(dest, FirstFree(s.files, 0)), dest);
  }

  lemma JustLinked(s: Fs, src: string, dest: string)
    requires Inv(s) && LinkFile(s, src, dest).1.Done?
    ensures Content(LinkFile(s, src, dest).0, dest) == Content(s, src)
  {
    hide Inv, SumCost, FirstFree, Lookup;
    LookupAppend(s.dir, Entry(dest, Lookup(s.dir, src)), dest);
  }

  lemma ShowsContent(s: Fs, name: string, content: seq<byte>)
    requires Content(s, name) == Holds(FileData(File, content))
    ensures Show(s, name) == (Done, content)
  {
  }

  /** A created file shows the content it was created with, whatever is done to other names. */
  lemma CreateThenCat(s: Fs, name: string, content: seq<byte>, cs: seq<Command>)
    requires Inv(s) && CreateFile(s, name, |content|, content).1.Done?
    requires forall i :: 0 <= i < |cs| ==> Wf(cs[i]) && Target(cs[i]) != Name(name)
    ensures Show(Run(CreateFile(s, name, |content|, content).0, cs), name) == (Done, content)
  {
    hide Inv, Content, CreateFile, Show, Run;
    var t := CreateFile(s, name, |content|, content).0;
    StepInv(s, Create(name, |content|, content));
    JustCreated(s, name, content);
    OthersUntouchedRun(t, cs, name);
    ShowsContent(Run(t, cs), name, content);
  }

  /** A copy holds what its source held, and keeps it when the source is changed or removed. */
  lemma CopySurvives(s: Fs, src: string, dest: string, cs: seq<Command>)
    requires Inv(s) && CopyFile(s, src, dest).1.Done?
    requires forall i :: 0 <= i < |cs| ==> Wf(cs[i]) && Target(cs[i]) != Name(dest)
    ensures Content(Run(CopyFile(s, src, dest).0, cs), dest) == Content(s, src)
  {
    hide Inv, Content, CopyFile, Run;
    StepInv(s, Cp(src, dest));
    JustCopied(s, src, dest);
    OthersUntouchedRun(CopyFile(s, src, dest).0, cs, dest);
  }

  /** A link holds what its source holds, and keeps it when the source name is removed. */
  lemma LinkSurvives(s: Fs, src: string, dest: string, cs: seq<Command>)
    requires Inv(s) && LinkFile(s, src, dest).1.Done?
    requires forall i :: 0 <= i < |cs| ==> Wf(cs[i]) && Target(cs[i]) != Name(dest)
    ensures Content(Run(LinkFile(s, src, dest).0, cs), dest) == Content(s, src)
  {
    hide Inv, Content, LinkFile, Run;
    StepInv(s, Ln(src, dest));
    JustLinked(s, src, dest);
    OthersUntouchedRun(LinkFile(s, src, dest).0, cs, dest);
  }

  lemma {:induction false} WithoutLast(dir: seq<Entry>, e: Entry)
    requires Lookup(dir, e.name) == -1
    ensures Without(dir + [e], e.name) == dir
  {
    if dir == [] {
      assert dir + [e] == [e];
    } else {
      assert (dir + [e])[1..] == dir[1..] + [e];
      WithoutLast(dir[1..], e);
    }
  }

  /** Removing a file just created gives back the state before, free space included. */
  lemma CreateThenRemove(s: Fs, name: string, content: seq<byte>)
    requires Inv(s) && CreateFile(s, name, |content|, content).1.Done?
    ensures RemoveFile(CreateFile(s, name, |content|, content).0, name) == (s, Done)
  {
    hide Lookup, Links, Without, SumCost, FirstFree;
    var id := FirstFree(s.files, 0);
    FirstFreeExists(s.files);
    var t := CreateFile(s, name, |content|, content).0;
    LookupAppend(s.dir, Entry(name, id), name);
    WithoutLast(s.dir, Entry(name, id));
    LinksAppend(s.dir, Entry(name, id), id);
    LinksIff(s.dir, id);
    AddThenDrop(s.files, id, FileData(File, content));
  }

  lemma AddThenDrop(files: map<nat, FileData>, id: nat, f: FileData)
    requires id !in files
    ensures files[id := f] - {id} == files
  {
  }

  /** A file lives exactly as long as some name leads to it. */
  lemma LivesWhileNamed(s: Fs, id: nat)
    requires Inv(s)
    ensures id in s.files <==> exists name :: Lookup(s.dir, name) == id
  {
    if id in s.files {
      LinksIff(s.dir, id);
      var i :| 0 <= i < |s.dir| && s.dir[i].inode == id;
      assert Entry(s.dir[i].name, id) in s.dir;
      LookupEntry(s.dir, s.dir[i].name, id);
    }
  }
}
