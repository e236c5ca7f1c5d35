/**
 * The virtual-memory simulator as a value: the replacement state together with the byte in each
 * frame, the swap disk, the dirty bits and the statistics. One request takes the state to the
 * next; the class VirtualMemory does the same in place.
 */
module Machine {
  import opened Sequences
  import opened Replacement

  datatype Op = Read | Write(byte: char)

  datatype Request = Request(page: Page, op: Op)

  /** What the simulator reports: where the byte is, the byte, and whether the page was resident. */
  datatype Reply = Reply(frame: nat, byte: char, hit: bool)

  datatype Stats = Stats(hits: nat, misses: nat, swapReads: nat, swapWrites: nat)

  /** Pages that were never swapped out hold 'A' on the swap disk. */
  datatype State = State(core: Core, mem: seq<char>, dirty: seq<bool>, swap: map<Page, char>, stats: Stats)

  const START := State(EMPTY, [], [], map[], Stats(0, 0, 0, 0))

  function OnSwap(swap: map<Page, char>, p: Page): char {
    if p in swap then swap[p] else 'A'
  }

  ghost predicate Wf(policy: Policy, k: nat, s: State) {
    Valid(policy, k, s.core) && |s.mem| == |s.core.frames| == |s.dirty|
  }

  /** Writing the page in frame f to the swap disk. */
  function SwapOut(s: State, f: nat): State
    requires f < |s.mem| && f < |s.core.frames|
  {
    s.(swap := s.swap[s.core.frames[f] := s.mem[f]],
       stats := s.stats.(swapWrites := s.stats.swapWrites + 1))
  }

  /** Whether a replaced page goes to the swap disk every time or only when it is dirty. */
  datatype WriteBack = Always | IfDirty

  /** Page p comes into frame f, which is the first free one or has been vacated. */
  function Install(policy: Policy, s: State, f: nat, p: Page, writing: bool): State
    requires f <= |s.core.frames| == |s.mem| == |s.dirty|
  {
    State(
      Enqueue(policy, s.core.(frames := Put(s.core.frames, f, p)), f),
      Put(s.mem, f, OnSwap(s.swap, p)),
      Put(s.dirty, f, writing),
      s.swap,
      s.stats.(swapReads := s.stats.swapReads + 1))
  }

  /** The frame that a missing page will be loaded into. */
  function TargetFrame(policy: Policy, k: nat, c: Core): (f: nat)
    requires Valid(policy, k, c)
    ensures f < k && f <= |c.frames| && (|c.frames| == k ==> f < k)
  {
    if |c.frames| < k then |c.frames| else Evict(policy, k, c).0
  }

  /** The state once that frame is free: its old page, if any, unlinked and swapped out. */
  function Vacated(wb: WriteBack, policy: Policy, k: nat, s: State): (r: State)
    requires Wf(policy, k, s)
    ensures r.core.frames == s.core.frames && r.mem == s.mem && r.dirty == s.dirty
  {
    if |s.core.frames| < k then s
    else
      var (f, core) := Evict(policy, k, s.core);
      (if wb.Always? || s.dirty[f] then SwapOut(s, f) else s).(core := core)
  }

  lemma VacatedParts(policy: Policy, k: nat, s: State)
    requires Wf(policy, k, s)
    ensures |s.core.frames| < k ==>
      Vacated(Always, policy, k, s) == s && TargetFrame(policy, k, s.core) == |s.core.frames|
    ensures |s.core.frames| == k ==> var (f, core) := Evict(policy, k, s.core);
      f < k && TargetFrame(policy, k, s.core) == f && Vacated(Always, policy, k, s) == SwapOut(s, f).(core := core)
      && SwapOut(s, f).mem == s.mem
  {
  }

  /** Loading page p after a miss; the miss itself is counted by Translate. */
  function Fault(wb: WriteBack, policy: Policy, k: nat, s: State, p: Page, writing: bool): (r: State)
    requires Wf(policy, k, s) && p !in s.core.frames
    ensures Wf(policy, k, r) && p in r.core.frames
    ensures r.core == Miss(policy, k, s.core, p).1 && TargetFrame(policy, k, s.core) == Miss(policy, k, s.core, p).0
  {
    MissValid(policy, k, s.core, p);
    var f := TargetFrame(policy, k, s.core);
    assert Miss(policy, k, s.core, p).1.frames[f] == p;
    Install(policy, Vacated(wb, policy, k, s), f, p, writing)
  }

  /** What a fault leaves in each part of the state. */
  lemma FaultParts(wb: WriteBack, policy: Policy, k: nat, s: State, p: Page, writing: bool)
    requires Wf(policy, k, s) && p !in s.core.frames
    ensures var f, v := TargetFrame(policy, k, s.core), Vacated(wb, policy, k, s);
            var r := Fault(wb, policy, k, s, p, writing);
      && |v.mem| == |v.dirty| == |v.core.frames| == |s.core.frames| <= k && f <= |v.mem|
      && v.core.frames == s.core.frames
      && r == Install(policy, v, f, p, writing)
      && Wf(policy, k, r)
      && f < |r.core.frames| && r.core.frames[f] == p
      && |r.core.frames| == (if |s.core.frames| < k then |s.core.frames| + 1 else k)
      && r.core.lru == (if policy.Lru? then v.core.lru + [f] else v.core.lru)
      && r.core.clock == (if policy.Clock? then v.core.clock + [Entry(f, false)] else v.core.clock)
      && r.core.counter == v.core.counter
  {
  }

  /** What a hit does; the hit itself is counted by Translate. */
  function HitState(policy: Policy, s: State, p: Page, writing: bool): State
    requires p in s.core.frames && |s.dirty| == |s.core.frames|
  {
    var f := IndexOf(s.core.frames, p);
    s.(core := Hit(policy, s.core, f), dirty := s.dirty[f := s.dirty[f] || writing])
  }

  lemma HitStateParts(policy: Policy, k: nat, s: State, p: Page, writing: bool)
    requires Wf(policy, k, s) && p in s.core.frames
    ensures var f, r := IndexOf(s.core.frames, p), HitState(policy, s, p, writing);
      && Wf(policy, k, r) && r.core.frames == s.core.frames
      && r.core.lru == (if policy.Lru? then Remove(s.core.lru, f) + [f] else s.core.lru)
      && r.core.clock == (if policy.Clock? then WithRef(s.core.clock, f) else s.core.clock)
      && r.core.counter == s.core.counter && r.mem == s.mem && r.swap == s.swap && r.stats == s.stats
      && r.dirty == s.dirty[f := s.dirty[f] || writing]
  {
    HitValid(policy, k, s.core, IndexOf(s.core.frames, p));
  }

  /** Making page p resident for a read or a write. */
  function Translate(wb: WriteBack, policy: Policy, k: nat, s: State, p: Page, writing: bool): (r: State)
    requires Wf(policy, k, s)
    ensures Wf(policy, k, r) && p in r.core.frames
  {
    if p in s.core.frames then
      HitStateParts(policy, k, s, p, writing);
      HitState(policy, s, p, writing).(stats := s.stats.(hits := s.stats.hits + 1))
    else Fault(wb, policy, k, s.(stats := s.stats.(misses := s.stats.misses + 1)), p, writing)
  }

  /** A translation that hits, with the frame of the page afterwards. */
  lemma TranslateHit(wb: WriteBack, policy: Policy, k: nat, s: State, p: Page, writing: bool)
    requires Wf(policy, k, s) && p in s.core.frames
    ensures var r, h := Translate(wb, policy, k, s, p, writing), HitState(policy, s, p, writing);
      && r == h.(stats := h.stats.(hits := h.stats.hits + 1))
      && IndexOf(r.core.frames, p) == IndexOf(s.core.frames, p)
  {
    HitStateParts(policy, k, s, p, writing);
  }

  /** A translation that misses. */
  lemma TranslateMiss(wb: WriteBack, policy: Policy, k: nat, s: State, p: Page, writing: bool)
    requires Wf(policy, k, s) && p !in s.core.frames
    ensures var r, t := Translate(wb, policy, k, s, p, writing), s.(stats := s.stats.(misses := s.stats.misses + 1));
      && Wf(policy, k, t)
      && r == Fault(wb, policy, k, t, p, writing)
      && IndexOf(r.core.frames, p) == TargetFrame(policy, k, s.core)
  {
    FaultParts(wb, policy, k, s.(stats := s.stats.(misses := s.stats.misses + 1)), p, writing);
    IndexUnique(Translate(wb, policy, k, s, p, writing).core.frames, TargetFrame(policy, k, s.core));
  }

  function Serve(wb: WriteBack, policy: Policy, k: nat, s: State, req: Request): (r: (State, Reply))
    requires Wf(policy, k, s)
    ensures Wf(policy, k, r.0)
  {
    var t := Translate(wb, policy, k, s, req.page, req.op.Write?);
    var f := IndexOf(t.core.frames, req.page);
    var hit := req.page in s.core.frames;
    match req.op
    case Read => (t, Reply(f, t.mem[f], hit))
    case Write(byte) => (t.(mem := t.mem[f := byte]), Reply(f, byte, hit))
  }

  lemma ServeParts(wb: WriteBack, policy: Policy, k: nat, s: State, req: Request)
    requires Wf(policy, k, s)
    ensures var t := Translate(wb, policy, k, s, req.page, req.op.Write?);
            var f := IndexOf(t.core.frames, req.page);
      f < |t.mem| && Serve(wb, policy, k, s, req)
      == (if req.op.Write? then t.(mem := t.mem[f := req.op.byte]) else t,
          Reply(f, if req.op.Write? then req.op.byte else t.mem[f], req.page in s.core.frames))
  {
  }

  function RunAll(wb: WriteBack, policy: Policy, k: nat, t: seq<Request>): (r: (State, seq<Reply>))
    requires 1 <= k
    ensures Wf(policy, k, r.0) && |r.1| == |t|
  {
    if t == [] then (START, [])
    else
      var (s, replies) := RunAll(wb, policy, k, t[..|t| - 1]);
      var (s', reply) := Serve(wb, policy, k, s, t[|t| - 1]);
      (s', replies + [reply])
  }

  // ----- paging is invisible

  /** The byte of page p, wherever it is. */
  function ByteIn(frames: seq<Page>, mem: seq<char>, swap: map<Page, char>, p: Page): char
    requires |mem| == |frames|
  {
    if p in frames then mem[IndexOf(frames, p)] else OnSwap(swap, p)
  }

  function ByteOf(s: State, p: Page): char
    requires |s.mem| == |s.core.frames|
  {
    ByteIn(s.core.frames, s.mem, s.swap, p)
  }

  /** The specification: the last byte written to p in trace t, or 'A'. */
  function LastWritten(t: seq<Request>, p: Page): char {
    if t == [] then 'A'
    else
      var req := t[|t| - 1];
      if req.page == p && req.op.Write? then req.op.byte else LastWritten(t[..|t| - 1], p)
  }

  /** A resident page that is not dirty has the same byte in its frame and on the swap disk. */
  ghost predicate Synced(s: State) {
    && |s.mem| == |s.core.frames| == |s.dirty|
    && forall f :: 0 <= f < |s.mem| && !s.dirty[f] ==> s.mem[f] == OnSwap(s.swap, s.core.frames[f])
  }

  /** Loading p into a frame whose page has its byte on the swap disk already. */
  lemma LoadKeepsBytes(frames: seq<Page>, mem: seq<char>, swap: map<Page, char>, f: nat, p: Page, x: Page)
    requires |mem| == |frames| && f < |frames| && Distinct(frames) && p !in frames
    requires OnSwap(swap, frames[f]) == mem[f]
    ensures ByteIn(frames[f := p], mem[f := OnSwap(swap, p)], swap, x) == ByteIn(frames, mem, swap, x)
  {
    var frames' := frames[f := p];
    assert frames'[f] == p;
    assert Distinct(frames');
    if x in frames' {
      var i := IndexOf(frames', x);
      if i != f {
        assert frames[i] == x;
        IndexUnique(frames, i);
      }
    } else if x in frames {
      var i := IndexOf(frames, x);
      assert i == f by { assert frames'[i] != x; }
    }
  }

  lemma FillKeepsBytes(frames: seq<Page>, mem: seq<char>, swap: map<Page, char>, p: Page, x: Page)
    requires |mem| == |frames| && Distinct(frames) && p !in frames
    ensures ByteIn(frames + [p], mem + [OnSwap(swap, p)], swap, x) == ByteIn(frames, mem, swap, x)
  {
    var frames' := frames + [p];
    assert frames'[|frames|] == p;
    assert Distinct(frames');
    if x in frames' {
      var i := IndexOf(frames', x);
      if i != |frames| {
        assert frames[i] == x;
        IndexUnique(frames, i);
      }
    }
  }

  lemma SwapOutKeepsBytes(s: State, f: nat, x: Page)
    requires |s.mem| == |s.core.frames| && f < |s.mem| && Distinct(s.core.frames)
    ensures ByteOf(SwapOut(s, f), x) == ByteOf(s, x)
  {
    assert s.core.frames[f] in s.core.frames;
  }

  /** Neither a hit nor a fault changes the byte of any page. */
  lemma TranslateKeepsBytes(wb: WriteBack, policy: Policy, k: nat, s: State, p: Page, writing: bool, x: Page)
    requires Wf(policy, k, s) && Synced(s)
    ensures ByteOf(Translate(wb, policy, k, s, p, writing), x) == ByteOf(s, x)
  {
    var frames := s.core.frames;
    if p !in frames {
      if |frames| < k {
        FillKeepsBytes(frames, s.mem, s.swap, p, x);
      } else {
        var f := Miss(policy, k, s.core, p).0;
        var out := if wb.Always? || s.dirty[f] then SwapOut(s, f) else s;
        SwapOutKeepsBytes(s, f, x);
        LoadKeepsBytes(frames, s.mem, out.swap, f, p, x);
      }
    }
  }

  lemma LoadKeepsSynced(s: State, swap: map<Page, char>, f: nat, p: Page, writing: bool)
    requires Synced(s) && f < |s.mem| && Distinct(s.core.frames)
    requires forall x :: x != s.core.frames[f] ==> OnSwap(swap, x) == OnSwap(s.swap, x)
    ensures var mem, dirty, frames := s.mem[f := OnSwap(swap, p)], s.dirty[f := writing], s.core.frames[f := p];
            forall i :: 0 <= i < |mem| && !dirty[i] ==> mem[i] == OnSwap(swap, frames[i])
  {
    forall i | 0 <= i < |s.mem| && i != f && !s.dirty[i] ensures s.mem[i] == OnSwap(swap, s.core.frames[i]) {
      assert s.core.frames[i] != s.core.frames[f];
    }
  }

  lemma TranslateKeepsSynced(wb: WriteBack, policy: Policy, k: nat, s: State, p: Page, writing: bool)
    requires Wf(policy, k, s) && Synced(s)
    ensures Synced(Translate(wb, policy, k, s, p, writing))
  {
    if p !in s.core.frames && |s.core.frames| == k {
      var f := Miss(policy, k, s.core, p).0;
      var out := if wb.Always? || s.dirty[f] then SwapOut(s, f) else s;
      LoadKeepsSynced(s, out.swap, f, p, writing);
    }
  }

  /** After a translation for a write the dirty bit of the page is set. */
  lemma WritingSetsDirty(wb: WriteBack, policy: Policy, k: nat, s: State, p: Page)
    requires Wf(policy, k, s)
    ensures var r := Translate(wb, policy, k, s, p, true); r.dirty[IndexOf(r.core.frames, p)]
  {
    if p !in s.core.frames {
      var r := Translate(wb, policy, k, s, p, true);
      MissValid(policy, k, s.core, p);
      IndexUnique(r.core.frames, Miss(policy, k, s.core, p).0);
    }
  }

  /** One request against the specification. */
  lemma ServeIsFlat(wb: WriteBack, policy: Policy, k: nat, s: State, req: Request, x: Page)
    requires Wf(policy, k, s) && Synced(s)
    ensures var (r, reply) := Serve(wb, policy, k, s, req);
      && Synced(r)
      && reply.frame < |r.core.frames| && r.core.frames[reply.frame] == req.page
      && reply.byte == ByteOf(r, req.page)
      && ByteOf(r, x) == if req.op.Write? && req.page == x then req.op.byte else ByteOf(s, x)
  {
    TranslateKeepsSynced(wb, policy, k, s, req.page, req.op.Write?);
    TranslateKeepsBytes(wb, policy, k, s, req.page, req.op.Write?, x);
    WritingSetsDirty(wb, policy, k, s, req.page);
    var t := Translate(wb, policy, k, s, req.page, req.op.Write?);
    hide Translate, Valid;
    var f := IndexOf(t.core.frames, req.page);
    if x in t.core.frames && x != req.page {
      assert IndexOf(t.core.frames, x) != f;
    }
  }

  /** After any trace the memory and the swap disk together hold what was last written. */
  lemma {:induction false} BytesAfterRun(wb: WriteBack, policy: Policy, k: nat, t: seq<Request>, x: Page)
    requires 1 <= k
    ensures var s := RunAll(wb, policy, k, t).0; Synced(s) && ByteOf(s, x) == LastWritten(t, x)
  {
    if t == [] {
    } else {
      var n := |t| - 1;
      BytesAfterRun(wb, policy, k, t[..n], x);
      ServeIsFlat(wb, policy, k, RunAll(wb, policy, k, t[..n]).0, t[n], x);
    }
  }

  lemma {:induction false} ReplyAt(wb: WriteBack, policy: Policy, k: nat, t: seq<Request>, j: nat)
    requires 1 <= k && j < |t|
    ensures RunAll(wb, policy, k, t).1[j] == Serve(wb, policy, k, RunAll(wb, policy, k, t[..j]).0, t[j]).1
  {
    hide Serve, Wf;
    var n := |t| - 1;
    if j == n {
    } else {
      ReplyAt(wb, policy, k, t[..n], j);
      assert t[..n][..j] == t[..j];
    }
  }

  /** For every policy, every number of frames and every trace, a read sees the last write. */
  lemma PagingIsInvisible(wb: WriteBack, policy: Policy, k: nat, t: seq<Request>, j: nat)
    requires 1 <= k && j < |t|
    ensures RunAll(wb, policy, k, t).1[j].byte
            == if t[j].op.Write? then t[j].op.byte else LastWritten(t[..j], t[j].page)
  {
    ReplyAt(wb, policy, k, t, j);
    BytesAfterRun(wb, policy, k, t[..j], t[j].page);
    ServeIsFlat(wb, policy, k, RunAll(wb, policy, k, t[..j]).0, t[j], t[j].page);
  }

  /** So the policy, the number of frames and the write-back rule cannot be told from the bytes read. */
  lemma PoliciesAgree(wb: WriteBack, wb': WriteBack, policy: Policy, policy': Policy, k: nat, k': nat,
                      t: seq<Request>, j: nat)
    requires 1 <= k && 1 <= k' && j < |t|
    ensures RunAll(wb, policy, k, t).1[j].byte == RunAll(wb', policy', k', t).1[j].byte
  {
    PagingIsInvisible(wb, policy, k, t, j);
    PagingIsInvisible(wb', policy', k', t, j);
  }

  // ----- the statistics

  function Pages(t: seq<Request>): (r: seq<Page>)
    ensures |r| == |t| && forall i :: 0 <= i < |t| ==> r[i] == t[i].page
  {
    seq(|t|, i requires 0 <= i < |t| => t[i].page)
  }

  ghost predicate Follows(policy: Policy, k: nat, s: State, t: seq<Page>)
    requires 1 <= k
  {
    && Valid(policy, k, EMPTY)
    && s.core == Run(policy, k, EMPTY, t)
    && s.stats.misses == Misses(policy, k, EMPTY, t)
  }

  lemma FollowsNext(wb: WriteBack, policy: Policy, k: nat, s: State, t: seq<Page>, req: Request)
    requires Wf(policy, k, s) && Follows(policy, k, s, t)
    ensures Follows(policy, k, Serve(wb, policy, k, s, req).0, t + [req.page])
  {
    ServeCounts(wb, policy, k, s, req);
    hide Serve, Touch, Run, Misses;
    RunSnoc(policy, k, EMPTY, t, req.page);
  }

  lemma PagesSnoc(t: seq<Request>)
    requires t != []
    ensures Pages(t) == Pages(t[..|t| - 1]) + [t[|t| - 1].page]
  {
  }

  lemma RunAllSnoc(wb: WriteBack, policy: Policy, k: nat, t: seq<Request>)
    requires 1 <= k && t != []
    ensures RunAll(wb, policy, k, t).0 == Serve(wb, policy, k, RunAll(wb, policy, k, t[..|t| - 1]).0, t[|t| - 1]).0
  {
  }

  lemma FollowsFirst(wb: WriteBack, policy: Policy, k: nat)
    requires 1 <= k
    ensures Follows(policy, k, RunAll(wb, policy, k, []).0, Pages([]))
  {
  }

  /** The replacement state and the miss counter do not depend on the bytes. */
  lemma {:induction false} FollowsPages(wb: WriteBack, policy: Policy, k: nat, t: seq<Request>)
    requires 1 <= k
    ensures Follows(policy, k, RunAll(wb, policy, k, t).0, Pages(t))
  {
    hide Follows, Serve, RunAll, Wf;
    if t == [] {
      FollowsFirst(wb, policy, k);
    } else {
      var n := |t| - 1;
      FollowsPages(wb, policy, k, t[..n]);
      FollowsNext(wb, policy, k, RunAll(wb, policy, k, t[..n]).0, Pages(t[..n]), t[n]);
      RunAllSnoc(wb, policy, k, t);
      PagesSnoc(t);
    }
  }

  /** What one request does to the replacement state and to each counter. */
  lemma ServeCounts(wb: WriteBack, policy: Policy, k: nat, s: State, req: Request)
    requires Wf(policy, k, s)
    ensures var r := Serve(wb, policy, k, s, req).0;
            var miss := if req.page in s.core.frames then 0 else 1;
      && r.core == Touch(policy, k, s.core, req.page)
      && r.stats.misses == s.stats.misses + miss
      && r.stats.hits == s.stats.hits + 1 - miss
      && r.stats.swapReads == s.stats.swapReads + miss
      && s.stats.swapWrites <= r.stats.swapWrites <= s.stats.swapWrites + (if |s.core.frames| < k then 0 else miss)
      && (wb.Always? ==> r.stats.swapWrites == s.stats.swapWrites + if |s.core.frames| < k then 0 else miss)
      && |r.core.frames| == |s.core.frames| + if |s.core.frames| < k then miss else 0
  {
    hide Valid, Hit, Evict, Miss, Enqueue, OnSwap;
    ServeParts(wb, policy, k, s, req);
  }

  /** Every request hits or misses, every miss reads the swap disk, and once the frames are full also writes it. */
  lemma {:induction false} Accounting(policy: Policy, k: nat, t: seq<Request>)
    requires 1 <= k
    ensures var s := RunAll(Always, policy, k, t).0;
      && s.stats.hits + s.stats.misses == |t|
      && s.stats.swapReads == s.stats.misses
      && |s.core.frames| == (if s.stats.misses < k then s.stats.misses else k)
      && s.stats.swapWrites == (if s.stats.misses < k then 0 else s.stats.misses - k)
  {
    if t == [] {
    } else {
      var n := |t| - 1;
      Accounting(policy, k, t[..n]);
      ServeCounts(Always, policy, k, RunAll(Always, policy, k, t[..n]).0, t[n]);
    }
  }

  // ----- writing back dirty pages only

  /** Equal but for how swap is represented and how often it was written. */
  ghost predicate Alike(s: State, l: State) {
    && s.core == l.core && s.mem == l.mem && s.dirty == l.dirty
    && (forall p :: OnSwap(s.swap, p) == OnSwap(l.swap, p))
    && s.stats.hits == l.stats.hits && s.stats.misses == l.stats.misses && s.stats.swapReads == l.stats.swapReads
    && l.stats.swapWrites <= s.stats.swapWrites
  }

  /** Not writing back a clean page leaves the same bytes on the swap disk. */
  lemma VacateAlike(s: State, l: State, f: nat)
    requires Alike(s, l) && Synced(l) && f < |l.mem|
    ensures Alike(SwapOut(s, f), if l.dirty[f] then SwapOut(l, f) else l)
  {
    var a, b := SwapOut(s, f), if l.dirty[f] then SwapOut(l, f) else l;
    forall x ensures OnSwap(a.swap, x) == OnSwap(b.swap, x) {
      assert OnSwap(s.swap, x) == OnSwap(l.swap, x);
    }
  }

  lemma TranslateAlike(policy: Policy, k: nat, s: State, l: State, p: Page, writing: bool)
    requires Wf(policy, k, s) && Wf(policy, k, l) && Alike(s, l) && Synced(l)
    ensures Alike(Translate(Always, policy, k, s, p, writing), Translate(IfDirty, policy, k, l, p, writing))
  {
    if p !in l.core.frames && |l.core.frames| == k {
      VacateAlike(s, l, Miss(policy, k, l.core, p).0);
      hide Evict, Miss, Enqueue;
    }
  }

  /** Writing back only dirty victims, each to its own place, gives the same replies for no more writes. */
  lemma {:induction false} DirtyOnlyIsEnough(policy: Policy, k: nat, t: seq<Request>)
    requires 1 <= k
    ensures var (s, replies) := RunAll(Always, policy, k, t);
            var (l, replies') := RunAll(IfDirty, policy, k, t);
            Alike(s, l) && replies == replies'
  {
    hide Translate, Wf, Valid, Synced, OnSwap;
    if t == [] {
    } else {
      var n := |t| - 1;
      DirtyOnlyIsEnough(policy, k, t[..n]);
      BytesAfterRun(IfDirty, policy, k, t[..n], t[n].page);
      TranslateAlike(policy, k, RunAll(Always, policy, k, t[..n]).0, RunAll(IfDirty, policy, k, t[..n]).0,
                     t[n].page, t[n].op.Write?);
    }
  }
}
