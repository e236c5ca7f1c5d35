/** When a page is dirty, exactly, and what writing back dirty pages only would save. */
module DirtyBits {
  import opened Sequences
  import opened Replacement
  import opened Machine

  /** Some request wrote to the page, and the page was not loaded after that; a load for the write counts. */
  ghost predicate WrittenSinceLoad(t: seq<Request>, replies: seq<Reply>, p: Page)
    requires |t| == |replies|
  {
    exists i :: 0 <= i < |t| && t[i].page == p && t[i].op.Write?
                && forall j :: i < j < |t| && t[j].page == p ==> replies[j].hit
  }

  /** How one more request changes that. */
  lemma WrittenNext(t: seq<Request>, replies: seq<Reply>, req: Request, reply: Reply, p: Page)
    requires |t| == |replies|
    ensures WrittenSinceLoad(t + [req], replies + [reply], p) <==>
      if req.page != p then WrittenSinceLoad(t, replies, p)
      else req.op.Write? || (reply.hit && WrittenSinceLoad(t, replies, p))
  {
    var t', r' := t + [req], replies + [reply];
    var n := |t|;
    assert t'[n] == req && r'[n] == reply;
    assert forall j :: 0 <= j < n ==> t'[j] == t[j] && r'[j] == replies[j];
    if WrittenSinceLoad(t', r', p) {
      var i :| 0 <= i < |t'| && t'[i].page == p && t'[i].op.Write?
               && forall j :: i < j < |t'| && t'[j].page == p ==> r'[j].hit;
      if i < n {
        assert t[i].page == p && forall j :: i < j < n && t[j].page == p ==> t'[j].page == p && replies[j].hit;
      }
    }
    if req.page == p && req.op.Write? {
      assert t'[n].page == p;
    } else if (req.page != p || reply.hit) && WrittenSinceLoad(t, replies, p) {
      var i :| 0 <= i < n && t[i].page == p && t[i].op.Write?
               && forall j :: i < j < n && t[j].page == p ==> replies[j].hit;
      assert t'[i].page == p && forall j :: i < j < n + 1 && t'[j].page == p ==> r'[j].hit;
    }
  }

  // ----- one request

  /** The dirty bits after a hit. */
  lemma ServeHitDirty(wb: WriteBack, policy: Policy, k: nat, s: State, req: Request, f: nat)
    requires Wf(policy, k, s) && req.page in s.core.frames && f < |s.core.frames|
    ensures var r := Serve(wb, policy, k, s, req).0;
      && r.core.frames == s.core.frames && |r.dirty| == |s.dirty|
      && (r.dirty[f] <==> s.dirty[f] || (s.core.frames[f] == req.page && req.op.Write?))
  {
    hide Valid, Hit, WithRef, Remove;
    ServeParts(wb, policy, k, s, req);
    TranslateHit(wb, policy, k, s, req.page, req.op.Write?);
    HitStateParts(policy, k, s, req.page, req.op.Write?);
    OneFrameEach(policy, k, s, f, IndexOf(s.core.frames, req.page));
  }

  /** No page is in two frames. */
  lemma OneFrameEach(policy: Policy, k: nat, s: State, f: nat, g: nat)
    requires Wf(policy, k, s) && f < |s.core.frames| && g < |s.core.frames|
    ensures s.core.frames[f] == s.core.frames[g] <==> f == g
  {
  }

  /** The dirty bits after a fault: that of the new page says whether it came for a write. */
  lemma ServeMissDirty(wb: WriteBack, policy: Policy, k: nat, s: State, req: Request, f: nat)
    requires Wf(policy, k, s) && req.page !in s.core.frames
    requires f < |Serve(wb, policy, k, s, req).0.core.frames|
    ensures var r, g := Serve(wb, policy, k, s, req).0, TargetFrame(policy, k, s.core);
      && |r.dirty| == |r.core.frames| && g < |r.core.frames|
      && r.core.frames == Put(s.core.frames, g, req.page)
      && (if f == g then r.dirty[f] <==> req.op.Write? else f < |s.dirty| && r.dirty[f] == s.dirty[f])
  {
    hide Valid, Evict, Enqueue, OnSwap;
    var t := s.(stats := s.stats.(misses := s.stats.misses + 1));
    ServeParts(wb, policy, k, s, req);
    TranslateMiss(wb, policy, k, s, req.page, req.op.Write?);
    FaultParts(wb, policy, k, t, req.page, req.op.Write?);
  }

  // ----- whole traces

  /** The state and the replies of a trace agree on which pages are dirty. */
  ghost predicate BitsRight(s: State, t: seq<Request>, replies: seq<Reply>)
    requires |t| == |replies| && |s.dirty| == |s.core.frames|
  {
    forall f :: 0 <= f < |s.core.frames| ==> (s.dirty[f] <==> WrittenSinceLoad(t, replies, s.core.frames[f]))
  }

  lemma BitsNext(wb: WriteBack, policy: Policy, k: nat, s: State, t: seq<Request>, replies: seq<Reply>, req: Request)
    requires Wf(policy, k, s) && |t| == |replies| && BitsRight(s, t, replies)
    ensures var (r, reply) := Serve(wb, policy, k, s, req);
      Wf(policy, k, r) && BitsRight(r, t + [req], replies + [reply])
  {
    hide Serve, Valid, WrittenSinceLoad, TargetFrame;
    var (r, reply) := Serve(wb, policy, k, s, req);
    ReplyHit(wb, policy, k, s, req);
    forall f | 0 <= f < |r.core.frames|
      ensures r.dirty[f] <==> WrittenSinceLoad(t + [req], replies + [reply], r.core.frames[f])
    {
      WrittenNext(t, replies, req, reply, r.core.frames[f]);
      if req.page in s.core.frames {
        SameFrames(wb, policy, k, s, req);
        ServeHitDirty(wb, policy, k, s, req, f);
      } else {
        ServeMissDirty(wb, policy, k, s, req, f);
        OneFrameEach(policy, k, r, f, TargetFrame(policy, k, s.core));
      }
    }
  }

  lemma ReplyHit(wb: WriteBack, policy: Policy, k: nat, s: State, req: Request)
    requires Wf(policy, k, s)
    ensures Serve(wb, policy, k, s, req).1.hit <==> req.page in s.core.frames
  {
    hide Translate, Valid;
    ServeParts(wb, policy, k, s, req);
  }

  lemma SameFrames(wb: WriteBack, policy: Policy, k: nat, s: State, req: Request)
    requires Wf(policy, k, s) && req.page in s.core.frames
    ensures Serve(wb, policy, k, s, req).0.core.frames == s.core.frames
  {
    ServeHitDirty(wb, policy, k, s, req, IndexOf(s.core.frames, req.page));
  }

  /** A page in memory is dirty exactly when it was written to after it was last loaded, or loaded for a write. */
  lemma {:induction false} DirtyIff(wb: WriteBack, policy: Policy, k: nat, t: seq<Request>)
    requires 1 <= k
    ensures var (s, replies) := RunAll(wb, policy, k, t);
      BitsRight(s, t, replies)
  {
    hide Serve, Wf, BitsRight;
    if t == [] {
      NoBits(wb, policy, k);
    } else {
      var n := |t| - 1;
      DirtyIff(wb, policy, k, t[..n]);
      var (s, replies) := RunAll(wb, policy, k, t[..n]);
      BitsNext(wb, policy, k, s, t[..n], replies, t[n]);
      assert t == t[..n] + [t[n]];
    }
  }

  lemma NoBits(wb: WriteBack, policy: Policy, k: nat)
    requires 1 <= k
    ensures var (s, replies) := RunAll(wb, policy, k, []); BitsRight(s, [], replies)
  {
  }

  // ----- what writing back dirty pages only saves

  /** The pages, one at most, that access n of the trace replaces. */
  ghost function Replaced(wb: WriteBack, policy: Policy, k: nat, t: seq<Request>, n: nat): set<Page>
    requires 1 <= k && n < |t|
  {
    Elements(RunAll(wb, policy, k, t[..n]).0.core.frames) - Elements(RunAll(wb, policy, k, t[..n + 1]).0.core.frames)
  }

  /** Those of them that were written to since they were loaded. */
  ghost function ReplacedDirty(wb: WriteBack, policy: Policy, k: nat, t: seq<Request>, n: nat): set<Page>
    requires 1 <= k && n < |t|
  {
    set p | p in Replaced(wb, policy, k, t, n) && WrittenSinceLoad(t[..n], RunAll(wb, policy, k, t[..n]).1, p)
  }

  ghost function CountDirty(wb: WriteBack, policy: Policy, k: nat, t: seq<Request>, n: nat): nat
    requires 1 <= k && n <= |t|
  {
    if n == 0 then 0 else CountDirty(wb, policy, k, t, n - 1) + |ReplacedDirty(wb, policy, k, t, n - 1)|
  }

  /** One request writes to the swap disk exactly when it replaces a dirty page. */
  lemma ServeWrites(policy: Policy, k: nat, s: State, req: Request, d: set<Page>)
    requires Wf(policy, k, s)
    requires var gone := Elements(s.core.frames) - Elements(Serve(IfDirty, policy, k, s, req).0.core.frames);
      forall p :: p in d <==> p in gone && s.dirty[IndexOf(s.core.frames, p)]
    ensures Serve(IfDirty, policy, k, s, req).0.stats.swapWrites == s.stats.swapWrites + |d|
  {
    hide Valid;
    var r := Serve(IfDirty, policy, k, s, req).0;
    if req.page in s.core.frames {
      SameFrames(IfDirty, policy, k, s, req);
      assert d == {};
      HitWrites(policy, k, s, req);
    } else {
      MissWrites(policy, k, s, req);
      var g := TargetFrame(policy, k, s.core);
      ServeMissDirty(IfDirty, policy, k, s, req, g);
      if |s.core.frames| == k {
        PutReplaces(policy, k, s, g, req.page);
        assert d == if s.dirty[g] then {s.core.frames[g]} else {};
      } else {
        TargetIsNew(policy, k, s.core);
        assert Put(s.core.frames, g, req.page) == s.core.frames + [req.page];
        assert d == {};
      }
    }
  }

  lemma TargetIsNew(policy: Policy, k: nat, c: Core)
    requires Valid(policy, k, c) && |c.frames| != k
    ensures TargetFrame(policy, k, c) == |c.frames|
  {
  }

  lemma PutReplaces(policy: Policy, k: nat, s: State, g: nat, p: Page)
    requires Wf(policy, k, s) && g < |s.core.frames| && p !in s.core.frames
    ensures Elements(s.core.frames) - Elements(Put(s.core.frames, g, p)) == {s.core.frames[g]}
    ensures IndexOf(s.core.frames, s.core.frames[g]) == g
  {
    var frames := s.core.frames;
    IndexUnique(frames, g);
    var after := Put(frames, g, p);
    forall x ensures x in Elements(frames) - Elements(after) <==> x == frames[g] {
      if x in frames && x != frames[g] {
        var i := IndexOf(frames, x);
        assert after[i] == x;
      }
    }
  }

  lemma HitWrites(policy: Policy, k: nat, s: State, req: Request)
    requires Wf(policy, k, s) && req.page in s.core.frames
    ensures Serve(IfDirty, policy, k, s, req).0.stats.swapWrites == s.stats.swapWrites
  {
    hide Valid, Hit;
    ServeParts(IfDirty, policy, k, s, req);
    TranslateHit(IfDirty, policy, k, s, req.page, req.op.Write?);
    HitStateParts(policy, k, s, req.page, req.op.Write?);
  }

  lemma MissWrites(policy: Policy, k: nat, s: State, req: Request)
    requires Wf(policy, k, s) && req.page !in s.core.frames
    ensures var g := TargetFrame(policy, k, s.core);
      Serve(IfDirty, policy, k, s, req).0.stats.swapWrites
        == s.stats.swapWrites + if |s.core.frames| == k && s.dirty[g] then 1 else 0
  {
    hide Hit, Enqueue, OnSwap;
    ServeParts(IfDirty, policy, k, s, req);
    TranslateMiss(IfDirty, policy, k, s, req.page, req.op.Write?);
  }

  /** Writing back dirty victims only writes as often as a page is replaced that was written to since its load. */
  lemma {:induction false} DirtyWrites(policy: Policy, k: nat, t: seq<Request>, n: nat)
    requires 1 <= k && n <= |t|
    ensures RunAll(IfDirty, policy, k, t[..n]).0.stats.swapWrites == CountDirty(IfDirty, policy, k, t, n)
  {
    hide Serve, Wf, WrittenSinceLoad;
    if n == 0 {
    } else {
      DirtyWrites(policy, k, t, n - 1);
      var v := t[..n - 1];
      assert t[..n][..n - 1] == v;
      var (s, replies) := RunAll(IfDirty, policy, k, v);
      DirtyIff(IfDirty, policy, k, v);
      RunAllSnoc(IfDirty, policy, k, t[..n]);
      ServeWrites(policy, k, s, t[n - 1], ReplacedDirty(IfDirty, policy, k, t, n - 1));
    }
  }

  /** A trace that only reads then never writes to the swap disk. */
  lemma ReadsWriteNothing(policy: Policy, k: nat, t: seq<Request>)
    requires 1 <= k && forall i :: 0 <= i < |t| ==> t[i].op.Read?
    ensures RunAll(IfDirty, policy, k, t).0.stats.swapWrites == 0
  {
    assert t[..|t|] == t;
    DirtyWrites(policy, k, t, |t|);
    NothingDirty(policy, k, t, |t|);
  }

  lemma {:induction false} NothingDirty(policy: Policy, k: nat, t: seq<Request>, n: nat)
    requires 1 <= k && n <= |t| && forall i :: 0 <= i < |t| ==> t[i].op.Read?
    ensures CountDirty(IfDirty, policy, k, t, n) == 0
  {
    hide RunAll;
    if n == 0 {
    } else {
      NothingDirty(policy, k, t, n - 1);
      assert ReplacedDirty(IfDirty, policy, k, t, n - 1) == {};
    }
  }
}
