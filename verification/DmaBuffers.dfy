/** Where the coherent buffers go. The device structure has room for one buffer, and an allocation overwrites it before
    the channel is claimed: exactly when that happens under another caller, a buffer is lost for good. */
module DmaBuffers {
  import opened Basics
  import opened Dma
  import opened DmaLaws

  ghost predicate AllIdle(s: State) { forall p: nat :: PcOf(s, p).Idle? }

  /** An allocation while another caller still has its buffer. */
  ghost predicate Overlaps(s: State, e: Event) {
    e.Alloc? && Enabled(s, e) && exists q: nat :: PcOf(s, q).HasBuffer()
  }

  ghost predicate NoOverlap(s: State, es: seq<Event>) {
    es == [] || (NoOverlap(s, es[..|es| - 1]) && !Overlaps(Run(s, es[..|es| - 1]), es[|es| - 1]))
  }

  /** The one buffer there is belongs to the one caller that has one, and the device structure names it. */
  ghost predicate Tidy(s: State) {
    && (forall p: nat, q: nat :: PcOf(s, p).HasBuffer() && PcOf(s, q).HasBuffer() ==> p == q)
    && (forall p: nat :: PcOf(s, p).HasBuffer() ==>
          s.buffer == Some(PcOf(s, p).own) && s.live == {PcOf(s, p).own}
          && (PcOf(s, p).Released? ==> s.count == Size(s.depth, PcOf(s, p).call)))
    && (s.live != {} ==> exists p: nat :: PcOf(s, p).HasBuffer())
  }

  /** A live buffer that the device structure no longer names. */
  ghost predicate Stray(s: State) { exists b: nat :: IsStray(s, b) }

  predicate IsStray(s: State, b: nat) { b in s.live && s.buffer != Some(b) }

  lemma TidyStep(s: State, e: Event)
    requires Inv(s) && Tidy(s) && !Overlaps(s, e)
    ensures Tidy(Step(s, e))
  {
    hide Tidy, Step;
    match e
    case Alloc(_, _) => TidyAlloc(s, e);
    case Claim(_) => TidyFree(s, e);
    case FreeBuffer(_) => TidyFree(s, e);
    case _ => TidyKept(s, e);
  }

  /** No buffer is given or taken: whoever has one goes on having it. */
  lemma TidyKept(s: State, e: Event)
    requires Inv(s) && Tidy(s) && !e.Alloc? && !e.Claim? && !e.FreeBuffer?
    ensures Tidy(Step(s, e))
  {
    hide Inc, Freed;
    var t := Step(s, e);
    assert forall q: nat :: PcOf(t, q).HasBuffer() <==> PcOf(s, q).HasBuffer();
    assert forall q: nat :: PcOf(t, q).HasBuffer() ==> PcOf(t, q).own == PcOf(s, q).own;
  }

  lemma TidyFree(s: State, e: Event)
    requires Inv(s) && Tidy(s) && (e.Claim? || e.FreeBuffer?)
    ensures Tidy(Step(s, e))
  {
    var t := Step(s, e);
    assert forall q: nat :: PcOf(t, q).HasBuffer() ==> PcOf(s, q).HasBuffer() && PcOf(t, q).own == PcOf(s, q).own;
    if t.live != {} {
      var q: nat :| PcOf(s, q).HasBuffer();
      assert PcOf(t, q).HasBuffer();
    }
  }

  lemma TidyAlloc(s: State, e: Event)
    requires Inv(s) && Tidy(s) && e.Alloc? && !Overlaps(s, e)
    ensures Tidy(Step(s, e))
  {
    hide Inc, Freed;
    var t := Step(s, e);
    if Enabled(s, e) {
      forall q: nat | PcOf(t, q).HasBuffer()
        ensures q == e.p && e.got.Some?
      {
        assert !PcOf(s, q).HasBuffer();
      }
      assert e.got.Some? ==> PcOf(t, e.p).HasBuffer();
    }
  }

  lemma OverlapStrays(s: State, e: Event)
    requires Inv(s) && Tidy(s) && Overlaps(s, e)
    ensures Stray(Step(s, e))
  {
    hide Inc, Size;
    var q: nat :| PcOf(s, q).HasBuffer();
    assert IsStray(Step(s, e), PcOf(s, q).own);
  }

  lemma StrayStays(s: State, e: Event)
    requires Stray(s)
    ensures Stray(Step(s, e))
  {
    hide Inc, Size;
    var b: nat :| IsStray(s, b);
    assert IsStray(Step(s, e), b);
  }

  lemma {:induction false} TidyOrStray(depth: nat, es: seq<Event>)
    ensures NoOverlap(Init(depth), es) ==> Tidy(Run(Init(depth), es))
    ensures !NoOverlap(Init(depth), es) ==> Stray(Run(Init(depth), es))
    decreases |es|
  {
    hide Tidy, Stray, Overlaps, Inv, Step;
    if es == [] {
      InitTidy(depth);
    } else {
      var init, e := es[..|es| - 1], es[|es| - 1];
      TidyOrStray(depth, init);
      RunInv(depth, init);
      var t := Run(Init(depth), init);
      if !NoOverlap(Init(depth), init) {
        StrayStays(t, e);
      } else if Overlaps(t, e) {
        OverlapStrays(t, e);
      } else {
        TidyStep(t, e);
      }
    }
  }

  lemma InitTidy(depth: nat)
    ensures Tidy(Init(depth))
  {
  }

  /** Allocations and frees balance over a run exactly when no allocation in it came while another caller still had its
      buffer: once every call has returned, no buffer is live if and only if that never happened. */
  lemma BuffersBalance(depth: nat, es: seq<Event>)
    requires AllIdle(Run(Init(depth), es))
    ensures Run(Init(depth), es).live == {} <==> NoOverlap(Init(depth), es)
  {
    hide NoOverlap, Run;
    TidyOrStray(depth, es);
  }

  /** Until it happens, every caller that waited finds its own buffer in the device structure: a read copies from it, and
      what is freed at the end is that buffer at its own size. */
  lemma OwnBuffer(depth: nat, es: seq<Event>, p: nat)
    requires NoOverlap(Init(depth), es)
    ensures var s := Run(Init(depth), es); var pc := PcOf(s, p);
            && (pc.Woken? || pc.Released? ==> s.buffer == Some(pc.own) && s.live == {pc.own})
            && (pc.Woken? || pc.Released? ==> s.count == if pc.call.want <= depth then pc.call.want else depth)
  {
    hide NoOverlap, Run;
    TidyOrStray(depth, es);
    RunInv(depth, es);
  }

  // Calls one at a time

  /** Every call begins when all others have returned. */
  ghost predicate Serial(s: State, es: seq<Event>) {
    es == [] ||
    (Serial(s, es[..|es| - 1]) &&
     (es[|es| - 1].Begin? && Enabled(Run(s, es[..|es| - 1]), es[|es| - 1]) ==> AllIdle(Run(s, es[..|es| - 1]))))
  }

  ghost predicate AtMostOne(s: State) {
    forall p: nat, q: nat :: !PcOf(s, p).Idle? && !PcOf(s, q).Idle? ==> p == q
  }

  lemma {:induction false} SerialIsOne(depth: nat, es: seq<Event>)
    requires Serial(Init(depth), es)
    ensures AtMostOne(Run(Init(depth), es)) && NoOverlap(Init(depth), es)
    decreases |es|
  {
    hide Step;
    if es != [] {
      var init, e := es[..|es| - 1], es[|es| - 1];
      SerialIsOne(depth, init);
      OneStep(Run(Init(depth), init), e);
    }
  }

  lemma OneStep(s: State, e: Event)
    requires AtMostOne(s) && (e.Begin? && Enabled(s, e) ==> AllIdle(s))
    ensures AtMostOne(Step(s, e)) && !Overlaps(s, e)
  {
    hide Inc, Size, Freed;
    var t := Step(s, e);
    forall p: nat, q: nat | !PcOf(t, p).Idle? && !PcOf(t, q).Idle?
      ensures p == q
    {
      if e.Begin? && Enabled(s, e) {
        assert PcOf(s, p).Idle? && PcOf(s, q).Idle?;
      } else {
        assert !PcOf(s, p).Idle? && !PcOf(s, q).Idle?;
      }
    }
  }

  /** Calls one at a time leave no buffer behind. */
  lemma SerialCallsBalance(depth: nat, es: seq<Event>)
    requires Serial(Init(depth), es) && AllIdle(Run(Init(depth), es))
    ensures Run(Init(depth), es).live == {}
  {
    SerialIsOne(depth, es);
    BuffersBalance(depth, es);
  }

  // Two calls that overlap

  /** Caller 1 tries while caller 0 waits: it is refused, and the buffer of caller 0 is never freed. */
  function OverlappingCalls(call: Call): seq<Event> {
    [Begin(0, call), Alloc(0, Some(0)), Claim(0), Kick(0), Begin(1, call), Alloc(1, Some(1)), Claim(1),
     Done, Wake(0), FreeChannel(0), FreeBuffer(0)]
  }

  lemma RunStep(s: State, es: seq<Event>, i: nat)
    requires i < |es|
    ensures Run(s, es[..i + 1]) == Step(Run(s, es[..i]), es[i])
  {
    assert es[..i + 1][..i] == es[..i];
  }

  /** Caller 0 waits, caller 1 has been refused. */
  function Refused(depth: nat, call: Call): State {
    Init(depth).(chan := Some(0), busy := true, active := true, count := Size(depth, call), buffer := Some(1),
                 live := {0}, pcs := map[0 := Waiting(call, 0), 1 := Idle], writes := if call.isWrite then 2 else 0)
  }

  /** Caller 0 waits, alone. */
  function FirstWaits(depth: nat, call: Call): State {
    Init(depth).(chan := Some(0), busy := true, active := true, count := Size(depth, call), buffer := Some(0),
                 live := {0}, pcs := map[0 := Waiting(call, 0)], writes := if call.isWrite then 1 else 0)
  }

  lemma UpToFirst(depth: nat, call: Call)
    ensures Run(Init(depth), OverlappingCalls(call)[..4]) == FirstWaits(depth, call)
  {
    var es, s := OverlappingCalls(call), Init(depth);
    assert Run(s, es[..0]) == s;
    hide Run, Size;
    RunStep(s, es, 0);
    RunStep(s, es, 1);
    RunStep(s, es, 2);
    RunStep(s, es, 3);
  }

  lemma UpToRefused(depth: nat, call: Call)
    ensures Run(Init(depth), OverlappingCalls(call)[..7]) == Refused(depth, call)
  {
    hide Run, Size;
    var es, s := OverlappingCalls(call), Init(depth);
    UpToFirst(depth, call);
    RunStep(s, es, 4);
    RunStep(s, es, 5);
    RunStep(s, es, 6);
    assert {0} + {1} - {1} == {0};
  }

  lemma OverlapLosesBuffer(depth: nat, call: Call)
    ensures AllIdle(Run(Init(depth), OverlappingCalls(call)))
    ensures Run(Init(depth), OverlappingCalls(call)).live == {0}
  {
    hide Run, Size;
    var es, s := OverlappingCalls(call), Init(depth);
    UpToRefused(depth, call);
    RunStep(s, es, 7);
    RunStep(s, es, 8);
    RunStep(s, es, 9);
    RunStep(s, es, 10);
    assert es[..11] == es;
    assert {0} - {1} == {0};
  }
}
