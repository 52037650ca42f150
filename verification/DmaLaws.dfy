/** What every run of the driver keeps, whatever the interleaving. */
module DmaLaws {
  import opened Basics
  import opened Dma

  // Who owns the mutex and the channel

  /** The mutex and the channel each have the one owner their fields name; a busy device has an owner that waits for it
      or still holds the mutex; the count is the owner's own transfer size. */
  ghost predicate Inv(s: State) {
    && (forall p: nat :: PcOf(s, p).InLock() <==> s.mutex == Some(p))
    && (forall p: nat :: PcOf(s, p).OwnsChannel() <==> s.chan == Some(p))
    && (s.busy ==> s.chan.Some?)
    && (s.active ==> s.busy)
    && (s.chan.Some? ==>
          var pc := PcOf(s, s.chan.value);
          && s.count == Size(s.depth, pc.call)
          && (pc.Claimed? ==> s.busy && !s.active)
          && (pc.Waiting? ==> s.active == s.busy)
          && (pc.Woken? ==> !s.busy))
  }

  lemma InvInit(depth: nat)
    ensures Inv(Init(depth))
  {
  }

  lemma InvStep(s: State, e: Event)
    requires Inv(s)
    ensures Inv(Step(s, e))
  {
    if e.Begin? || e.Alloc? || e.Claim? || e.Kick? {
      hide Inv, Step;
      InvInLock(s, e);
    } else {
      hide Freed, Inc, Size;
    }
  }

  /** The events of a caller that holds the mutex, or takes it. */
  lemma InvInLock(s: State, e: Event)
    requires Inv(s) && (e.Begin? || e.Alloc? || e.Claim? || e.Kick?)
    ensures Inv(Step(s, e))
  {
    hide Freed, Inc, Size;
  }

  lemma {:induction false} RunInv(depth: nat, es: seq<Event>)
    ensures Inv(Run(Init(depth), es)) && Run(Init(depth), es).depth == depth
    decreases |es|
  {
    hide Inv, Step;
    if es == [] {
      InvInit(depth);
    } else {
      RunInv(depth, es[..|es| - 1]);
      StepCounters(Run(Init(depth), es[..|es| - 1]), es[|es| - 1]);
      InvStep(Run(Init(depth), es[..|es| - 1]), es[|es| - 1]);
    }
  }

  /** In any interleaving: at most one caller is in the critical section and at most one owns the channel; a transfer
      runs only for an owner that waits for it; and a waiting caller is never left behind: its transfer still runs, or
      it can go on. */
  lemma Exclusion(depth: nat, es: seq<Event>, p: nat, q: nat)
    ensures var s := Run(Init(depth), es);
            && (PcOf(s, p).InLock() && PcOf(s, q).InLock() ==> p == q)
            && (PcOf(s, p).OwnsChannel() && PcOf(s, q).OwnsChannel() ==> p == q)
            && (s.busy ==> s.chan.Some? && var pc := PcOf(s, s.chan.value); pc.Waiting? || (pc.Claimed? && !s.active))
            && (s.active ==> s.busy && PcOf(s, s.chan.value).Waiting?)
            && (PcOf(s, p).Waiting? ==> Enabled(s, Done) || Enabled(s, Wake(p)))
  {
    hide Run;
    RunInv(depth, es);
  }

  /** No claimed or running transfer exceeds the FIFO's depth or what its caller asked for, and it is one of the two. */
  lemma TransferFits(depth: nat, es: seq<Event>)
    ensures var s := Run(Init(depth), es);
            s.chan.Some? ==>
              var pc := PcOf(s, s.chan.value);
              && pc.OwnsChannel() && s.count <= depth && s.count <= pc.call.want
              && (s.count == depth || s.count == pc.call.want)
  {
    hide Run;
    RunInv(depth, es);
  }

  // The statistics

  function Sum(xs: seq<nat>): nat { if xs == [] then 0 else Sum(xs[..|xs| - 1]) + xs[|xs| - 1] }

  /** The size of the transfer a caller waits for: what it asked for, or the depth if that is less. */
  function Awaited(depth: nat, pc: Pc): seq<nat> {
    if !pc.Waiting? then [] else if pc.call.want <= depth then [pc.call.want] else [depth]
  }

  /** The transfers that completed in a run: min(count, fifo_depth) of the call that waited for each. */
  function Completed(s: State, es: seq<Event>): seq<nat> {
    if es == [] then []
    else
      var t := Run(s, es[..|es| - 1]);
      Completed(s, es[..|es| - 1])
      + if es[|es| - 1].Done? && t.active && t.chan.Some? then Awaited(t.depth, PcOf(t, t.chan.value)) else []
  }

  /** The transfers that faulted in a run. */
  function Faulted(s: State, es: seq<Event>): nat {
    if es == [] then 0
    else
      Faulted(s, es[..|es| - 1]) + if es[|es| - 1].Fault? && Enabled(Run(s, es[..|es| - 1]), Fault) then 1 else 0
  }

  /** The write calls of a run. */
  function WriteCalls(s: State, es: seq<Event>): nat {
    if es == [] then 0
    else
      var e := es[|es| - 1];
      WriteCalls(s, es[..|es| - 1])
      + if e.Begin? && e.call.isWrite && Enabled(Run(s, es[..|es| - 1]), e) then 1 else 0
  }

  lemma AddMod(a: nat, b: nat)
    ensures (a % U32 + b) % U32 == (a + b) % U32
  {
  }

  /** bytes_written is the sum of min(count, fifo_depth) over the completed transfers, reads included; errors counts the
      faulted ones; writes counts the write calls. All modulo 2^32. */
  lemma Statistics(depth: nat, es: seq<Event>)
    ensures var i := Init(depth); var s := Run(i, es);
            && s.bytesWritten == Sum(Completed(i, es)) % 0x1_0000_0000
            && s.errors == Faulted(i, es) % 0x1_0000_0000
            && s.writes == WriteCalls(i, es) % 0x1_0000_0000
  {
    hide Run, Completed, Faulted, WriteCalls;
    BytesWritten(depth, es);
    CallsCounted(depth, es);
  }

  lemma {:induction false} BytesWritten(depth: nat, es: seq<Event>)
    ensures Run(Init(depth), es).bytesWritten == Sum(Completed(Init(depth), es)) % U32
    decreases |es|
  {
    hide Freed, Inv, Size, Step, Inc, Enabled, Sum, Awaited;
    if es == [] {
      SumEmpty();
    } else {
      var init, e := es[..|es| - 1], es[|es| - 1];
      BytesWritten(depth, init);
      RunInv(depth, init);
      var t, done := Run(Init(depth), init), Completed(Init(depth), init);
      StepCounters(t, e);
      if e.Done? && t.active {
        ActiveOwner(t);
        SumSnoc(done, t.count);
        AddMod(Sum(done), t.count);
      } else {
        assert done + [] == done;
      }
    }
  }

  lemma {:induction false} CallsCounted(depth: nat, es: seq<Event>)
    ensures Run(Init(depth), es).errors == Faulted(Init(depth), es) % U32
    ensures Run(Init(depth), es).writes == WriteCalls(Init(depth), es) % U32
    decreases |es|
  {
    hide Freed, Inv, Size, Step, Inc, Enabled;
    if es != [] {
      var init, e := es[..|es| - 1], es[|es| - 1];
      CallsCounted(depth, init);
      StepCounters(Run(Init(depth), init), e);
      AddMod(Faulted(Init(depth), init), 1);
      AddMod(WriteCalls(Init(depth), init), 1);
    }
  }

  lemma SumEmpty()
    ensures Sum([]) == 0
  {
  }

  lemma StepCounters(s: State, e: Event)
    ensures Step(s, e).depth == s.depth
    ensures Step(s, e).bytesWritten == if e.Done? && s.active then (s.bytesWritten + s.count) % U32 else s.bytesWritten
    ensures Step(s, e).errors == if e.Fault? && Enabled(s, e) then (s.errors + 1) % U32 else s.errors
    ensures Step(s, e).writes
            == if e.Begin? && e.call.isWrite && Enabled(s, e) then (s.writes + 1) % U32 else s.writes
  {
    hide Freed, Size;
  }

  lemma ActiveOwner(s: State)
    requires Inv(s) && s.active
    ensures s.chan.Some? && Awaited(s.depth, PcOf(s, s.chan.value)) == [s.count]
  {
  }

  lemma SumSnoc(xs: seq<nat>, x: nat)
    ensures Sum(xs + [x]) == Sum(xs) + x
  {
    assert (xs + [x])[..|xs|] == xs;
  }

  // Open handles

  function Writable(handles: map<nat, Mode>): set<nat> { set h | h in handles && !handles[h].RdOnly? }

  /** The opens there must have been, when so many handles are open. */
  function OpensFor(closes: u32, n: nat): u32 { (closes + n) % U32 }

  predicate HandlesOk(s: State) {
    s.writers == |Writable(s.handles)| <= 1 && s.opens == OpensFor(s.closes, |s.handles|)
  }

  lemma OpenHandles(m: map<nat, Mode>, h: nat, mode: Mode)
    requires h !in m
    ensures |m[h := mode]| == |m| + 1
    ensures Writable(m[h := mode]) == if mode.RdOnly? then Writable(m) else Writable(m) + {h}
    ensures |Writable(m[h := mode])| == |Writable(m)| + if mode.RdOnly? then 0 else 1
  {
    assert m[h := mode].Keys == m.Keys + {h};
    assert Writable(m[h := mode]) == if mode.RdOnly? then Writable(m) else Writable(m) + {h};
  }

  lemma ReleaseHandles(m: map<nat, Mode>, h: nat)
    requires h in m
    ensures |m - {h}| == |m| - 1
    ensures Writable(m - {h}) == Writable(m) - {h}
    ensures |Writable(m - {h})| == |Writable(m)| - if m[h].RdOnly? then 0 else 1
  {
    assert (m - {h}).Keys == m.Keys - {h};
    assert Writable(m - {h}) == Writable(m) - {h};
    assert m[h].RdOnly? ==> Writable(m) - {h} == Writable(m);
  }

  /** Only opens and releases touch the handles and their counts. */
  lemma OtherEvents(s: State, e: Event)
    requires !Enabled(s, e) || (!e.Open? && !e.Release?)
    ensures var t := Step(s, e);
            t.writers == s.writers && t.opens == s.opens && t.closes == s.closes && t.handles == s.handles
  {
    hide Freed, Size;
  }

  lemma HandlesStep(s: State, e: Event)
    requires HandlesOk(s)
    ensures HandlesOk(Step(s, e))
  {
    hide Step, Enabled, HandlesOk;
    if e.Open? && Enabled(s, e) {
      HandlesOpen(s, e);
    } else if e.Release? && Enabled(s, e) {
      HandlesRelease(s, e);
    } else {
      OtherEvents(s, e);
      HandlesSame(s, Step(s, e));
    }
  }

  lemma HandlesSame(s: State, t: State)
    requires HandlesOk(s)
    requires t.writers == s.writers && t.opens == s.opens && t.closes == s.closes && t.handles == s.handles
    ensures HandlesOk(t)
  {
  }

  lemma HandlesOpen(s: State, e: Event)
    requires HandlesOk(s) && e.Open? && Enabled(s, e)
    ensures HandlesOk(Step(s, e))
  {
    hide Writable, Freed, Size, Inc, OpensFor;
    OpenHandles(s.handles, e.h, e.mode);
    OneMore(s.opens, s.closes, |s.handles|);
  }

  lemma OneMore(opens: u32, closes: u32, n: nat)
    requires opens == OpensFor(closes, n)
    ensures Inc(opens) == OpensFor(closes, n + 1)
    ensures n > 0 ==> opens == OpensFor(Inc(closes), n - 1)
    ensures Inc(0) == 1
  {
    AddMod(closes + n, 1);
    if n > 0 {
      AddMod(closes + 1, n - 1);
    }
  }

  lemma HandlesRelease(s: State, e: Event)
    requires HandlesOk(s) && e.Release? && Enabled(s, e)
    ensures HandlesOk(Step(s, e))
  {
    hide Freed, Size, Inc, OpensFor;
    ReleaseHandles(s.handles, e.h);
    assert !s.handles[e.h].RdOnly? ==> e.h in Writable(s.handles);
    hide Writable;
    OneMore(s.opens, s.closes, |s.handles|);
  }

  /** Over every run of opens and releases: writers is 0 or 1 and is the number of open write-capable handles; opens
      minus closes is the number of open handles, modulo 2^32. */
  lemma {:induction false} Handles(depth: nat, es: seq<Event>)
    ensures var s := Run(Init(depth), es);
            s.writers == |Writable(s.handles)| <= 1 && s.opens == (s.closes + |s.handles|) % 0x1_0000_0000
    decreases |es|
  {
    hide Step;
    if es == [] {
      assert Writable(map[]) == {};
    } else {
      Handles(depth, es[..|es| - 1]);
      HandlesStep(Run(Init(depth), es[..|es| - 1]), es[|es| - 1]);
    }
  }

  /** An open succeeds exactly when it is read-only, or no write-capable handle is open and no transfer runs. */
  lemma OpenGranted(depth: nat, es: seq<Event>, h: nat, mode: Mode)
    requires Enabled(Run(Init(depth), es), Open(h, mode))
    ensures var s := Run(Init(depth), es);
            h in Step(s, Open(h, mode)).handles <==> mode.RdOnly? || (Writable(s.handles) == {} && !s.busy)
  {
    hide Run;
    Handles(depth, es);
  }

  /** A release cut short at its lock (xfifo_dma_release returns -EINTR): the handle is gone, the count is not. */
  function Interrupted(s: State, h: nat): State { s.(handles := s.handles - {h}) }

  /** Why releases must not be cut short: after a write-capable one is, no open for writing ever succeeds again. */
  lemma {:induction false} InterruptedReleaseIsFinal(s: State, h: nat, es: seq<Event>)
    requires HandlesOk(s) && h in s.handles && !s.handles[h].RdOnly?
    ensures var t := Run(Interrupted(s, h), es); t.writers == 1 && Writable(t.handles) == {}
    decreases |es|
  {
    hide Freed, Size;
    if es == [] {
      ReleaseHandles(s.handles, h);
    } else {
      InterruptedReleaseIsFinal(s, h, es[..|es| - 1]);
      StaysLost(Run(Interrupted(s, h), es[..|es| - 1]), es[|es| - 1]);
    }
  }

  lemma StaysLost(t: State, e: Event)
    requires t.writers == 1 && Writable(t.handles) == {}
    ensures Step(t, e).writers == 1 && Writable(Step(t, e).handles) == {}
  {
    if Enabled(t, e) && e.Open? {
      OpenHandles(t.handles, e.h, e.mode);
    } else if Enabled(t, e) && e.Release? {
      ReleaseHandles(t.handles, e.h);
      assert e.h !in Writable(t.handles);
    } else {
      hide Step;
      OtherEvents(t, e);
    }
  }
}
