/** The protocol of driver/xfifo_dma/xfifo_dma.c. Callers are processes that interleave wherever the mutex does not keep
    the others out; waits and lock attempts are not cut short by signals. */
module Dma {
  import opened Basics

  const EBUSY: int := 16
  const ENOMEM: int := 12

  datatype Mode = RdOnly | WrOnly | RdWr

  datatype Call = Call(isWrite: bool, want: nat)

  /** Where a caller stands in xfifo_dma_read or xfifo_dma_write; `own` is the buffer it was given. */
  datatype Pc =
    | Idle
    | Locked(call: Call)
    | Alloced(call: Call, own: nat)
    | Claimed(call: Call, own: nat)
    | Waiting(call: Call, own: nat)
    | Woken(call: Call, own: nat)
    | Released(call: Call, own: nat)
  {
    predicate InLock() { Locked? || Alloced? || Claimed? }
    predicate OwnsChannel() { Claimed? || Waiting? || Woken? }
    predicate HasBuffer() { !Idle? && !Locked? }
  }

  /** struct xfifo_dma_dev, the DMA channel's claim and whether its transfer is running, the live coherent buffers, the
      callers and the open handles. */
  datatype State = State(
    depth: nat, mutex: Option<nat>, chan: Option<nat>, busy: bool, active: bool, count: nat, buffer: Option<nat>,
    writers: u32, bytesWritten: u32, writes: u32, opens: u32, closes: u32, errors: u32,
    live: set<nat>, pcs: map<nat, Pc>, handles: map<nat, Mode>)

  function Init(depth: nat): State {
    State(depth, None, None, false, false, 0, None, 0, 0, 0, 0, 0, 0, {}, map[], map[])
  }

  function PcOf(s: State, p: nat): Pc { if p in s.pcs then s.pcs[p] else Idle }

  /** transfer_size */
  function Size(depth: nat, call: Call): nat { if call.want > depth then depth else call.want }

  datatype Event =
    | Open(h: nat, mode: Mode)
    | Release(h: nat)
    | Begin(p: nat, call: Call)
    | Alloc(p: nat, got: Option<nat>)
    | Claim(p: nat)
    | Kick(p: nat)
    | Done
    | Fault
    | Wake(p: nat)
    | FreeChannel(p: nat)
    | FreeBuffer(p: nat)

  /** When an event can happen. An allocation never returns a buffer that is still live. */
  predicate Enabled(s: State, e: Event) {
    match e
    case Open(h, _) => s.mutex.None? && h !in s.handles
    case Release(h) => s.mutex.None? && h in s.handles
    case Begin(p, _) => s.mutex.None? && PcOf(s, p).Idle?
    case Alloc(p, got) => PcOf(s, p).Locked? && (got.Some? ==> got.value !in s.live)
    case Claim(p) => PcOf(s, p).Alloced?
    case Kick(p) => PcOf(s, p).Claimed?
    case Done => s.active
    case Fault => s.active
    case Wake(p) => PcOf(s, p).Waiting? && !s.busy
    case FreeChannel(p) => PcOf(s, p).Woken?
    case FreeBuffer(p) => PcOf(s, p).Released?
  }

  function Inc(x: u32): u32 { (x + 1) % U32 }

  /** dma_free_coherent of the buffer the device structure names at that moment. */
  function Freed(s: State): set<nat> { if s.buffer.Some? then s.live - {s.buffer.value} else s.live }

  function Step(s: State, e: Event): State {
    if !Enabled(s, e) then s else
    match e
    case Open(h, mode) =>
      if mode.RdOnly? then s.(opens := Inc(s.opens), handles := s.handles[h := mode])
      else if s.writers != 0 || s.busy then s
      else s.(writers := Inc(s.writers), opens := Inc(s.opens), handles := s.handles[h := mode])
    case Release(h) =>
      s.(writers := if s.handles[h].RdOnly? then s.writers else (s.writers + U32 - 1) % U32,
         closes := Inc(s.closes), handles := s.handles - {h})
    case Begin(p, call) =>
      s.(mutex := Some(p), writes := if call.isWrite then Inc(s.writes) else s.writes,
         pcs := s.pcs[p := Locked(call)])
    case Alloc(p, got) =>
      if got.None? then s.(buffer := None, mutex := None, pcs := s.pcs[p := Idle])
      else s.(buffer := got, live := s.live + {got.value}, pcs := s.pcs[p := Alloced(PcOf(s, p).call, got.value)])
    case Claim(p) =>
      var pc := PcOf(s, p);
      if s.chan.Some? then s.(live := Freed(s), mutex := None, pcs := s.pcs[p := Idle])
      else s.(chan := Some(p), busy := true, count := Size(s.depth, pc.call),
              pcs := s.pcs[p := Claimed(pc.call, pc.own)])
    case Kick(p) =>
      var pc := PcOf(s, p);
      s.(active := true, mutex := None, pcs := s.pcs[p := Waiting(pc.call, pc.own)])
    case Done => s.(bytesWritten := (s.bytesWritten + s.count) % U32, busy := false, active := false)
    case Fault => s.(errors := Inc(s.errors), busy := false, active := false)
    case Wake(p) =>
      var pc := PcOf(s, p);
      s.(pcs := s.pcs[p := Woken(pc.call, pc.own)])
    case FreeChannel(p) =>
      var pc := PcOf(s, p);
      s.(chan := None, pcs := s.pcs[p := Released(pc.call, pc.own)])
    case FreeBuffer(p) => s.(live := Freed(s), pcs := s.pcs[p := Idle])
  }

  function Run(s: State, es: seq<Event>): State {
    if es == [] then s else Step(Run(s, es[..|es| - 1]), es[|es| - 1])
  }

  /** The driver as it is: functions and callbacks that update the device structure, cut where others can come in. */
  class Driver {
    const depth: nat
    var mutex: Option<nat>
    var chan: Option<nat>
    var busy: bool
    var active: bool
    var count: nat
    var buffer: Option<nat>
    var writers: u32
    var bytesWritten: u32
    var writes: u32
    var opens: u32
    var closes: u32
    var errors: u32
    var live: set<nat>
    var pcs: map<nat, Pc>
    var handles: map<nat, Mode>

    function View(): State
      reads this
    {
      State(depth, mutex, chan, busy, active, count, buffer, writers, bytesWritten, writes, opens, closes, errors,
            live, pcs, handles)
    }

    constructor (fifoDepth: nat)
      ensures View() == Init(fifoDepth)
    {
      depth := fifoDepth;
      mutex, chan, busy, active, count, buffer := None, None, false, false, 0, None;
      writers, bytesWritten, writes, opens, closes, errors := 0, 0, 0, 0, 0, 0;
      live, pcs, handles := {}, map[], map[];
    }

    /** xfifo_dma_open, under the mutex throughout. */
    method OpenFile(h: nat, mode: Mode) returns (retval: int)
      requires Enabled(View(), Open(h, mode))
      modifies this
      ensures View() == Step(old(View()), Open(h, mode))
      ensures retval == 0 <==> h in handles
      ensures retval == 0 || retval == -16
    {
      retval := 0;
      match mode {
        case RdOnly =>
        case WrOnly =>
          if writers != 0 || busy {
            return -EBUSY;
          }
          writers := (writers + 1) % U32;
        case RdWr =>
          if writers != 0 || busy {
            return -EBUSY;
          }
          writers := (writers + 1) % U32;
      }
      handles := handles[h := mode];
      opens := (opens + 1) % U32;
    }

    /** xfifo_dma_release, under the mutex throughout. */
    method ReleaseFile(h: nat)
      requires Enabled(View(), Release(h))
      modifies this
      ensures View() == Step(old(View()), Release(h))
    {
      match handles[h] {
        case RdOnly =>
        case WrOnly => writers := (writers + U32 - 1) % U32;
        case RdWr => writers := (writers + U32 - 1) % U32;
      }
      handles := handles - {h};
      closes := (closes + 1) % U32;
    }

    /** The start of xfifo_dma_read and xfifo_dma_write: only writes are counted. */
    method LockFor(p: nat, call: Call)
      requires Enabled(View(), Begin(p, call))
      modifies this
      ensures View() == Step(old(View()), Begin(p, call))
    {
      mutex := Some(p);
      if call.isWrite {
        writes := (writes + 1) % U32;
      }
      pcs := pcs[p := Locked(call)];
    }

    method Allocate(p: nat, got: Option<nat>) returns (retval: int)
      requires Enabled(View(), Alloc(p, got))
      modifies this
      ensures View() == Step(old(View()), Alloc(p, got))
      ensures retval == if got.Some? then 0 else -12
    {
      buffer := got;
      if buffer.None? {
        mutex := None;
        pcs := pcs[p := Idle];
        return -ENOMEM;
      }
      live := live + {got.value};
      pcs := pcs[p := Alloced(pcs[p].call, got.value)];
      retval := 0;
    }

    method FreeCoherent()
      modifies this`live
      ensures live == Freed(old(View()))
    {
      if buffer.Some? {
        live := live - {buffer.value};
      }
    }

    method RequestDma(p: nat) returns (retval: int)
      requires Enabled(View(), Claim(p))
      modifies this
      ensures View() == Step(old(View()), Claim(p))
      ensures retval == if old(chan).Some? then -16 else 0
      ensures retval == 0 ==>
                var want := PcOf(old(View()), p).call.want;
                count <= want && count <= depth && (count == want || count == depth)
    {
      if chan.Some? {
        FreeCoherent();
        mutex := None;
        pcs := pcs[p := Idle];
        return -EBUSY;
      }
      var pc := pcs[p];
      var transferSize := pc.call.want;
      if pc.call.want > depth {
        transferSize := depth;
      }
      chan := Some(p);
      busy := true;
      count := transferSize;
      pcs := pcs[p := Claimed(pc.call, pc.own)];
      retval := 0;
    }

    method EnableDma(p: nat)
      requires Enabled(View(), Kick(p))
      modifies this
      ensures View() == Step(old(View()), Kick(p))
    {
      active := true;
      mutex := None;
      pcs := pcs[p := Waiting(pcs[p].call, pcs[p].own)];
    }

    /** xfifo_dma_done_callback */
    method DoneCallback()
      requires Enabled(View(), Done)
      modifies this
      ensures View() == Step(old(View()), Done)
    {
      bytesWritten := (bytesWritten + count) % U32;
      busy := false;
      active := false;
    }

    /** xfifo_dma_fault_callback */
    method FaultCallback()
      requires Enabled(View(), Fault)
      modifies this
      ensures View() == Step(old(View()), Fault)
    {
      errors := (errors + 1) % U32;
      busy := false;
      active := false;
    }

    /** wait_event_interruptible returns: busy was found to be 0. */
    method WaitReturns(p: nat)
      requires Enabled(View(), Wake(p))
      modifies this
      ensures View() == Step(old(View()), Wake(p))
    {
      pcs := pcs[p := Woken(pcs[p].call, pcs[p].own)];
    }

    method FreeDma(p: nat)
      requires Enabled(View(), FreeChannel(p))
      modifies this
      ensures View() == Step(old(View()), FreeChannel(p))
    {
      chan := None;
      pcs := pcs[p := Released(pcs[p].call, pcs[p].own)];
    }

    method Finish(p: nat) returns (retval: int)
      requires Enabled(View(), FreeBuffer(p))
      modifies this
      ensures View() == Step(old(View()), FreeBuffer(p))
      ensures var want := PcOf(old(View()), p).call.want;
              retval <= want && retval <= depth && (retval == want || retval == depth)
    {
      retval := if pcs[p].call.want > depth then depth else pcs[p].call.want;
      FreeCoherent();
      pcs := pcs[p := Idle];
    }
  }
}
