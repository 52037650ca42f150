/** The older delivery routine, DeliverData, which polls a register, keeps its own total and clears it itself. Against
    the interrupt-driven DeliverData_s, whose total the GPS interrupt clears. Both in PC mode. */
module PolledDelivery {
  import opened Basics
  import opened Acquisition
  import opened Delivery
  import opened DeliveryLaws

  /** `sent` is m_ulTotalLen, which no other function can see. */
  datatype Polled = Polled(length: u64, ready: bool, sent: u64, sends: seq<seq<byte>>)

  function ToSend(p: Polled): u64 { if p.sent <= p.length then p.length - p.sent else U64 + p.length - p.sent }

  function Poll(p: Polled, blk: Block): Polled {
    var p' := p.(sends := p.sends + Chunks(ToSend(p), blk));
    if ToSend(p) <= BRAM_SIZE then p'.(sent := 0, ready := false) else p'.(sent := (p.sent + BRAM_SIZE) % U64)
  }

  /** One round of the main loop: the routine is called while ready is set, and comes back once a block is full. */
  function PollRound(p: Polled, full: bool, blk: Block): Polled { if full && p.ready then Poll(p, blk) else p }

  /** The other handlers, as the polling program has them. */
  function PollCommand(p: Polled, e: Event): Polled {
    match e
    case Gps(got) => if got then p.(ready := true) else p
    case Data(_, _, _) => p
    case Start(l, _, _) => p.(length := l)
    case Stop => p.(ready := false)
  }

  class Poller {
    var length: u64
    var ready: bool
    var sent: u64
    var sends: seq<seq<byte>>

    function View(): Polled
      reads this
    {
      Polled(length, ready, sent, sends)
    }

    constructor (sampleLength: u64)
      ensures View() == Polled(sampleLength, false, 0, [])
    {
      length, ready, sent, sends := sampleLength, false, 0, [];
    }

    method Send(x: seq<byte>)
      modifies this`sends
      ensures sends == old(sends) + [x]
    {
      sends := sends + [x];
    }

    /** DeliverData, once the polled register says that the block is full. It does not look at ready. */
    method DeliverData(blk: Block)
      modifies this
      ensures View() == Poll(old(View()), blk)
    {
      var left: u64 := if sent <= length then length - sent else U64 + length - sent;
      if left <= PACKAGE_SIZE {
        Send(blk[..left]);
        sent := 0;
        ready := false;
      } else if left <= BRAM_SIZE {
        Send(blk[..PACKAGE_SIZE]);
        Send(blk[PACKAGE_SIZE..PACKAGE_SIZE + (left - PACKAGE_SIZE)]);
        assert sends == old(sends) + Chunks(left, blk);
        sent := 0;
        ready := false;
      } else {
        ghost var packages := Chunks(left, blk);
        var i := 0;
        while i < 2
          invariant 0 <= i <= 2
          invariant sends == old(sends) + packages[..i]
          invariant length == old(length) && ready == old(ready) && sent == old(sent)
        {
          assert blk[i * PACKAGE_SIZE..(i + 1) * PACKAGE_SIZE] == packages[i];
          Send(blk[i * PACKAGE_SIZE..(i + 1) * PACKAGE_SIZE]);
          i := i + 1;
        }
        assert packages[..2] == packages;
        sent := (sent + BRAM_SIZE) % U64;
      }
    }

    /** One round of the main loop. */
    method Round(full: bool, blk: Block)
      modifies this
      ensures View() == PollRound(old(View()), full, blk)
    {
      if ready {
        if full {
          DeliverData(blk);
        }
      }
    }

    method MesgThread(got: bool)
      modifies this`ready
      ensures View() == PollCommand(old(View()), Gps(got))
    {
      if got {
        ready := true;
      }
    }

    method AcqStart(sampleLength: u64, ghost savePosition: int, ghost config: Header)
      modifies this`length
      ensures View() == PollCommand(old(View()), Start(sampleLength, savePosition, config))
    {
      length := sampleLength;
    }

    method AcqStop()
      modifies this`ready
      ensures View() == PollCommand(old(View()), Stop)
    {
      ready := false;
    }
  }

  /** The polling program in the place of the interrupt-driven one: the same commands and GPS interrupts, and of each
      full pair of buffers the block whose turn it is. */
  function PollStep(s: State, p: Polled, e: Event): Polled {
    match e
    case Data(got, a, b) => PollRound(p, got, if (s.flag + 1) % U32 % 2 == 1 then a else b)
    case _ => PollCommand(p, e)
  }

  function PollRun(s: State, p: Polled, es: seq<Event>): Polled {
    if es == [] then p else PollStep(Run(s, es[..|es| - 1]), PollRun(s, p, es[..|es| - 1]), es[|es| - 1])
  }

  /** The two programs are at the same point of the same acquisition. */
  predicate InStep(s: State, p: Polled) {
    && s.savePC != 0 && s.length == p.length && s.ready == p.ready && s.sends == p.sends
    && p.sent == if s.ready then s.total else 0
  }

  /** No acquisition is left half delivered by this event, and PC mode goes on. */
  predicate Polite(s: State, e: Event) {
    match e
    case Gps(got) => got ==> !s.ready || s.total == 0
    case Stop => !s.ready || s.total == 0
    case Start(_, pc, _) => pc != 0
    case Data(_, _, _) => true
  }

  predicate PoliteRun(s: State, es: seq<Event>) {
    es == [] || (PoliteRun(s, es[..|es| - 1]) && Polite(Run(s, es[..|es| - 1]), es[|es| - 1]))
  }

  /** One event keeps the programs in step exactly when it leaves no acquisition half delivered. */
  lemma InStepStep(s: State, p: Polled, e: Event)
    requires InStep(s, p)
    ensures InStep(Step(s, e), PollStep(s, p, e)) <==> Polite(s, e)
  {
    hide Chunks, Written;
  }

  /** Simulation: over any number of acquisitions, as long as each is completed before the next interrupt or stop, the
      two routines issue the same sends and agree on when an acquisition is over. */
  lemma {:induction false} PolledSimulates(s: State, p: Polled, es: seq<Event>)
    requires InStep(s, p) && PoliteRun(s, es)
    ensures Run(s, es).sends == PollRun(s, p, es).sends && Run(s, es).ready == PollRun(s, p, es).ready
    ensures InStep(Run(s, es), PollRun(s, p, es))
    decreases |es|
  {
    hide Step, PollStep, Polite;
    if es != [] {
      PolledSimulates(s, p, es[..|es| - 1]);
      InStepStep(Run(s, es[..|es| - 1]), PollRun(s, p, es[..|es| - 1]), es[|es| - 1]);
    }
  }

  /** A completed acquisition leaves nothing half delivered: a GPS interrupt, all the data interrupts it takes, and then
      any GPS interrupt, stop, or start in PC mode. */
  lemma CompletedIsPolite(s: State, ds: seq<Event>, e: Event)
    requires OnlyData(ds) && Arrivals(ds) >= Quota(s.length) && (e.Start? ==> e.savePC != 0)
    ensures Polite(Run(Step(s, Gps(true)), ds), e)
  {
    hide Run, Step, Quota, Arrivals;
    Countdown(s, ds);
  }

  // Where they part

  /** What n data interrupts make the polling program send. */
  predicate PolledSo(p: Polled, q: Polled, n: nat) {
    && |Flatten(q.sends)| == |Flatten(p.sends)| + Min(ToSend(p), 65536 * n)
    && (q.ready <==> n == 0 || 65536 * n < ToSend(p))
    && (q.ready ==> ToSend(q) == ToSend(p) - 65536 * n)
  }

  lemma PollsNext(p: Polled, q: Polled, n: nat, blk: Block)
    requires PolledSo(p, q, n)
    ensures PolledSo(p, PollRound(q, true, blk), n + 1)
  {
    hide Flatten, Chunks;
    if q.ready {
      ChunksAmount(q.sends, ToSend(q), blk);
    }
  }

  lemma {:induction false} Polls(s: State, p: Polled, a: Block, b: Block, n: nat)
    requires p.ready
    ensures PolledSo(p, PollRun(s, p, Repeat(Data(true, a, b), n)), n)
    decreases n
  {
    hide PolledSo, PollRound, Run;
    var e := Data(true, a, b);
    if n == 0 {
      PollsNone(p);
    } else {
      Polls(s, p, a, b, n - 1);
      var u, q := Run(s, Repeat(e, n - 1)), PollRun(s, p, Repeat(e, n - 1));
      PollsNext(p, q, n - 1, if (u.flag + 1) % U32 % 2 == 1 then a else b);
      assert Repeat(e, n)[..n - 1] == Repeat(e, n - 1);
    }
  }

  lemma PollsNone(p: Polled)
    requires p.ready
    ensures PolledSo(p, p, 0)
  {
  }

  lemma {:induction false} DataIsPolite(s: State, ds: seq<Event>)
    requires OnlyData(ds)
    ensures PoliteRun(s, ds)
    decreases |ds|
  {
    hide Step, Run;
    if ds != [] {
      var init := ds[..|ds| - 1];
      assert ds[|ds| - 1] in ds && forall d :: d in init ==> d in ds;
      DataIsPolite(s, init);
    }
  }

  /** Runs that begin with one event. */
  lemma {:induction false} RunCons(s: State, p: Polled, e: Event, es: seq<Event>)
    ensures Run(s, [e] + es) == Run(Step(s, e), es)
    ensures PollRun(s, p, [e] + es) == PollRun(Step(s, e), PollStep(s, p, e), es)
    ensures PoliteRun(s, [e] + es) <==> Polite(s, e) && PoliteRun(Step(s, e), es)
    decreases |es|
  {
    hide Step, PollStep, Polite;
    var all := [e] + es;
    if es == [] {
      assert all[..0] == [] && all == [e];
    } else {
      var init := es[..|es| - 1];
      RunCons(s, p, e, init);
      assert all[..|all| - 1] == [e] + init && all[|all| - 1] == es[|es| - 1];
    }
  }

  /** A total left over: both programs run to the end of what they count on, and one sends fewer bytes. */
  lemma LeftOverDiffers(s: State, p: Polled, n: nat)
    requires s.ready && p.ready && s.savePC != 0 && s.sends == p.sends
    requires BRAM_SIZE * n >= Left(s) && BRAM_SIZE * n >= ToSend(p)
    ensures var ds := Repeat(Data(true, ZEROS, ONES), n);
            && |Flatten(Run(s, ds).sends)| == |Flatten(s.sends)| + Left(s)
            && |Flatten(PollRun(s, p, ds).sends)| == |Flatten(s.sends)| + ToSend(p)
            && (Left(s) != ToSend(p) ==> Run(s, ds).sends != PollRun(s, p, ds).sends)
  {
    hide Run, PollRun, Flatten, Left, ToSend;
    Delivers(s, ZEROS, ONES, n);
    Polls(s, p, ZEROS, ONES, n);
  }

  /** A GPS interrupt that cuts an acquisition short, or comes after a stop that did, whatever the length: once the next
      acquisition is complete the polling program has sent fewer bytes, by those of the acquisition cut short. */
  lemma CutShortDiffers(s: State, p: Polled, n: nat)
    requires s.savePC != 0 && s.sends == p.sends && s.length == p.length
    requires 0 < p.sent <= p.length && 65536 * n >= s.length
    ensures var es := [Gps(true)] + Repeat(Data(true, ZEROS, ONES), n);
            && |Flatten(Run(s, es).sends)| == |Flatten(s.sends)| + s.length
            && |Flatten(PollRun(s, p, es).sends)| == |Flatten(s.sends)| + s.length - p.sent
            && Run(s, es).sends != PollRun(s, p, es).sends
  {
    hide Run, PollRun, Flatten;
    RunCons(s, p, Gps(true), Repeat(Data(true, ZEROS, ONES), n));
    LeftOverDiffers(Step(s, Gps(true)), PollStep(s, p, Gps(true)), n);
  }

  /** The same, for a total that may have run past the length. */
  lemma LeftOverAfterGps(s: State, p: Polled) returns (es: seq<Event>)
    requires s.savePC != 0 && s.sends == p.sends && s.length == p.length && p.sent != 0
    requires Polite(s, Gps(true))
    ensures PoliteRun(s, es) && Run(s, es).sends != PollRun(s, p, es).sends
  {
    var t, q := Step(s, Gps(true)), PollStep(s, p, Gps(true));
    assert Left(t) != ToSend(q);
    hide Run, PollRun, Left, ToSend;
    var n: nat := Left(t) + ToSend(q);
    var ds := Repeat(Data(true, ZEROS, ONES), n);
    es := [Gps(true)] + ds;
    RunCons(s, p, Gps(true), ds);
    DataIsPolite(t, ds);
    LeftOverDiffers(t, q, n);
  }

  /** Another destination: the polling program sends what the other writes to its card. */
  lemma CardDiffers(s: State, p: Polled) returns (es: seq<Event>)
    requires s.savePC == 0 && s.sends == p.sends && (s.ready ==> p.ready)
    ensures PoliteRun(s, es) && Run(s, es).sends != PollRun(s, p, es).sends
  {
    var d := Data(true, ZEROS, ONES);
    es := if s.ready then [d] else [Gps(true), d];
    RunCons(s, p, es[0], es[1..]);
    assert es == [es[0]] + es[1..];
    if !s.ready {
      RunCons(Step(s, Gps(true)), PollStep(s, p, Gps(true)), d, []);
      assert es[1..] == [d] + [];
    }
  }

  lemma ImpoliteDiffers(s: State, p: Polled, e: Event) returns (es: seq<Event>)
    requires InStep(s, p) && !Polite(s, e)
    ensures var t, q := Step(s, e), PollStep(s, p, e);
            PoliteRun(t, es) && Run(t, es).sends != PollRun(t, q, es).sends
  {
    var t, q := Step(s, e), PollStep(s, p, e);
    match e
    case Gps(got) =>
      assert Left(t) != ToSend(q);
      var n: nat := Left(t) + ToSend(q);
      es := Repeat(Data(true, ZEROS, ONES), n);
      DataIsPolite(t, es);
      LeftOverDiffers(t, q, n);
    case Stop => es := LeftOverAfterGps(t, q);
    case Start(_, _, _) => es := CardDiffers(t, q);
  }

  /** Exactly when the two routines agree: an event leaves no acquisition half delivered and keeps PC mode, if and only
      if after it every run that does so issues the same sends from both. */
  lemma PoliteExactly(s: State, p: Polled, e: Event)
    requires InStep(s, p)
    ensures Polite(s, e) <==>
              forall es :: PoliteRun(Step(s, e), es) ==>
                Run(Step(s, e), es).sends == PollRun(Step(s, e), PollStep(s, p, e), es).sends
  {
    hide Step, PollStep, Polite, Run, PollRun, InStep, PoliteRun;
    var t, q := Step(s, e), PollStep(s, p, e);
    InStepStep(s, p, e);
    if Polite(s, e) {
      forall es | PoliteRun(t, es)
        ensures Run(t, es).sends == PollRun(t, q, es).sends
      {
        PolledSimulates(t, q, es);
      }
    } else {
      var es := ImpoliteDiffers(s, p, e);
    }
  }
}
