/** Whole acquisitions: what the events alone say about the bytes, when an acquisition ends, what a stop command stops,
    and what a start command in the middle of an acquisition breaks. */
module DeliveryLaws {
  import opened Basics
  import opened Acquisition
  import opened Delivery

  predicate OnlyData(es: seq<Event>) { forall e :: e in es ==> e.Data? }

  /** How many data interrupts came with data. */
  function Arrivals(es: seq<Event>): nat {
    if es == [] then 0
    else Arrivals(es[..|es| - 1]) + if es[|es| - 1].Data? && es[|es| - 1].got then 1 else 0
  }

  // Termination

  /** The counters after n data interrupts of an acquisition of this length. */
  predicate Counted(u: State, length: nat, n: nat) {
    var q := Quota(length);
    && u.length == length
    && (u.ready <==> n < q)
    && u.flag == Min(n, q) % U32
    && u.total == BRAM_SIZE * Min(n, q - 1) <= length
    && Left(u) == length - u.total
  }

  lemma CountNext(u: State, n: nat, a: Block, b: Block)
    requires Counted(u, u.length, n)
    ensures Counted(Step(u, Data(true, a, b)), u.length, n + 1)
  {
    hide Chunks, Written;
    var q := Quota(u.length);
    if n < q {
      FlagParity(n);
      QuotaNext(u.length, n);
      hide Quota;
      assert BRAM_SIZE * (n + 1) == BRAM_SIZE * n + BRAM_SIZE;
    }
  }

  lemma {:induction false} CountedRun(s: State, es: seq<Event>)
    requires OnlyData(es)
    ensures Counted(Run(Step(s, Gps(true)), es), s.length, Arrivals(es))
    decreases |es|
  {
    hide Deliver, Counted, Left, Quota;
    if es == [] {
      CountedStart(s);
    } else {
      var init, e := es[..|es| - 1], es[|es| - 1];
      assert e in es && forall d :: d in init ==> d in es;
      CountedRun(s, init);
      var u := Run(Step(s, Gps(true)), init);
      CountedLength(u, s.length, Arrivals(init));
      if e.got {
        CountNext(u, Arrivals(init), e.a, e.b);
      }
    }
  }

  lemma CountedStart(s: State)
    ensures Counted(Step(s, Gps(true)), s.length, 0)
  {
    QuotaNext(s.length, 0);
  }

  lemma CountedLength(u: State, length: nat, n: nat)
    requires Counted(u, length, n)
    ensures u.length == length
  {
  }

  /** An undisturbed acquisition: ready is cleared by exactly the Quota-th data interrupt. Until then 65536 bytes fewer
      are left after each one, and nothing wraps; below 2^48 bytes the total is 65536 times the flag. */
  lemma Countdown(s: State, es: seq<Event>)
    requires OnlyData(es)
    ensures var u, n, q := Run(Step(s, Gps(true)), es), Arrivals(es), Quota(s.length);
            && (u.ready <==> n < q)
            && u.flag == Min(n, q) % U32
            && u.total == 65536 * Min(n, q - 1) <= s.length
            && Left(u) == s.length - u.total
            && (u.ready && s.length < 0x1_0000_0000_0000 ==> u.total == 65536 * u.flag)
  {
    hide Run, Step, Arrivals;
    CountedRun(s, es);
  }

  // The bytes of an acquisition

  /** Data interrupts that all found data. */
  predicate Arriving(ds: seq<Event>) { forall i :: 0 <= i < |ds| ==> ds[i].Data? && ds[i].got }

  /** Buffers are taken in turn: A, B, A, ... */
  function Alternating(ds: seq<Event>): seq<Block>
    requires Arriving(ds)
  {
    seq(|ds|, i requires 0 <= i < |ds| => if i % 2 == 0 then ds[i].a else ds[i].b)
  }

  /** The session that a GPS interrupt opens in state s, once it has taken these blocks. */
  function Opened(s: State, blocks: seq<Block>): Abs {
    Abs(s.length, s.savePC, s.header, s.sends, s.file, s.savePC == 0,
        Some(Session(s.length, s.savePC, s.header, blocks, false)))
  }

  lemma {:induction false} OpenedRelated(s: State, ds: seq<Event>)
    requires Arriving(ds) && |ds| <= Quota(s.length)
    ensures Related(Run(Step(s, Gps(true)), ds), Opened(s, Alternating(ds)))
    decreases |ds|
  {
    hide Related, Step, AbsStep, Opened, Quota;
    if ds == [] {
      OpenedStart(s);
    } else {
      var init, e := ds[..|ds| - 1], ds[|ds| - 1];
      OpenedRelated(s, init);
      OpenedNext(s, Alternating(init), Run(Step(s, Gps(true)), init), e.a, e.b);
      assert e == Data(true, e.a, e.b);
      assert Alternating(ds) == Alternating(init) + [if |init| % 2 == 0 then e.a else e.b];
    }
  }

  lemma OpenedNext(s: State, blocks: seq<Block>, u: State, a: Block, b: Block)
    requires |blocks| < Quota(s.length) && Related(u, Opened(s, blocks))
    ensures Related(Step(u, Data(true, a, b)), Opened(s, blocks + [if |blocks| % 2 == 0 then a else b]))
  {
    hide Flatten, Cut, Stream, Packages, Quota, Step;
    DataRelated(u, Opened(s, blocks), a, b);
  }

  lemma OpenedStart(s: State)
    ensures Related(Step(s, Gps(true)), Opened(s, []))
  {
    FlattenEmpty();
    QuotaNext(s.length, 0);
    assert s.header + [] == s.header && s.sends + [] == s.sends;
  }

  /** From any state whatever: after a GPS interrupt, k data interrupts deliver the first min(L, 65536 k) bytes of
      their blocks, taken alternately from A and B, to the socket in packages of 32768 or to a new file after the
      header, and to no other place. */
  lemma AcquisitionDelivers(s: State, ds: seq<Event>)
    requires Arriving(ds) && |ds| <= Quota(s.length)
    ensures var u, all := Run(Step(s, Gps(true)), ds), Flatten(Alternating(ds));
            && |all| == 65536 * |ds|
            && var due := all[..Min(s.length, 65536 * |ds|)];
            && (s.savePC != 0 ==> u.file == s.file && u.sends == s.sends + if ds == [] then [] else Cut(due))
            && (s.savePC == 0 ==> u.sends == s.sends && u.file == Some(s.header + due))
  {
    hide Flatten, Cut, Quota, Step, Run;
    OpenedRelated(s, ds);
    FlattenLength(Alternating(ds));
    assert s.sends + [] == s.sends;
  }

  /** A whole acquisition delivers the first L bytes, and the packages put together are those bytes. */
  lemma WholeAcquisition(s: State, ds: seq<Event>)
    requires Arriving(ds) && |ds| == Quota(s.length) && s.savePC != 0
    ensures var u, all := Run(Step(s, Gps(true)), ds), Flatten(Alternating(ds));
            && !u.ready
            && s.length <= |all| && s.sends <= u.sends
            && Flatten(u.sends[|s.sends|..]) == all[..s.length]
  {
    hide Flatten, Cut, Step, Run;
    AcquisitionDelivers(s, ds);
    OpenedRelated(s, ds);
    var all := Flatten(Alternating(ds));
    CutOk(all[..Min(s.length, BRAM_SIZE * |ds|)]);
    assert Run(Step(s, Gps(true)), ds).sends[|s.sends|..] == Cut(all[..s.length]);
  }

  // Stopping

  predicate NoGps(es: seq<Event>) { forall e :: e in es ==> e != Gps(true) }

  /** While ready is clear nothing is delivered, whatever comes, until the next GPS interrupt. */
  lemma {:induction false} Silent(s: State, es: seq<Event>)
    requires !s.ready && NoGps(es)
    ensures var u := Run(s, es); !u.ready && u.sends == s.sends && (u.file == s.file || u.file == None)
    decreases |es|
  {
    hide Deliver, Left;
    if es != [] {
      var init := es[..|es| - 1];
      forall e | e in init ensures e != Gps(true) {
        assert e in es;
      }
      assert es[|es| - 1] in es;
      Silent(s, init);
    }
  }

  /** A stop command ends delivery at once, wherever the acquisition stands. */
  lemma StopSilences(s: State, es: seq<Event>)
    requires NoGps(es)
    ensures var t, u := Step(s, Stop), Run(Step(s, Stop), es);
            u.sends == s.sends && !u.ready && (u.file == t.file || u.file == None)
            && (s.savePC == 0 ==> t.file == None)
  {
    hide Run;
    Silent(Step(s, Stop), es);
  }

  // How many bytes data interrupts deliver

  function Repeat(e: Event, n: nat): seq<Event> { seq(n, _ => e) }

  lemma RunRepeat(s: State, e: Event, n: nat)
    ensures Run(s, Repeat(e, 0)) == s
    ensures Run(s, Repeat(e, n + 1)) == Step(Run(s, Repeat(e, n)), e)
  {
    assert Repeat(e, n + 1)[..n] == Repeat(e, n);
  }

  /** The bytes at the destination of the settings in force. */
  function Amount(s: State): nat {
    if s.savePC != 0 then |Flatten(s.sends)| else if s.file.Some? then |s.file.value| else 0
  }

  predicate HasFile(s: State) { s.savePC == 0 ==> s.file.Some? }

  lemma ChunksAmount(xs: seq<seq<byte>>, left: nat, blk: Block)
    ensures |Flatten(xs + Chunks(left, blk))| == |Flatten(xs)| + Min(left, BRAM_SIZE)
  {
    hide Flatten;
    var cs := Chunks(left, blk);
    FlattenNext(xs, cs[0]);
    if |cs| == 2 {
      FlattenNext(xs + [cs[0]], cs[1]);
      assert xs + cs == xs + [cs[0]] + [cs[1]];
    } else {
      assert xs + cs == xs + [cs[0]];
    }
  }

  /** Counted from a ready state, from which `left` bytes remain: after n data interrupts. */
  predicate DeliveredSo(s: State, u: State, n: nat) {
    && u.savePC == s.savePC && HasFile(u)
    && Amount(u) == Amount(s) + Min(Left(s), 65536 * n)
    && (u.ready <==> n == 0 || 65536 * n < Left(s))
    && (u.ready ==> Left(u) == Left(s) - 65536 * n)
  }

  lemma DeliversNext(s: State, u: State, n: nat, a: Block, b: Block)
    requires DeliveredSo(s, u, n)
    ensures DeliveredSo(s, Step(u, Data(true, a, b)), n + 1)
  {
    hide Flatten, Chunks;
    if u.ready {
      ChunksAmount(u.sends, Left(u), if (u.flag + 1) % U32 % 2 == 1 then a else b);
    }
  }

  /** n data interrupts deliver min(left, 65536 n) bytes, in any state that is ready, even one whose total is past its
      length. */
  lemma {:induction false} Delivers(s: State, a: Block, b: Block, n: nat)
    requires s.ready && HasFile(s)
    ensures DeliveredSo(s, Run(s, Repeat(Data(true, a, b), n)), n)
    decreases n
  {
    hide DeliveredSo, Step, Run;
    var e := Data(true, a, b);
    if n == 0 {
      RunRepeat(s, e, 0);
      DeliversNone(s);
    } else {
      Delivers(s, a, b, n - 1);
      DeliversNext(s, Run(s, Repeat(e, n - 1)), n - 1, a, b);
      RunRepeat(s, e, n - 1);
    }
  }

  lemma DeliversNone(s: State)
    requires s.ready && HasFile(s)
    ensures DeliveredSo(s, s, 0)
  {
  }

  // Start commands in the middle of an acquisition

  /** The socket and the file hold what the session owes. */
  predicate Owed(s: State, x: Abs) { s.sends == x.Sends() && s.file == x.File() }

  lemma {:induction false} DataKeeps(s: State, x: Abs, ds: seq<Event>)
    requires Related(s, x) && OnlyData(ds)
    ensures Related(Run(s, ds), AbsRun(x, ds))
    decreases |ds|
  {
    hide Related, Step, AbsStep;
    if ds != [] {
      var init, e := ds[..|ds| - 1], ds[|ds| - 1];
      assert e in ds && forall d :: d in init ==> d in ds;
      DataKeeps(s, x, init);
      StepRelated(Run(s, init), AbsRun(x, init), e);
    }
  }

  /** What a session owes does not depend on later settings. */
  lemma {:induction false} SettingsApart(x: Abs, e: Event, ds: seq<Event>)
    requires e.Start? && OnlyData(ds)
    ensures AbsRun(AbsStep(x, e), ds) == AbsStep(AbsRun(x, ds), e)
    decreases |ds|
  {
    if ds != [] {
      var init, d := ds[..|ds| - 1], ds[|ds| - 1];
      assert d in ds && forall d' :: d' in init ==> d' in ds;
      SettingsApart(x, e, init);
    }
  }

  lemma SettingsOwe(s: State, x: Abs, e: Event)
    requires e.Start?
    ensures Owed(s, AbsStep(x, e)) <==> Owed(s, x)
  {
    hide Packages, Stream;
  }

  predicate SameBytes(s: State, t: State) { s.sends == t.sends && s.file == t.file }

  lemma RunOne(s: State, e: Event)
    ensures Run(s, [e]) == Step(s, e)
  {
    assert [e][..0] == [];
  }

  const ZEROS: Block := seq(BRAM_SIZE, _ => 0)
  const ONES: Block := seq(BRAM_SIZE, _ => 1)

  /** Another destination: the next data interrupt delivers to the wrong place. */
  lemma DestinationBreaks(s: State, t: State)
    requires s.ready && t.ready && SameBytes(s, t) && (s.savePC == 0) != (t.savePC == 0)
    ensures !SameBytes(Run(s, [Data(true, ZEROS, ONES)]), Run(t, [Data(true, ZEROS, ONES)]))
  {
    RunOne(s, Data(true, ZEROS, ONES));
    RunOne(t, Data(true, ZEROS, ONES));
    hide Run;
  }

  lemma WrittenFirst(xs: seq<byte>, left: nat, left': nat)
    requires left > 0
    ensures xs + Written(left, ONES) != xs + Written(left', ZEROS)
    ensures Chunks(left, ONES)[0] != Chunks(left', ZEROS)[0]
  {
    assert (xs + Written(left, ONES))[|xs|] == 1;
    assert left' > 0 ==> (xs + Written(left', ZEROS))[|xs|] == 0;
    assert Chunks(left, ONES)[0][0] == 1;
    assert left' > 0 ==> Chunks(left', ZEROS)[0][0] == 0;
  }

  /** Another parity: the next data interrupt takes the wrong buffer. */
  lemma ParityBreaks(s: State, t: State)
    requires s.ready && t.ready && SameBytes(s, t) && (s.savePC == 0) == (t.savePC == 0) && HasFile(s)
    requires s.flag % 2 == 1 && t.flag == 0 && Left(s) > 0
    ensures !SameBytes(Run(s, [Data(true, ZEROS, ONES)]), Run(t, [Data(true, ZEROS, ONES)]))
  {
    hide Chunks, Written, Run;
    var d := Data(true, ZEROS, ONES);
    RunOne(s, d);
    RunOne(t, d);
    FlagFlips(s.flag);
    if s.savePC == 0 {
      WrittenFirst(s.file.value, Left(s), Left(t));
    } else {
      WrittenFirst([], Left(s), Left(t));
      var i := |s.sends|;
      ChunksFirst(s.sends, Left(s), ONES);
      ChunksFirst(t.sends, Left(t), ZEROS);
      assert Step(s, d).sends[i] != Step(t, d).sends[i];
    }
  }

  lemma ChunksFirst(xs: seq<seq<byte>>, left: nat, blk: Block)
    ensures |Chunks(left, blk)| >= 1 && |xs + Chunks(left, blk)| > |xs|
    ensures (xs + Chunks(left, blk))[|xs|] == Chunks(left, blk)[0]
  {
  }

  /** Another length: by the time both have delivered what they count on, one has delivered more. */
  lemma LengthBreaks(s: State, t: State) returns (ds: seq<Event>)
    requires s.ready && t.ready && SameBytes(s, t) && (s.savePC == 0) == (t.savePC == 0) && HasFile(s)
    requires s.total == t.total && s.length != t.length
    ensures OnlyData(ds) && !SameBytes(Run(s, ds), Run(t, ds))
  {
    hide Run, Flatten, Chunks;
    assert Left(s) != Left(t) && Amount(s) == Amount(t);
    var n: nat := Left(s) + Left(t);
    ds := Repeat(Data(true, ZEROS, ONES), n);
    Delivers(s, ZEROS, ONES, n);
    Delivers(t, ZEROS, ONES, n);
  }

  lemma StartBreaks(s: State, x: Abs, e: Event) returns (ds: seq<Event>)
    requires Related(s, x) && e.Start? && !StartFits(s, e)
    ensures OnlyData(ds) && !SameBytes(Run(s, ds), Run(Step(s, e), ds))
  {
    var t := Step(s, e);
    StartState(s, x, e);
    hide Run, Related, Step, Left;
    ds := [Data(true, ZEROS, ONES)];
    if (s.savePC == 0) != (e.savePC == 0) {
      DestinationBreaks(s, t);
    } else if s.flag % 2 == 1 {
      ParityBreaks(s, t);
    } else {
      ds := LengthBreaks(s, t);
    }
  }

  lemma StartState(s: State, x: Abs, e: Event)
    requires Related(s, x) && e.Start? && s.ready
    ensures Step(s, e) == s.(length := e.length, savePC := e.savePC, header := e.header, flag := 0)
    ensures HasFile(s) && (s.flag % 2 == 1 ==> Left(s) > 0)
  {
    hide Flatten, Cut, Stream, Packages;
  }

  /** A start command leaves delivery as it must be, whatever data interrupts follow, exactly when nothing is being
      collected, or it changes neither the length nor the destination and finds the flag even. */
  lemma StartKeeps(s: State, x: Abs, e: Event)
    requires Related(s, x) && e.Start?
    ensures StartFits(s, e) <==>
              forall ds :: OnlyData(ds) ==> Owed(Run(Step(s, e), ds), AbsRun(AbsStep(x, e), ds))
  {
    hide Related, Step, AbsStep, Run, AbsRun, StartFits;
    if StartFits(s, e) {
      StepRelated(s, x, e);
      forall ds | OnlyData(ds)
        ensures Owed(Run(Step(s, e), ds), AbsRun(AbsStep(x, e), ds))
      {
        DataKeeps(Step(s, e), AbsStep(x, e), ds);
        RelatedOwed(Run(Step(s, e), ds), AbsRun(AbsStep(x, e), ds));
      }
    } else {
      var ds := StartBreaks(s, x, e);
      DataKeeps(s, x, ds);
      RelatedOwed(Run(s, ds), AbsRun(x, ds));
      SettingsApart(x, e, ds);
      SettingsOwe(Run(Step(s, e), ds), AbsRun(x, ds), e);
      assert !Owed(Run(Step(s, e), ds), AbsRun(AbsStep(x, e), ds));
    }
  }

  lemma RelatedOwed(s: State, x: Abs)
    requires Related(s, x)
    ensures Owed(s, x)
  {
  }

  /** What can happen otherwise: a shorter length set after the first block of a longer acquisition makes what is left
      wrap around; every later block is then sent whole, far past the new length. */
  lemma StartMidwayOverruns(long: u64, short: u64, savePC: int, header: Header, a: Block, b: Block)
    requires short < 65536 < long && savePC != 0
    ensures var s := Run(Init(), [Start(long, savePC, header), Gps(true), Data(true, a, b),
                                  Start(short, savePC, header)]);
            var t := Step(s, Data(true, a, b));
            && Left(s) == 0x1_0000_0000_0000_0000 + short - 65536
            && t.ready && t.sends == s.sends + [a[..32768], a[32768..]]
  {
    hide Run;
    RunFour(Init(), Start(long, savePC, header), Gps(true), Data(true, a, b), Start(short, savePC, header));
  }

  lemma RunFour(s: State, e0: Event, e1: Event, e2: Event, e3: Event)
    ensures Run(s, [e0, e1, e2, e3]) == Step(Step(Step(Step(s, e0), e1), e2), e3)
  {
    hide Step;
    RunSnoc(s, [], e0);
    RunSnoc(s, [e0], e1);
    RunSnoc(s, [e0, e1], e2);
    RunSnoc(s, [e0, e1, e2], e3);
    assert [] + [e0] == [e0] && [e0] + [e1] == [e0, e1] && [e0, e1] + [e2] == [e0, e1, e2];
    assert [e0, e1, e2] + [e3] == [e0, e1, e2, e3];
  }

  lemma RunSnoc(s: State, es: seq<Event>, e: Event)
    ensures Run(s, es + [e]) == Step(Run(s, es), e)
  {
    assert (es + [e])[..|es|] == es;
  }
}
