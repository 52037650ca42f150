/** What an acquisition delivers. The counters of the code are compared with sessions: the blocks taken since the
    last GPS interrupt, and the bytes these blocks owe. */
module Delivery {
  import opened Basics
  import opened Acquisition

  // What a session owes

  function Flatten(xs: seq<seq<byte>>): seq<byte> {
    if xs == [] then [] else Flatten(xs[..|xs| - 1]) + xs[|xs| - 1]
  }

  function Min(a: nat, b: nat): nat { if a <= b then a else b }

  /** The first min(length, 65536 k) bytes of the k blocks. */
  function Stream(length: nat, blocks: seq<Block>): seq<byte> {
    var all := Flatten(blocks);
    all[..Min(length, |all|)]
  }

  /** A stream cut into packages: all of 32768 bytes but the last, which is not longer. */
  function Cut(x: seq<byte>): seq<seq<byte>> {
    if |x| <= PACKAGE_SIZE then [x] else [x[..PACKAGE_SIZE]] + Cut(x[PACKAGE_SIZE..])
  }

  function Packages(length: nat, blocks: seq<Block>): seq<seq<byte>> {
    if blocks == [] then [] else Cut(Stream(length, blocks))
  }

  /** The data interrupts a session takes: ceil(length / 65536), but at least one. */
  function Quota(length: nat): nat {
    if length <= BRAM_SIZE then 1 else (length + BRAM_SIZE - 1) / BRAM_SIZE
  }

  /** A session: its settings, the blocks taken so far, whether a stop command ended it. */
  datatype Session = Session(length: nat, savePC: int, header: Header, blocks: seq<Block>, stopped: bool)
  {
    predicate Collecting() { !stopped && |blocks| < Quota(length) }
  }

  /** The settings of the last start command, the sends before the session, the file left open if the session has
      none of its own, and the session of the last GPS interrupt. */
  datatype Abs = Abs(length: u64, savePC: int, header: Header, before: seq<seq<byte>>, oldFile: Option<seq<byte>>,
                     own: bool, session: Option<Session>)
  {
    predicate Collecting() { session.Some? && session.value.Collecting() }

    function Sends(): seq<seq<byte>> {
      before + if session.Some? && session.value.savePC != 0 then Packages(session.value.length, session.value.blocks)
               else []
    }

    function File(): Option<seq<byte>> {
      if own && session.Some? then Some(session.value.header + Stream(session.value.length, session.value.blocks))
      else oldFile
    }
  }

  function AbsInit(): Abs { Abs(0, 0, seq(348, _ => 0), [], None, false, None) }

  function AbsStep(x: Abs, e: Event): Abs {
    match e
    case Gps(got) =>
      if !got then x
      else Abs(x.length, x.savePC, x.header, x.Sends(), x.File(), x.savePC == 0,
               Some(Session(x.length, x.savePC, x.header, [], false)))
    case Data(got, a, b) =>
      if !got || !x.Collecting() then x
      else
        var z := x.session.value;
        x.(session := Some(z.(blocks := z.blocks + [if |z.blocks| % 2 == 0 then a else b])))
    case Start(l, pc, h) => x.(length := l, savePC := pc, header := h)
    case Stop =>
      var x' := if x.session.Some? then x.(session := Some(x.session.value.(stopped := true))) else x;
      if x.savePC == 0 then x'.(own := false, oldFile := None) else x'
  }

  function AbsRun(x: Abs, es: seq<Event>): Abs {
    if es == [] then x else AbsStep(AbsRun(x, es[..|es| - 1]), es[|es| - 1])
  }

  /** A start command comes while nothing is being collected, or changes neither the length nor the destination and
      finds the flag even. */
  predicate StartFits(s: State, e: Event) {
    e.Start? && s.ready ==> e.length == s.length && (e.savePC == 0) == (s.savePC == 0) && s.flag % 2 == 0
  }

  predicate Orderly(es: seq<Event>) {
    es == [] || (Orderly(es[..|es| - 1]) && StartFits(Run(Init(), es[..|es| - 1]), es[|es| - 1]))
  }

  // The counters and the session

  predicate Counters(s: State, x: Abs) {
    && s.length == x.length && s.savePC == x.savePC && s.header == x.header
    && s.ready == x.Collecting()
    && (x.own ==> x.session.Some? && x.session.value.savePC == 0)
    && (s.ready ==>
          var z := x.session.value;
          && s.length == z.length && (s.savePC == 0) == (z.savePC == 0)
          && s.total == BRAM_SIZE * |z.blocks| && (z.blocks == [] || s.total < s.length)
          && s.flag % 2 == |z.blocks| % 2
          && (s.savePC == 0 ==> x.own))
  }

  predicate Related(s: State, x: Abs) { Counters(s, x) && s.sends == x.Sends() && s.file == x.File() }

  // Streams and packages

  lemma {:induction false} FlattenLength(blocks: seq<Block>)
    ensures |Flatten(blocks)| == BRAM_SIZE * |blocks|
    decreases |blocks|
  {
    if blocks != [] {
      FlattenLength(blocks[..|blocks| - 1]);
    }
  }

  /** One more block while something is left: the stream grows by what the interrupt writes. */
  lemma StreamGrows(length: nat, blocks: seq<Block>, blk: Block)
    requires blocks == [] || BRAM_SIZE * |blocks| < length
    requires BRAM_SIZE * |blocks| <= length
    ensures Stream(length, blocks) == Flatten(blocks)
    ensures Stream(length, blocks + [blk]) == Stream(length, blocks) + Written(length - BRAM_SIZE * |blocks|, blk)
  {
    hide Flatten;
    FlattenLength(blocks);
    FlattenNext(blocks, blk);
    TakeJoin(Flatten(blocks), blk, length);
  }

  lemma FlattenNext(xs: seq<seq<byte>>, x: seq<byte>)
    ensures Flatten(xs + [x]) == Flatten(xs) + x
  {
    assert (xs + [x])[..|xs|] == xs;
  }

  lemma TakeJoin(f: seq<byte>, blk: Block, length: nat)
    requires |f| <= length
    ensures f[..Min(length, |f|)] == f
    ensures (f + blk)[..Min(length, |f + blk|)] == f + Written(length - |f|, blk)
  {
  }

  /** Cutting whole packages and the rest apart is cutting the whole. */
  lemma {:induction false} CutJoin(x: seq<byte>, y: seq<byte>)
    requires x != [] && y != [] && |x| % PACKAGE_SIZE == 0
    ensures Cut(x + y) == Cut(x) + Cut(y)
    decreases |x|
  {
    if |x| == PACKAGE_SIZE {
      assert (x + y)[..PACKAGE_SIZE] == x && (x + y)[PACKAGE_SIZE..] == y;
    } else {
      assert |x| > PACKAGE_SIZE;
      CutJoin(x[PACKAGE_SIZE..], y);
      assert (x + y)[..PACKAGE_SIZE] == x[..PACKAGE_SIZE];
      assert (x + y)[PACKAGE_SIZE..] == x[PACKAGE_SIZE..] + y;
    }
  }

  /** The sends of one interrupt are the packages of what it adds to the stream. */
  lemma ChunksAreCut(left: nat, blk: Block)
    ensures Chunks(left, blk) == Cut(Written(left, blk))
  {
    var w := Written(left, blk);
    if left > PACKAGE_SIZE {
      assert w[..PACKAGE_SIZE] == blk[..PACKAGE_SIZE];
      assert w[PACKAGE_SIZE..] == if left <= BRAM_SIZE then blk[PACKAGE_SIZE..left] else blk[PACKAGE_SIZE..];
    }
  }

  lemma PackagesGrow(length: nat, blocks: seq<Block>, blk: Block)
    requires blocks == [] || BRAM_SIZE * |blocks| < length
    requires BRAM_SIZE * |blocks| <= length
    ensures Packages(length, blocks + [blk]) == Packages(length, blocks) + Chunks(length - BRAM_SIZE * |blocks|, blk)
  {
    var left := length - BRAM_SIZE * |blocks|;
    StreamGrows(length, blocks, blk);
    ChunksAreCut(left, blk);
    FlattenLength(blocks);
    hide Flatten, Cut;
    if blocks == [] {
      assert Stream(length, blocks) + Written(left, blk) == Written(left, blk);
    } else {
      CutJoin(Stream(length, blocks), Written(left, blk));
    }
  }

  // The code and the sessions agree in every run

  lemma QuotaNext(length: nat, k: nat)
    ensures k + 1 < Quota(length) <==> length > BRAM_SIZE * (k + 1)
    ensures k < Quota(length) <==> k == 0 || BRAM_SIZE * k < length
  {
  }

  lemma FlagFlips(flag: u32)
    ensures (flag + 1) % U32 % 2 == 1 <==> flag % 2 == 0
  {
  }

  lemma FlagParity(k: nat)
    ensures (k % U32 + 1) % U32 == (k + 1) % U32
    ensures (k + 1) % U32 % 2 == 1 <==> k % 2 == 0
  {
    var q, r := k / U32, k % U32;
    ParitySplit(k, q, r);
    if r + 1 < U32 {
      ParitySplit(k + 1, q, r + 1);
    } else {
      ParitySplit(k + 1, q + 1, 0);
    }
  }

  lemma ParitySplit(k: nat, q: nat, r: nat)
    requires k == U32 * q + r && r < U32
    ensures k / U32 == q && k % U32 == r && k % 2 == r % 2
  {
    assert k == 2 * (0x8000_0000 * q) + r;
  }

  lemma DataRelated(s: State, x: Abs, a: Block, b: Block)
    requires Related(s, x) && s.ready
    ensures Related(Step(s, Data(true, a, b)), AbsStep(x, Data(true, a, b)))
    ensures s.total <= s.length && Left(s) == s.length - s.total
    ensures Step(s, Data(true, a, b)).ready <==> Left(s) > 65536
    ensures Step(s, Data(true, a, b)).ready ==> Left(Step(s, Data(true, a, b))) == Left(s) - 65536
  {
    hide Flatten, Cut, Chunks, Written, Quota, Stream, Packages;
    var z := x.session.value;
    var k := |z.blocks|;
    QuotaNext(z.length, k);
    FlagFlips(s.flag);
    var blk := if k % 2 == 0 then a else b;
    assert |z.blocks + [blk]| == k + 1;
    StreamGrows(z.length, z.blocks, blk);
    PackagesGrow(z.length, z.blocks, blk);
    if s.savePC == 0 {
      assert z.header + (Stream(z.length, z.blocks) + Written(Left(s), blk))
             == z.header + Stream(z.length, z.blocks) + Written(Left(s), blk);
    } else {
      assert x.before + (Packages(z.length, z.blocks) + Chunks(Left(s), blk))
             == x.before + Packages(z.length, z.blocks) + Chunks(Left(s), blk);
    }
  }

  lemma StepRelated(s: State, x: Abs, e: Event)
    requires Related(s, x) && StartFits(s, e)
    ensures Related(Step(s, e), AbsStep(x, e))
  {
    hide Flatten, Cut, Quota;
    match e
    case Gps(got) =>
      if got {
        var x' := AbsStep(x, e);
        FlattenEmpty();
        assert x.header + [] == x.header && x'.before + [] == x'.before;
        QuotaNext(x.length, 0);
      }
    case Data(got, a, b) =>
      if got && s.ready {
        DataRelated(s, x, a, b);
      }
    case Start(l, pc, h) =>
    case Stop =>
  }

  /** In every orderly run the counters, the socket and the file are those of its sessions. */
  lemma {:induction false} RunRelated(es: seq<Event>)
    requires Orderly(es)
    ensures Related(Run(Init(), es), AbsRun(AbsInit(), es))
    decreases |es|
  {
    hide Related, Step, AbsStep;
    if es == [] {
      InitRelated();
    } else {
      RunRelated(es[..|es| - 1]);
      StepRelated(Run(Init(), es[..|es| - 1]), AbsRun(AbsInit(), es[..|es| - 1]), es[|es| - 1]);
    }
  }

  lemma ReadyIsCollecting(s: State, x: Abs)
    requires Related(s, x)
    ensures s.ready == x.Collecting()
    ensures s.ready && s.savePC == 0 ==> s.file.Some?
  {
  }

  lemma InitRelated()
    ensures Related(Init(), AbsInit())
  {
  }

  /** In every orderly run the handlers are called as they must be: DeliverData_s finds its file open. */
  lemma FileIsOpen(es: seq<Event>)
    requires Orderly(es) && Run(Init(), es).ready && Run(Init(), es).savePC == 0
    ensures Run(Init(), es).file.Some?
  {
    RunRelated(es);
    ReadyIsCollecting(Run(Init(), es), AbsRun(AbsInit(), es));
  }

  // What that means for the bytes

  lemma {:induction false} FlattenCons(a: seq<byte>, xs: seq<seq<byte>>)
    ensures Flatten([a] + xs) == a + Flatten(xs)
    decreases |xs|
  {
    var ys := [a] + xs;
    if xs == [] {
      assert ys[..|ys| - 1] == [];
    } else {
      FlattenCons(a, xs[..|xs| - 1]);
      assert ys[..|ys| - 1] == [a] + xs[..|xs| - 1];
    }
  }

  /** The packages put together are the stream; all are full but the last, and none is too long. */
  lemma {:induction false} CutOk(x: seq<byte>)
    ensures Flatten(Cut(x)) == x && Cut(x) != []
    ensures forall i :: 0 <= i < |Cut(x)| ==> |Cut(x)[i]| <= 32768
    ensures forall i :: 0 <= i < |Cut(x)| - 1 ==> |Cut(x)[i]| == 32768
    decreases |x|
  {
    if |x| <= PACKAGE_SIZE {
      assert [x][..0] == [];
    } else {
      CutOk(x[PACKAGE_SIZE..]);
      FlattenCons(x[..PACKAGE_SIZE], Cut(x[PACKAGE_SIZE..]));
      assert x == x[..PACKAGE_SIZE] + x[PACKAGE_SIZE..];
    }
  }

  /** Delivery in PC mode: since the last GPS interrupt exactly the first min(length, 65536 k) bytes of the k blocks
      went to the socket, in packages of 32768 bytes, only the last of which may be shorter. */
  lemma PcDelivery(es: seq<Event>)
    requires Orderly(es) && AbsRun(AbsInit(), es).session.Some? && AbsRun(AbsInit(), es).session.value.savePC != 0
    ensures var s, x := Run(Init(), es), AbsRun(AbsInit(), es);
            var z := x.session.value;
            && x.before <= s.sends
            && |Flatten(z.blocks)| == 65536 * |z.blocks|
            && Flatten(s.sends[|x.before|..]) == Flatten(z.blocks)[..Min(z.length, |Flatten(z.blocks)|)]
            && (forall i :: |x.before| <= i < |s.sends| ==> |s.sends[i]| <= 32768)
            && (forall i :: |x.before| <= i < |s.sends| - 1 ==> |s.sends[i]| == 32768)
  {
    hide Flatten, Cut, Run, AbsRun, Orderly, Quota;
    RunRelated(es);
    var x := AbsRun(AbsInit(), es);
    var z := x.session.value;
    FlattenLength(z.blocks);
    assert Run(Init(), es).sends[|x.before|..] == Packages(z.length, z.blocks);
    if z.blocks == [] {
      FlattenEmpty();
    } else {
      CutOk(Stream(z.length, z.blocks));
    }
  }

  lemma FlattenEmpty()
    ensures Flatten([]) == []
  {
  }

  /** Delivery in SD mode: the open file holds the configuration header and the very bytes PC mode would send. */
  lemma SdDelivery(es: seq<Event>)
    requires Orderly(es) && AbsRun(AbsInit(), es).session.Some? && AbsRun(AbsInit(), es).own
    ensures var z := AbsRun(AbsInit(), es).session.value;
            Run(Init(), es).file == Some(z.header + Flatten(Packages(z.length, z.blocks)))
  {
    hide Flatten, Cut, Run, AbsRun, Orderly, Quota;
    RunRelated(es);
    var z := AbsRun(AbsInit(), es).session.value;
    FlattenLength(z.blocks);
    FlattenEmpty();
    CutOk(Stream(z.length, z.blocks));
  }

  /** Whatever two runs did before, sessions that took the same blocks under the same length leave the same bytes
      on the card and on the wire. */
  lemma SdIsPc(sd: seq<Event>, pc: seq<Event>)
    requires Orderly(sd) && AbsRun(AbsInit(), sd).session.Some? && AbsRun(AbsInit(), sd).own
    requires Orderly(pc) && AbsRun(AbsInit(), pc).session.Some? && AbsRun(AbsInit(), pc).session.value.savePC != 0
    requires AbsRun(AbsInit(), sd).session.value.length == AbsRun(AbsInit(), pc).session.value.length
    requires AbsRun(AbsInit(), sd).session.value.blocks == AbsRun(AbsInit(), pc).session.value.blocks
    ensures |AbsRun(AbsInit(), pc).before| <= |Run(Init(), pc).sends|
    ensures Run(Init(), sd).file
            == Some(AbsRun(AbsInit(), sd).session.value.header + Flatten(Run(Init(), pc).sends[|AbsRun(AbsInit(), pc).before|..]))
  {
    hide Flatten, Cut, Run, AbsRun, Orderly, Quota;
    SdDelivery(sd);
    RunRelated(pc);
    var x := AbsRun(AbsInit(), pc);
    assert Run(Init(), pc).sends[|x.before|..] == Packages(x.session.value.length, x.session.value.blocks);
  }
}
