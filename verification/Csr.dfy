/** The register file: the word device of driver/csr/axi_csr.c and the bit-field access of application/csr.c. */
module Csr {
  import opened Word32

  const EINVAL: int := 22
  const AXI_CSR_PHY_SIZE: nat := 14

  /** A device of words behind a file position. Reads and writes act at the position and leave it where it is. */
  class WordDevice {
    const words: array<Word>
    var pos: nat
    /** The contents after each write so far. */
    ghost var history: seq<seq<Word>>

    constructor (size: nat)
      ensures fresh(words) && words.Length == size && pos == 0 && history == []
    {
      words := new Word[size](i => Zero);
      pos := 0;
      history := [];
    }

    method Lseek(off: int, whence: int) returns (r: int)
      modifies this`pos
      ensures var to := if whence == 0 then off else if whence == 1 then old(pos) + off else words.Length - off;
              if 0 <= whence <= 2 && 0 <= to then r == to && pos == to else r == -22 && pos == old(pos)
    {
      var newpos: int;
      if whence == 0 {
        newpos := off;
      } else if whence == 1 {
        newpos := pos + off;
      } else if whence == 2 {
        newpos := words.Length - off;
      } else {
        return -EINVAL;
      }
      if newpos < 0 {
        return -EINVAL;
      }
      pos := newpos;
      r := newpos;
    }

    /** Returns the bytes read; the caller's word stays `before` when there is none to read. */
    method Read(before: Word) returns (r: int, value: Word)
      ensures if pos < words.Length then r == 4 && value == words[pos] else r == 0 && value == before
    {
      if pos >= words.Length {
        return 0, before;
      }
      return 4, words[pos];
    }

    method Write(value: Word) returns (r: int)
      modifies words, this`history
      ensures if old(pos) < words.Length then r == 4 && words[..] == old(words[..])[pos := value]
              else r == 0 && words[..] == old(words[..])
      ensures history == old(history) + if old(pos) < words.Length then [words[..]] else []
    {
      if pos >= words.Length {
        return 0;
      }
      words[pos] := value;
      history := history + [words[..]];
      r := 4;
    }
  }

  // Labels: uint32_t constants that pack offset, shift and width

  function RegOffset(tag: nat): nat { tag / 0x1000000 % 0x100 }
  function RegShift(tag: nat): nat { tag / 0x100 % 0x100 }
  function RegBitNum(tag: nat): nat { tag % 0x100 }

  /** The field lies inside a word; shifting further is undefined in C. */
  predicate LabelOk(tag: nat) { RegShift(tag) < 32 && RegShift(tag) + RegBitNum(tag) <= 32 }

  predicate InField(tag: nat, b: nat) { RegShift(tag) <= b < RegShift(tag) + RegBitNum(tag) }

  /** (2^width - 1) * 2^shift */
  function Mask(tag: nat): Word { seq(32, b requires 0 <= b < 32 => InField(tag, b)) }

  function One(): Word { seq(32, b => b == 0) }

  method GetRegMask(tag: nat) returns (mask: Word)
    requires LabelOk(tag)
    ensures mask == Mask(tag)
  {
    mask := Zero;
    var bitNum, shift := RegBitNum(tag), RegShift(tag);
    var i := 0;
    while i < bitNum
      invariant 0 <= i <= bitNum
      invariant forall b :: 0 <= b < 32 ==> mask[b] == (shift <= b < shift + i)
    {
      mask := Or(mask, Shl(One(), shift + i));
      i := i + 1;
    }
  }

  /** The mask is the number the header's comments promise. */
  lemma MaskValue(tag: nat)
    requires LabelOk(tag)
    ensures ToNat(Mask(tag)) == (Pow2(RegBitNum(tag)) - 1) * Pow2(RegShift(tag))
  {
    var s, n := RegShift(tag), RegBitNum(tag);
    var z, o, t := seq(s, _ => false), seq(n, _ => true), seq(32 - s - n, _ => false);
    assert Mask(tag) == z + (o + t);
    ToNatShifted(z, o + t);
    ToNatPadded(o, t);
    ToNatOnes(o);
  }

  lemma {:induction false} ToNatShifted(z: seq<bool>, b: seq<bool>)
    requires forall i :: 0 <= i < |z| ==> !z[i]
    ensures ToNat(z + b) == ToNat(b) * Pow2(|z|)
    decreases |z|
  {
    if z == [] {
      assert z + b == b;
    } else {
      ToNatShifted(z[1..], b);
      assert (z + b)[1..] == z[1..] + b;
    }
  }

  lemma {:induction false} ToNatOnes(o: seq<bool>)
    requires forall i :: 0 <= i < |o| ==> o[i]
    ensures ToNat(o) == Pow2(|o|) - 1
    decreases |o|
  {
    if o != [] {
      ToNatOnes(o[1..]);
    }
  }

  // What reading and writing a field means on the words

  /** The field's bits as a number. A register the device does not have reads as zero. */
  function ReadReg(regs: seq<Word>, tag: nat): nat {
    if RegOffset(tag) < |regs| then FieldOf(regs[RegOffset(tag)], tag) else 0
  }

  function FieldOf(w: Word, tag: nat): nat {
    ToNat(Low(Shr(w, RegShift(tag)), RegBitNum(tag)))
  }

  /** Bit `b` of a word after its field was set to `x`. */
  function WithField(w: Word, tag: nat, x: nat): Word {
    seq(32, b requires 0 <= b < 32 =>
      if InField(tag, b) then FromNat(x)[b - RegShift(tag)] else w[b])
  }

  function WriteReg(regs: seq<Word>, tag: nat, x: nat): seq<Word> {
    if RegOffset(tag) < |regs| then regs[RegOffset(tag) := WithField(regs[RegOffset(tag)], tag, x)] else regs
  }

  method RegRead(dev: WordDevice, tag: nat) returns (value: nat)
    requires LabelOk(tag)
    modifies dev`pos
    ensures value == ReadReg(dev.words[..], tag)
  {
    var mask := GetRegMask(tag);
    var _ := dev.Lseek(RegOffset(tag), 0);
    var _, read := dev.Read(Zero);
    var field := Shr(And(read, mask), RegShift(tag));
    value := ToNat(field);
    assert field == Low(Shr(read, RegShift(tag)), RegBitNum(tag));
    if RegOffset(tag) >= dev.words.Length {
      assert field == Zero;
      assert [] + Zero == Zero;
      ToNatPadded([], Zero);
    }
  }

  method RegWrite(dev: WordDevice, tag: nat, x: nat) returns (r: int)
    requires LabelOk(tag)
    modifies dev`pos, dev`history, dev.words
    ensures dev.words[..] == WriteReg(old(dev.words[..]), tag, x)
    ensures dev.history == old(dev.history) + if RegOffset(tag) < dev.words.Length then [dev.words[..]] else []
    ensures r == if RegOffset(tag) < dev.words.Length then 4 else 0
  {
    var mask := GetRegMask(tag);
    var _ := dev.Lseek(RegOffset(tag), 0);
    var _, read := dev.Read(Zero);
    var write := Or(And(read, Not(mask)), And(Shl(FromNat(x), RegShift(tag)), mask));
    assert RegOffset(tag) < dev.words.Length ==> write == WithField(read, tag, x);
    r := dev.Write(write);
  }

  /** The two fields share no bit. */
  predicate Apart(a: nat, b: nat) {
    || RegOffset(a) != RegOffset(b)
    || RegShift(a) + RegBitNum(a) <= RegShift(b)
    || RegShift(b) + RegBitNum(b) <= RegShift(a)
  }

  predicate InRange(regs: seq<Word>, tag: nat) { LabelOk(tag) && RegOffset(tag) < |regs| }

  /** A field reads back what was written to it, modulo 2^width. */
  lemma ReadAfterWrite(regs: seq<Word>, tag: nat, x: nat)
    requires InRange(regs, tag)
    ensures ReadReg(WriteReg(regs, tag, x), tag) == x % Pow2(RegBitNum(tag))
  {
    var w := WithField(regs[RegOffset(tag)], tag, x);
    assert Low(Shr(w, RegShift(tag)), RegBitNum(tag)) == Low(FromNat(x), RegBitNum(tag));
    LowValue(x, RegBitNum(tag));
  }

  /** A write changes no bit outside its field: not in its own word, not in another. */
  lemma WriteFrame(regs: seq<Word>, tag: nat, x: nat)
    requires LabelOk(tag)
    ensures var regs' := WriteReg(regs, tag, x);
            |regs'| == |regs|
            && forall i, b :: 0 <= i < |regs| && 0 <= b < 32 && !(i == RegOffset(tag) && InField(tag, b))
                 ==> regs'[i][b] == regs[i][b]
  {
  }

  /** Fields apart from it read what they did. */
  lemma WriteElsewhere(regs: seq<Word>, tag: nat, x: nat, other: nat)
    requires LabelOk(tag) && LabelOk(other) && Apart(tag, other)
    ensures ReadReg(WriteReg(regs, tag, x), other) == ReadReg(regs, other)
  {
    if RegOffset(tag) == RegOffset(other) < |regs| {
      var w := regs[RegOffset(tag)];
      assert Low(Shr(WithField(w, tag, x), RegShift(other)), RegBitNum(other))
             == Low(Shr(w, RegShift(other)), RegBitNum(other));
    }
  }

  // Runs of register accesses

  datatype Access = Wr(tag: nat, x: nat) | Rd(tag: nat)

  function After(regs: seq<Word>, run: seq<Access>): seq<Word>
    decreases |run|
  {
    if run == [] then regs
    else After(if run[0].Wr? then WriteReg(regs, run[0].tag, run[0].x) else regs, run[1..])
  }

  /** The values the reads of a run return, in order. */
  function Answers(regs: seq<Word>, run: seq<Access>): seq<nat>
    decreases |run|
  {
    if run == [] then []
    else if run[0].Wr? then Answers(WriteReg(regs, run[0].tag, run[0].x), run[1..])
    else [ReadReg(regs, run[0].tag)] + Answers(regs, run[1..])
  }

  /** The same run against a map from field to value. */
  function MapAfter(m: map<nat, nat>, run: seq<Access>): map<nat, nat>
    decreases |run|
  {
    if run == [] then m
    else MapAfter(if run[0].Wr? then m[run[0].tag := run[0].x % Pow2(RegBitNum(run[0].tag))] else m, run[1..])
  }

  function MapAnswers(m: map<nat, nat>, run: seq<Access>): seq<nat>
    requires forall a :: a in run ==> a.tag in m
    decreases |run|
  {
    if run == [] then []
    else if run[0].Wr? then MapAnswers(m[run[0].tag := run[0].x % Pow2(RegBitNum(run[0].tag))], run[1..])
    else [m[run[0].tag]] + MapAnswers(m, run[1..])
  }

  predicate Disjoint(tags: set<nat>) { forall a, b :: a in tags && b in tags && a != b ==> Apart(a, b) }

  /** The registers hold what the map says. */
  predicate Holds(regs: seq<Word>, m: map<nat, nat>) { forall t :: t in m ==> ReadReg(regs, t) == m[t] }

  lemma WriteHolds(regs: seq<Word>, m: map<nat, nat>, tag: nat, x: nat)
    requires Disjoint(m.Keys) && tag in m && Holds(regs, m) && (forall t :: t in m ==> InRange(regs, t))
    ensures var regs' := WriteReg(regs, tag, x);
            Holds(regs', m[tag := x % Pow2(RegBitNum(tag))]) && (forall t :: t in m ==> InRange(regs', t))
  {
    hide ReadReg, Apart;
    ReadAfterWrite(regs, tag, x);
    forall t | t in m && t != tag
      ensures ReadReg(WriteReg(regs, tag, x), t) == m[t]
    {
      WriteElsewhere(regs, tag, x, t);
    }
  }

  /** Any run over fields that share no bit answers like a map from field to value modulo 2^width. */
  lemma {:induction false} RunIsMap(regs: seq<Word>, m: map<nat, nat>, run: seq<Access>)
    requires Disjoint(m.Keys) && Holds(regs, m) && (forall t :: t in m ==> InRange(regs, t))
    requires forall a :: a in run ==> a.tag in m
    ensures Answers(regs, run) == MapAnswers(m, run)
    ensures Holds(After(regs, run), MapAfter(m, run)) && MapAfter(m, run).Keys == m.Keys
    decreases |run|
  {
    if run != [] {
      hide ReadReg, WriteReg, Apart;
      assert run[0] in run;
      if run[0].Wr? {
        var m' := m[run[0].tag := run[0].x % Pow2(RegBitNum(run[0].tag))];
        WriteHolds(regs, m, run[0].tag, run[0].x);
        assert m'.Keys == m.Keys;
        RunIsMap(WriteReg(regs, run[0].tag, run[0].x), m', run[1..]);
      } else {
        RunIsMap(regs, m, run[1..]);
      }
    }
  }

  /** Bits that lie in none of a run's fields survive the run. */
  lemma {:induction false} RunFrame(regs: seq<Word>, run: seq<Access>, i: nat, b: nat)
    requires i < |regs| && b < 32 && (forall a :: a in run ==> LabelOk(a.tag) && !(RegOffset(a.tag) == i && InField(a.tag, b)))
    ensures |After(regs, run)| == |regs| && After(regs, run)[i][b] == regs[i][b]
    decreases |run|
  {
    if run != [] {
      hide WriteReg;
      assert run[0] in run;
      WriteFrame(regs, run[0].tag, if run[0].Wr? then run[0].x else 0);
      RunFrame(if run[0].Wr? then WriteReg(regs, run[0].tag, run[0].x) else regs, run[1..], i, b);
    }
  }

  // The registers of an acquisition (application/csr.h)

  const CSR_C_TO_IO_CMD := 0x00000010
  const CSR_TRANS_EN := 0x02000D01
  const CSR_REC_EN := 0x02000C01
  const CSR_SYNC_MODE := 0x02000B01
  const CSR_FLT_SEL := 0x02000802
  const CSR_FLL_SCALE_SET := 0x02000206
  const CSR_INPUT_SEL := 0x02000002
  const CSR_CODE_LENGTH := 0x03000020
  const CSR_CODE_CLK_CYCLES := 0x05000020
  const CSR_T_START := 0x06001F01
  const CSR_T_DELTA := 0x0600100F
  const CSR_T_ACQ := 0x06000010
  const CSR_PROG_FULL := 0x0A000001

  const FIELDS: set<nat> := {
    CSR_C_TO_IO_CMD, CSR_TRANS_EN, CSR_REC_EN, CSR_SYNC_MODE, CSR_FLT_SEL, CSR_FLL_SCALE_SET, CSR_INPUT_SEL,
    CSR_CODE_LENGTH, CSR_CODE_CLK_CYCLES, CSR_T_START, CSR_T_DELTA, CSR_T_ACQ }

  /** The labels of the header are well formed and no two of them share a bit. */
  lemma FieldsDisjoint()
    ensures Disjoint(FIELDS) && forall t :: t in FIELDS ==> LabelOk(t) && RegOffset(t) < AXI_CSR_PHY_SIZE
  {
    Geometry();
    hide RegOffset, RegShift, RegBitNum;
  }

  predicate At(tag: nat, offset: nat, shift: nat, width: nat) {
    RegOffset(tag) == offset && RegShift(tag) == shift && RegBitNum(tag) == width
  }

  /** Register, lowest bit and width of each field. */
  lemma Geometry()
    ensures At(CSR_C_TO_IO_CMD, 0, 0, 16) && At(CSR_CODE_LENGTH, 3, 0, 32) && At(CSR_CODE_CLK_CYCLES, 5, 0, 32)
    ensures At(CSR_TRANS_EN, 2, 13, 1) && At(CSR_REC_EN, 2, 12, 1) && At(CSR_SYNC_MODE, 2, 11, 1)
    ensures At(CSR_FLT_SEL, 2, 8, 2) && At(CSR_FLL_SCALE_SET, 2, 2, 6) && At(CSR_INPUT_SEL, 2, 0, 2)
    ensures At(CSR_T_START, 6, 31, 1) && At(CSR_T_DELTA, 6, 16, 15) && At(CSR_T_ACQ, 6, 0, 16)
    ensures At(CSR_PROG_FULL, 10, 0, 1)
  {
  }

  /** The values Configuration writes, after the table lookups. */
  datatype Settings = Settings(input: nat, trans: nat, sync: nat, scale: nat, filter: nat, rate: nat,
                               codeLength: nat, codeClocks: nat, tAcq: nat, tDelta: nat)

  /** Configuration's register writes, in the order the code makes them. The command register holds the rate
      only while SetSampleRate waits; the rate codes are below 0x100, so that 0xFF00 + rate is 0xFF00 | rate. */
  function ConfigWrites(c: Settings): seq<Access> {
    [ Wr(CSR_INPUT_SEL, c.input), Wr(CSR_TRANS_EN, c.trans), Wr(CSR_SYNC_MODE, c.sync),
      Wr(CSR_FLL_SCALE_SET, c.scale), Wr(CSR_FLT_SEL, c.filter),
      Wr(CSR_C_TO_IO_CMD, 0xFF00 + c.rate), Wr(CSR_C_TO_IO_CMD, 0),
      Wr(CSR_CODE_LENGTH, c.codeLength), Wr(CSR_CODE_CLK_CYCLES, c.codeClocks),
      Wr(CSR_T_ACQ, c.tAcq), Wr(CSR_T_DELTA, c.tDelta), Wr(CSR_T_START, 1) ]
  }

  /** AcqStop's register writes. */
  function StopWrites(): seq<Access> {
    [ Wr(CSR_REC_EN, 0), Wr(CSR_T_ACQ, 0), Wr(CSR_T_DELTA, 0), Wr(CSR_T_START, 0) ]
  }

  predicate Elsewhere(a: Access, tag: nat) { a.Wr? ==> LabelOk(a.tag) && Apart(a.tag, tag) }

  lemma {:induction false} UntouchedReads(regs: seq<Word>, run: seq<Access>, tag: nat)
    requires LabelOk(tag) && (forall j :: 0 <= j < |run| ==> Elsewhere(run[j], tag))
    ensures ReadReg(After(regs, run), tag) == ReadReg(regs, tag) && |After(regs, run)| == |regs|
    decreases |run|
  {
    if run != [] {
      hide ReadReg, LabelOk, Apart;
      assert Elsewhere(run[0], tag);
      if run[0].Wr? {
        WriteElsewhere(regs, run[0].tag, run[0].x, tag);
        UntouchedReads(WriteReg(regs, run[0].tag, run[0].x), run[1..], tag);
      } else {
        UntouchedReads(regs, run[1..], tag);
      }
    }
  }

  /** A field reads back the last value a run wrote to it. */
  lemma {:induction false} LastWriteReads(regs: seq<Word>, run: seq<Access>, i: nat)
    requires i < |run| && run[i].Wr? && InRange(regs, run[i].tag)
    requires forall j :: i < j < |run| ==> Elsewhere(run[j], run[i].tag)
    ensures ReadReg(After(regs, run), run[i].tag) == run[i].x % Pow2(RegBitNum(run[i].tag))
    decreases i
  {
    hide ReadReg, Elsewhere, LabelOk;
    var regs' := if run[0].Wr? then WriteReg(regs, run[0].tag, run[0].x) else regs;
    if i == 0 {
      ReadAfterWrite(regs, run[0].tag, run[0].x);
      UntouchedReads(regs', run[1..], run[0].tag);
    } else {
      LastWriteReads(regs', run[1..], i - 1);
    }
  }

  lemma ElsewhereIn(t: nat, u: nat, x: nat)
    requires t in FIELDS && u in FIELDS && t != u
    ensures Elsewhere(Wr(t, x), u)
  {
    FieldsDisjoint();
    hide RegOffset, RegShift, RegBitNum;
  }

  /** The last write to each field of a run over the header's fields is the one that counts. */
  lemma FieldReads(regs: seq<Word>, run: seq<Access>, i: nat)
    requires |regs| == AXI_CSR_PHY_SIZE && i < |run|
    requires forall a :: a in run ==> a.Wr? && a.tag in FIELDS
    requires forall j :: i < j < |run| ==> run[j].tag != run[i].tag
    ensures ReadReg(After(regs, run), run[i].tag) == run[i].x % Pow2(RegBitNum(run[i].tag))
  {
    FieldsDisjoint();
    hide ReadReg, After, RegOffset, RegShift, RegBitNum, Elsewhere, LabelOk, Disjoint;
    assert run[i] in run;
    FieldInRange(regs, run[i].tag);
    forall j | i < j < |run|
      ensures Elsewhere(run[j], run[i].tag)
    {
      assert run[j] in run;
      ElsewhereIn(run[j].tag, run[i].tag, run[j].x);
    }
    LastWriteReads(regs, run, i);
  }

  lemma FieldInRange(regs: seq<Word>, t: nat)
    requires |regs| == AXI_CSR_PHY_SIZE && t in FIELDS
    ensures InRange(regs, t)
  {
    FieldsDisjoint();
    hide RegOffset, RegShift, RegBitNum;
  }

  /** From any register contents, Configuration leaves every field it sets at the value it was given, modulo the
      field's width: in register 6 the period, the offset and the start bit stand together. */
  lemma ConfigReadsBack(regs: seq<Word>, c: Settings)
    requires |regs| == AXI_CSR_PHY_SIZE
    ensures var regs' := After(regs, ConfigWrites(c));
            && ReadReg(regs', CSR_T_ACQ) == c.tAcq % Pow2(16)
            && ReadReg(regs', CSR_T_DELTA) == c.tDelta % Pow2(15)
            && ReadReg(regs', CSR_T_START) == 1
            && ReadReg(regs', CSR_INPUT_SEL) == c.input % Pow2(2)
            && ReadReg(regs', CSR_TRANS_EN) == c.trans % Pow2(1)
            && ReadReg(regs', CSR_SYNC_MODE) == c.sync % Pow2(1)
            && ReadReg(regs', CSR_FLL_SCALE_SET) == c.scale % Pow2(6)
            && ReadReg(regs', CSR_FLT_SEL) == c.filter % Pow2(2)
            && ReadReg(regs', CSR_C_TO_IO_CMD) == 0
            && ReadReg(regs', CSR_CODE_LENGTH) == c.codeLength % Pow2(32)
            && ReadReg(regs', CSR_CODE_CLK_CYCLES) == c.codeClocks % Pow2(32)
            && ReadReg(regs', CSR_REC_EN) == ReadReg(regs, CSR_REC_EN)
  {
    hide ReadReg, After, RegOffset, RegShift, RegBitNum, Elsewhere, LabelOk;
    Geometry();
    PowOne();
    ConfigKeepsReceive(regs, c);
    ConfigField(regs, c, 0);
    ConfigField(regs, c, 1);
    ConfigField(regs, c, 2);
    ConfigField(regs, c, 3);
    ConfigField(regs, c, 4);
    ConfigField(regs, c, 6);
    ConfigField(regs, c, 7);
    ConfigField(regs, c, 8);
    ConfigField(regs, c, 9);
    ConfigField(regs, c, 10);
    ConfigField(regs, c, 11);
  }

  /** Every write of Configuration but the first to the command register is the last to its field. */
  lemma ConfigField(regs: seq<Word>, c: Settings, i: nat)
    requires |regs| == AXI_CSR_PHY_SIZE && i < 12 && i != 5
    ensures var w := ConfigWrites(c)[i];
            ReadReg(After(regs, ConfigWrites(c)), w.tag) == w.x % Pow2(RegBitNum(w.tag))
  {
    hide ReadReg, After, RegOffset, RegShift, RegBitNum;
    FieldReads(regs, ConfigWrites(c), i);
  }

  lemma ConfigKeepsReceive(regs: seq<Word>, c: Settings)
    requires |regs| == AXI_CSR_PHY_SIZE
    ensures ReadReg(After(regs, ConfigWrites(c)), CSR_REC_EN) == ReadReg(regs, CSR_REC_EN)
  {
    hide ReadReg, After, RegOffset, RegShift, RegBitNum, Elsewhere, LabelOk;
    var run := ConfigWrites(c);
    FieldInRange(regs, CSR_REC_EN);
    forall j | 0 <= j < |run|
      ensures Elsewhere(run[j], CSR_REC_EN)
    {
      ElsewhereIn(run[j].tag, CSR_REC_EN, run[j].x);
    }
    UntouchedReads(regs, run, CSR_REC_EN);
  }

  lemma PowOne()
    ensures Pow2(1) == 2
  {
  }

  /** AcqStop clears register 6 whole, and changes register 2 in its receive-enable bit only. */
  lemma StopClears(regs: seq<Word>)
    requires |regs| == AXI_CSR_PHY_SIZE
    ensures var regs' := After(regs, StopWrites());
            && regs'[6] == Zero
            && regs'[2] == regs[2][12 := false]
            && (forall i :: 0 <= i < |regs| && i != 6 && i != 2 ==> regs'[i] == regs[i])
  {
    Geometry();
    hide RegOffset, RegShift, RegBitNum;
    ZeroBits();
    var r1 := WriteReg(regs, CSR_REC_EN, 0);
    var r2 := WriteReg(r1, CSR_T_ACQ, 0);
    var r3 := WriteReg(r2, CSR_T_DELTA, 0);
    var r4 := WriteReg(r3, CSR_T_START, 0);
    StopRun(regs);
    assert r4[6] == Zero;
    assert r1[2] == regs[2][12 := false];
  }

  lemma StopRun(regs: seq<Word>)
    ensures After(regs, StopWrites()) ==
            WriteReg(WriteReg(WriteReg(WriteReg(regs, CSR_REC_EN, 0), CSR_T_ACQ, 0), CSR_T_DELTA, 0), CSR_T_START, 0)
  {
    hide WriteReg;
    var run := StopWrites();
    assert run[1..][1..] == run[2..] && run[2..][1..] == run[3..] && run[3..][1..] == [];
    var r1 := WriteReg(regs, CSR_REC_EN, 0);
    var r2 := WriteReg(r1, CSR_T_ACQ, 0);
    assert After(regs, run) == After(r1, run[1..]) == After(r2, run[2..]);
    var r3 := WriteReg(r2, CSR_T_DELTA, 0);
    assert After(r2, run[2..]) == After(r3, run[3..]) == WriteReg(r3, CSR_T_START, 0);
  }

  lemma ZeroBits()
    ensures FromNat(0) == Zero
  {
    BitsZero(32);
  }

  lemma {:induction false} BitsZero(n: nat)
    ensures forall i :: 0 <= i < n ==> !Bits(0, n)[i]
    decreases n
  {
    if n > 0 {
      BitsZero(n - 1);
    }
  }

  lemma {:induction false} AfterNext(regs: seq<Word>, run: seq<Access>, i: nat)
    requires i < |run| && run[i].Wr?
    ensures After(regs, run[..i + 1]) == WriteReg(After(regs, run[..i]), run[i].tag, run[i].x)
    decreases i
  {
    hide WriteReg;
    if i == 0 {
      assert run[..1][1..] == [];
    } else {
      var regs' := if run[0].Wr? then WriteReg(regs, run[0].tag, run[0].x) else regs;
      AfterNext(regs', run[1..], i - 1);
      assert run[..i + 1][1..] == run[1..][..i] && run[..i][1..] == run[1..][..i - 1];
    }
  }

  /** The registers as a run of writes leaves them, write by write. */
  function Contents(regs: seq<Word>, run: seq<Access>, n: nat): seq<seq<Word>>
    requires n <= |run|
  {
    seq(n, i requires 0 <= i < n => After(regs, run[..i + 1]))
  }

  lemma NoContents(regs: seq<Word>, run: seq<Access>, was: seq<seq<Word>>)
    ensures was + Contents(regs, run, 0) == was
  {
  }

  /** One write of a sequence of register writes. */
  method Next(dev: WordDevice, ghost regs: seq<Word>, ghost run: seq<Access>, ghost i: nat, tag: nat, x: nat,
              ghost before: seq<seq<Word>>)
    requires i < |run| && run[i] == Wr(tag, x) && tag in FIELDS && dev.words[..] == After(regs, run[..i])
    requires dev.words.Length == AXI_CSR_PHY_SIZE ==> dev.history == before + Contents(regs, run, i)
    modifies dev`pos, dev`history, dev.words
    ensures dev.words[..] == After(regs, run[..i + 1])
    ensures dev.words.Length == AXI_CSR_PHY_SIZE ==> dev.history == before + Contents(regs, run, i + 1)
  {
    FieldsDisjoint();
    AfterNext(regs, run, i);
    hide After, WriteReg, FIELDS;
    var _ := RegWrite(dev, tag, x);
    assert Contents(regs, run, i + 1) == Contents(regs, run, i) + [After(regs, run[..i + 1])];
  }

  /** The register writes of Configuration and SetSampleRate: what the registers hold after each of them. */
  method Configure(dev: WordDevice, c: Settings)
    modifies dev`pos, dev`history, dev.words
    ensures dev.words[..] == After(old(dev.words[..]), ConfigWrites(c))
    ensures dev.words.Length == 14 ==>
              dev.history == old(dev.history) + Contents(old(dev.words[..]), ConfigWrites(c), 12)
  {
    hide After, FIELDS, Contents;
    ghost var regs, run, was := dev.words[..], ConfigWrites(c), dev.history;
    Started(regs, run);
    ConfigTags(c);
    NoContents(regs, run, was);
    Next(dev, regs, run, 0, CSR_INPUT_SEL, c.input, was);
    Next(dev, regs, run, 1, CSR_TRANS_EN, c.trans, was);
    Next(dev, regs, run, 2, CSR_SYNC_MODE, c.sync, was);
    Next(dev, regs, run, 3, CSR_FLL_SCALE_SET, c.scale, was);
    Next(dev, regs, run, 4, CSR_FLT_SEL, c.filter, was);
    Next(dev, regs, run, 5, CSR_C_TO_IO_CMD, 0xFF00 + c.rate, was);
    Next(dev, regs, run, 6, CSR_C_TO_IO_CMD, 0, was);
    Next(dev, regs, run, 7, CSR_CODE_LENGTH, c.codeLength, was);
    Next(dev, regs, run, 8, CSR_CODE_CLK_CYCLES, c.codeClocks, was);
    Next(dev, regs, run, 9, CSR_T_ACQ, c.tAcq, was);
    Next(dev, regs, run, 10, CSR_T_DELTA, c.tDelta, was);
    Next(dev, regs, run, 11, CSR_T_START, 1, was);
    assert run[..12] == run;
  }

  lemma Started(regs: seq<Word>, run: seq<Access>)
    ensures After(regs, run[..0]) == regs
  {
  }

  lemma ConfigTags(c: Settings)
    ensures forall i :: 0 <= i < 12 ==> ConfigWrites(c)[i].tag in FIELDS
  {
  }

  /** The register writes of AcqStop. */
  method Stop(dev: WordDevice)
    modifies dev`pos, dev`history, dev.words
    ensures dev.words[..] == After(old(dev.words[..]), StopWrites())
    ensures dev.words.Length == 14 ==>
              dev.history == old(dev.history) + Contents(old(dev.words[..]), StopWrites(), 4)
  {
    hide After, FIELDS, Contents;
    ghost var regs, run, was := dev.words[..], StopWrites(), dev.history;
    Started(regs, run);
    StopTags();
    NoContents(regs, run, was);
    Next(dev, regs, run, 0, CSR_REC_EN, 0, was);
    Next(dev, regs, run, 1, CSR_T_ACQ, 0, was);
    Next(dev, regs, run, 2, CSR_T_DELTA, 0, was);
    Next(dev, regs, run, 3, CSR_T_START, 0, was);
    assert run[..4] == run;
  }

  lemma StopTags()
    ensures forall i :: 0 <= i < 4 ==> StopWrites()[i].tag in FIELDS
  {
  }

  // The order of the writes

  /** The command register while SetSampleRate waits, and the start bit until it is set. */
  lemma ConfigInOrder(regs: seq<Word>, c: Settings)
    requires |regs| == AXI_CSR_PHY_SIZE && c.rate < 0x100
    ensures var run := ConfigWrites(c);
            && ReadReg(After(regs, run[..6]), CSR_C_TO_IO_CMD) == 0xFF00 + c.rate
            && ReadReg(After(regs, run[..7]), CSR_C_TO_IO_CMD) == 0
            && ReadReg(After(regs, run[..11]), CSR_T_START) == ReadReg(regs, CSR_T_START)
            && ReadReg(After(regs, run[..11]), CSR_T_ACQ) == c.tAcq % 0x1_0000
            && ReadReg(After(regs, run[..11]), CSR_T_DELTA) == c.tDelta % 0x8000
            && ReadReg(After(regs, run), CSR_T_START) == 1
  {
    hide ReadReg, After, RegOffset, RegShift, RegBitNum, Pow2;
    CommandReads(regs, c);
    StartUntouched(regs, c);
    TimingStands(regs, c);
    ConfigReadsBack(regs, c);
  }

  /** A field written in a run and not again reads its value. */
  lemma PrefixReads(regs: seq<Word>, run: seq<Access>, i: nat, tag: nat, x: nat)
    requires |regs| == AXI_CSR_PHY_SIZE && i < |run| && run[i] == Wr(tag, x)
    requires forall a :: a in run ==> a.Wr? && a.tag in FIELDS
    requires forall j :: i < j < |run| ==> run[j].tag != tag
    ensures ReadReg(After(regs, run), tag) == x % Pow2(RegBitNum(tag))
  {
    hide ReadReg, After, RegOffset, RegShift, RegBitNum, Pow2;
    FieldReads(regs, run, i);
  }

  lemma CommandReads(regs: seq<Word>, c: Settings)
    requires |regs| == AXI_CSR_PHY_SIZE && c.rate < 0x100
    ensures ReadReg(After(regs, ConfigWrites(c)[..6]), CSR_C_TO_IO_CMD) == 0xFF00 + c.rate
    ensures ReadReg(After(regs, ConfigWrites(c)[..7]), CSR_C_TO_IO_CMD) == 0
  {
    hide ReadReg, After, RegOffset, RegShift, RegBitNum, Pow2, FIELDS;
    Geometry();
    ConfigTags(c);
    FieldPowers();
    var run := ConfigWrites(c);
    PrefixReads(regs, run[..6], 5, CSR_C_TO_IO_CMD, 0xFF00 + c.rate);
    PrefixReads(regs, run[..7], 6, CSR_C_TO_IO_CMD, 0);
  }

  lemma FieldPowers()
    ensures Pow2(15) == 0x8000 && Pow2(16) == 0x1_0000
  {
    assert Pow2(5) == 32;
    assert Pow2(10) == 32 * Pow2(5);
    assert Pow2(15) == 32 * Pow2(10);
  }

  lemma TimingStands(regs: seq<Word>, c: Settings)
    requires |regs| == AXI_CSR_PHY_SIZE
    ensures ReadReg(After(regs, ConfigWrites(c)[..11]), CSR_T_ACQ) == c.tAcq % 0x1_0000
    ensures ReadReg(After(regs, ConfigWrites(c)[..11]), CSR_T_DELTA) == c.tDelta % 0x8000
  {
    hide ReadReg, After, RegOffset, RegShift, RegBitNum, Pow2, FIELDS;
    Geometry();
    ConfigTags(c);
    FieldPowers();
    var run := ConfigWrites(c)[..11];
    PrefixReads(regs, run, 9, CSR_T_ACQ, c.tAcq);
    PrefixReads(regs, run, 10, CSR_T_DELTA, c.tDelta);
  }

  lemma StartUntouched(regs: seq<Word>, c: Settings)
    requires |regs| == AXI_CSR_PHY_SIZE
    ensures ReadReg(After(regs, ConfigWrites(c)[..11]), CSR_T_START) == ReadReg(regs, CSR_T_START)
  {
    hide ReadReg, After, RegOffset, RegShift, RegBitNum, Elsewhere, LabelOk;
    var run := ConfigWrites(c)[..11];
    FieldInRange(regs, CSR_T_START);
    forall j | 0 <= j < |run|
      ensures Elsewhere(run[j], CSR_T_START)
    {
      ElsewhereIn(run[j].tag, CSR_T_START, run[j].x);
    }
    UntouchedReads(regs, run, CSR_T_START);
  }

  // Labels

  /** REG_OFFSET, REG_SHIFT and REG_BITNUM take a label apart as it was put together. */
  lemma LabelParts(offset: nat, shift: nat, width: nat)
    requires offset < 0x100 && shift < 0x100 && width < 0x100
    ensures var tag := offset * 0x1000000 + shift * 0x100 + width;
            RegOffset(tag) == offset && RegShift(tag) == shift && RegBitNum(tag) == width
  {
    var tag := offset * 0x1000000 + shift * 0x100 + width;
    assert tag / 0x1000000 == offset && tag / 0x100 == offset * 0x10000 + shift;
  }
}
