/** The code sequence on its way into the code RAM: application/lfsr.c's packing and application/app.c's loading,
    over the word device of driver/bram/bram.c. */
module CodeRam {
  import opened Basics
  import opened Word32
  import opened Csr

  const RAM_SIZE: nat := 80

  /** uint32_t arithmetic wraps. */
  method Power(n: nat) returns (r: nat)
    ensures r == Pow2(n) % 0x1_0000_0000
    ensures n < 32 ==> r == Pow2(n)
  {
    r := 1;
    var i := 0;
    while i < n
      invariant 0 <= i <= n && r == Pow2(i) % U32
    {
      DoubleMod(Pow2(i), U32);
      r := r * 2 % U32;
      i := i + 1;
    }
    if n < 32 {
      Pow2Below(n, 31);
      Pow2Of31();
    }
  }

  lemma DoubleMod(x: nat, m: nat)
    requires m >= 1
    ensures (x % m) * 2 % m == (2 * x) % m
  {
    var a, b := x / m, x % m;
    var c, d := (b * 2) / m, (b * 2) % m;
    assert 2 * x == m * (2 * a + c) + d;
    ModUnique(2 * x, m, 2 * a + c, d);
  }

  lemma {:induction false} Pow2Below(n: nat, m: nat)
    requires n <= m
    ensures Pow2(n) <= Pow2(m)
    decreases m
  {
    if n < m {
      Pow2Below(n, m - 1);
    }
  }

  lemma Pow2Of31()
    ensures Pow2(31) == 0x8000_0000
  {
    assert Pow2(8) == 256;
    assert Pow2(16) == 256 * Pow2(8);
    assert Pow2(24) == 256 * Pow2(16);
    assert Pow2(31) == 128 * Pow2(24);
  }

  /** The bits a word gets: the last of the 32 buffer bytes reaches the word with its lowest bit only. */
  ghost predicate Packs(w: Word, bits: seq<nat>)
    requires |bits| == 32
  {
    (forall b :: 0 <= b < 31 ==> w[b] == (bits[b] == 1)) && w[31] == (bits[31] % 2 == 1)
  }

  lemma BitWords(x: nat)
    ensures FromNat(x)[0] == (x % 2 == 1)
    ensures x <= 1 ==> forall b :: 1 <= b < 32 ==> !FromNat(x)[b]
  {
    BitsZero(31);
  }

  /** A buffer of bits, of which the last byte may be anything: the code's length is one short of a power of two,
      so the loop that fills the buffer leaves that byte as it was. */
  predicate BitBuffer(bits: seq<nat>) { |bits| == 32 && forall b :: 0 <= b < 31 ==> bits[b] <= 1 }

  method BitToHex(bits: seq<nat>) returns (hex: Word)
    requires BitBuffer(bits)
    ensures Packs(hex, bits)
  {
    hex := Zero;
    ghost var last := FromNat(bits[31]);
    var i := 31;
    while i >= 0
      invariant -1 <= i <= 31
      invariant i == 31 ==> hex == Zero
      invariant i < 31 ==> forall b :: 0 <= b < 32 ==>
                  hex[b] == if i + 1 + b < 31 then bits[i + 1 + b] == 1 else last[i + 1 + b - 31]
    {
      BitWords(bits[i]);
      hex := Or(Shl(hex, 1), FromNat(bits[i]));
      i := i - 1;
    }
    BitWords(bits[31]);
  }

  lemma WordsOf(n: nat)
    requires n <= 11
    ensures Pow2(n) <= 2048 && Pow2(n) / 32 <= 64 && Pow2(n) < U32
    ensures 5 <= n ==> 32 * (Pow2(n) / 32) == Pow2(n)
    ensures n < 5 ==> Pow2(n) / 32 == 0
  {
    Pow2Below(n, 11);
    assert Pow2(4) == 16 && Pow2(8) == 16 * Pow2(4) && Pow2(11) == 8 * Pow2(8);
    if 5 <= n {
      Pow2Split(n);
    } else {
      Pow2Below(n, 4);
    }
  }

  lemma {:induction false} Pow2Split(n: nat)
    requires 5 <= n
    ensures Pow2(n) == 32 * Pow2(n - 5)
    decreases n
  {
    if n == 5 {
      assert Pow2(4) == 16;
    } else {
      Pow2Split(n - 1);
    }
  }

  /** A code of 2^n - 1 bits in the 2048-byte buffer; the bytes behind it are whatever the stack held. */
  ghost predicate Code(bitBuff: seq<nat>, n: nat) {
    n <= 11 && |bitBuff| == 2048 && forall p :: 0 <= p < Pow2(n) - 1 && p < 2048 ==> bitBuff[p] <= 1
  }

  /** The packing loop of GetLfsrUint: 32 bits to a word, least significant first. */
  method PackCode(bitBuff: seq<nat>, buff: array<Word>, n: nat)
    requires Code(bitBuff, n) && buff.Length == 64
    modifies buff
    ensures Pow2(n) / 32 <= 64
    ensures forall j :: 0 <= j < Pow2(n) / 32 ==> Packs(buff[j], bitBuff[32 * j..32 * j + 32])
    ensures forall j :: Pow2(n) / 32 <= j < 64 ==> buff[j] == old(buff[j])
  {
    WordsOf(n);
    var power := Power(n);
    var uiNum := power - 1;
    var j := 0;
    while j < (uiNum + 1) / 32
      invariant 0 <= j <= Pow2(n) / 32
      invariant forall i :: 0 <= i < j ==> Packs(buff[i], bitBuff[32 * i..32 * i + 32])
      invariant forall i :: j <= i < 64 ==> buff[i] == old(buff[i])
    {
      var bits := bitBuff[32 * j..32 * j + 32];
      assert forall b :: 0 <= b < 31 ==> bits[b] == bitBuff[32 * j + b];
      buff[j] := BitToHex(bits);
      j := j + 1;
    }
  }

  /** The RAM holds the code: bit p of the code is bit p % 32 of word p / 32. */
  ghost predicate HoldsCode(ram: seq<Word>, bitBuff: seq<nat>, n: nat)
    requires |bitBuff| == 2048 && |ram| == RAM_SIZE
  {
    forall p :: 0 <= p < 2048 && p < 32 * (Pow2(n) / 32) && p < Pow2(n) - 1 ==> ram[p / 32][p % 32] == (bitBuff[p] == 1)
  }

  lemma PackedHolds(ram: seq<Word>, buff: seq<Word>, bitBuff: seq<nat>, n: nat)
    requires Code(bitBuff, n) && |ram| == RAM_SIZE && |buff| == 64 && Pow2(n) / 32 <= 64
    requires forall j :: 0 <= j < Pow2(n) / 32 ==> ram[j] == buff[j] && Packs(buff[j], bitBuff[32 * j..32 * j + 32])
    ensures HoldsCode(ram, bitBuff, n)
  {
    hide Packs, Pow2;
    forall p | 0 <= p < 2048 && p < 32 * (Pow2(n) / 32) && p < Pow2(n) - 1
      ensures ram[p / 32][p % 32] == (bitBuff[p] == 1)
    {
      var j, b := p / 32, p % 32;
      assert p == 32 * j + b && ram[j] == buff[j];
      PackedBit(buff[j], bitBuff, j, b);
    }
  }

  lemma PackedBit(w: Word, bitBuff: seq<nat>, j: nat, b: nat)
    requires b < 32 && 32 * j + 32 <= |bitBuff| && bitBuff[32 * j + b] <= 1
    requires Packs(w, bitBuff[32 * j..32 * j + 32])
    ensures w[b] == (bitBuff[32 * j + b] == 1)
  {
    assert bitBuff[32 * j..32 * j + 32][b] == bitBuff[32 * j + b];
  }

  /** Packs the code and copies it into the code RAM, word by word. */
  method SetDataToRam(ram: WordDevice, buff: array<Word>, bitBuff: seq<nat>, n: nat)
    requires Code(bitBuff, n) && buff.Length == 64 && ram.words.Length == RAM_SIZE && ram.words != buff
    modifies ram`pos, ram`history, ram.words, buff
    ensures HoldsCode(ram.words[..], bitBuff, n)
    ensures Pow2(n) / 32 <= 64 && forall i :: Pow2(n) / 32 <= i < 80 ==> ram.words[i] == old(ram.words[i])
    ensures 5 <= n ==> forall p :: 0 <= p < 2048 && p < Pow2(n) - 1 ==> ram.words[p / 32][p % 32] == (bitBuff[p] == 1)
  {
    WordsOf(n);
    PackCode(bitBuff, buff, n);
    ghost var packed := buff[..];
    var total := Power(n);
    var i := 0;
    while i < total / 32
      invariant 0 <= i <= Pow2(n) / 32
      invariant buff[..] == packed
      invariant forall j :: 0 <= j < i ==> ram.words[j] == packed[j]
      invariant forall j :: i <= j < RAM_SIZE ==> ram.words[j] == old(ram.words[j])
    {
      var _ := ram.Lseek(i, 0);
      ghost var before := ram.words[..];
      var _ := ram.Write(buff[i]);
      assert forall j :: 0 <= j < RAM_SIZE ==> ram.words[j] == before[i := packed[i]][j];
      i := i + 1;
    }
    PackedHolds(ram.words[..], packed, bitBuff, n);
  }
}
