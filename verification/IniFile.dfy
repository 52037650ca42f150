/** The imperative reader and writer of application/inifile.c. */
module IniFile {
  import opened Basics
  import opened IniScan
  import opened IniBody
  import opened IniEdit

  /** A buffer holding the text `t`, zero-filled behind it. */
  ghost predicate Loaded(buf: array<char>, t: string)
    reads buf
  {
    |t| + 2 <= buf.Length && (forall x :: 0 <= x < buf.Length ==> buf[x] == At(t, x))
  }

  /** The scanner's three character loops: step on while the character does not stop the loop. */
  method Advance(buf: array<char>, ghost t: string, start: nat, stop: char -> bool) returns (i: nat)
    requires Loaded(buf, t) && start <= |t| + 1 && stop(NUL)
    ensures start <= i <= |t| + 1
    ensures i == if start <= |t| then Until(t, start, stop) else start
  {
    i := start;
    while !stop(buf[i])
      invariant start <= i <= |t| || start == i
      invariant start <= |t| ==> Until(t, start, stop) == Until(t, i, stop)
      decreases |t| - i
    {
      i := i + 1;
    }
  }

  /** `strncmp(p + section_start, section, i - section_start) == 0`. */
  method NameMatches(buf: array<char>, ghost t: string, section: string, sectionStart: nat, i: nat) returns (b: bool)
    requires Loaded(buf, t) && CString(section)
    requires sectionStart <= |t| && i == Until(t, sectionStart, EndsName)
    ensures b <==> t[sectionStart..i] <= section
  {
    assert buf[..][sectionStart..i] == t[sectionStart..i];
    assert section[0..] == section;
    StrNCmpIsPrefix(buf[..], sectionStart, section, 0, i - sectionStart);
    b := StrNCmpEq(buf[..], sectionStart, section, 0, i - sectionStart);
  }

  /** The search for the key of one line: the position of its '=', when the line defines `key`. */
  method FindKey(buf: array<char>, ghost t: string, key: string, newlineStart: nat, i: nat)
    returns (found: bool, j: nat)
    requires Loaded(buf, t) && CString(key)
    requires newlineStart <= |t| && i == Until(t, newlineStart, EndsLine)
    ensures found <==> At(t, newlineStart) != ';' && newlineStart < Until(t, newlineStart, EndsKey) < i
                       && t[newlineStart..Until(t, newlineStart, EndsKey)] <= key
    ensures found ==> j == Until(t, newlineStart, EndsKey)
  {
    ghost var q := Until(t, newlineStart, EndsKey);
    found, j := false, newlineStart;
    if buf[j] != ';' {
      while j < i && buf[j] != '='
        invariant newlineStart <= j <= q <= i
        invariant Until(t, j, EndsKey) == q
        invariant newlineStart < j == q < i ==> !(t[newlineStart..j] <= key)
        decreases i - j
      {
        j := j + 1;
        if buf[j] == '=' {
          assert buf[..][newlineStart..j] == t[newlineStart..j];
          StrNCmpIsPrefix(buf[..], newlineStart, key, 0, j - newlineStart);
          assert key[0..] == key;
          if StrNCmpEq(key, 0, buf[..], newlineStart, j - newlineStart) {
            return true, j;
          }
        }
      }
    }
  }

  /** The lines of one matching section, up to a hit, the next header or the end of the text. */
  method ScanSection(buf: array<char>, ghost t: string, ghost section: string, key: string, start: nat,
                     ghost secS: nat, ghost secE: nat)
    returns (found: bool, i: nat, newlineStart: nat, j: nat)
    requires Loaded(buf, t) && CString(key) && 0 < start <= |t| + 1
    ensures i <= |t| + 1
    ensures found ==> 0 < j && Body(t, section, key, start, secS, secE) == Hit(secS, secE, newlineStart, j - 1, j + 1, i)
    ensures !found ==> start <= i
                       && Body(t, section, key, start, secS, secE) == Scan(t, section, key, i, NoKey(secS, secE))
  {
    i, found, newlineStart, j := start, false, 0, 0;
    while !(NewLine(buf[i - 1]) && buf[i] == '[') && buf[i] != NUL
      invariant start <= i <= |t| + 1
      invariant Body(t, section, key, start, secS, secE) == Body(t, section, key, i, secS, secE)
      decreases |t| + 1 - i
    {
      newlineStart := i;
      i := Advance(buf, t, i, EndsLine);
      found, j := FindKey(buf, t, key, newlineStart, i);
      if found {
        return;
      }
      i := i + 1;
    }
  }

  /** The result and the six out-parameters of parse_file. */
  datatype Offsets = Offsets(r: int, secS: int, secE: int, keyS: int, keyE: int, valS: int, valE: int)

  function OutParams(p: Place): Offsets {
    match p
    case NoSection => Offsets(0, -1, -1, -1, -1, -1, -1)
    case NoKey(secS, secE) => Offsets(0, secS, secE, -1, -1, -1, -1)
    case Hit(secS, secE, keyS, keyE, valS, valE) => Offsets(1, secS, secE, keyS, keyE, valS, valE)
  }

  /** The order of the out-parameters, and the characters between them. */
  predicate OffsetsOk(t: string, o: Offsets) {
    if o.r == 1 then
      && 0 < o.secS <= o.secE <= o.keyS <= o.keyE < o.valS == o.keyE + 2 <= o.valE <= |t| && t[o.valS - 1] == '='
      && forall x :: o.keyS <= x < o.valE ==> t[x] != '\n' && t[x] != '\r' && t[x] != '\0'
    else
      && o.r == 0 && o.keyS == o.keyE == o.valS == o.valE == -1
      && (o.secS == o.secE == -1 || 0 < o.secS <= o.secE <= |t| + 1)
  }

  lemma OutParamsOk(t: string, section: string, key: string)
    ensures OffsetsOk(t, OutParams(ParseText(t, section, key)))
  {
    hide ParseText;
    ParseTextOk(t, section, key);
  }

  method ParseFile(buf: array<char>, ghost t: string, section: string, key: string)
    returns (r: int, secS: int, secE: int, keyS: int, keyE: int, valS: int, valE: int)
    requires Loaded(buf, t) && CString(section) && CString(key)
    ensures Offsets(r, secS, secE, keyS, keyE, valS, valE) == OutParams(ParseText(t, section, key))
    ensures OffsetsOk(t, Offsets(r, secS, secE, keyS, keyE, valS, valE))
  {
    hide OffsetsOk;
    OutParamsOk(t, section, key);
    secS, secE, keyS, keyE, valS, valE := -1, -1, -1, -1, -1, -1;
    var i: nat := 0;
    ghost var acc := NoSection;
    while buf[i] != NUL
      invariant i <= |t| + 1
      invariant keyS == keyE == valS == valE == -1
      invariant !acc.Hit? && Offsets(0, secS, secE, -1, -1, -1, -1) == OutParams(acc)
      invariant ParseText(t, section, key) == Scan(t, section, key, i, acc)
      decreases |t| + 1 - i
    {
      if (i == 0 || NewLine(buf[i - 1])) && buf[i] == '[' {
        var sectionStart := i + 1;
        i := Advance(buf, t, sectionStart, EndsName);
        var sameName := NameMatches(buf, t, section, sectionStart, i);
        if sameName {
          i := Advance(buf, t, i + 1, EndsSpace);
          secS, secE, acc := sectionStart, i, NoKey(sectionStart, i);
          assert ParseText(t, section, key) == Body(t, section, key, i, sectionStart, i);
          var found, stop, newlineStart, j := ScanSection(buf, t, section, key, i, sectionStart, i);
          i := stop;
          if found {
            keyS, keyE, valS, valE := newlineStart, j - 1, j + 1, i;
            r := 1;
            return;
          }
        }
      } else {
        i := i + 1;
      }
    }
    r := 0;
  }

  /** What fputs writes of a buffer: the characters in front of the first NUL. */
  function UpToNul(w: string): string { w[..Until(w, 0, IsNul)] }

  predicate IsNul(c: char) { c == NUL }

  ghost predicate ZeroFrom(w: array<char>, i: nat)
    reads w
  {
    i <= w.Length && forall x :: i <= x < w.Length ==> w[x] == NUL
  }

  /** memcpy, and sprintf of a plain string: `x` goes behind what the buffer holds. */
  method Append(w: array<char>, at: nat, x: string)
    requires at + |x| < w.Length && ZeroFrom(w, at)
    modifies w
    ensures w[..at + |x|] == old(w[..at]) + x && ZeroFrom(w, at + |x|)
  {
    var i := 0;
    while i < |x|
      invariant 0 <= i <= |x|
      invariant w[..at + i] == old(w[..at]) + x[..i] && ZeroFrom(w, at + i)
    {
      w[at + i] := x[i];
      i := i + 1;
    }
    assert x[..|x|] == x;
  }

  /** Bytes of the work buffer that a write fills, with the NUL behind them. */
  function Need(t: string, s: string, k: string, v: string): nat {
    ParseTextOk(t, s, k);
    match ParseText(t, s, k)
    case NoKey(_, e) => (if e <= |t| then |t| else e) + |Line(k, v)| + 1
    case _ => |WriteText(t, s, k, v)| + 1
  }

  /** sprintf takes the text behind an inserted line for its format: it comes out as it is without a '%'. */
  predicate PlainTail(t: string, s: string, k: string) {
    var p := ParseText(t, s, k);
    p.NoKey? && p.secE <= |t| ==> '%' !in t[p.secE..]
  }

  lemma UpToNulOf(w: string, x: string)
    requires x <= w && (|x| < |w| ==> w[|x|] == NUL)
    ensures UpToNul(w) == UpToNul(x)
    ensures CString(x) ==> UpToNul(w) == x
  {
    var j := Until(x, 0, IsNul);
    assert forall i :: 0 <= i < |x| ==> w[i] == x[i];
    assert Until(w, 0, IsNul) == j;
    assert w[..j] == x[..j];
  }

  lemma UpToNulWhole(x: string)
    ensures CString(x) ==> UpToNul(x) == x
  {
    assert x[..|x|] == x;
  }

  lemma Holds(w: seq<char>, x: string)
    requires |x| < |w| && w[..|x|] == x && w[|x|] == NUL
    ensures UpToNul(w) == UpToNul(x)
  {
    UpToNulOf(w, x);
  }

  method AppendSection(w: array<char>, buf: array<char>, size: nat, ghost t: string, s: string, k: string, v: string)
    requires w != buf && Loaded(buf, t) && size == |t| && ZeroFrom(w, 0)
    requires |WriteAt(t, NoSection, s, k, v)| < w.Length
    modifies w
    ensures UpToNul(w[..]) == UpToNul(WriteAt(t, NoSection, s, k, v))
  {
    ghost var out := WriteAt(t, NoSection, s, k, v);
    var added := "[" + s + "]\n" + (k + "=" + v + "\n");
    if size == 0 {
      Append(w, 0, added);
    } else {
      assert buf[..size] == t;
      Append(w, 0, buf[..size]);
      Append(w, size, "\n" + added);
      assert t + ("\n" + added) == out;
    }
    Holds(w[..], out);
  }

  method InsertKey(w: array<char>, buf: array<char>, size: nat, ghost t: string, secE: nat, k: string, v: string)
    requires w != buf && Loaded(buf, t) && size == |t| && ZeroFrom(w, 0) && 0 < secE <= |t| + 1
    requires (if secE <= |t| then |t| else secE) + |Line(k, v)| < w.Length
    modifies w
    ensures UpToNul(w[..]) == UpToNul(if secE <= |t| then t[..secE] + Line(k, v) + t[secE..] else t)
  {
    Append(w, 0, buf[..secE]);
    ghost var head := w[..secE];
    Append(w, secE, k + "=" + v + "\n");
    if secE <= size {
      assert head == t[..secE] && buf[secE..size] == t[secE..];
      Append(w, secE + |k| + |v| + 2, buf[secE..size]);
      Holds(w[..], t[..secE] + Line(k, v) + t[secE..]);
    } else {
      assert head[..|t|] == t && w[..][|t|] == head[|t|] == NUL && w[..|t|] == t;
      Holds(w[..], t);
    }
  }

  method ReplaceValue(w: array<char>, buf: array<char>, size: nat, ghost t: string, valS: nat, valE: nat, v: string)
    requires w != buf && Loaded(buf, t) && size == |t| && ZeroFrom(w, 0) && valS <= valE <= |t|
    requires valS + |v| + |t| - valE < w.Length
    modifies w
    ensures UpToNul(w[..]) == UpToNul(t[..valS] + v + t[valE..])
  {
    assert buf[..valS] == t[..valS] && buf[valE..size] == t[valE..];
    Append(w, 0, buf[..valS]);
    Append(w, valS, v);
    Append(w, valS + |v|, buf[valE..size]);
    Holds(w[..], t[..valS] + v + t[valE..]);
  }

  lemma SliceOf(buf: array<char>, t: string, i: nat, j: nat, n: nat)
    requires Loaded(buf, t) && i <= j <= |t| && n <= j - i
    ensures buf[i..i + n] == t[i..j][..n]
  {
    assert forall x :: 0 <= x < n ==> buf[i..i + n][x] == buf[i + x] == t[i + x] == t[i..j][..n][x];
  }

  /** One INI file on disk, absent until it is first written. */
  class IniStore {
    var file: Option<string>

    constructor ()
      ensures file == None
    {
      file := None;
    }

    function Content(): string
      reads this
    {
      if file.Some? then file.value else ""
    }

    /** load_ini_file: the file's characters, then zeros. */
    method Load() returns (buf: array<char>, size: nat)
      requires |Content()| + 2 <= MAX_FILE_SIZE
      ensures fresh(buf) && buf.Length == MAX_FILE_SIZE && Loaded(buf, Content()) && size == |Content()|
    {
      var t := Content();
      buf := new char[MAX_FILE_SIZE](i => NUL);
      var i := 0;
      while i < |t|
        invariant 0 <= i <= |t|
        invariant forall x :: 0 <= x < buf.Length ==> buf[x] == if x < i then t[x] else NUL
      {
        buf[i] := t[i];
        i := i + 1;
      }
      size := |t|;
    }

    method ReadProfileString(section: string, key: string, value: array<char>, default: Option<string>) returns (r: int)
      requires section != "" && key != "" && CString(section) && CString(key)
      requires value.Length > 0 && |Content()| + 2 <= MAX_FILE_SIZE
      requires default.Some? ==> '\0' !in default.value
      modifies value
      ensures r == if ReadText(Content(), section, key).Some? then 1 else 0
      ensures r == 1 ==>
                var v := ReadText(Content(), section, key).value;
                forall i :: 0 <= i < value.Length ==>
                  value[i] == if i < |v| && i < value.Length - 1 then v[i] else '\0'
      ensures r == 1 ==>
                var v := ReadText(Content(), section, key).value;
                var n := if |v| < value.Length then |v| else value.Length - 1;
                value[..n] == v[..n] && '\0' !in value[..n] && value[n] == '\0'
      ensures r == 0 && default.Some? ==>
                forall i :: 0 <= i < value.Length ==> value[i] == if i < |default.value| then default.value[i] else '\0'
      ensures r == 0 && default.None? ==> value[..] == old(value[..])
    {
      ghost var t := Content();
      ParseTextOk(t, section, key);
      var buf, size := Load();
      var secS, secE, keyS, keyE, valS, valE;
      r, secS, secE, keyS, keyE, valS, valE := ParseFile(buf, t, section, key);
      if r == 0 {
        if default.Some? {
          CopyPadded(value, default.value);
        }
      } else {
        var n := valE - valS;
        if value.Length - 1 < n {
          n := value.Length - 1;
        }
        SliceOf(buf, t, valS, valE, n);
        ReadPlain(t, section, key);
        CopyPadded(value, buf[valS..valS + n]);
      }
    }

    /** write_profile_string; `writable` says whether the file can be opened for writing. */
    method WriteProfileString(section: string, key: string, value: string, writable: bool) returns (r: int)
      requires section != "" && key != "" && CString(section) && CString(key) && CString(value)
      requires |Content()| + 2 <= MAX_FILE_SIZE && Need(Content(), section, key, value) <= MAX_FILE_SIZE
      requires PlainTail(Content(), section, key)
      modifies this
      ensures !writable ==> r == 0 && file == old(file)
      ensures writable ==> r == 1 && file == Some(UpToNul(WriteText(old(Content()), section, key, value)))
      ensures writable && CString(old(Content())) && CString(WriteText(old(Content()), section, key, value))
              ==> file == Some(WriteText(old(Content()), section, key, value))
    {
      ghost var t := Content();
      ParseTextOk(t, section, key);
      var buf, size := Load();
      var w := new char[MAX_FILE_SIZE](i => NUL);
      var _, secS, secE, keyS, keyE, valS, valE := ParseFile(buf, t, section, key);
      if secS == -1 {
        AppendSection(w, buf, size, t, section, key, value);
      } else if keyS == -1 {
        InsertKey(w, buf, size, t, secE, key, value);
      } else {
        ReplaceValue(w, buf, size, t, valS, valE, value);
      }
      UpToNulWhole(WriteText(t, section, key, value));
      if !writable {
        return 0;
      }
      file := Some(UpToNul(w[..]));
      r := 1;
    }
  }

  /** memset to zero, then copy what fits. */
  method CopyPadded(value: array<char>, x: string)
    modifies value
    ensures forall i :: 0 <= i < value.Length ==> value[i] == if i < |x| then x[i] else '\0'
  {
    var i := 0;
    while i < value.Length
      invariant 0 <= i <= value.Length
      invariant forall j :: 0 <= j < i ==> value[j] == if j < |x| then x[j] else '\0'
    {
      value[i] := if i < |x| then x[i] else NUL;
      i := i + 1;
    }
  }
}
