/** What the INI store promises: reading after writing, overwriting, leaving the rest alone, and all of it over
    whole runs of writes. */
module IniLaws {
  import opened Basics
  import opened IniScan
  import opened IniTree
  import opened IniLookup
  import opened IniBody
  import opened IniEdit
  import opened IniValid

  /** Text arguments of a write: C strings, the key and the value each fit one line. */
  predicate ArgsOk(s: string, k: string, v: string) { SectionNameOk(s) && KeyOk(k) && ValueOk(v) }

  /** The scanner reads the edited text back as the edited tree. */
  lemma WrittenTree(t: string, s: string, k: string, v: string)
    requires CString(t) && ArgsOk(s, k, v)
    ensures var x := WriteTree(Tree(t), s, k, v); Valid(x) && Text(x) == WriteText(t, s, k, v) && CString(Text(x))
    ensures Valid(Tree(t)) && Text(Tree(t)) == t && Clean(Tree(t).rest)
  {
    TreeOk(t);
    hide Tree, ParseText, Line;
    var x := Tree(t);
    CStringParts(x.pre, TextOf(x.rest));
    CleanText(x.rest);
    WriteValid(x, s, k, v);
    WriteIsTree(x, s, k, v);
    WriteClean(t, s, k, v);
  }

  lemma ReadIsTree(t: string, s: string, k: string)
    requires CString(t)
    ensures ReadText(t, s, k) == Get(Tree(t).rest, s, k)
  {
    TreeOk(t);
    hide Tree, ParseText;
    ReadIsGet(Tree(t), s, k);
  }

  lemma ReadWritten(t: string, s: string, k: string, v: string, s': string, k': string)
    requires CString(t) && ArgsOk(s, k, v)
    ensures ReadText(WriteText(t, s, k, v), s', k') == Get(WriteTree(Tree(t), s, k, v).rest, s', k')
  {
    hide Tree, ParseText, WriteTree, ReadText, WriteText, ArgsOk;
    WrittenTree(t, s, k, v);
    ReadIsGet(WriteTree(Tree(t), s, k, v), s', k');
  }

  // Reading after writing

  lemma {:induction false} PutGets(r: Rest, s: string, k: string, v: string)
    requires HasSec(r, s) && Clean(r) && KeyOk(k) && ValueOk(v)
    ensures Get(r, s, k).Some? || !DanglingIs(r, s) ==> Get(Put(r, s, k, v), s, k) == Some(v)
    ensures Get(r, s, k).None? && DanglingIs(r, s) ==> Put(r, s, k, v) == r
    decreases r
  {
    hide Find, ReplaceAt, Line, Chop, Defines, TextOf, KeyOk, ValueOk;
    match r
    case Dangling(_) =>
    case Sect(n, g, b, r') =>
      FindOk(b, k, 0);
      if n <= s && Find(b, k, 0).Slot? {
        ReplacedValue(b, k, v, k);
      } else if HasSec(r', s) {
        PutGets(r', s, k, v);
      } else {
        InsertedValue(k, v, b, k);
        InsertedValue(k, v, "", k);
        assert Line(k, v) + "" == Line(k, v);
        LocateMisses(r', s, k, 0, NoSection);
        NoDangling(r', s);
      }
  }

  lemma {:induction false} NoDangling(r: Rest, s: string)
    requires !HasSec(r, s)
    ensures !DanglingIs(r, s)
    decreases r
  {
    match r
    case Eof =>
    case Dangling(_) =>
    case Sect(_, _, _, r') => NoDangling(r', s);
  }

  /** A new section at the end is found where no section answered before, unless a header lacking its ']' is in
      front of it: that header's name then runs on into the new one and matches nothing. */
  lemma {:induction false} AppendedGets(r: Rest, s: string, k: string, v: string, s': string, k': string)
    requires !r.Eof? && Clean(r) && KeyOk(k) && ValueOk(v) && !EndsDangling(r)
    ensures Get(Appended(r, s, Line(k, v)), s', k') ==
            if Get(r, s', k').Some? then Get(r, s', k') else if s <= s' && k <= k' then Some(v) else None
    decreases r
  {
    hide Find, Lookup, Line, KeyOk, ValueOk;
    match r
    case Sect(n, g, b, r') =>
      if !r'.Eof? {
        AppendedGets(r', s, k, v, s', k');
      } else {
        NewlineAdded(b, k');
        ValueEnds("", k');
        InsertedValue(k, v, "", k');
        assert Line(k, v) + "" == Line(k, v);
        ValueOfEmpty(k');
      }
  }

  lemma ValueOfEmpty(k: string)
    ensures Value("", k) == None
  {
  }

  lemma {:induction false} AppendedMisses(r: Rest, s: string, k: string, v: string)
    requires !HasSec(r, s) && EndsDangling(r)
    ensures !HasSec(Appended(r, s, Line(k, v)), s) && !EndsDangling(Appended(r, s, Line(k, v)))
    decreases r
  {
    hide Line;
    match r
    case Dangling(n) => assert (n + "\n[" + s)[..|n|] == n;
    case Sect(n, g, b, r') => AppendedMisses(r', s, k, v);
  }

  /** Does a write of (s, k) to this text get lost? Only a header without ']' at its end can lose one: when it is
      taken for the section itself, or when no header is and the new one has to go behind it. */
  predicate Loses(t: string, s: string, k: string) {
    var r := Tree(t).rest;
    EndsDangling(r) && ReadText(t, s, k).None? && (DanglingIs(r, s) || !HasSec(r, s))
  }

  /** Reading after writing: the value comes back exactly when the write is not lost, and nothing does otherwise. */
  lemma ReadAfterWrite(t: string, s: string, k: string, v: string)
    requires CString(t) && ArgsOk(s, k, v)
    ensures ReadText(WriteText(t, s, k, v), s, k) == Some(v) <==> !Loses(t, s, k)
    ensures Loses(t, s, k) ==> ReadText(WriteText(t, s, k, v), s, k) == None
  {
    WrittenTree(t, s, k, v);
    hide Tree, ParseText, ReadText, WriteText, Line, KeyOk, ValueOk;
    ReadWritten(t, s, k, v, s, k);
    ReadIsTree(t, s, k);
    var r := Tree(t).rest;
    if HasSec(r, s) {
      PutGets(r, s, k, v);
      if DanglingIs(r, s) {
        DanglingEnds(r, s);
      }
    } else {
      LocateMisses(r, s, k, 0, NoSection);
      if r.Eof? {
        InsertedValue(k, v, "", k);
        assert Line(k, v) + "" == Line(k, v);
      } else if EndsDangling(r) {
        AppendedMisses(r, s, k, v);
        LocateMisses(Appended(r, s, Line(k, v)), s, k, 0, NoSection);
      } else {
        AppendedGets(r, s, k, v, s, k);
      }
    }
  }

  lemma {:induction false} DanglingEnds(r: Rest, s: string)
    requires DanglingIs(r, s)
    ensures EndsDangling(r) && HasSec(r, s)
    decreases r
  {
    match r
    case Dangling(_) =>
    case Sect(_, _, _, r') => DanglingEnds(r', s);
  }

  // Overwriting

  lemma ReplaceTwice(b: string, q: nat, e: nat, v: string, v': string)
    requires q < e <= |b|
    ensures ReplaceAt(ReplaceAt(b, q, e, v), q, q + 1 + |v|, v') == ReplaceAt(b, q, e, v')
  {
    var b' := ReplaceAt(b, q, e, v);
    assert b'[..q + 1] == b[..q + 1] && b'[q + 1 + |v|..] == b[e..];
  }

  lemma InsertThenReplace(k: string, v: string, v': string, b: string)
    requires KeyOk(k) && ValueOk(v) && CString(b)
    ensures Find(Line(k, v) + b, k, 0) == Slot(0, |k|, |k| + 1 + |v|)
    ensures |k| + 1 + |v| <= |Line(k, v) + b|
            && ReplaceAt(Line(k, v) + b, |k|, |k| + 1 + |v|, v') == Line(k, v') + b
  {
    var t := Line(k, v) + b;
    LineShape(k, v, b);
    hide Until, Find;
    FindLine(t, k, 0);
    assert t[0] == k[0] && t[0..|k|] == k;
    assert t[..|k| + 1] == k + "=" && t[|k| + 1 + |v|..] == "\n" + b;
    assert k + "=" + v' + ("\n" + b) == Line(k, v') + b;
  }

  lemma {:induction false} HasSecPut(r: Rest, s: string, k: string, v: string)
    requires HasSec(r, s)
    ensures HasSec(Put(r, s, k, v), s)
    decreases r
  {
    hide Find, ReplaceAt, Line, Chop, Defines, TextOf;
    match r
    case Dangling(_) =>
    case Sect(n, g, b, r') =>
      if HasSec(r', s) {
        HasSecPut(r', s, k, v);
      }
  }

  lemma {:induction false} PutPut(r: Rest, s: string, k: string, v: string, v': string)
    requires HasSec(r, s) && Clean(r) && KeyOk(k) && ValueOk(v)
    ensures Put(Put(r, s, k, v), s, k, v') == Put(r, s, k, v')
    decreases r
  {
    hide Find, ReplaceAt, Line, Chop, Defines, TextOf, KeyOk, ValueOk;
    match r
    case Dangling(_) =>
    case Sect(n, g, b, r') =>
      FindOk(b, k, 0);
      var x := Find(b, k, 0);
      if n <= s && x.Slot? {
        ReplacedValue(b, k, v, k);
        ReplaceTwice(b, x.eq, x.end, v, v');
      } else if HasSec(r', s) {
        PutPut(r', s, k, v, v');
        HasSecPut(r', s, k, v);
      } else {
        InsertThenReplace(k, v, v', b);
        InsertThenReplace(k, v, v', "");
        assert Line(k, v) + "" == Line(k, v) && Line(k, v') + "" == Line(k, v');
      }
  }

  lemma {:induction false} AppendedPut(r: Rest, s: string, k: string, v: string, v': string)
    requires !r.Eof? && !HasSec(r, s) && !EndsDangling(r) && KeyOk(k) && ValueOk(v)
    ensures HasSec(Appended(r, s, Line(k, v)), s)
    ensures Put(Appended(r, s, Line(k, v)), s, k, v') == Appended(r, s, Line(k, v'))
    decreases r
  {
    hide Find, ReplaceAt, Line, Chop, Defines, TextOf, KeyOk, ValueOk;
    match r
    case Sect(n, g, b, r') =>
      if !r'.Eof? {
        AppendedPut(r', s, k, v, v');
      } else {
        InsertThenReplace(k, v, v', "");
        assert Line(k, v) + "" == Line(k, v) && Line(k, v') + "" == Line(k, v');
      }
  }

  /** The last write wins, to the letter: the text is the one the second write alone would leave. It is so unless
      the section has to be appended behind a header that lacks its ']'. */
  lemma LastWriteWins(t: string, s: string, k: string, v: string, v': string)
    requires CString(t) && ArgsOk(s, k, v) && ArgsOk(s, k, v')
    ensures WriteText(WriteText(t, s, k, v), s, k, v') == WriteText(t, s, k, v')
            <==> HasSec(Tree(t).rest, s) || !EndsDangling(Tree(t).rest)
  {
    var x := Tree(t);
    var x' := WriteTree(x, s, k, v);
    WrittenTree(t, s, k, v);
    WrittenTree(t, s, k, v');
    hide Tree, ParseText, WriteText, Line, KeyOk, ValueOk, Find, ReplaceAt;
    WriteIsTree(x', s, k, v');
    var r := x.rest;
    if HasSec(r, s) {
      PutPut(r, s, k, v, v');
      HasSecPut(r, s, k, v);
    } else if r.Eof? {
      InsertThenReplace(k, v, v', "");
      assert Line(k, v) + "" == Line(k, v) && Line(k, v') + "" == Line(k, v');
      FindOk(Line(k, v), k, 0);
    } else if EndsDangling(r) {
      AppendedMisses(r, s, k, v);
      AppendedText(x.pre, r, s, Line(k, v));
      AppendedText(x.pre, r, s, Line(k, v'));
      AppendedText(x.pre, x'.rest, s, Line(k, v'));
      assert |Text(WriteTree(x', s, k, v'))| > |Text(WriteTree(x, s, k, v'))|;
    } else {
      AppendedPut(r, s, k, v, v');
    }
  }

  /** Writing the same twice is writing it once, under the very same condition: also when the write is lost to the
      section's own header, and changes nothing. */
  lemma WriteIdempotent(t: string, s: string, k: string, v: string)
    requires CString(t) && ArgsOk(s, k, v)
    ensures WriteText(WriteText(t, s, k, v), s, k, v) == WriteText(t, s, k, v)
            <==> HasSec(Tree(t).rest, s) || !EndsDangling(Tree(t).rest)
    ensures !Loses(t, s, k) ==> WriteText(WriteText(t, s, k, v), s, k, v) == WriteText(t, s, k, v)
  {
    hide Tree, ParseText, WriteText, ReadText;
    LastWriteWins(t, s, k, v, v);
    ReadIsTree(t, s, k);
    if !HasSec(Tree(t).rest, s) {
      LocateMisses(Tree(t).rest, s, k, 0, NoSection);
    }
  }

  // Leaving the rest alone

  /** The header name and the key of the line a write of (s, k) touches. A new section behind a header that lacks its
      ']' has a name that begins with that header's. */
  function Touched(r: Rest, s: string, k: string): (string, string) {
    match r
    case Eof => (s, k)
    case Dangling(n) => (if n <= s then s else n + "\n[" + s, k)
    case Sect(n, _, b, r') =>
      if n <= s && Lookup(b, k).Some? then (n, Lookup(b, k).value.key)
      else if n <= s && !HasSec(r', s) then (n, k)
      else Touched(r', s, k)
  }

  /** The line a write of (s, k) inserts does not turn a '[' behind it into a header. */
  predicate TidyFor(r: Rest, s: string, k: string) {
    match r
    case Eof => true
    case Dangling(_) => true
    case Sect(n, _, b, r') =>
      if n <= s && Lookup(b, k).Some? then true
      else if HasSec(r', s) then TidyFor(r', s, k)
      else n <= s && b != "" ==> b[0] != '['
  }

  lemma {:induction false} PutFrame(r: Rest, s: string, k: string, v: string, s': string, k': string)
    requires HasSec(r, s) && Clean(r) && KeyOk(k) && ValueOk(v) && TidyFor(r, s, k)
    ensures var (n, q) := Touched(r, s, k);
            || Get(Put(r, s, k, v), s', k') == Get(r, s', k')
            || (n <= s' && q <= k' && Get(Put(r, s, k, v), s', k') == Some(v))
    decreases r
  {
    hide Find, ReplaceAt, Line, Chop, Defines, TextOf, KeyOk, ValueOk;
    match r
    case Dangling(_) =>
    case Sect(n, g, b, r') =>
      FindOk(b, k, 0);
      if n <= s && Find(b, k, 0).Slot? {
        ReplacedValue(b, k, v, k');
      } else if HasSec(r', s) {
        PutFrame(r', s, k, v, s', k');
      } else {
        InsertedValue(k, v, b, k');
      }
  }

  lemma {:induction false} AppendedFrame(r: Rest, s: string, k: string, v: string, s': string, k': string)
    requires !r.Eof? && !HasSec(r, s) && EndsDangling(r) && KeyOk(k) && ValueOk(v)
    ensures var (n, q) := Touched(r, s, k);
            Get(Appended(r, s, Line(k, v)), s', k') ==
            if Get(r, s', k').Some? then Get(r, s', k') else if n <= s' && q <= k' then Some(v) else None
    decreases r
  {
    hide Find, Lookup, Line, KeyOk, ValueOk;
    match r
    case Dangling(n) =>
      InsertedValue(k, v, "", k');
      ValueOfEmpty(k');
      assert Line(k, v) + "" == Line(k, v);
    case Sect(n, g, b, r') => AppendedFrame(r', s, k, v, s', k');
  }

  lemma {:induction false} TouchedNew(r: Rest, s: string, k: string)
    requires !HasSec(r, s) && !EndsDangling(r)
    ensures Touched(r, s, k) == (s, k)
    decreases r
  {
    match r
    case Eof =>
    case Sect(_, _, _, r') => TouchedNew(r', s, k);
  }

  /** A lookup reads what it did, or the value written; the second only if the touched line answers it, because its
      header is a prefix of the section asked for and its key of the key. */
  predicate Framed(t: string, s: string, k: string, v: string, s': string, k': string) {
    var (n, q) := Touched(Tree(t).rest, s, k);
    || ReadText(WriteText(t, s, k, v), s', k') == ReadText(t, s', k')
    || (n <= s' && q <= k' && ReadText(WriteText(t, s, k, v), s', k') == Some(v))
  }

  /** A write leaves every other lookup alone, unless the line it inserts makes a header of a '[' behind it. */
  lemma WriteFrame(t: string, s: string, k: string, v: string, s': string, k': string)
    requires CString(t) && ArgsOk(s, k, v)
    requires HasSec(Tree(t).rest, s) ==> TidyFor(Tree(t).rest, s, k)
    ensures Framed(t, s, k, v, s', k')
  {
    WrittenTree(t, s, k, v);
    hide Tree, ParseText, ReadText, WriteText, Line, KeyOk, ValueOk;
    ReadWritten(t, s, k, v, s', k');
    ReadIsTree(t, s', k');
    var r := Tree(t).rest;
    if HasSec(r, s) {
      PutFrame(r, s, k, v, s', k');
    } else if r.Eof? {
      InsertedValue(k, v, "", k');
      ValueOfEmpty(k');
      assert Line(k, v) + "" == Line(k, v);
    } else if EndsDangling(r) {
      AppendedFrame(r, s, k, v, s', k');
    } else {
      TouchedNew(r, s, k);
      AppendedGets(r, s, k, v, s', k');
    }
  }

  // Whole runs of writes

  /** Every header is closed, and no line begins with a '[' that is no header. */
  predicate Good(r: Rest) {
    match r
    case Eof => true
    case Dangling(_) => false
    case Sect(_, _, b, r') => (b != "" ==> b[0] != '[') && Good(r')
  }

  /** No section name in use is a proper prefix of another, nor any key of another in its section. */
  predicate PrefixFree(d: set<(string, string)>) {
    && (forall p, q :: p in d && q in d && p.0 <= q.0 ==> p.0 == q.0)
    && (forall p, q :: p in d && q in d && p.0 == q.0 && p.1 <= q.1 ==> p == q)
  }

  /** The headers and lines that the names in use match are those names. */
  predicate Exact(r: Rest, d: set<(string, string)>) {
    match r
    case Eof => true
    case Dangling(_) => true
    case Sect(n, _, b, r') => (forall p :: p in d ==> ExactIn(n, b, p)) && Exact(r', d)
  }

  predicate ExactIn(n: string, b: string, p: (string, string)) {
    n <= p.0 ==> n == p.0 && (Lookup(b, p.1).Some? ==> Lookup(b, p.1).value.key == p.1)
  }

  lemma {:induction false} TouchedExact(r: Rest, d: set<(string, string)>, p: (string, string))
    requires Exact(r, d) && p in d && !EndsDangling(r)
    ensures Touched(r, p.0, p.1) == p
    decreases r
  {
    hide Lookup;
    match r
    case Eof =>
    case Sect(n, g, b, r') =>
      assert ExactIn(n, b, p);
      TouchedExact(r', d, p);
  }

  lemma {:induction false} GoodIsTidy(r: Rest, s: string, k: string)
    requires Good(r)
    ensures TidyFor(r, s, k) && !EndsDangling(r)
    decreases r
  {
    hide Lookup;
    match r
    case Eof =>
    case Sect(n, g, b, r') => GoodIsTidy(r', s, k);
  }

  lemma {:induction false} PutKeeps(r: Rest, d: set<(string, string)>, s: string, k: string, v: string)
    requires HasSec(r, s) && Clean(r) && ArgsOk(s, k, v)
    requires Good(r) && Exact(r, d) && PrefixFree(d) && (s, k) in d
    ensures Good(Put(r, s, k, v)) && Exact(Put(r, s, k, v), d)
    decreases r
  {
    hide Find, ReplaceAt, Line, Chop, Defines, TextOf, Lookup, KeyOk, ValueOk;
    match r
    case Sect(n, g, b, r') =>
      assert ExactIn(n, b, (s, k));
      if n <= s && Find(b, k, 0).Slot? {
        ReplacedKeeps(n, b, d, s, k, v);
      } else if HasSec(r', s) {
        PutKeeps(r', d, s, k, v);
      } else {
        InsertedKeeps(n, b, d, s, k, v);
      }
  }

  lemma ReplacedKeeps(n: string, b: string, d: set<(string, string)>, s: string, k: string, v: string)
    requires CString(b) && ArgsOk(s, k, v) && n <= s && Find(b, k, 0).Slot? && (b != "" ==> b[0] != '[')
    requires PrefixFree(d) && (s, k) in d && (forall p :: p in d ==> ExactIn(n, b, p))
    ensures Find(b, k, 0).eq < Find(b, k, 0).end <= |b|
    ensures var b' := ReplaceAt(b, Find(b, k, 0).eq, Find(b, k, 0).end, v);
            (forall p :: p in d ==> ExactIn(n, b', p)) && b' != "" && b'[0] != '['
  {
    hide Find, Defines, Lookup, KeyOk, ValueOk;
    ReplacedValue(b, k, v, k);
    var x := Find(b, k, 0);
    var b' := ReplaceAt(b, x.eq, x.end, v);
    assert b'[0] == b[0];
    assert ExactIn(n, b, (s, k));
    forall p | p in d
      ensures ExactIn(n, b', p)
    {
      assert ExactIn(n, b, p);
      ReplacedValue(b, k, v, p.1);
    }
  }

  lemma InsertedKeeps(n: string, b: string, d: set<(string, string)>, s: string, k: string, v: string)
    requires CString(b) && ArgsOk(s, k, v) && n <= s && (b != "" ==> b[0] != '[')
    requires PrefixFree(d) && (s, k) in d && (forall p :: p in d ==> ExactIn(n, b, p))
    ensures var b' := Line(k, v) + b; (forall p :: p in d ==> ExactIn(n, b', p)) && b' != "" && b'[0] != '['
  {
    hide Lookup;
    var b' := Line(k, v) + b;
    assert b'[0] == k[0];
    assert ExactIn(n, b, (s, k));
    hide Line, KeyOk, ValueOk;
    forall p | p in d
      ensures ExactIn(n, b', p)
    {
      assert ExactIn(n, b, p);
      InsertedValue(k, v, b, p.1);
    }
  }

  lemma NewSectionKeeps(d: set<(string, string)>, s: string, k: string, v: string)
    requires ArgsOk(s, k, v) && PrefixFree(d) && (s, k) in d
    ensures forall p :: p in d ==> ExactIn(s, Line(k, v), p)
    ensures Line(k, v)[0] != '['
  {
    forall p | p in d
      ensures ExactIn(s, "", p)
    {
      ValueOfEmpty(p.1);
    }
    InsertedKeeps(s, "", d, s, k, v);
    assert Line(k, v) + "" == Line(k, v);
  }

  lemma {:induction false} AppendedKeeps(r: Rest, d: set<(string, string)>, s: string, k: string, v: string)
    requires !r.Eof? && Clean(r) && ArgsOk(s, k, v)
    requires Good(r) && Exact(r, d) && PrefixFree(d) && (s, k) in d
    ensures Good(Appended(r, s, Line(k, v))) && Exact(Appended(r, s, Line(k, v)), d)
    decreases r
  {
    hide Line, Lookup, KeyOk, ValueOk;
    match r
    case Sect(n, g, b, r') =>
      if !r'.Eof? {
        AppendedKeeps(r', d, s, k, v);
      } else {
        NewSectionKeeps(d, s, k, v);
        forall p | p in d
          ensures ExactIn(n, if b == "" then "" else b + "\n", p)
        {
          NewlineAdded(b, p.1);
          assert ExactIn(n, b, p);
        }
      }
  }

  /** One write of a name in use, among names in use. */
  lemma WriteKeeps(x: Ini, d: set<(string, string)>, s: string, k: string, v: string, s': string, k': string)
    requires Valid(x) && CString(Text(x)) && ArgsOk(s, k, v)
    requires Good(x.rest) && Exact(x.rest, d) && PrefixFree(d) && (s, k) in d && (s', k') in d
    ensures var x' := WriteTree(x, s, k, v);
            && Valid(x') && Text(x') == WriteText(Text(x), s, k, v) && CString(Text(x'))
            && Good(x'.rest) && Exact(x'.rest, d)
            && Get(x'.rest, s', k') == if s == s' && k == k' then Some(v) else Get(x.rest, s', k')
  {
    hide Lookup, WriteText, Line, KeyOk, ValueOk, TextOf;
    CStringParts(x.pre, TextOf(x.rest));
    CleanText(x.rest);
    WriteValid(x, s, k, v);
    WriteIsTree(x, s, k, v);
    WriteClean(Text(x), s, k, v);
    GoodIsTidy(x.rest, s, k);
    TouchedExact(x.rest, d, (s, k));
    var r := x.rest;
    if HasSec(r, s) {
      PutKeeps(r, d, s, k, v);
      PutGets(r, s, k, v);
      if DanglingIs(r, s) {
        DanglingEnds(r, s);
      }
      if (s, k) != (s', k') {
        PutFrame(r, s, k, v, s', k');
      }
    } else if r.Eof? {
      NewSectionKeeps(d, s, k, v);
      InsertedValue(k, v, "", k');
      ValueOfEmpty(k');
      assert Line(k, v) + "" == Line(k, v);
    } else {
      AppendedKeeps(r, d, s, k, v);
      AppendedGets(r, s, k, v, s', k');
      LocateMisses(r, s, k, 0, NoSection);
    }
  }

  datatype Write = Write(s: string, k: string, v: string)

  /** The file after a run of writes. */
  function Run(t: string, ws: seq<Write>): string
    decreases |ws|
  {
    if ws == [] then t else Run(WriteText(t, ws[0].s, ws[0].k, ws[0].v), ws[1..])
  }

  /** What a map from (section, key) to value answers after a run of updates. */
  function Last(ws: seq<Write>, s: string, k: string, before: Option<string>): Option<string>
    decreases |ws|
  {
    if ws == [] then before
    else Last(ws[1..], s, k, if ws[0].s == s && ws[0].k == k then Some(ws[0].v) else before)
  }

  lemma {:induction false} RunIsMap(x: Ini, ws: seq<Write>, d: set<(string, string)>, s: string, k: string)
    requires Valid(x) && CString(Text(x)) && Good(x.rest) && Exact(x.rest, d)
    requires PrefixFree(d) && (s, k) in d
    requires forall w :: w in ws ==> ArgsOk(w.s, w.k, w.v) && (w.s, w.k) in d
    ensures ReadText(Run(Text(x), ws), s, k) == Last(ws, s, k, Get(x.rest, s, k))
    decreases |ws|
  {
    hide Lookup, WriteText, KeyOk, ValueOk, TextOf, PrefixFree, Exact, Good, Valid, WriteTree, ReadText, Get;
    if ws == [] {
      ReadIsGet(x, s, k);
    } else {
      var w := ws[0];
      WriteKeeps(x, d, w.s, w.k, w.v, s, k);
      RunIsMap(WriteTree(x, w.s, w.k, w.v), ws[1..], d, s, k);
    }
  }

  /** The INI file is a map: any run of writes on a well-kept file, over names none of which is a prefix of another,
      reads back as the same run of updates of a map from (section, key) to value. */
  lemma WritesAreMapUpdates(t: string, ws: seq<Write>, d: set<(string, string)>, s: string, k: string)
    requires CString(t) && Good(Tree(t).rest) && Exact(Tree(t).rest, d)
    requires PrefixFree(d) && (s, k) in d
    requires forall w :: w in ws ==> ArgsOk(w.s, w.k, w.v) && (w.s, w.k) in d
    ensures ReadText(Run(t, ws), s, k) == Last(ws, s, k, ReadText(t, s, k))
  {
    hide Tree, Lookup, PrefixFree, Exact, Good, ReadText;
    TreeOk(t);
    ReadIsTree(t, s, k);
    RunIsMap(Tree(t), ws, d, s, k);
  }

  /** In particular a store grown from an empty or missing file. */
  lemma WritesFromNothing(ws: seq<Write>, d: set<(string, string)>, s: string, k: string)
    requires PrefixFree(d) && (s, k) in d
    requires forall w :: w in ws ==> ArgsOk(w.s, w.k, w.v) && (w.s, w.k) in d
    ensures ReadText(Run("", ws), s, k) == Last(ws, s, k, None)
  {
    hide PrefixFree, ArgsOk;
    var x := Ini("", Eof);
    assert Text(x) == "";
    RunIsMap(x, ws, d, s, k);
  }
}
