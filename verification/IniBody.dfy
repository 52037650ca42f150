/** What the edits of the writer do to the lines of one section. */
module IniBody {
  import opened Basics
  import opened IniScan
  import opened IniLookup

  /** A line `key=value`, as the file has it. */
  datatype Entry = Entry(key: string, value: string)

  /** The entry that the lines of `b` from `i` on have for `k`. */
  function EntryFrom(b: string, k: string, i: nat): Option<Entry>
    requires i <= |b|
  {
    FindOk(b, k, i);
    match Find(b, k, i)
    case Miss => None
    case Slot(l, q, e) => Some(Entry(b[l..q], b[q + 1..e]))
  }

  function Lookup(b: string, k: string): Option<Entry> { EntryFrom(b, k, 0) }

  function Value(b: string, k: string): Option<string> {
    if Lookup(b, k).Some? then Some(Lookup(b, k).value.value) else None
  }

  /** A key the writer can put on a line of its own: the reader will take it for one. */
  predicate KeyOk(k: string) {
    && CString(k) && k != ""
    && (forall i :: 0 <= i < |k| ==> !EndsKey(k[i]))
    && k[0] != ';' && k[0] != '[' && !Space(k[0])
  }

  predicate ValueOk(v: string) { forall i :: 0 <= i < |v| ==> !EndsLine(v[i]) }

  function Line(k: string, v: string): string { k + "=" + v + "\n" }

  /** Lines that read the same define the same keys. */
  lemma {:induction false} FindAligned(b: string, t: string, d: int, k: string, i: nat)
    requires Aligned(b, t, d, i, |b|) && d + |b| == |t|
    ensures match Find(b, k, i)
            case Miss => Find(t, k, d + i).Miss?
            case Slot(l, q, e) => i <= l && i <= q && i <= e && Find(t, k, d + i) == Slot(d + l, d + q, d + e)
    decreases |b| - i
  {
    hide Find, Until, Defines;
    if i == |b| {
      FindEnds(b, k);
      FindEnds(t, k);
    } else {
      var e := Until(b, i, EndsLine);
      LineAligned(b, t, d, k, i, |b|);
      FindLine(b, k, i);
      FindLine(t, k, d + i);
      if !Defines(b, i, k) && e < |b| {
        FindAligned(b, t, d, k, e + 1);
      }
    }
  }

  lemma LineAligned(b: string, t: string, d: int, k: string, i: nat, hi: nat)
    requires Aligned(b, t, d, i, hi) && i < hi
    requires Until(b, i, EndsLine) < hi || (hi == |b| && d + hi == |t|)
    ensures Until(t, d + i, EndsLine) == d + Until(b, i, EndsLine)
    ensures Until(t, d + i, EndsKey) == d + Until(b, i, EndsKey)
    ensures Defines(t, d + i, k) == Defines(b, i, k)
  {
    UntilAligned(b, t, d, i, hi, EndsLine);
    UntilAligned(b, t, d, i, hi, EndsKey);
    SameSlice(b, t, d, i, Until(b, i, EndsKey));
  }

  lemma ValueAligned(b: string, t: string, d: int, k: string, i: nat)
    requires Aligned(b, t, d, i, |b|) && d + |b| == |t|
    ensures EntryFrom(t, k, d + i) == EntryFrom(b, k, i)
  {
    hide Find, Defines;
    FindAligned(b, t, d, k, i);
    FindOk(b, k, i);
    match Find(b, k, i)
    case Miss =>
    case Slot(l, q, e) =>
      SameSlice(b, t, d, l, q);
      SameSlice(b, t, d, q + 1, e);
  }

  /** One line seen by a lookup: its own value, or what the lines behind it say. */
  lemma ValueLine(b: string, k: string, i: nat)
    requires i < |b|
    ensures var e, j := Until(b, i, EndsLine), Until(b, i, EndsKey);
            EntryFrom(b, k, i) ==
            if Defines(b, i, k) then Some(Entry(b[i..j], b[j + 1..e])) else if e == |b| then None else EntryFrom(b, k, e + 1)
  {
    FindLine(b, k, i);
    FindOk(b, k, i);
  }

  lemma ValueEnds(b: string, k: string)
    ensures EntryFrom(b, k, |b|) == None
  {
  }

  /** A line `key=value` with either line end, in front of `b`. */
  lemma EndedShape(k: string, v: string, c: char, b: string)
    requires KeyOk(k) && ValueOk(v) && CString(b) && NewLine(c)
    ensures var t := k + "=" + v + [c] + b;
            && CString(t) && |t| == |k| + |v| + 2 + |b|
            && Until(t, 0, EndsKey) == |k| && Until(t, 0, EndsLine) == |k| + |v| + 1
            && t[..|k|] == k && t[|k| + 1..|k| + |v| + 1] == v
            && Aligned(b, t, |k| + |v| + 2, 0, |b|)
  {
    hide Until;
    var t := k + "=" + v + [c] + b;
    assert t[..|k|] == k && t[|k| + 1..|k| + |v| + 1] == v;
    assert forall x :: 0 <= x < |k| ==> t[x] == k[x];
    assert forall x :: 0 <= x < |v| ==> v[x] == t[|k| + 1 + x];
    assert forall x :: |k| < x < |k| + |v| + 1 ==> t[x] == v[x - |k| - 1];
    UntilIs(t, 0, EndsKey, |k|);
    UntilIs(t, 0, EndsLine, |k| + |v| + 1);
  }

  lemma EndedDefines(k: string, v: string, c: char, b: string, k': string)
    requires KeyOk(k) && ValueOk(v) && CString(b) && NewLine(c)
    ensures var t := k + "=" + v + [c] + b; t != "" && (Defines(t, 0, k') <==> k <= k')
  {
    hide Until, Aligned;
    var t := k + "=" + v + [c] + b;
    EndedShape(k, v, c, b);
    assert t[0] == t[..|k|][0] == k[0] && t[0..|k|] == t[..|k|];
  }

  /** A line answers for its key and for the longer keys it is a prefix of, and for no other. */
  lemma EndedValue(k: string, v: string, c: char, b: string, k': string)
    requires KeyOk(k) && ValueOk(v) && CString(b) && NewLine(c)
    ensures Lookup(k + "=" + v + [c] + b, k') == if k <= k' then Some(Entry(k, v)) else Lookup(b, k')
  {
    hide Find, Until, EntryFrom, Defines, KeyOk, ValueOk, CString, Aligned;
    var t := k + "=" + v + [c] + b;
    EndedShape(k, v, c, b);
    EndedDefines(k, v, c, b, k');
    ValueLine(t, k', 0);
    if k <= k' {
      assert t[0..|k|] == t[..|k|];
    } else if b == "" {
      ValueEnds(b, k');
      ValueEnds(t, k');
    } else {
      ValueAligned(b, t, |k| + |v| + 2, k', 0);
    }
  }

  lemma LineEnded(k: string, v: string)
    ensures Line(k, v) == k + "=" + v + ['\n']
  {
  }

  /** The line the writer makes, in front of `b`. */
  lemma LineShape(k: string, v: string, b: string)
    requires KeyOk(k) && ValueOk(v) && CString(b)
    ensures var t := Line(k, v) + b;
            && CString(t) && |t| == |k| + |v| + 2 + |b|
            && Until(t, 0, EndsKey) == |k| && Until(t, 0, EndsLine) == |k| + |v| + 1
            && t[..|k|] == k && t[|k| + 1..|k| + |v| + 1] == v
            && Aligned(b, t, |k| + |v| + 2, 0, |b|)
  {
    hide Until, Aligned, KeyOk, ValueOk, CString, Line;
    LineEnded(k, v);
    EndedShape(k, v, '\n', b);
  }

  /** An inserted line answers for its key and for the longer keys it is a prefix of, and for no other. */
  lemma InsertedValue(k: string, v: string, b: string, k': string)
    requires KeyOk(k) && ValueOk(v) && CString(b)
    ensures CString(Line(k, v) + b)
    ensures Lookup(Line(k, v) + b, k') == if k <= k' then Some(Entry(k, v)) else Lookup(b, k')
  {
    hide Until, Aligned, KeyOk, ValueOk, CString, Line, Lookup;
    LineEnded(k, v);
    EndedShape(k, v, '\n', b);
    EndedValue(k, v, '\n', b, k');
  }

  /** `b` with the value of the line that ends at `e` and has its '=' at `q` replaced. */
  function ReplaceAt(b: string, q: nat, e: nat, v: string): string
    requires q < e <= |b|
  {
    b[..q + 1] + v + b[e..]
  }

  /** What a replaced value leaves where it was. */
  ghost predicate Replaced(b: string, l: nat, q: nat, e: nat, v: string, b': string) {
    && CString(b) && CString(b') && l < q < e <= |b| && |b'| == q + 1 + |v| + |b| - e
    && Aligned(b, b', 0, 0, q + 1)
    && Aligned(b, b', q + 1 + |v| - e, e, |b|)
    && b'[q + 1..q + 1 + |v|] == v
    && Until(b, l, EndsKey) == q && Until(b, l, EndsLine) == e
    && Until(b', l, EndsKey) == q && Until(b', l, EndsLine) == q + 1 + |v|
  }

  lemma ReplaceChars(b: string, q: nat, e: nat, v: string)
    requires CString(b) && ValueOk(v) && q < e <= |b|
    ensures var b' := ReplaceAt(b, q, e, v);
            && CString(b') && |b'| == q + 1 + |v| + |b| - e && b'[q + 1..q + 1 + |v|] == v
            && Aligned(b, b', 0, 0, q + 1)
            && Aligned(b, b', q + 1 + |v| - e, e, |b|)
            && Aligned(v, b', q + 1, 0, |v|)
  {
    var b' := ReplaceAt(b, q, e, v);
    forall x | 0 <= x < |b'|
      ensures b'[x] != NUL
    {
      if x <= q {
        assert b'[x] == b[x];
      } else if x < q + 1 + |v| {
        assert b'[x] == v[x - q - 1];
      } else {
        assert b'[x] == b[x - (q + 1 + |v|) + e];
      }
    }
  }

  /** Where the loops stop on the line with the new value. */
  lemma ReplaceEnds(b: string, b': string, v: string, l: nat, q: nat, e: nat)
    requires ValueOk(v) && l < q < e <= |b| && |b'| == q + 1 + |v| + |b| - e
    requires Until(b, l, EndsKey) == q && Until(b, l, EndsLine) == e
    requires Aligned(b, b', 0, 0, q + 1) && Aligned(b, b', q + 1 + |v| - e, e, |b|) && Aligned(v, b', q + 1, 0, |v|)
    ensures Until(b', l, EndsKey) == q && Until(b', l, EndsLine) == q + 1 + |v|
  {
    hide Until;
    UntilAligned(b, b', 0, l, q + 1, EndsKey);
    forall x | l <= x < q + 1 + |v|
      ensures !EndsLine(b'[x])
    {
      if x <= q {
        assert b[x] == b'[x] && !EndsLine(b[x]);
      } else {
        assert v[x - q - 1] == b'[x];
      }
    }
    if e < |b| {
      assert b[e] == b'[q + 1 + |v|];
    }
    UntilIs(b', l, EndsLine, q + 1 + |v|);
  }

  lemma ReplaceShape(b: string, k: string, v: string, l: nat, q: nat, e: nat, i: nat)
    requires CString(b) && ValueOk(v) && i <= |b| && Find(b, k, i) == Slot(l, q, e)
    ensures i <= l < q < e <= |b| && Replaced(b, l, q, e, v, ReplaceAt(b, q, e, v))
    ensures b[l..q] <= k && CString(ReplaceAt(b, q, e, v))
  {
    hide Find, ReplaceAt, Until, Aligned, ValueOk, CString;
    FindOk(b, k, i);
    ReplaceChars(b, q, e, v);
    ReplaceEnds(b, ReplaceAt(b, q, e, v), v, l, q, e);
  }

  lemma FindSkips(b: string, k: string, i: nat)
    requires i < |b| && Find(b, k, i).Slot? && i != Find(b, k, i).line
    ensures !Defines(b, i, k) && Until(b, i, EndsLine) < Find(b, k, i).line
    ensures Find(b, k, i) == Find(b, k, Until(b, i, EndsLine) + 1)
  {
    FindLine(b, k, i);
    FindOk(b, k, i);
    if !Defines(b, i, k) && Until(b, i, EndsLine) < |b| {
      FindOk(b, k, Until(b, i, EndsLine) + 1);
    }
  }

  lemma BeforeLine(b: string, l: nat, q: nat, e: nat, v: string, b': string, k': string, i: nat)
    requires Replaced(b, l, q, e, v, b') && i < l && Until(b, i, EndsLine) < l
    ensures Defines(b', i, k') == Defines(b, i, k')
    ensures Until(b', i, EndsLine) == Until(b, i, EndsLine) && Until(b', i, EndsKey) == Until(b, i, EndsKey)
    ensures Defines(b, i, k') ==> i < Until(b, i, EndsKey) < Until(b, i, EndsLine)
    ensures i <= Until(b, i, EndsKey)
  {
    hide Until;
    LineAligned(b, b', 0, k', i, q + 1);
  }

  /** A line in front of the touched one. */
  lemma ReplacedBefore(b: string, l: nat, q: nat, e: nat, v: string, b': string, k': string, i: nat)
    requires Replaced(b, l, q, e, v, b') && i < l && Until(b, i, EndsLine) < l
    ensures Defines(b', i, k') == Defines(b, i, k')
    ensures Until(b', i, EndsLine) == Until(b, i, EndsLine)
    ensures Defines(b, i, k') ==>
              var j, x := Until(b, i, EndsKey), Until(b, i, EndsLine);
              j < x && Until(b', i, EndsKey) == j && b[i..j] == b'[i..j] && b[j + 1..x] == b'[j + 1..x]
  {
    hide Until, Defines;
    BeforeLine(b, l, q, e, v, b', k', i);
    if Defines(b, i, k') {
      SameSlice(b, b', 0, i, Until(b, i, EndsKey));
      SameSlice(b, b', 0, Until(b, i, EndsKey) + 1, Until(b, i, EndsLine));
    }
  }

  /** The touched line. */
  lemma ReplacedLine(b: string, l: nat, q: nat, e: nat, v: string, b': string, k': string)
    requires Replaced(b, l, q, e, v, b')
    ensures Defines(b', l, k') == Defines(b, l, k')
    ensures b[l..q] <= k' && b[l] != ';' <==> Defines(b, l, k')
  {
    SameSlice(b, b', 0, l, q);
    assert b[l] == b'[l];
  }

  lemma ReplacedKey(b: string, l: nat, q: nat, e: nat, v: string, b': string)
    requires Replaced(b, l, q, e, v, b')
    ensures b'[l..q] == b[l..q] && b'[q + 1..q + 1 + |v|] == v
  {
    SameSlice(b, b', 0, l, q);
  }

  /** What a lookup of k' sees of a new value v on the line of `key`: it read that line and now reads v, or it reads
      what it did. */
  predicate Sees(before: Option<Entry>, after: Option<Entry>, key: string, v: string, k': string) {
    after == before || (key <= k' && before.Some? && after == Some(Entry(key, v)))
  }

  /** A replaced value is what its own key reads; every other key reads what it did, or that value too. */
  lemma {:induction false} ReplacedFrom(b: string, k: string, v: string, l: nat, q: nat, e: nat, b': string, k': string, i: nat)
    requires Replaced(b, l, q, e, v, b') && i <= l && Find(b, k, i) == Slot(l, q, e)
    ensures Find(b', k, i) == Slot(l, q, q + 1 + |v|)
    ensures Sees(EntryFrom(b, k', i), EntryFrom(b', k', i), b[l..q], v, k')
    decreases |b| - i
  {
    hide Find, Until, EntryFrom, Defines;
    FindLine(b', k, i);
    ValueLine(b, k', i);
    ValueLine(b', k', i);
    if i < l {
      FindSkips(b, k, i);
      ReplacedBefore(b, l, q, e, v, b', k, i);
      ReplacedBefore(b, l, q, e, v, b', k', i);
      ReplacedFrom(b, k, v, l, q, e, b', k', Until(b, i, EndsLine) + 1);
    } else {
      FindOk(b, k, i);
      ReplacedKey(b, l, q, e, v, b');
      ReplacedLine(b, l, q, e, v, b', k);
      ReplacedLine(b, l, q, e, v, b', k');
      if e < |b| {
        ValueAligned(b, b', q + 1 + |v| - e, k', e + 1);
      }
    }
  }

  lemma ReplacedValue(b: string, k: string, v: string, k': string)
    requires CString(b) && ValueOk(v) && Find(b, k, 0).Slot?
    ensures var Slot(l, q, e) := Find(b, k, 0);
            && l < q < e <= |b| && b[l..q] <= k
            && (var b' := ReplaceAt(b, q, e, v);
                && CString(b') && Find(b', k, 0) == Slot(l, q, q + 1 + |v|)
                && Lookup(b, k) == Some(Entry(b[l..q], b[q + 1..e])) && Lookup(b', k) == Some(Entry(b[l..q], v))
                && Sees(Lookup(b, k'), Lookup(b', k'), b[l..q], v, k'))
  {
    hide Find, Until, Replaced, ReplaceAt, Defines, Sees;
    var Slot(l, q, e) := Find(b, k, 0);
    FindOk(b, k, 0);
    var b' := ReplaceAt(b, q, e, v);
    ReplaceShape(b, k, v, l, q, e, 0);
    ReplacedFrom(b, k, v, l, q, e, b', k', 0);
    ReplacedKey(b, l, q, e, v, b');
  }

  lemma LineBeforeEnd(b: string, k: string, i: nat)
    requires CString(b) && i < |b|
    ensures var b' := b + "\n";
            && Until(b', i, EndsLine) == Until(b, i, EndsLine) && Until(b', i, EndsKey) == Until(b, i, EndsKey)
            && Defines(b', i, k) == Defines(b, i, k)
  {
    var b' := b + "\n";
    var e, j := Until(b, i, EndsLine), Until(b, i, EndsKey);
    UntilIs(b', i, EndsLine, e);
    UntilIs(b', i, EndsKey, j);
    assert b'[i..j] == b[i..j];
  }

  lemma {:induction false} FindNewline(b: string, k: string, i: nat)
    requires CString(b) && i <= |b|
    ensures Find(b + "\n", k, i) == Find(b, k, i)
    decreases |b| - i
  {
    hide Find, Defines;
    var b' := b + "\n";
    FindLine(b', k, i);
    FindEnds(b', k);
    FindEnds(b, k);
    if i < |b| {
      LineBeforeEnd(b, k, i);
      FindLine(b, k, i);
      var e := Until(b, i, EndsLine);
      if !Defines(b, i, k) && e < |b| {
        FindNewline(b, k, e + 1);
      }
    } else {
      UntilIs(b', i, EndsKey, i);
      NotDefined(b', i, k);
    }
  }

  lemma NotDefined(b: string, i: nat, k: string)
    requires i < |b| && Until(b, i, EndsKey) == i
    ensures !Defines(b, i, k)
  {
  }

  lemma TakeOf(b: string, u: string, i: nat, j: nat)
    requires i <= j <= |b|
    ensures (b + u)[i..j] == b[i..j]
  {
  }

  /** A newline at the end changes no value. */
  lemma NewlineAdded(b: string, k: string)
    requires CString(b)
    ensures CString(b + "\n") && Lookup(b + "\n", k) == Lookup(b, k)
  {
    hide Find, Defines, Until;
    FindOk(b, k, 0);
    FindNewline(b, k, 0);
    if Find(b, k, 0).Slot? {
      var Slot(l, q, e) := Find(b, k, 0);
      TakeOf(b, "\n", l, q);
      TakeOf(b, "\n", q + 1, e);
    }
  }
}
