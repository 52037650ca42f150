/** Where the INI store is no map: what prefix matching, a header without ']' and a '[' that does not begin a line do. */
module IniTraps {
  import opened Basics
  import opened IniScan
  import opened IniTree
  import opened IniLookup
  import opened IniBody
  import opened IniEdit
  import opened IniValid
  import opened IniLaws
  import opened IniDoc

  function OneSection(s: string, line: string): string { "[" + s + "]\n" + line }

  lemma OneSectionTree(s: string, k: string, v: string)
    requires ArgsOk(s, k, v)
    ensures var x := Ini("", Sect(s, "\n", Line(k, v), Eof));
            Valid(x) && Text(x) == OneSection(s, Line(k, v)) && CString(Text(x))
  {
    NewSectionOk(s, k, v);
    LineClean(k, v);
    hide Line, KeyOk, ValueOk;
    CStringParts("[" + s + "]\n", Line(k, v));
    CStringParts("[" + s, "]\n");
    CStringParts("[", s);
    LastSection(s, Line(k, v));
  }

  /** A line answers for longer keys, a header for longer names: writing to those overwrites this one's value and makes
      no line of their own. */
  lemma ShorterNameCaptures(s: string, k: string, v: string, s': string, k': string, v': string)
    requires ArgsOk(s, k, v) && ArgsOk(s', k', v') && s <= s' && k <= k'
    ensures WriteText(OneSection(s, Line(k, v)), s', k', v') == OneSection(s, Line(k, v'))
    ensures ReadText(OneSection(s, Line(k, v)), s, k) == Some(v)
    ensures ReadText(OneSection(s, Line(k, v')), s, k) == Some(v')
  {
    hide ParseText, KeyOk, ValueOk, ReadText;
    var x := Ini("", Sect(s, "\n", Line(k, v), Eof));
    OneSectionTree(s, k, v);
    OneSectionTree(s, k, v');
    WriteIsTree(x, s', k', v');
    FoundByPrefix(k, v, v', k');
    assert WriteTree(x, s', k', v') == Ini("", Sect(s, "\n", Line(k, v'), Eof));
    OneSectionReads(s, k, v);
    OneSectionReads(s, k, v');
  }

  lemma OneSectionReads(s: string, k: string, v: string)
    requires ArgsOk(s, k, v)
    ensures ReadText(OneSection(s, Line(k, v)), s, k) == Some(v)
  {
    OneSectionTree(s, k, v);
    InsertedValue(k, v, "", k);
    assert Line(k, v) + "" == Line(k, v);
    hide ParseText, KeyOk, ValueOk, ReadText, Line;
    ReadIsGet(Ini("", Sect(s, "\n", Line(k, v), Eof)), s, k);
  }

  lemma FoundByPrefix(k: string, v: string, v': string, k': string)
    requires KeyOk(k) && ValueOk(v) && k <= k'
    ensures Find(Line(k, v), k', 0) == Slot(0, |k|, |k| + 1 + |v|)
    ensures |k| + 1 + |v| <= |Line(k, v)| && ReplaceAt(Line(k, v), |k|, |k| + 1 + |v|, v') == Line(k, v')
  {
    InsertThenReplace(k, v, v', "");
    assert Line(k, v) + "" == Line(k, v) && Line(k, v') + "" == Line(k, v');
    LineShape(k, v, "");
    hide Until, Find;
    var t := Line(k, v);
    FindLine(t, k', 0);
    assert t[0] == k[0] && t[0..|k|] == k;
  }

  /** A write to a section whose header is not closed changes nothing. */
  lemma UnclosedHeaderLoses(n: string, s: string, k: string, v: string)
    requires CString(n) && ']' !in n && n <= s
    ensures WriteText("[" + n, s, k, v) == "[" + n
  {
    hide ParseText;
    var x := Ini("", Dangling(n));
    CStringParts("[", n);
    assert Text(x) == "[" + n;
    WriteIsTree(x, s, k, v);
  }

  /** What looks like a section header, and a line behind it. */
  function Behind(m: string, q: string, w: string): string { OneSection(m, Line(q, w)) }

  predicate PlainName(m: string) { SectionNameOk(m) && forall i :: 0 <= i < |m| ==> !EndsKey(m[i]) }

  lemma BehindClean(m: string, q: string, w: string)
    requires PlainName(m) && KeyOk(q) && ValueOk(w)
    ensures var b := Behind(m, q, w);
            && CString(b) && b[0] == '[' && |b| == |m| + 3 + |Line(q, w)| && b[|m| + 3..] == Line(q, w)
            && Until(b, 0, EndsLine) == |m| + 2 && Until(b, 0, EndsKey) == |m| + 2
  {
    var b := Behind(m, q, w);
    OneSectionTree(m, q, w);
    assert forall i :: 1 <= i < |m| + 1 ==> b[i] == m[i - 1];
    UntilIs(b, 0, EndsLine, |m| + 2);
    UntilIs(b, 0, EndsKey, |m| + 2);
  }

  lemma BehindLookup(m: string, q: string, w: string, k: string)
    requires PlainName(m) && KeyOk(q) && ValueOk(w)
    ensures Lookup(Behind(m, q, w), k) == if q <= k then Some(Entry(q, w)) else None
  {
    hide Until, Find, Aligned, KeyOk, ValueOk, Line, Behind, EntryFrom;
    var b, line := Behind(m, q, w), Line(q, w);
    BehindClean(m, q, w);
    TailAligned(line, b, |m| + 3);
    ValueLine(b, k, 0);
    ValueAligned(line, b, |m| + 3, k, 0);
    InsertedValue(q, w, "", k);
    ValueOfEmpty(k);
    assert line + "" == line;
  }

  lemma TailAligned(line: string, b: string, d: nat)
    requires d <= |b| && b[d..] == line
    ensures Aligned(line, b, d, 0, |line|)
  {
    assert forall x :: 0 <= x < |line| ==> line[x] == b[d + x];
  }

  lemma BehindTree(m: string, q: string, w: string)
    requires PlainName(m) && KeyOk(q) && ValueOk(w)
    ensures Chop(Behind(m, q, w)) == Sect(m, "\n", Line(q, w), Eof)
  {
    hide Line, KeyOk, ValueOk, Chop;
    NewSectionOk(m, q, w);
    ChopUnique(Sect(m, "\n", Line(q, w), Eof));
    LastSection(m, Line(q, w));
  }

  /** The header stands on the line of another: it is none. */
  function Hidden(n: string, m: string, q: string, w: string): Ini { Ini("", Sect(n, " ", Behind(m, q, w), Eof)) }

  lemma HiddenText(n: string, b: string)
    requires SectionNameOk(n) && b != "" && b[0] == '[' && NoHeader(b, false)
    ensures var x := Ini("", Sect(n, " ", b, Eof)); Valid(x) && Text(x) == "[" + n + "] " + b
  {
    assert NoHeader("", true);
    assert " "[|" "| - 1] == ' ';
    assert SectOk(n, " ", b, true);
    assert TextOf(Sect(n, " ", b, Eof)) == "[" + n + "]" + " " + b + "";
    assert "" + ("[" + n + "]" + " " + b + "") == "[" + n + "] " + b;
  }

  lemma HiddenOk(n: string, m: string, q: string, w: string)
    requires SectionNameOk(n) && PlainName(m) && KeyOk(q) && ValueOk(w)
    ensures var t := "[" + n + "] " + Behind(m, q, w);
            Valid(Hidden(n, m, q, w)) && CString(t) && Text(Hidden(n, m, q, w)) == t && Tree(t) == Hidden(n, m, q, w)
  {
    hide Line, Tree, KeyOk, ValueOk, Chop;
    var b := Behind(m, q, w);
    BehindClean(m, q, w);
    BehindTree(m, q, w);
    HiddenBody(m, q, w);
    CStringParts("[" + n + "] ", b);
    CStringParts("[" + n, "] ");
    CStringParts("[", n);
    HiddenText(n, b);
    TreeUnique(Hidden(n, m, q, w));
  }

  lemma HiddenBody(m: string, q: string, w: string)
    requires PlainName(m) && KeyOk(q) && ValueOk(w)
    ensures NoHeader(Behind(m, q, w), false)
  {
    var b, line := Behind(m, q, w), Line(q, w);
    BehindClean(m, q, w);
    LineNoHeader(q, w, "", true, true);
    assert line + "" == line;
    hide Line, Behind;
    forall i | 0 <= i < |b|
      ensures !HeaderIn(b, i, false)
    {
      if 0 < i < |m| + 3 {
        assert !EndsLine(b[i - 1]);
      } else if i > 0 {
        assert b[i] == line[i - |m| - 3] && (i > |m| + 3 ==> b[i - 1] == line[i - |m| - 4]);
        assert !HeaderIn(line, i - |m| - 3, true);
      }
    }
  }

  /** A '[' behind a header on the same line is text of that section, until a line is inserted in front of it: then it
      is a header, and what follows it is lost to the section. */
  lemma InsertedLineMakesHeader(n: string, m: string, q: string, w: string, k: string, v: string)
    requires ArgsOk(n, k, v) && PlainName(m) && KeyOk(q) && ValueOk(w)
    requires !(m <= n) && !(k <= q) && !(q <= k)
    ensures ReadText("[" + n + "] " + Behind(m, q, w), n, q) == Some(w)
    ensures var t' := "[" + n + "] " + Line(k, v) + Behind(m, q, w);
            WriteText("[" + n + "] " + Behind(m, q, w), n, k, v) == t' && ReadText(t', n, q) == None
  {
    hide ParseText, KeyOk, ValueOk, ReadText, WriteText, Tree, Lookup, Line, Chop, Find, Behind, Text, Valid;
    HiddenOk(n, m, q, w);
    var b := Behind(m, q, w);
    var t, x := "[" + n + "] " + b, Hidden(n, m, q, w);
    BehindClean(m, q, w);
    BehindLookup(m, q, w, q);
    BehindLookup(m, q, w, k);
    ReadIsTree(t, n, q);
    WrittenTree(t, n, k, v);
    ReadWritten(t, n, k, v, n, q);
    FindOk(b, k, 0);
    HiddenWritten(n, m, q, w, k, v);
  }

  lemma HiddenWritten(n: string, m: string, q: string, w: string, k: string, v: string)
    requires ArgsOk(n, k, v) && PlainName(m) && KeyOk(q) && ValueOk(w)
    requires !(m <= n) && !(k <= q) && !(q <= k)
    ensures var x' := WriteTree(Hidden(n, m, q, w), n, k, v);
            Text(x') == "[" + n + "] " + Line(k, v) + Behind(m, q, w) && Get(x'.rest, n, q) == None
  {
    hide ParseText, KeyOk, ValueOk, Tree, Line, Chop, Find, Behind, Valid;
    var b := Behind(m, q, w);
    BehindClean(m, q, w);
    BehindLookup(m, q, w, k);
    FindOk(b, k, 0);
    BehindTree(m, q, w);
    InsertedText("", n, " ", Line(k, v), b, Eof);
    assert b + TextOf(Eof) == b;
    assert "" + "[" + n + "]" + " " == "[" + n + "] ";
    InsertedValue(k, v, "", q);
    ValueOfEmpty(q);
    assert Line(k, v) + "" == Line(k, v);
    assert Value(Line(k, v), q) == None;
    assert Get(Sect(m, "\n", Line(q, w), Eof), n, q) == None;
  }

  // Untidy insertions in general

  /** The rest from the last header on that is taken for the section. */
  function LastTaken(r: Rest, s: string): Rest
    requires HasSec(r, s)
  {
    match r
    case Dangling(_) => r
    case Sect(_, _, _, r') => if HasSec(r', s) then LastTaken(r', s) else r
  }

  /** A section in front of that header answers. */
  predicate Earlier(r: Rest, s: string, s': string, k': string) {
    match r
    case Eof => false
    case Dangling(_) => false
    case Sect(n, _, b, r') => HasSec(r', s) && ((n <= s' && Value(b, k').Some?) || Earlier(r', s, s', k'))
  }

  /** What stands behind the inserted line, read as a text of its own: it begins with a header now. */
  function Reread(x: Rest): Rest
    requires x.Sect? && x.body != "" && x.body[0] == '['
  {
    Chop(x.body + TextOf(x.rest))
  }

  predicate Untidy(r: Rest, s: string, k: string) { HasSec(r, s) && !TidyFor(r, s, k) }

  lemma {:induction false} UntidyShape(r: Rest, s: string, k: string)
    requires Untidy(r, s, k)
    ensures var x := LastTaken(r, s);
            && x.Sect? && x.name <= s && !HasSec(x.rest, s) && x.body != "" && x.body[0] == '['
            && Touched(r, s, k) == (x.name, k)
    decreases r
  {
    hide Lookup;
    match r
    case Sect(_, _, _, r') =>
      if HasSec(r', s) {
        UntidyShape(r', s, k);
      }
  }

  lemma {:induction false} UntidyGet(r: Rest, s: string, k: string, v: string, s': string, k': string)
    requires Untidy(r, s, k) && Clean(r) && KeyOk(k) && ValueOk(v)
    ensures var x := LastTaken(r, s); x.Sect? && x.body != "" && x.body[0] == '['
    ensures var x, y := LastTaken(r, s), Put(r, s, k, v);
            if Earlier(r, s, s', k') then Get(y, s', k') == Get(r, s', k')
            else
              && Get(r, s', k') == (if x.name <= s' && Value(x.body, k').Some? then Value(x.body, k')
                                    else Get(x.rest, s', k'))
              && Get(y, s', k') == if x.name <= s' && k <= k' then Some(v) else Get(Reread(x), s', k')
    decreases r
  {
    hide Find, Line, Chop, Defines, TextOf, KeyOk, ValueOk;
    match r
    case Sect(n, g, b, r') =>
      FindOk(b, k, 0);
      if HasSec(r', s) {
        UntidyGet(r', s, k, v, s', k');
      } else {
        InsertedValue(k, v, "", k');
        ValueOfEmpty(k');
        assert Line(k, v) + "" == Line(k, v);
      }
  }

  /** Every lookup after an untidy insertion: the sections in front answer as before, then the new line, then what
      stands behind it as a text of its own. */
  lemma UntidyReads(t: string, s: string, k: string, v: string, s': string, k': string)
    requires CString(t) && ArgsOk(s, k, v) && Untidy(Tree(t).rest, s, k)
    ensures var x := LastTaken(Tree(t).rest, s); x.Sect? && x.body != "" && x.body[0] == '['
    ensures var r, t' := Tree(t).rest, WriteText(t, s, k, v);
            var x := LastTaken(r, s);
            if Earlier(r, s, s', k') then ReadText(t', s', k') == ReadText(t, s', k')
            else
              && ReadText(t, s', k') == (if x.name <= s' && Value(x.body, k').Some? then Value(x.body, k')
                                         else Get(x.rest, s', k'))
              && ReadText(t', s', k') == if x.name <= s' && k <= k' then Some(v) else Get(Reread(x), s', k')
  {
    WrittenTree(t, s, k, v);
    hide Tree, ParseText, ReadText, WriteText, Line, KeyOk, ValueOk, TidyFor, Reread, Value, Put, Get, Earlier;
    ReadWritten(t, s, k, v, s', k');
    ReadIsTree(t, s', k');
    UntidyGet(Tree(t).rest, s, k, v, s', k');
  }

  /** A key that a line of the body defines, and no line before it hides. */
  predicate KeyIn(b: string, q: string) { Lookup(b, q).Some? && Lookup(b, q).value.key == q }

  /** The line that answers for a key answers for the key it has. */
  lemma {:induction false} AnswersItself(b: string, k: string, i: nat)
    requires i <= |b| && EntryFrom(b, k, i).Some?
    ensures var e := EntryFrom(b, k, i); e.value.key <= k && EntryFrom(b, e.value.key, i) == e
    decreases |b| - i
  {
    hide Find, Until;
    if i == |b| {
      ValueEnds(b, k);
    } else {
      var q := EntryFrom(b, k, i).value.key;
      ValueLine(b, k, i);
      ValueLine(b, q, i);
      if !Defines(b, i, k) {
        AnswersItself(b, k, Until(b, i, EndsLine) + 1);
        assert q <= k;
      }
    }
  }

  lemma {:induction false} LongerAnswered(b: string, q: string, k: string, i: nat)
    requires i <= |b| && EntryFrom(b, q, i).Some? && q <= k
    ensures EntryFrom(b, k, i).Some?
    decreases |b| - i
  {
    hide Find, Until;
    if i == |b| {
      ValueEnds(b, q);
    } else {
      ValueLine(b, k, i);
      ValueLine(b, q, i);
      if !Defines(b, i, k) {
        LongerAnswered(b, q, k, Until(b, i, EndsLine) + 1);
      }
    }
  }

  lemma {:induction false} LongerEarlier(r: Rest, s: string, s': string, q: string, k': string)
    requires Earlier(r, s, s', q) && q <= k'
    ensures Earlier(r, s, s', k')
    decreases r
  {
    hide EntryFrom;
    match r
    case Sect(n, _, b, r') =>
      if n <= s' && Value(b, q).Some? {
        LongerAnswered(b, q, k', 0);
      } else {
        LongerEarlier(r', s, s', q, k');
      }
  }

  /** When an untidy insertion still leaves the lookups of a section alone that no header behind the new line answers:
      exactly when each key of the body is longer than the new one, or hidden by a section in front. */
  lemma UntidyFrame(t: string, s: string, k: string, v: string, s': string)
    requires CString(t) && ArgsOk(s, k, v) && Untidy(Tree(t).rest, s, k)
    requires var x := LastTaken(Tree(t).rest, s);
             && x.Sect? && x.body != "" && x.body[0] == '[' && x.name <= s'
             && !HasSec(x.rest, s') && !HasSec(Reread(x), s')
    ensures (forall k' :: Framed(t, s, k, v, s', k')) <==>
              forall q :: KeyIn(LastTaken(Tree(t).rest, s).body, q) ==> k <= q || Earlier(Tree(t).rest, s, s', q)
  {
    var r := Tree(t).rest;
    var x := LastTaken(r, s);
    UntidyShape(r, s, k);
    hide Tree, ParseText, ReadText, WriteText, KeyOk, ValueOk, TidyFor, Reread, EntryFrom, Get, Earlier, Untidy, Touched,
      HasSec, LastTaken, ArgsOk;
    if forall q :: KeyIn(x.body, q) ==> k <= q || Earlier(r, s, s', q) {
      forall k'
        ensures Framed(t, s, k, v, s', k')
      {
        UntidyReads(t, s, k, v, s', k');
        LocateMisses(x.rest, s', k', 0, NoSection);
        LocateMisses(Reread(x), s', k', 0, NoSection);
        if !Earlier(r, s, s', k') && Value(x.body, k').Some? {
          AnswersItself(x.body, k', 0);
          var q := Lookup(x.body, k').value.key;
          assert KeyIn(x.body, q);
          if Earlier(r, s, s', q) {
            LongerEarlier(r, s, s', q, k');
          }
        }
      }
    } else {
      var q :| KeyIn(x.body, q) && !(k <= q) && !Earlier(r, s, s', q);
      UntidyReads(t, s, k, v, s', q);
      LocateMisses(Reread(x), s', q, 0, NoSection);
      assert !Framed(t, s, k, v, s', q);
    }
  }
}
