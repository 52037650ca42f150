/** Reading and writing on texts, as inifile.c does it with the scanner's offsets, and on syntax trees. */
module IniEdit {
  import opened Basics
  import opened IniScan
  import opened IniTree
  import opened IniLookup
  import opened IniBody

  /** The value read_profile_string finds, before it is cut to the caller's buffer. */
  function ReadText(t: string, s: string, k: string): Option<string> {
    ParseTextOk(t, s, k);
    match ParseText(t, s, k)
    case Hit(_, _, _, _, valS, valE) => Some(t[valS..valE])
    case _ => None
  }

  /** A value read is one line of text, without its end. */
  lemma ReadPlain(t: string, s: string, k: string)
    ensures ReadText(t, s, k).Some? ==>
              var v := ReadText(t, s, k).value; '\n' !in v && '\r' !in v && '\0' !in v
  {
    hide ParseText;
    ParseTextOk(t, s, k);
  }

  function NewSection(s: string, k: string, v: string): string { "[" + s + "]\n" + Line(k, v) }

  /** The text write_profile_string leaves: the file ends at the first NUL of the edited buffer, so a key
      written behind the end of the text is lost. */
  function WriteAt(t: string, p: Place, s: string, k: string, v: string): string
    requires PlaceOk(t, p)
  {
    match p
    case NoSection => if t == "" then NewSection(s, k, v) else t + "\n" + NewSection(s, k, v)
    case NoKey(_, e) => if e <= |t| then t[..e] + Line(k, v) + t[e..] else t
    case Hit(_, _, _, _, valS, valE) => t[..valS] + v + t[valE..]
  }

  function WriteText(t: string, s: string, k: string, v: string): string {
    ParseTextOk(t, s, k);
    WriteAt(t, ParseText(t, s, k), s, k, v)
  }

  function Get(r: Rest, s: string, k: string): Option<string> {
    match r
    case Eof => None
    case Dangling(_) => None
    case Sect(n, _, b, r') => if n <= s && Value(b, k).Some? then Value(b, k) else Get(r', s, k)
  }

  /** Some header's name is a prefix of `s`. */
  predicate HasSec(r: Rest, s: string) {
    match r
    case Eof => false
    case Dangling(n) => n <= s
    case Sect(n, _, _, r') => n <= s || HasSec(r', s)
  }

  /** The last header lacks its ']'. */
  predicate EndsDangling(r: Rest) {
    match r
    case Eof => false
    case Dangling(_) => true
    case Sect(_, _, _, r') => EndsDangling(r')
  }

  /** The last header lacks its ']', and is taken for the section `s`. */
  predicate DanglingIs(r: Rest, s: string) {
    match r
    case Eof => false
    case Dangling(n) => n <= s
    case Sect(_, _, _, r') => DanglingIs(r', s)
  }

  /** A line put in front of a body. A '[' that was no header before it becomes one behind it. */
  function Inserted(n: string, g: string, line: string, b: string, r: Rest): Rest {
    if b != "" && b[0] == '[' then Sect(n, g, line, Chop(b + TextOf(r))) else Sect(n, g, line + b, r)
  }

  function Put(r: Rest, s: string, k: string, v: string): Rest {
    match r
    case Eof => r
    case Dangling(_) => r
    case Sect(n, g, b, r') =>
      FindOk(b, k, 0);
      var x := Find(b, k, 0);
      if n <= s && x.Slot? then Sect(n, g, ReplaceAt(b, x.eq, x.end, v), r')
      else if HasSec(r', s) then Sect(n, g, b, Put(r', s, k, v))
      else if n <= s then Inserted(n, g, Line(k, v), b, r')
      else r
  }

  function Appended(r: Rest, s: string, line: string): Rest
    requires !r.Eof?
  {
    match r
    case Dangling(n) => Sect(n + "\n[" + s, "\n", line, Eof)
    case Sect(n, g, b, r') =>
      if !r'.Eof? then Sect(n, g, b, Appended(r', s, line))
      else if b == "" then Sect(n, g + "\n", "", Sect(s, "\n", line, Eof))
      else Sect(n, g, b + "\n", Sect(s, "\n", line, Eof))
  }

  function WriteTree(x: Ini, s: string, k: string, v: string): Ini {
    if HasSec(x.rest, s) then Ini(x.pre, Put(x.rest, s, k, v))
    else if !x.rest.Eof? then Ini(x.pre, Appended(x.rest, s, Line(k, v)))
    else Ini(if x.pre == "" then "" else x.pre + "\n", Sect(s, "\n", Line(k, v), Eof))
  }

  // The offsets and the tree

  lemma {:induction false} LocateMisses(r: Rest, s: string, k: string, base: nat, acc: Place)
    requires !HasSec(r, s)
    ensures Locate(r, s, k, base, acc) == acc && Get(r, s, k) == None
    decreases r
  {
    match r
    case Eof =>
    case Dangling(_) =>
    case Sect(n, g, b, r') => LocateMisses(r', s, k, base + 2 + |n| + |g| + |b|, acc);
  }

  /** `p` marks out the value `o` in `t`. */
  ghost predicate Delimits(t: string, p: Place, o: Option<string>) {
    match p
    case Hit(_, _, _, _, valS, valE) => valS <= valE <= |t| && o == Some(t[valS..valE])
    case _ => o == None
  }

  lemma SliceInside(t: string, w: string, b: string, u: string, i: nat, j: nat)
    requires t == (w + b) + u && i <= j <= |b|
    ensures t[|w| + i..|w| + j] == b[i..j]
    ensures t[..|w| + i] == w + b[..i] && t[|w| + j..] == b[j..] + u
  {
  }

  /** The text in front of the body of a section, and the text behind it. */
  lemma SectionText(t: string, w: string, n: string, g: string, b: string, r: Rest) returns (w': string)
    requires t == w + TextOf(Sect(n, g, b, r))
    ensures w' == w + "[" + n + "]" + g && |w'| == |w| + 2 + |n| + |g| && t == (w' + b) + TextOf(r)
  {
    w' := w + "[" + n + "]" + g;
  }

  lemma HitDelimits(t: string, w: string, b: string, u: string, k: string, secS: nat)
    requires t == (w + b) + u && Find(b, k, 0).Slot? && |w| >= 1
    ensures Delimits(t, SlotPlace(Find(b, k, 0), |w|, secS, |w|, NoSection), Value(b, k))
  {
    FindOk(b, k, 0);
    hide Find, Defines;
    SliceInside(t, w, b, u, Find(b, k, 0).eq + 1, Find(b, k, 0).end);
  }

  lemma ValueFound(b: string, k: string)
    ensures Value(b, k).Some? <==> Find(b, k, 0).Slot?
  {
    hide Find, Defines;
  }

  /** The offsets found in a text delimit the value its tree holds. */
  lemma {:induction false} LocateIsGet(t: string, w: string, r: Rest, s: string, k: string, acc: Place)
    requires t == w + TextOf(r) && !acc.Hit?
    ensures Delimits(t, Locate(r, s, k, |w|, acc), Get(r, s, k))
    decreases r
  {
    match r
    case Eof =>
    case Dangling(_) =>
    case Sect(n, g, b, r') =>
      hide Find, Defines, TextOf, Value, Delimits;
      var w' := SectionText(t, w, n, g, b, r');
      ValueFound(b, k);
      if n <= s && Find(b, k, 0).Slot? {
        HitDelimits(t, w', b, TextOf(r'), k, |w| + 1);
      } else {
        LocateIsGet(t, w' + b, r', s, k, if n <= s then NoKey(|w| + 1, |w'|) else acc);
      }
  }

  lemma ReadIsGet(x: Ini, s: string, k: string)
    requires Valid(x) && CString(Text(x))
    ensures ReadText(Text(x), s, k) == Get(x.rest, s, k)
  {
    ParseIsLocate(x, s, k);
    LocateIsGet(Text(x), x.pre, x.rest, s, k, NoSection);
  }

  lemma SectionJoin(w: string, n: string, g: string, b: string, r: Rest)
    ensures w + TextOf(Sect(n, g, b, r)) == (w + "[" + n + "]" + g + b) + TextOf(r)
  {
  }

  lemma InsertedText(w: string, n: string, g: string, line: string, b: string, r: Rest)
    ensures w + TextOf(Inserted(n, g, line, b, r)) == (w + "[" + n + "]" + g) + line + (b + TextOf(r))
  {
    if b != "" && b[0] == '[' {
      ChopOk(b + TextOf(r));
      hide Chop;
      SectionJoin(w, n, g, line, Chop(b + TextOf(r)));
    } else {
      SectionJoin(w, n, g, line + b, r);
    }
  }

  lemma ReplacedText(t: string, w: string, b: string, r: string, i: nat, j: nat, v: string)
    requires t == (w + b) + r && i < j <= |b|
    ensures t[..|w| + i + 1] + v + t[|w| + j..] == w + ReplaceAt(b, i, j, v) + r
  {
    SliceInside(t, w, b, r, i + 1, j);
    assert w + b[..i + 1] + v + (b[j..] + r) == w + (b[..i + 1] + v + b[j..]) + r;
  }

  lemma InsertText(t: string, w: string, u: string, line: string)
    requires t == w + u
    ensures t[..|w|] + line + t[|w|..] == w + line + u
  {
  }

  /** The edit at offsets `p` turns `t` into `t'`, unless the offsets are no place in `t`. */
  ghost predicate Writes(t: string, p: Place, s: string, k: string, v: string, t': string) {
    PlaceOk(t, p) ==> WriteAt(t, p, s, k, v) == t'
  }

  lemma WriteDangling(t: string, w: string, n: string, s: string, k: string, v: string)
    requires t == w + TextOf(Dangling(n))
    ensures Writes(t, NoKey(|w| + 1, |w| + |n| + 2), s, k, v, t)
  {
  }

  lemma WriteHit(t: string, w: string, n: string, g: string, b: string, r: Rest, s: string, k: string, v: string,
                 l: nat, q: nat, e: nat)
    requires t == w + TextOf(Sect(n, g, b, r)) && l < q < e <= |b|
    ensures var d := |w| + 2 + |n| + |g|;
            Writes(t, Hit(|w| + 1, d, d + l, d + q - 1, d + q + 1, d + e), s, k, v,
                   w + TextOf(Sect(n, g, ReplaceAt(b, q, e, v), r)))
  {
    hide TextOf, ReplaceAt, PlaceOk;
    var w' := SectionText(t, w, n, g, b, r);
    ReplacedText(t, w', b, TextOf(r), q, e, v);
    SectionJoin(w, n, g, ReplaceAt(b, q, e, v), r);
  }

  lemma WriteInsert(t: string, w: string, n: string, g: string, b: string, r: Rest, s: string, k: string, v: string)
    requires t == w + TextOf(Sect(n, g, b, r))
    ensures Writes(t, NoKey(|w| + 1, |w| + 2 + |n| + |g|), s, k, v, w + TextOf(Inserted(n, g, Line(k, v), b, r)))
  {
    hide TextOf, Line, Inserted;
    var w' := SectionText(t, w, n, g, b, r);
    InsertedText(w, n, g, Line(k, v), b, r);
    assert t == w' + (b + TextOf(r));
    InsertText(t, w', b + TextOf(r), Line(k, v));
  }

  /** Editing the text at the offsets found is editing the tree. */
  lemma {:induction false} PutText(t: string, w: string, r: Rest, s: string, k: string, v: string, acc: Place)
    requires t == w + TextOf(r) && HasSec(r, s)
    ensures Writes(t, Locate(r, s, k, |w|, acc), s, k, v, w + TextOf(Put(r, s, k, v)))
    decreases r
  {
    hide Find, Defines, TextOf, Inserted, ReplaceAt, Line, Writes;
    match r
    case Dangling(n) =>
      WriteDangling(t, w, n, s, k, v);
    case Sect(n, g, b, r') =>
      if n <= s && Find(b, k, 0).Slot? {
        FindOk(b, k, 0);
        var x := Find(b, k, 0);
        WriteHit(t, w, n, g, b, r', s, k, v, x.line, x.eq, x.end);
      } else if HasSec(r', s) {
        var w' := SectionText(t, w, n, g, b, r');
        PutText(t, w' + b, r', s, k, v, if n <= s then NoKey(|w| + 1, |w'|) else acc);
        SectionJoin(w, n, g, b, Put(r', s, k, v));
      } else {
        LocateMisses(r', s, k, |w| + 2 + |n| + |g| + |b|, NoKey(|w| + 1, |w| + 2 + |n| + |g|));
        WriteInsert(t, w, n, g, b, r', s, k, v);
      }
  }

  lemma {:induction false} AppendedText(w: string, r: Rest, s: string, line: string)
    requires !r.Eof?
    ensures w + TextOf(Appended(r, s, line)) == (w + TextOf(r)) + "\n" + ("[" + s + "]\n" + line)
    decreases r
  {
    match r
    case Dangling(n) =>
      LastSection(s, line);
      assert w + ("[" + (n + "\n[" + s) + "]" + "\n" + line) == (w + ("[" + n)) + "\n" + ("[" + s + "]\n" + line);
    case Sect(n, g, b, r') =>
      var w' := w + "[" + n + "]" + g + b;
      SectionJoin(w, n, g, b, r');
      if !r'.Eof? {
        hide TextOf;
        SectionJoin(w, n, g, b, Appended(r', s, line));
        AppendedText(w', r', s, line);
      } else {
        AppendedLast(w, n, g, b, s, line);
      }
  }

  lemma LastSection(s: string, line: string)
    ensures TextOf(Sect(s, "\n", line, Eof)) == "[" + s + "]\n" + line
  {
    assert "[" + s + "]" + "\n" + line + "" == "[" + s + "]\n" + line;
  }

  lemma AppendedLast(w: string, n: string, g: string, b: string, s: string, line: string)
    ensures w + TextOf(Appended(Sect(n, g, b, Eof), s, line))
            == (w + "[" + n + "]" + g + b) + "\n" + ("[" + s + "]\n" + line)
  {
    LastSection(s, line);
    var last := Sect(s, "\n", line, Eof);
    hide TextOf;
    if b == "" {
      SectionJoin(w, n, g + "\n", "", last);
      assert w + "[" + n + "]" + (g + "\n") + "" == (w + "[" + n + "]" + g + b) + "\n";
    } else {
      SectionJoin(w, n, g, b + "\n", last);
      assert w + "[" + n + "]" + g + (b + "\n") == (w + "[" + n + "]" + g + b) + "\n";
    }
  }

  /** write_profile_string edits the tree. */
  lemma WriteIsTree(x: Ini, s: string, k: string, v: string)
    requires Valid(x) && CString(Text(x))
    ensures WriteText(Text(x), s, k, v) == Text(WriteTree(x, s, k, v))
  {
    var t := Text(x);
    ParseIsLocate(x, s, k);
    ParseTextOk(t, s, k);
    if HasSec(x.rest, s) {
      PutText(t, x.pre, x.rest, s, k, v, NoSection);
    } else {
      LocateMisses(x.rest, s, k, |x.pre|, NoSection);
      if !x.rest.Eof? {
        AppendedText(x.pre, x.rest, s, Line(k, v));
      }
    }
  }
}
