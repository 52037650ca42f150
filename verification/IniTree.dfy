/** A lossless syntax tree for INI texts: every text without NUL bytes is the text of exactly one valid tree.
    The headers it records are the ones the scanner meets whatever section it looks for. */
module IniTree {
  import opened Basics
  import opened IniScan

  /** The part of a text from its first header on. A header whose ']' is missing swallows the rest. */
  datatype Rest =
    | Eof
    | Dangling(name: string)
    | Sect(name: string, gap: string, body: string, rest: Rest)

  datatype Ini = Ini(pre: string, rest: Rest)

  function TextOf(r: Rest): string {
    match r
    case Eof => ""
    case Dangling(n) => "[" + n
    case Sect(n, g, b, r') => "[" + n + "]" + g + b + TextOf(r')
  }

  function Text(x: Ini): string { x.pre + TextOf(x.rest) }

  /** Is the position after `x` a line start, when the position before it is one iff `bol`? */
  predicate AtLineStart(x: string, bol: bool) {
    if x == "" then bol else NewLine(x[|x| - 1])
  }

  predicate HeaderIn(x: string, i: nat, bol: bool)
    requires i < |x|
  {
    x[i] == '[' && if i == 0 then bol else NewLine(x[i - 1])
  }

  predicate NoHeader(x: string, bol: bool) {
    forall i :: 0 <= i < |x| ==> !HeaderIn(x, i, bol)
  }

  predicate Spaces(g: string) { forall i :: 0 <= i < |g| ==> Space(g[i]) }

  /** One closed section, followed by another header unless it is the last. */
  predicate SectOk(n: string, g: string, b: string, last: bool) {
    && ']' !in n && Spaces(g)
    && (b != "" ==> !Space(b[0]))
    && NoHeader(b, AtLineStart(g, false))
    && (last || AtLineStart(b, AtLineStart(g, false)))
  }

  predicate ValidRest(r: Rest) {
    match r
    case Eof => true
    case Dangling(n) => ']' !in n
    case Sect(n, g, b, r') => SectOk(n, g, b, r'.Eof?) && ValidRest(r')
  }

  predicate Valid(x: Ini) {
    && NoHeader(x.pre, true)
    && (x.rest.Eof? || AtLineStart(x.pre, true))
    && ValidRest(x.rest)
  }

  /** The first header of a text, or its length. */
  function FirstHeader(t: string, bol: bool): (h: nat)
    ensures h <= |t| && NoHeader(t[..h], bol)
    ensures h < |t| ==> t[h] == '[' && AtLineStart(t[..h], bol)
  {
    if t == "" || (bol && t[0] == '[') then 0
    else
      var h := 1 + FirstHeader(t[1..], NewLine(t[0]));
      FirstHeaderStep(t, bol, h);
      h
  }

  lemma FirstHeaderStep(t: string, bol: bool, h: nat)
    requires t != "" && !(bol && t[0] == '[') && 1 <= h <= |t|
    requires NoHeader(t[1..][..h - 1], NewLine(t[0]))
    ensures NoHeader(t[..h], bol)
    ensures AtLineStart(t[..h], bol) == AtLineStart(t[1..][..h - 1], NewLine(t[0]))
  {
    var x := t[1..][..h - 1];
    forall i | 0 <= i < h
      ensures !HeaderIn(t[..h], i, bol)
    {
      if i > 0 {
        assert !HeaderIn(x, i - 1, NewLine(t[0]));
      }
    }
  }

  predicate IsClose(c: char) { c == ']' }

  /** Does the header at the start of the text lack its ']'? */
  predicate Unclosed(t: string)
    requires t != ""
  {
    Until(t, 1, IsClose) == |t|
  }

  /** The first section of a text that begins with a closed header, and what follows it. */
  datatype Piece = Piece(name: string, gap: string, body: string, after: string)

  function FirstSection(t: string): (p: Piece)
    requires t != "" && t[0] == '[' && !Unclosed(t)
    ensures |p.after| < |t| && (p.after == "" || p.after[0] == '[')
  {
    var c := Until(t, 1, IsClose);
    var e := Until(t, c + 1, EndsSpace);
    var h := e + FirstHeader(t[e..], AtLineStart(t[c + 1..e], false));
    Piece(t[1..c], t[c + 1..e], t[e..h], t[h..])
  }

  function Chop(t: string): (r: Rest)
    requires t == "" || t[0] == '['
    ensures r.Eof? <==> t == ""
    decreases |t|
  {
    if t == "" then Eof
    else if Unclosed(t) then Dangling(t[1..])
    else
      var p := FirstSection(t);
      Sect(p.name, p.gap, p.body, Chop(p.after))
  }

  lemma SpaceRun(t: string, i: nat)
    requires i <= |t|
    ensures Spaces(t[i..Until(t, i, EndsSpace)])
  {
    var e := Until(t, i, EndsSpace);
    forall x | 0 <= x < e - i
      ensures Space(t[i..e][x])
    {
      assert !EndsSpace(t[i + x]);
    }
  }

  lemma Reassemble(t: string, c: nat, e: nat, h: nat)
    requires 0 < c < e <= h <= |t| && t[0] == '[' && t[c] == ']'
    ensures t == "[" + t[1..c] + "]" + t[c + 1..e] + t[e..h] + t[h..]
  {
    assert t[..c + 1] == "[" + t[1..c] + "]";
    assert t == t[..c + 1] + t[c + 1..e] + t[e..h] + t[h..];
  }

  lemma SectionOk(t: string, c: nat, e: nat, h: nat)
    requires t != "" && c == Until(t, 1, IsClose) < |t| && e == Until(t, c + 1, EndsSpace)
    requires h == e + FirstHeader(t[e..], AtLineStart(t[c + 1..e], false))
    ensures SectOk(t[1..c], t[c + 1..e], t[e..h], h == |t|)
  {
    SpaceRun(t, c + 1);
    assert t[e..][..h - e] == t[e..h];
    forall x | 0 <= x < c - 1
      ensures t[1..c][x] != ']'
    {
      assert !IsClose(t[1 + x]);
    }
  }

  lemma FirstSectionOk(t: string)
    requires t != "" && t[0] == '[' && !Unclosed(t)
    ensures var p := FirstSection(t);
            && SectOk(p.name, p.gap, p.body, p.after == "")
            && t == "[" + p.name + "]" + p.gap + p.body + p.after
  {
    hide SectOk, AtLineStart, NoHeader, FirstHeader;
    var c := Until(t, 1, IsClose);
    var e := Until(t, c + 1, EndsSpace);
    var h := e + FirstHeader(t[e..], AtLineStart(t[c + 1..e], false));
    SectionOk(t, c, e, h);
    Reassemble(t, c, e, h);
  }

  lemma DanglingText(t: string)
    requires t != "" && t[0] == '[' && Unclosed(t)
    ensures ']' !in t[1..] && t == "[" + t[1..]
  {
    forall x | 0 <= x < |t| - 1
      ensures t[1..][x] != ']'
    {
      assert !IsClose(t[1 + x]);
    }
  }

  lemma {:induction false} ChopOk(t: string)
    requires t == "" || t[0] == '['
    ensures ValidRest(Chop(t)) && TextOf(Chop(t)) == t
    decreases |t|
  {
    hide FirstSection, Unclosed, SectOk;
    if t == "" {
    } else if Unclosed(t) {
      DanglingText(t);
    } else {
      FirstSectionOk(t);
      ChopOk(FirstSection(t).after);
    }
  }

  function Tree(t: string): (x: Ini) {
    var h := FirstHeader(t, true);
    Ini(t[..h], Chop(t[h..]))
  }

  /** Every text is the text of its tree, and that tree is valid. */
  lemma TreeOk(t: string)
    ensures Valid(Tree(t)) && Text(Tree(t)) == t
  {
    hide FirstHeader, Chop, NoHeader, ValidRest, TextOf, AtLineStart;
    var h := FirstHeader(t, true);
    ChopOk(t[h..]);
    assert t == t[..h] + t[h..];
  }
}
