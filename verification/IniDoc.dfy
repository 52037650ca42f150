/** Documents as people write them: headers, blank lines, comments and key=value lines. Their texts read back as the
    map they spell out, and a write to such a text is an update of that map. */
module IniDoc {
  import opened Basics
  import opened IniScan
  import opened IniTree
  import opened IniLookup
  import opened IniBody
  import opened IniEdit
  import opened IniValid
  import opened IniLaws

  // The tree of a text is the only one

  lemma FirstHeaderIs(t: string, bol: bool, h: nat)
    requires h <= |t| && NoHeader(t[..h], bol) && (h < |t| ==> t[h] == '[' && AtLineStart(t[..h], bol))
    ensures FirstHeader(t, bol) == h
  {
    hide FirstHeader;
    var f := FirstHeader(t, bol);
    var i, u := if f < h then f else h, t[..if f < h then h else f];
    if f != h {
      HeaderThere(t, bol, i, u);
    }
  }

  lemma HeaderThere(t: string, bol: bool, i: nat, u: string)
    requires i < |u| && u <= t && t[i] == '[' && AtLineStart(t[..i], bol)
    ensures HeaderIn(u, i, bol)
  {
  }

  lemma SectPieces(t: string, n: string, g: string, b: string, u: string)
    requires t == "[" + n + "]" + g + b + u
    ensures var c, e := 1 + |n|, 2 + |n| + |g|;
            && |t| == e + |b| + |u| && t[0] == '[' && t[c] == ']'
            && t[1..c] == n && t[c + 1..e] == g && t[e..e + |b|] == b && t[e + |b|..] == u && t[e..] == b + u
  {
  }

  lemma ChopName(t: string, n: string)
    requires 1 + |n| <= |t| && t[1..1 + |n|] == n && ']' !in n && (1 + |n| < |t| ==> t[1 + |n|] == ']')
    ensures Until(t, 1, IsClose) == 1 + |n|
  {
    forall x | 1 <= x < 1 + |n|
      ensures !IsClose(t[x])
    {
      assert t[x] == n[x - 1] && n[x - 1] in n;
    }
    UntilIs(t, 1, IsClose, 1 + |n|);
  }

  lemma ChopGap(t: string, i: nat, g: string)
    requires i + |g| <= |t| && t[i..i + |g|] == g && Spaces(g) && (i + |g| < |t| ==> !Space(t[i + |g|]))
    ensures Until(t, i, EndsSpace) == i + |g|
  {
    forall x | i <= x < i + |g|
      ensures !EndsSpace(t[x])
    {
      assert t[x] == g[x - i];
    }
    UntilIs(t, i, EndsSpace, i + |g|);
  }

  lemma BodyJoin(b: string, u: string)
    requires (b != "" ==> !Space(b[0])) && (u != "" ==> u[0] == '[')
    ensures (b + u)[..|b|] == b && (b + u)[|b|..] == u && (b + u != "" ==> !Space((b + u)[0]))
  {
  }

  lemma NextAfter(t: string, e: nat, w: string)
    requires e <= |t| && t[e..] == w && (w != "" ==> !Space(w[0]))
    ensures e < |t| ==> !Space(t[e])
  {
  }

  lemma GapFound(t: string, n: string, g: string, b: string, u: string)
    requires t == "[" + n + "]" + g + b + u && Spaces(g)
    requires (b != "" ==> !Space(b[0])) && (u != "" ==> u[0] == '[')
    ensures Until(t, 2 + |n|, EndsSpace) == 2 + |n| + |g|
  {
    hide Until, Spaces;
    SectPieces(t, n, g, b, u);
    BodyJoin(b, u);
    NextAfter(t, 2 + |n| + |g|, b + u);
    ChopGap(t, 2 + |n|, g);
  }

  lemma BodyFound(g: string, b: string, u: string)
    requires NoHeader(b, AtLineStart(g, false)) && (u != "" ==> AtLineStart(b, AtLineStart(g, false)) && u[0] == '[')
    requires b != "" ==> !Space(b[0])
    ensures FirstHeader(b + u, AtLineStart(g, false)) == |b|
  {
    hide NoHeader, FirstHeader;
    BodyJoin(b, u);
    FirstHeaderIs(b + u, AtLineStart(g, false), |b|);
  }

  lemma ChopSect(t: string, n: string, g: string, b: string, u: string)
    requires t == "[" + n + "]" + g + b + u && SectOk(n, g, b, u == "") && (u != "" ==> u[0] == '[')
    ensures Chop(t) == Sect(n, g, b, Chop(u))
  {
    FirstSectionIs(t, n, g, b, u);
    hide FirstSection, Unclosed, SectOk;
  }

  lemma FirstSectionIs(t: string, n: string, g: string, b: string, u: string)
    requires t == "[" + n + "]" + g + b + u && SectOk(n, g, b, u == "") && (u != "" ==> u[0] == '[')
    ensures t[0] == '[' && !Unclosed(t) && FirstSection(t) == Piece(n, g, b, u)
  {
    hide NoHeader, FirstHeader, Until, Spaces, AtLineStart, Space, FirstSection;
    var c, e := 1 + |n|, 2 + |n| + |g|;
    SectPieces(t, n, g, b, u);
    ChopName(t, n);
    GapFound(t, n, g, b, u);
    BodyFound(g, b, u);
    FirstSectionUnfolds(t, c, e, e + |b|);
  }

  lemma FirstSectionUnfolds(t: string, c: nat, e: nat, h: nat)
    requires t != "" && t[0] == '[' && c == Until(t, 1, IsClose) < |t| && e == Until(t, c + 1, EndsSpace)
    requires h == e + FirstHeader(t[e..], AtLineStart(t[c + 1..e], false))
    ensures !Unclosed(t) && FirstSection(t) == Piece(t[1..c], t[c + 1..e], t[e..h], t[h..])
  {
    hide Until, FirstHeader, AtLineStart;
  }

  lemma {:induction false} ChopUnique(r: Rest)
    requires ValidRest(r)
    ensures Chop(TextOf(r)) == r
    decreases r
  {
    match r
    case Eof =>
    case Dangling(n) =>
      assert ("[" + n)[1..] == n;
      ChopName("[" + n, n);
    case Sect(n, g, b, r') =>
      hide Chop, SectOk;
      TextOfHeader(r');
      ChopSect(TextOf(r), n, g, b, TextOf(r'));
      ChopUnique(r');
  }

  /** A valid tree is the tree of its text: texts and valid trees correspond one to one. */
  lemma TreeUnique(x: Ini)
    requires Valid(x)
    ensures Tree(Text(x)) == x
  {
    hide Chop, FirstHeader, SectOk, ValidRest, TextOf, NoHeader;
    var t, h := Text(x), |x.pre|;
    TextOfHeader(x.rest);
    assert t[..h] == x.pre && t[h..] == TextOf(x.rest);
    FirstHeaderIs(t, true, h);
    ChopUnique(x.rest);
  }

  // Documents, in the characters of the file

  /** `end` is what closes the line in the file. */
  datatype DocLine = Blank(end: string) | Comment(text: string, end: string)
                   | Pair(key: string, value: string, end: string)

  /** `gap` is the white space between the header and the first line. */
  datatype DocSection = DocSection(name: string, gap: string, lines: seq<DocLine>)

  predicate White(c: char) { c in " \t\n\U{0B}\U{0C}\r" }

  predicate DocTextOk(v: string) { '\n' !in v && '\r' !in v && '\0' !in v }

  predicate DocLineOk(l: DocLine) {
    && (l.end == "\n" || l.end == "\r" || l.end == "\r\n")
    && match l
       case Blank(_) => true
       case Comment(c, _) => DocTextOk(c)
       case Pair(k, v, _) =>
         k != "" && DocTextOk(k) && '=' !in k && k[0] != ';' && k[0] != '[' && !White(k[0]) && DocTextOk(v)
  }

  predicate DocSectionOk(x: DocSection) {
    && ']' !in x.name && '\0' !in x.name
    && (forall c :: c in x.gap ==> White(c))
    && (x.lines == [] ==> x.gap != "" && (x.gap[|x.gap| - 1] == '\n' || x.gap[|x.gap| - 1] == '\r'))
    && forall l :: l in x.lines ==> DocLineOk(l)
  }

  predicate DocOk(doc: seq<DocSection>) { forall x :: x in doc ==> DocSectionOk(x) }

  function LineText(l: DocLine): string {
    match l
    case Blank(e) => e
    case Comment(c, e) => ";" + c + e
    case Pair(k, v, e) => k + "=" + v + e
  }

  function LinesText(ls: seq<DocLine>): string {
    if ls == [] then "" else LineText(ls[0]) + LinesText(ls[1..])
  }

  function Render(doc: seq<DocSection>): string {
    if doc == [] then ""
    else "[" + doc[0].name + "]" + doc[0].gap + LinesText(doc[0].lines) + Render(doc[1..])
  }

  /** What the document spells out for (s, k): the first pair of that key in a section of that name. */
  function DocValue(doc: seq<DocSection>, s: string, k: string): Option<string> {
    if doc == [] then None
    else if doc[0].name == s && LinesValue(doc[0].lines, k).Some? then LinesValue(doc[0].lines, k)
    else DocValue(doc[1..], s, k)
  }

  function LinesValue(ls: seq<DocLine>, k: string): Option<string> {
    if ls == [] then None
    else if ls[0].Pair? && ls[0].key == k then Some(ls[0].value)
    else LinesValue(ls[1..], k)
  }

  /** No section name or key of the document is a proper prefix of one in use. */
  predicate DocExact(doc: seq<DocSection>, d: set<(string, string)>) {
    forall x, p :: x in doc && p in d && x.name <= p.0 ==> x.name == p.0 && KeysExact(x.lines, p.1)
  }

  predicate KeysExact(ls: seq<DocLine>, k: string) {
    forall l :: l in ls && l.Pair? && l.key <= k ==> l.key == k
  }

  // The scanner's character classes and the characters of a document

  lemma DocText(v: string)
    requires DocTextOk(v)
    ensures ValueOk(v) && CString(v)
  {
    forall i | 0 <= i < |v|
      ensures !EndsLine(v[i])
    {
      assert v[i] in v;
    }
  }

  lemma DocKey(l: DocLine)
    requires DocLineOk(l) && l.Pair?
    ensures KeyOk(l.key)
  {
    DocText(l.key);
    assert forall i :: 0 <= i < |l.key| ==> l.key[i] in l.key;
  }

  lemma DocName(x: DocSection)
    requires DocSectionOk(x)
    ensures SectionNameOk(x.name)
  {
    assert forall i :: 0 <= i < |x.name| ==> x.name[i] in x.name;
  }

  lemma DocGap(x: DocSection)
    requires DocSectionOk(x)
    ensures Spaces(x.gap) && CString(x.gap) && (x.lines == [] ==> AtLineStart(x.gap, false))
  {
    assert forall i :: 0 <= i < |x.gap| ==> x.gap[i] in x.gap;
  }

  // One character closes each line: "\r\n" closes a line and an empty one

  predicate Single(ls: seq<DocLine>) { forall l :: l in ls ==> DocLineOk(l) && |l.end| == 1 }

  function Singles(ls: seq<DocLine>): seq<DocLine> {
    if ls == [] then []
    else (if ls[0].end == "\r\n" then [ls[0].(end := "\r"), Blank("\n")] else [ls[0]]) + Singles(ls[1..])
  }

  lemma SinglesFirst(l: DocLine, us: seq<DocLine>, k: string)
    requires l.end == "\r\n"
    ensures var ls := [l.(end := "\r"), Blank("\n")] + us;
            && LinesText(ls) == LineText(l) + LinesText(us)
            && PairFor(ls, k) == (if l.Pair? && l.key <= k then Some(Entry(l.key, l.value)) else PairFor(us, k))
  {
    var l' := l.(end := "\r");
    var ls := [l', Blank("\n")] + us;
    assert ls[1..] == [Blank("\n")] + us && ([Blank("\n")] + us)[1..] == us;
    assert LinesText(ls) == LineText(l') + ("\n" + LinesText(us));
    assert LineText(l) == LineText(l') + "\n";
    StringAssoc(LineText(l'), "\n", LinesText(us));
  }

  lemma {:induction false} SinglesSingle(ls: seq<DocLine>)
    requires forall l :: l in ls ==> DocLineOk(l)
    ensures Single(Singles(ls)) && (Singles(ls) == [] <==> ls == [])
    decreases |ls|
  {
    hide DocLineOk;
    if ls != [] {
      assert ls[0] in ls;
      SinglesSingle(ls[1..]);
      SingleEnds(ls[0]);
      var us := if ls[0].end == "\r\n" then [ls[0].(end := "\r"), Blank("\n")] else [ls[0]];
      assert Single(us);
      assert forall l :: l in us + Singles(ls[1..]) ==> l in us || l in Singles(ls[1..]);
    }
  }

  /** The text is the same, and so is what each key reads. */
  lemma {:induction false} SinglesSame(ls: seq<DocLine>, k: string)
    ensures LinesText(Singles(ls)) == LinesText(ls) && PairFor(Singles(ls), k) == PairFor(ls, k)
    decreases |ls|
  {
    hide LinesText, LineText, PairFor;
    if ls != [] {
      var us := Singles(ls[1..]);
      SinglesSame(ls[1..], k);
      LinesCons(ls, k);
      if ls[0].end == "\r\n" {
        SinglesFirst(ls[0], us, k);
      } else {
        assert ([ls[0]] + us)[1..] == us;
        LinesCons([ls[0]] + us, k);
      }
    }
  }

  lemma SingleEnds(l: DocLine)
    requires DocLineOk(l)
    ensures l.end != "\r\n" ==> |l.end| == 1
    ensures l.end == "\r\n" ==> var l' := l.(end := "\r"); DocLineOk(l') && |l'.end| == 1
    ensures DocLineOk(Blank("\n")) && |Blank("\n").end| == 1
  {
  }

  lemma LinesCons(ls: seq<DocLine>, k: string)
    requires ls != []
    ensures LinesText(ls) == LineText(ls[0]) + LinesText(ls[1..])
    ensures PairFor(ls, k)
            == if ls[0].Pair? && ls[0].key <= k then Some(Entry(ls[0].key, ls[0].value)) else PairFor(ls[1..], k)
  {
  }

  /** The blank lines a section begins with: the scanner skips them with the header. */
  function Blanks(ls: seq<DocLine>): (n: nat)
    ensures n <= |ls|
    ensures n < |ls| ==> !ls[n].Blank?
    ensures forall i :: 0 <= i < n ==> ls[i].Blank?
  {
    if ls == [] || !ls[0].Blank? then 0 else 1 + Blanks(ls[1..])
  }

  function GapOf(x: DocSection): string {
    var ls := Singles(x.lines);
    x.gap + LinesText(ls[..Blanks(ls)])
  }

  function BodyOf(x: DocSection): string {
    var ls := Singles(x.lines);
    LinesText(ls[Blanks(ls)..])
  }

  function DocRest(doc: seq<DocSection>): Rest {
    if doc == [] then Eof else Sect(doc[0].name, GapOf(doc[0]), BodyOf(doc[0]), DocRest(doc[1..]))
  }

  /** The first pair whose key is a prefix of `k`. */
  function PairFor(ls: seq<DocLine>, k: string): Option<Entry> {
    if ls == [] then None
    else if ls[0].Pair? && ls[0].key <= k then Some(Entry(ls[0].key, ls[0].value))
    else PairFor(ls[1..], k)
  }

  /** One line of text with its line end. */
  predicate OneLine(u: string) {
    u != "" && NewLine(u[|u| - 1]) && u[0] != '[' && forall i :: 0 <= i < |u| - 1 ==> !EndsLine(u[i])
  }

  lemma OneEnd(l: DocLine)
    requires DocLineOk(l) && |l.end| == 1
    ensures l.end == [l.end[0]] && NewLine(l.end[0]) && l.end[0] != NUL && Space(l.end[0])
  {
  }

  lemma LineTextOk(l: DocLine)
    requires DocLineOk(l) && |l.end| == 1
    ensures OneLine(LineText(l)) && CString(LineText(l))
    ensures !l.Blank? ==> !Space(LineText(l)[0])
  {
    var u := LineText(l);
    OneEnd(l);
    match l
    case Blank(_) =>
    case Comment(c, _) =>
      DocText(c);
      forall i | 0 <= i < |u| - 1
        ensures !EndsLine(u[i])
      {
        if i > 0 {
          assert u[i] == c[i - 1];
        }
      }
    case Pair(k, v, e) =>
      DocKey(l);
      DocText(v);
      EndedShape(k, v, e[0], "");
      assert k + "=" + v + [e[0]] + "" == u;
      assert u[0] == k[0];
  }

  lemma LinePrepended(u: string, b: string, bol: bool)
    requires OneLine(u) && NoHeader(b, true) && AtLineStart(b, true)
    ensures NoHeader(u + b, bol) && AtLineStart(u + b, bol)
  {
    var t := u + b;
    forall i | 0 <= i < |t|
      ensures !HeaderIn(t, i, bol)
    {
      if i < |u| {
        assert t[i] == u[i] && (i > 0 ==> t[i - 1] == u[i - 1] && !EndsLine(u[i - 1]));
      } else {
        assert t[i] == b[i - |u|] && !HeaderIn(b, i - |u|, true);
      }
    }
  }

  lemma {:induction false} LinesOk(ls: seq<DocLine>)
    requires Single(ls)
    ensures var b := LinesText(ls);
            && CString(b) && NoHeader(b, true) && AtLineStart(b, true)
            && (b != "" ==> b[0] != '[' && (!ls[0].Blank? ==> !Space(b[0])))
            && (b == "" <==> ls == [])
    decreases |ls|
  {
    if ls != [] {
      hide LineText, NoHeader, DocLineOk;
      LineTextOk(ls[0]);
      LinesOk(ls[1..]);
      LinePrepended(LineText(ls[0]), LinesText(ls[1..]), true);
      CStringParts(LineText(ls[0]), LinesText(ls[1..]));
    } else {
      assert NoHeader("", true);
    }
  }

  lemma SkippedShape(u: string, b: string, k: string)
    requires OneLine(u) && (u[0] == ';' || |u| == 1)
    ensures var t := u + b;
            Until(t, 0, EndsLine) == |u| - 1 && !Defines(t, 0, k) && Aligned(b, t, |u|, 0, |b|)
  {
    var t := u + b;
    assert forall x :: 0 <= x < |u| ==> t[x] == u[x];
    UntilIs(t, 0, EndsLine, |u| - 1);
    assert |u| == 1 ==> Until(t, 0, EndsKey) == 0;
  }

  lemma SkippedLine(u: string, b: string, k: string)
    requires OneLine(u) && (u[0] == ';' || |u| == 1)
    ensures Lookup(u + b, k) == Lookup(b, k)
  {
    hide Find, Until, Aligned, Defines, EntryFrom;
    SkippedShape(u, b, k);
    ValueLine(u + b, k, 0);
    if b == "" {
      ValueEnds(b, k);
      ValueEnds(u + b, k);
    } else {
      ValueAligned(b, u + b, |u|, k, 0);
    }
  }

  lemma {:induction false} LinesLookup(ls: seq<DocLine>, k: string)
    requires Single(ls)
    ensures Lookup(LinesText(ls), k) == PairFor(ls, k)
    decreases |ls|
  {
    if ls == [] {
      ValueOfEmpty(k);
    } else {
      hide Find, Lookup, KeyOk, ValueOk, DocTextOk;
      LinesOk(ls[1..]);
      LinesLookup(ls[1..], k);
      LineTextOk(ls[0]);
      OneEnd(ls[0]);
      match ls[0]
      case Blank(e) => SkippedLine(e, LinesText(ls[1..]), k);
      case Comment(c, e) => SkippedLine(";" + c + e, LinesText(ls[1..]), k);
      case Pair(q, v, e) =>
        DocKey(ls[0]);
        DocText(v);
        EndedValue(q, v, e[0], LinesText(ls[1..]), k);
    }
  }

  lemma {:induction false} BlanksText(ls: seq<DocLine>)
    requires Single(ls) && forall l :: l in ls ==> l.Blank?
    ensures Spaces(LinesText(ls)) && AtLineStart(LinesText(ls), true)
    decreases |ls|
  {
    if ls != [] {
      OneEnd(ls[0]);
      BlanksText(ls[1..]);
    }
  }

  lemma {:induction false} BlanksSkipped(ls: seq<DocLine>, us: seq<DocLine>, k: string)
    requires forall l :: l in ls ==> l.Blank?
    ensures PairFor(ls + us, k) == PairFor(us, k)
    decreases |ls|
  {
    if ls == [] {
      assert ls + us == us;
    } else {
      assert ls[0] in ls && (ls + us)[0] == ls[0];
      BlanksSkipped(ls[1..], us, k);
      assert (ls + us)[1..] == ls[1..] + us;
    }
  }

  lemma {:induction false} LinesJoin(ls: seq<DocLine>, us: seq<DocLine>)
    ensures LinesText(ls + us) == LinesText(ls) + LinesText(us)
    decreases |ls|
  {
    hide LineText;
    if ls == [] {
      assert ls + us == us;
    } else {
      LinesJoin(ls[1..], us);
      ConsJoin(ls, us);
      StringAssoc(LineText(ls[0]), LinesText(ls[1..]), LinesText(us));
    }
  }

  lemma ConsJoin(ls: seq<DocLine>, us: seq<DocLine>)
    requires ls != []
    ensures LinesText(ls + us) == LineText(ls[0]) + LinesText(ls[1..] + us)
  {
    assert (ls + us)[0] == ls[0] && (ls + us)[1..] == ls[1..] + us;
  }

  lemma StringAssoc(a: string, b: string, c: string)
    ensures a + b + c == a + (b + c)
  {
  }

  /** The lines of a section split into blank ones and the body the scanner looks into. */
  lemma LinesSplit(ls: seq<DocLine>, k: string)
    requires Single(ls)
    ensures var n := Blanks(ls);
            var g, b := LinesText(ls[..n]), LinesText(ls[n..]);
            && LinesText(ls) == g + b && Lookup(b, k) == PairFor(ls, k)
            && Spaces(g) && AtLineStart(g, true) && (g == "" && b == "" ==> ls == [])
            && CString(g) && CString(b) && NoHeader(b, true) && AtLineStart(b, true)
            && (b != "" ==> b[0] != '[' && !Space(b[0]))
  {
    hide LinesText, NoHeader, Find, Lookup, PairFor, DocLineOk;
    var n := Blanks(ls);
    assert ls == ls[..n] + ls[n..];
    assert forall i :: 0 <= i < n ==> ls[i].Blank?;
    BlanksText(ls[..n]);
    BlanksSkipped(ls[..n], ls[n..], k);
    LinesJoin(ls[..n], ls[n..]);
    LinesOk(ls[..n]);
    LinesOk(ls[n..]);
    LinesLookup(ls[n..], k);
  }

  lemma GapJoin(g: string, u: string, b: string, noLines: bool)
    requires Spaces(g) && Spaces(u) && AtLineStart(u, true) && (noLines ==> AtLineStart(g, false))
    requires NoHeader(b, true) && AtLineStart(b, true) && (b != "" ==> b[0] != '[') && (u == "" && b == "" ==> noLines)
    ensures Spaces(g + u) && NoHeader(b, AtLineStart(g + u, false)) && AtLineStart(b, AtLineStart(g + u, false))
  {
    forall i | 0 <= i < |b|
      ensures !HeaderIn(b, i, AtLineStart(g + u, false))
    {
      assert !HeaderIn(b, i, true);
    }
    assert u == "" ==> g + u == g;
  }

  /** A section of the document is a section of the tree. */
  lemma SectionFits(x: DocSection, k: string)
    requires DocSectionOk(x)
    ensures var g, b := GapOf(x), BodyOf(x);
            && SectOk(x.name, g, b, false) && CString(x.name) && CString(g) && CString(b) && (b != "" ==> b[0] != '[')
            && Lookup(b, k) == PairFor(x.lines, k)
            && g + b == x.gap + LinesText(x.lines)
  {
    hide LinesText, NoHeader, Lookup, PairFor, DocLineOk, Singles, Single, AtLineStart, Spaces, CString, White, Space;
    var ls := Singles(x.lines);
    var n := Blanks(ls);
    SinglesSingle(x.lines);
    SinglesSame(x.lines, k);
    LinesSplit(ls, k);
    DocName(x);
    DocGap(x);
    var u, b := LinesText(ls[..n]), LinesText(ls[n..]);
    GapJoin(x.gap, u, b, x.lines == []);
    CStringParts(x.gap, u);
    StringAssoc(x.gap, u, b);
    NameFree(x);
  }

  lemma NameFree(x: DocSection)
    requires DocSectionOk(x)
    ensures ']' !in x.name && CString(x.name)
  {
    DocName(x);
  }

  lemma SectionText(n: string, g: string, b: string, u: string, g': string, w: string)
    requires g + b == g' + w
    ensures "[" + n + "]" + g + b + u == "[" + n + "]" + g' + w + u
  {
    assert "[" + n + "]" + g + b == "[" + n + "]" + (g + b);
    assert "[" + n + "]" + g' + w == "[" + n + "]" + (g' + w);
  }

  lemma {:induction false} DocRestOk(doc: seq<DocSection>, d: set<(string, string)>)
    requires DocOk(doc) && DocExact(doc, d)
    ensures var r := DocRest(doc);
            ValidRest(r) && TextOf(r) == Render(doc) && Clean(r) && Good(r) && Exact(r, d) && (r.Eof? <==> doc == [])
    decreases |doc|
  {
    if doc != [] {
      hide LinesText, SectOk, Lookup, GapOf, BodyOf, PairFor, DocSectionOk, CString, KeysExact;
      var x := doc[0];
      assert x in doc;
      DocRestOk(doc[1..], d);
      SectionFits(x, "");
      SectLast(x.name, GapOf(x), BodyOf(x));
      SectionText(x.name, GapOf(x), BodyOf(x), Render(doc[1..]), x.gap, LinesText(x.lines));
      forall p | p in d
        ensures ExactIn(x.name, BodyOf(x), p)
      {
        SectionFits(x, p.1);
        if x.name <= p.0 {
          PairExact(x.lines, p.1);
        }
      }
    }
  }

  lemma SectLast(n: string, g: string, b: string)
    requires SectOk(n, g, b, false)
    ensures SectOk(n, g, b, true)
  {
  }

  lemma {:induction false} PairExact(ls: seq<DocLine>, k: string)
    requires KeysExact(ls, k)
    ensures match PairFor(ls, k)
            case None => LinesValue(ls, k) == None
            case Some(e) => e.key == k && LinesValue(ls, k) == Some(e.value)
    decreases |ls|
  {
    if ls != [] {
      assert ls[0] in ls;
      assert KeysExact(ls[1..], k);
      PairExact(ls[1..], k);
    }
  }

  /** The tree of a document answers with what the document spells out. */
  lemma {:induction false} DocGet(doc: seq<DocSection>, d: set<(string, string)>, p: (string, string))
    requires DocOk(doc) && DocExact(doc, d) && p in d
    ensures Get(DocRest(doc), p.0, p.1) == DocValue(doc, p.0, p.1)
    decreases |doc|
  {
    if doc != [] {
      hide GapOf, BodyOf, Value, LinesValue, DocSectionOk, KeysExact;
      var x := doc[0];
      assert x in doc;
      DocGet(doc[1..], d, p);
      if x.name <= p.0 {
        SectionValue(x, p.1);
      }
    }
  }

  lemma SectionValue(x: DocSection, k: string)
    requires DocSectionOk(x) && KeysExact(x.lines, k)
    ensures Value(BodyOf(x), k) == LinesValue(x.lines, k)
  {
    hide LinesText, Lookup, PairFor, LinesValue, DocSectionOk, SectOk, GapOf, BodyOf;
    SectionFits(x, k);
    PairExact(x.lines, k);
  }

  /** A document reads back as the map it spells out, whether its lines end in "\n", "\r" or "\r\n"; after any run of
      writes, as that map with the run's updates. */
  lemma DocumentIsMap(doc: seq<DocSection>, ws: seq<Write>, d: set<(string, string)>, s: string, k: string)
    requires DocOk(doc) && DocExact(doc, d) && PrefixFree(d) && (s, k) in d
    requires forall w :: w in ws ==> ArgsOk(w.s, w.k, w.v) && (w.s, w.k) in d
    ensures ReadText(Render(doc), s, k) == DocValue(doc, s, k)
    ensures ReadText(Run(Render(doc), ws), s, k) == Last(ws, s, k, DocValue(doc, s, k))
  {
    hide DocOk, DocExact, PrefixFree, ArgsOk, Good, Exact, Get, ReadText, DocValue, ParseText, DocRest, Render, TextOf,
      ValidRest, Clean, Run, Last, CString;
    var x := Ini("", DocRest(doc));
    DocRestOk(doc, d);
    DocGet(doc, d, (s, k));
    CleanText(x.rest);
    assert Text(x) == Render(doc);
    ReadIsGet(x, s, k);
    RunIsMap(x, ws, d, s, k);
  }
}
