/** Looking a key up in the syntax tree, and the proof that the scanner does exactly that. */
module IniLookup {
  import opened Basics
  import opened IniScan
  import opened IniTree

  /** Where a section body defines a key: start of the line, its '=', end of the line. */
  datatype Slot = Miss | Slot(line: nat, eq: nat, end: nat)

  predicate Defines(b: string, i: nat, k: string)
    requires i < |b|
  {
    var j := Until(b, i, EndsKey);
    b[i] != ';' && i < j < Until(b, i, EndsLine) && b[i..j] <= k
  }

  /** The first line of `b`, from the line start `i`, whose text before '=' is a prefix of `k`. */
  function Find(b: string, k: string, i: nat): Slot
    requires i <= |b|
    decreases |b| - i
  {
    if i == |b| then Miss
    else
      var e := Until(b, i, EndsLine);
      if Defines(b, i, k) then Slot(i, Until(b, i, EndsKey), e)
      else if e == |b| then Miss
      else Find(b, k, e + 1)
  }

  lemma {:induction false} FindOk(b: string, k: string, i: nat)
    requires i <= |b|
    ensures var x := Find(b, k, i);
            x.Slot? ==> i <= x.line < x.eq < x.end <= |b| && b[x.eq] == '=' && Defines(b, x.line, k)
                        && x == Slot(x.line, Until(b, x.line, EndsKey), Until(b, x.line, EndsLine))
    decreases |b| - i
  {
    if i < |b| {
      var e, j := Until(b, i, EndsLine), Until(b, i, EndsKey);
      if Defines(b, i, k) {
        assert EndsKey(b[j]) && !EndsLine(b[j]);
      } else if e < |b| {
        FindOk(b, k, e + 1);
      }
    }
  }

  /** The scan of the tree, with `base` the position of its text and `acc` the last match before it. */
  function Locate(r: Rest, s: string, k: string, base: nat, acc: Place): Place {
    match r
    case Eof => acc
    case Dangling(n) => if n <= s then NoKey(base + 1, base + |n| + 2) else acc
    case Sect(n, g, b, r') =>
      var e := base + 2 + |n| + |g|;
      if n <= s then
        match Find(b, k, 0)
        case Slot(l, q, x) => Hit(base + 1, e, e + l, e + q - 1, e + q + 1, e + x)
        case Miss => Locate(r', s, k, e + |b|, NoKey(base + 1, e))
      else Locate(r', s, k, e + |b|, acc)
  }

  /** `b[lo..hi]` reads the same as `t` at a distance `d`. */
  ghost predicate Aligned(b: string, t: string, d: int, lo: nat, hi: nat) {
    lo <= hi <= |b| && 0 <= d + lo && d + hi <= |t| && forall x :: lo <= x < hi ==> b[x] == t[d + x]
  }

  lemma UntilAligned(b: string, t: string, d: int, i: nat, hi: nat, stop: char -> bool)
    requires Aligned(b, t, d, i, hi)
    ensures Until(b, i, stop) < hi ==> Until(t, d + i, stop) == d + Until(b, i, stop)
    ensures Until(b, i, stop) >= hi ==> Until(t, d + i, stop) >= d + hi
  {
    var j, m := Until(b, i, stop), Until(t, d + i, stop);
    if m < d + hi {
      assert b[m - d] == t[m];
    }
  }

  lemma {:induction false} ScanSkips(t: string, s: string, k: string, i: nat, j: nat, acc: Place)
    requires i <= j <= |t| && CString(t)
    requires forall x :: i <= x < j ==> !HeaderAt(t, x)
    ensures Scan(t, s, k, i, acc) == Scan(t, s, k, j, acc)
    decreases j - i
  {
    if i < j {
      assert !HeaderAt(t, i);
      ScanSkips(t, s, k, i + 1, j, acc);
    }
  }

  /** `b` is the part of `t` at `d`, holds no header and is followed by one or by the end of the text. */
  ghost predicate BodyAt(t: string, d: nat, b: string) {
    && CString(t) && 0 < d && Aligned(b, t, d, 0, |b|)
    && (forall x :: d <= x < d + |b| ==> !HeaderAt(t, x))
    && (d + |b| < |t| ==> HeaderAt(t, d + |b|))
  }

  lemma SameSlice(b: string, t: string, d: int, i: nat, j: nat)
    requires Aligned(b, t, d, i, j)
    ensures t[d + i..d + j] == b[i..j]
  {
  }

  /** Only the last line of the text may lack its newline. */
  lemma LastLine(t: string, d: nat, b: string, i: nat)
    requires BodyAt(t, d, b) && i < |b|
    ensures Until(b, i, EndsLine) == |b| ==> d + |b| == |t|
  {
    if Until(b, i, EndsLine) == |b| {
      assert !EndsLine(b[|b| - 1]) && b[|b| - 1] == t[d + |b| - 1];
    }
  }

  lemma BodyUnfolds(t: string, s: string, k: string, i: nat, secS: nat, secE: nat)
    requires 0 < i < |t| && t[i] != NUL && !HeaderAt(t, i)
    ensures var e, j := Until(t, i, EndsLine), Until(t, i, EndsKey);
            Body(t, s, k, i, secS, secE) ==
            if t[i] != ';' && i < j < e && t[i..j] <= k then Hit(secS, secE, i, j - 1, j + 1, e)
            else Body(t, s, k, e + 1, secS, secE)
  {
    hide Until;
  }

  /** One line of a body. */
  lemma BodyLine(t: string, s: string, k: string, d: nat, b: string, i: nat, secS: nat, secE: nat)
    requires BodyAt(t, d, b) && i < |b|
    ensures var e := Until(b, i, EndsLine);
            Body(t, s, k, d + i, secS, secE) ==
            if Defines(b, i, k) then
              var j := Until(b, i, EndsKey); Hit(secS, secE, d + i, d + j - 1, d + j + 1, d + e)
            else Body(t, s, k, d + e + 1, secS, secE)
  {
    hide Until, Body, Scan;
    var e, j := Until(b, i, EndsLine), Until(b, i, EndsKey);
    LastLine(t, d, b, i);
    UntilAligned(b, t, d, i, |b|, EndsLine);
    UntilAligned(b, t, d, i, |b|, EndsKey);
    BodyUnfolds(t, s, k, d + i, secS, secE);
    if j < e {
      SameSlice(b, t, d, i, j);
    }
  }

  function SlotPlace(x: Slot, d: nat, secS: nat, secE: nat, otherwise: Place): Place
    requires 0 < d
  {
    match x
    case Slot(l, q, e) => Hit(secS, secE, d + l, d + q - 1, d + q + 1, d + e)
    case Miss => otherwise
  }

  lemma BodyEnds(t: string, s: string, k: string, i: nat, secS: nat, secE: nat)
    requires 0 < i <= |t| + 1 && CString(t) && (i < |t| ==> HeaderAt(t, i))
    ensures Body(t, s, k, i, secS, secE) == Scan(t, s, k, i, NoKey(secS, secE))
    ensures i == |t| + 1 ==> Body(t, s, k, i, secS, secE) == Scan(t, s, k, |t|, NoKey(secS, secE))
  {
  }

  lemma BodyFits(t: string, d: nat, b: string)
    requires BodyAt(t, d, b)
    ensures CString(t) && 0 < d && d + |b| <= |t| && (d + |b| < |t| ==> HeaderAt(t, d + |b|))
  {
  }

  lemma FindEnds(b: string, k: string)
    ensures Find(b, k, |b|) == Miss
  {
  }

  lemma FindLine(b: string, k: string, i: nat)
    requires i < |b|
    ensures var e := Until(b, i, EndsLine);
            Find(b, k, i) ==
            if Defines(b, i, k) then Slot(i, Until(b, i, EndsKey), e)
            else if e == |b| then Miss else Find(b, k, e + 1)
  {
    hide Defines, Until;
  }

  /** A body is scanned line by line. */
  lemma {:induction false} BodyIsFind(t: string, s: string, k: string, d: nat, b: string, i: nat, secS: nat, secE: nat)
    requires BodyAt(t, d, b) && i <= |b|
    ensures Body(t, s, k, d + i, secS, secE) ==
            SlotPlace(Find(b, k, i), d, secS, secE, Scan(t, s, k, d + |b|, NoKey(secS, secE)))
    decreases |b| - i
  {
    hide Body, Scan, Find, Until, Defines, HeaderAt, BodyAt, Aligned;
    BodyFits(t, d, b);
    if i == |b| {
      BodyEnds(t, s, k, d + i, secS, secE);
      FindEnds(b, k);
    } else {
      BodyLine(t, s, k, d, b, i, secS, secE);
      FindLine(b, k, i);
      LastLine(t, d, b, i);
      var e := Until(b, i, EndsLine);
      if Defines(b, i, k) {
      } else if e < |b| {
        BodyIsFind(t, s, k, d, b, e + 1, secS, secE);
      } else {
        BodyEnds(t, s, k, |t| + 1, secS, secE);
      }
    }
  }

  /** Where the characters of a closed section stand in a text. */
  ghost predicate Pieces(t: string, d: nat, n: string, g: string, b: string) {
    && d + 2 + |n| + |g| + |b| <= |t|
    && t[d] == '[' && t[d + 1 + |n|] == ']'
    && Aligned(n, t, d + 1, 0, |n|)
    && Aligned(g, t, d + 2 + |n|, 0, |g|)
    && Aligned(b, t, d + 2 + |n| + |g|, 0, |b|)
  }

  lemma PiecesOf(t: string, w: string, n: string, g: string, b: string, u: string)
    requires t == w + ("[" + n + "]" + g + b + u)
    ensures Pieces(t, |w|, n, g, b) && t == (w + "[" + n + "]" + g + b) + u
  {
    assert t == w + "[" + n + "]" + g + b + u;
  }

  /** The name and the gap of a closed section are what the scanner's loops find. */
  lemma HeaderShape(t: string, d: nat, n: string, g: string, b: string, last: bool)
    requires CString(t) && Pieces(t, d, n, g, b) && SectOk(n, g, b, last)
    requires var e := d + 2 + |n| + |g|; e + |b| == |t| || t[e + |b|] == '['
    ensures Until(t, d + 1, EndsName) == d + 1 + |n| && t[d + 1..d + 1 + |n|] == n
    ensures Until(t, d + 2 + |n|, EndsSpace) == d + 2 + |n| + |g|
  {
    var c, e := d + 1 + |n|, d + 2 + |n| + |g|;
    forall x | d + 1 <= x < c
      ensures !EndsName(t[x])
    {
      assert t[x] == n[x - d - 1] && n[x - d - 1] in n;
    }
    UntilIs(t, d + 1, EndsName, c);
    forall x | c + 1 <= x < e
      ensures !EndsSpace(t[x])
    {
      assert t[x] == g[x - c - 1];
    }
    if b != "" {
      assert t[e] == b[0];
    }
    UntilIs(t, c + 1, EndsSpace, e);
  }

  lemma UntilIs(t: string, i: nat, stop: char -> bool, j: nat)
    requires i <= j <= |t| && (forall x :: i <= x < j ==> !stop(t[x])) && (j < |t| ==> stop(t[j]))
    ensures Until(t, i, stop) == j
  {
  }

  /** Nothing in a closed section but its own '[' is a header. */
  lemma SectionShape(t: string, d: nat, n: string, g: string, b: string, last: bool)
    requires CString(t) && Pieces(t, d, n, g, b) && SectOk(n, g, b, last)
    ensures var e := d + 2 + |n| + |g|; forall x :: d + 1 + |n| <= x < e + |b| ==> !HeaderAt(t, x)
    ensures var e := d + 2 + |n| + |g|; AtLineStart(b, AtLineStart(g, false)) == NewLine(t[e + |b| - 1])
  {
    var c, e := d + 1 + |n|, d + 2 + |n| + |g|;
    assert AtLineStart(g, false) == NewLine(t[e - 1]) by {
      if g != "" {
        assert t[e - 1] == g[|g| - 1];
      }
    }
    if b != "" {
      assert t[e + |b| - 1] == b[|b| - 1];
    }
    forall x | c <= x < e + |b|
      ensures !HeaderAt(t, x)
    {
      if c < x < e {
        assert t[x] == g[x - c - 1];
      } else if e <= x {
        assert t[x] == b[x - e] && !HeaderIn(b, x - e, AtLineStart(g, false));
        if e < x {
          assert t[x - 1] == b[x - e - 1];
        }
      }
    }
  }

  lemma ScanHeader(t: string, s: string, k: string, d: nat, acc: Place)
    requires CString(t) && d < |t| && HeaderAt(t, d)
    ensures var c := Until(t, d + 1, EndsName);
            Scan(t, s, k, d, acc) ==
            if t[d + 1..c] <= s then
              var e := if c < |t| then Until(t, c + 1, EndsSpace) else c + 1;
              Body(t, s, k, e, d + 1, e)
            else Scan(t, s, k, c, acc)
  {
    hide Body, Until;
  }

  lemma NextIsHeader(t: string, i: nat, last: bool)
    requires if last then i == |t| else 0 < i < |t| && t[i] == '[' && NewLine(t[i - 1])
    ensures i < |t| ==> HeaderAt(t, i)
  {
  }

  /** A section is scanned as its tree says: looked into when its name is a prefix, stepped over otherwise. */
  lemma ScanSection(t: string, s: string, k: string, d: nat, n: string, g: string, b: string, last: bool, acc: Place)
    requires CString(t) && Pieces(t, d, n, g, b) && SectOk(n, g, b, last) && HeaderAt(t, d)
    requires var e := d + 2 + |n| + |g|;
             if last then e + |b| == |t| else e + |b| < |t| && t[e + |b|] == '[' && NewLine(t[e + |b| - 1])
    ensures var e := d + 2 + |n| + |g|;
            Scan(t, s, k, d, acc) ==
            if n <= s then SlotPlace(Find(b, k, 0), e, d + 1, e, Scan(t, s, k, e + |b|, NoKey(d + 1, e)))
            else Scan(t, s, k, e + |b|, acc)
  {
    hide Scan, Body, Find, Until, HeaderAt, SlotPlace;
    var c, e := d + 1 + |n|, d + 2 + |n| + |g|;
    HeaderShape(t, d, n, g, b, last);
    SectionShape(t, d, n, g, b, last);
    ScanHeader(t, s, k, d, acc);
    if n <= s {
      NextIsHeader(t, e + |b|, last);
      BodyIsFind(t, s, k, e, b, 0, d + 1, e);
    } else {
      ScanSkips(t, s, k, c, e + |b|, acc);
    }
  }

  lemma ScanEnds(t: string, s: string, k: string, i: nat, acc: Place)
    requires |t| <= i <= |t| + 1
    ensures Scan(t, s, k, i, acc) == acc
  {
  }

  lemma ScanDangling(t: string, s: string, k: string, d: nat, n: string, acc: Place)
    requires CString(t) && d + 1 + |n| == |t| && Aligned(n, t, d + 1, 0, |n|) && HeaderAt(t, d) && ']' !in n
    ensures Scan(t, s, k, d, acc) == if n <= s then NoKey(d + 1, |t| + 1) else acc
  {
    forall x | d + 1 <= x < |t|
      ensures !EndsName(t[x])
    {
      assert t[x] == n[x - d - 1] && n[x - d - 1] in n;
    }
    UntilIs(t, d + 1, EndsName, |t|);
    assert t[d + 1..|t|] == n;
    if n <= s {
      BodyEnds(t, s, k, |t| + 1, d + 1, |t| + 1);
    }
  }

  lemma TextOfHeader(r: Rest)
    ensures !r.Eof? ==> TextOf(r) != "" && TextOf(r)[0] == '['
    ensures r.Eof? ==> TextOf(r) == ""
  {
  }

  /** The first section of a text in its place. */
  lemma FirstPieces(t: string, w: string, n: string, g: string, b: string, r: Rest)
    returns (w': string)
    requires CString(t) && t == w + TextOf(Sect(n, g, b, r)) && SectOk(n, g, b, r.Eof?) && AtLineStart(w, true)
    ensures w' == w + "[" + n + "]" + g + b && t == w' + TextOf(r) && (r.Eof? || AtLineStart(w', true))
    ensures var e := |w| + 2 + |n| + |g|;
            && |w'| == e + |b| && Pieces(t, |w|, n, g, b) && HeaderAt(t, |w|)
            && if r.Eof? then e + |b| == |t| else e + |b| < |t| && t[e + |b|] == '[' && NewLine(t[e + |b| - 1])
  {
    hide SectOk, Pieces;
    w' := w + "[" + n + "]" + g + b;
    PiecesOf(t, w, n, g, b, TextOf(r));
    SectionShape(t, |w|, n, g, b, r.Eof?);
    TextOfHeader(r);
    LineEndOf(t, w', n, g, b, r.Eof?);
    hide TextOf;
    assert !r.Eof? ==> t[|w'|] == TextOf(r)[0];
  }

  lemma ScanFirst(t: string, w: string, n: string, g: string, b: string, r: Rest, s: string, k: string, acc: Place)
    returns (w': string)
    requires CString(t) && t == w + TextOf(Sect(n, g, b, r)) && SectOk(n, g, b, r.Eof?) && AtLineStart(w, true)
    ensures w' == w + "[" + n + "]" + g + b && t == w' + TextOf(r) && (r.Eof? || AtLineStart(w', true))
    ensures var e := |w| + 2 + |n| + |g|;
            && |w'| == e + |b|
            && Scan(t, s, k, |w|, acc) ==
               if n <= s then SlotPlace(Find(b, k, 0), e, |w| + 1, e, Scan(t, s, k, |w'|, NoKey(|w| + 1, e)))
               else Scan(t, s, k, |w'|, acc)
  {
    hide Scan, Body, Find, SectOk, SlotPlace, Pieces, TextOf, HeaderAt, CString, AtLineStart, NewLine;
    w' := FirstPieces(t, w, n, g, b, r);
    ScanSection(t, s, k, |w|, n, g, b, r.Eof?, acc);
  }

  lemma LineEndOf(t: string, w: string, n: string, g: string, b: string, last: bool)
    requires w <= t && |w| > 0 && AtLineStart(b, AtLineStart(g, false)) == NewLine(t[|w| - 1])
    requires SectOk(n, g, b, last)
    ensures last || (AtLineStart(w, true) && NewLine(t[|w| - 1]))
  {
    hide NoHeader;
  }

  /** The scanner computes the lookup in the tree. */
  lemma {:induction false} ScanIsLocate(t: string, w: string, r: Rest, s: string, k: string, acc: Place)
    requires CString(t) && t == w + TextOf(r) && ValidRest(r) && (r.Eof? || AtLineStart(w, true))
    ensures Scan(t, s, k, |w|, acc) == Locate(r, s, k, |w|, acc)
    decreases r
  {
    hide Scan, Body, Find, SectOk, AtLineStart;
    match r
    case Eof =>
      ScanEnds(t, s, k, |w|, acc);
    case Dangling(n) =>
      HeaderAfter(t, w, r);
      ScanDangling(t, s, k, |w|, n, acc);
    case Sect(n, g, b, r') =>
      var w' := ScanFirst(t, w, n, g, b, r', s, k, acc);
      ScanIsLocate(t, w', r', s, k, if n <= s then NoKey(|w| + 1, |w| + 2 + |n| + |g|) else acc);
  }

  lemma HeaderAfter(t: string, w: string, r: Rest)
    requires t == w + TextOf(r) && !r.Eof? && AtLineStart(w, true)
    ensures HeaderAt(t, |w|)
  {
  }

  lemma ParseIsLocate(x: Ini, s: string, k: string)
    requires Valid(x) && CString(Text(x))
    ensures ParseText(Text(x), s, k) == Locate(x.rest, s, k, |x.pre|, NoSection)
  {
    var t := Text(x);
    forall i | 0 <= i < |x.pre|
      ensures !HeaderAt(t, i)
    {
      assert !HeaderIn(x.pre, i, true);
    }
    ScanSkips(t, s, k, 0, |x.pre|, NoSection);
    ScanIsLocate(t, x.pre, x.rest, s, k, NoSection);
  }
}
