/** Characters, C-string comparison and the scan of application/inifile.c, as functions on a text
    that is followed by NUL bytes without end (the zero-filled buffer the file is loaded into). */
module IniScan {
  import opened Basics

  const MAX_FILE_SIZE: nat := 1024 * 16

  predicate NewLine(c: char) { c == '\n' || c == '\r' }

  predicate Space(c: char) {
    c == ' ' || c == '\t' || c == '\n' || c == '\U{0B}' || c == '\U{0C}' || c == '\r'
  }

  /** A C string: no NUL inside. */
  predicate CString(s: string) { forall i :: 0 <= i < |s| ==> s[i] != NUL }

  function At(t: string, i: nat): char { if i < |t| then t[i] else NUL }

  /** What the inner loops of the scanner stop at. */
  predicate EndsName(c: char) { c == ']' || c == NUL }
  predicate EndsSpace(c: char) { !Space(c) }
  predicate EndsLine(c: char) { NewLine(c) || c == NUL }
  predicate EndsKey(c: char) { c == '=' || EndsLine(c) }

  /** The first position from `i` on that holds a stopping character, or the end of the text. */
  function Until(t: string, i: nat, stop: char -> bool): (j: nat)
    requires i <= |t|
    ensures i <= j <= |t|
    ensures forall x :: i <= x < j ==> !stop(t[x])
    ensures j < |t| ==> stop(t[j])
    decreases |t| - i
  {
    if i == |t| || stop(t[i]) then i else Until(t, i + 1, stop)
  }

  /** `strncmp(a + i, b + j, n) == 0`. */
  predicate StrNCmpEq(a: string, i: nat, b: string, j: nat, n: nat)
    decreases n
  {
    n == 0 || (At(a, i) == At(b, j) && (At(a, i) == NUL || StrNCmpEq(a, i + 1, b, j + 1, n - 1)))
  }

  /** Comparing only the file's characters makes every match a prefix match. */
  lemma {:induction false} StrNCmpIsPrefix(a: string, i: nat, b: string, j: nat, n: nat)
    requires i + n <= |a| && j <= |b|
    requires CString(a[i..i + n]) && CString(b)
    ensures StrNCmpEq(a, i, b, j, n) <==> a[i..i + n] <= b[j..]
    ensures StrNCmpEq(b, j, a, i, n) <==> a[i..i + n] <= b[j..]
    decreases n
  {
    if n > 0 {
      var x, y := a[i..i + n], b[j..];
      assert a[i] == x[0] && x[1..] == a[i + 1..i + n];
      if j < |b| {
        assert y[0] == b[j] && y[1..] == b[j + 1..];
        StrNCmpIsPrefix(a, i + 1, b, j + 1, n - 1);
        assert x == [a[i]] + x[1..] && y == [b[j]] + y[1..];
        assert x <= y <==> a[i] == b[j] && x[1..] <= y[1..];
      }
    }
  }

  /** Where the scan ended: the six out-parameters, with -1 fields left out. */
  datatype Place =
    | NoSection
    | NoKey(secS: nat, secE: nat)
    | Hit(secS: nat, secE: nat, keyS: nat, keyE: nat, valS: nat, valE: nat)

  predicate HeaderAt(t: string, i: nat) {
    (i == 0 || NewLine(At(t, i - 1))) && At(t, i) == '['
  }

  /** The scan between sections, from position `i`, with `acc` the last matching section so far. */
  function Scan(t: string, s: string, k: string, i: nat, acc: Place): Place
    requires i <= |t| + 1
    decreases |t| + 1 - i, 0
  {
    if At(t, i) == NUL then acc
    else if HeaderAt(t, i) then
      var c := Until(t, i + 1, EndsName);
      if t[i + 1..c] <= s then
        var e := if c < |t| then Until(t, c + 1, EndsSpace) else c + 1;
        Body(t, s, k, e, i + 1, e)
      else Scan(t, s, k, c, acc)
    else Scan(t, s, k, i + 1, acc)
  }

  /** The scan of the lines of a matching section, from the line start `i`. */
  function Body(t: string, s: string, k: string, i: nat, secS: nat, secE: nat): Place
    requires 0 < i <= |t| + 1
    decreases |t| + 1 - i, 1
  {
    if At(t, i) == NUL || HeaderAt(t, i) then Scan(t, s, k, i, NoKey(secS, secE))
    else
      var e := Until(t, i, EndsLine);
      var j := Until(t, i, EndsKey);
      if t[i] != ';' && i < j < e && t[i..j] <= k then Hit(secS, secE, i, j - 1, j + 1, e)
      else Body(t, s, k, e + 1, secS, secE)
  }

  function ParseText(t: string, s: string, k: string): Place { Scan(t, s, k, 0, NoSection) }

  /** The order of the offsets, and what lies between them. */
  predicate PlaceOk(t: string, p: Place) {
    match p
    case NoSection => true
    case NoKey(secS, secE) => 0 < secS <= secE <= |t| + 1
    case Hit(secS, secE, keyS, keyE, valS, valE) =>
      && 0 < secS <= secE <= keyS <= keyE < valS == keyE + 2 <= valE <= |t|
      && t[keyE + 1] == '='
      && (forall x :: keyS <= x < valE ==> !EndsLine(t[x]))
      && (valE < |t| ==> EndsLine(t[valE]))
  }

  lemma {:induction false} ScanOk(t: string, s: string, k: string, i: nat, acc: Place)
    requires i <= |t| + 1 && PlaceOk(t, acc)
    ensures PlaceOk(t, Scan(t, s, k, i, acc))
    decreases |t| + 1 - i, 0
  {
    if At(t, i) == NUL {
    } else if HeaderAt(t, i) {
      var c := Until(t, i + 1, EndsName);
      if t[i + 1..c] <= s {
        BodyOk(t, s, k, if c < |t| then Until(t, c + 1, EndsSpace) else c + 1, i + 1,
               if c < |t| then Until(t, c + 1, EndsSpace) else c + 1);
      } else {
        ScanOk(t, s, k, c, acc);
      }
    } else {
      ScanOk(t, s, k, i + 1, acc);
    }
  }

  lemma {:induction false} BodyOk(t: string, s: string, k: string, i: nat, secS: nat, secE: nat)
    requires 0 < secS <= secE <= i <= |t| + 1
    ensures PlaceOk(t, Body(t, s, k, i, secS, secE))
    decreases |t| + 1 - i, 1
  {
    if At(t, i) == NUL || HeaderAt(t, i) {
      ScanOk(t, s, k, i, NoKey(secS, secE));
    } else {
      var e := Until(t, i, EndsLine);
      var j := Until(t, i, EndsKey);
      if t[i] != ';' && i < j < e && t[i..j] <= k {
        assert EndsKey(t[j]) && !EndsLine(t[j]);
      } else {
        BodyOk(t, s, k, e + 1, secS, secE);
      }
    }
  }

  lemma ParseTextOk(t: string, s: string, k: string)
    ensures PlaceOk(t, ParseText(t, s, k))
  {
    ScanOk(t, s, k, 0, NoSection);
  }
}
