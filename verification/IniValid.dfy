/** The writer keeps the syntax tree valid: the edited tree is the tree of the edited text. */
module IniValid {
  import opened IniScan
  import opened IniTree
  import opened IniLookup
  import opened IniBody
  import opened IniEdit

  predicate SectionNameOk(s: string) { CString(s) && ']' !in s }

  lemma ReplacedNoHeader(b: string, l: nat, q: nat, e: nat, v: string, b': string, bol: bool)
    requires Replaced(b, l, q, e, v, b') && ValueOk(v) && NoHeader(b, bol)
    ensures NoHeader(b', bol)
  {
    var d := q + 1 + |v| - e;
    assert b'[q + 1..q + 1 + |v|] == v;
    assert b[q] == b'[q] && EndsKey(b[q]) && !EndsLine(b[q]);
    forall i | 0 <= i < |b'|
      ensures !HeaderIn(b', i, bol)
    {
      if i <= q {
        assert b[i] == b'[i] && (i > 0 ==> b[i - 1] == b'[i - 1]) && !HeaderIn(b, i, bol);
      } else if i <= q + 1 + |v| {
        if i > q + 1 {
          assert b'[i - 1] == v[i - q - 2];
        }
      } else {
        assert b[i - d] == b'[i] && b[i - d - 1] == b'[i - 1] && !HeaderIn(b, i - d, bol);
      }
    }
  }

  lemma ReplacedOk(n: string, g: string, b: string, last: bool, k: string, v: string)
    requires SectOk(n, g, b, last) && CString(b) && ValueOk(v) && Find(b, k, 0).Slot?
    ensures var x := Find(b, k, 0);
            x.eq < x.end <= |b| && SectOk(n, g, ReplaceAt(b, x.eq, x.end, v), last)
  {
    hide Find, ReplaceAt, Defines, NoHeader;
    var x := Find(b, k, 0);
    ReplaceShape(b, k, v, x.line, x.eq, x.end, 0);
    var b' := ReplaceAt(b, x.eq, x.end, v);
    ReplacedNoHeader(b, x.line, x.eq, x.end, v, b', AtLineStart(g, false));
    assert b'[0] == b[0];
    if x.end < |b| {
      assert b[|b| - 1] == b'[|b'| - 1];
    } else {
      assert !EndsLine(b[|b| - 1]);
    }
  }

  lemma LineNoHeader(k: string, v: string, b: string, bol: bool, bol': bool)
    requires KeyOk(k) && ValueOk(v) && NoHeader(b, bol') && (b != "" ==> b[0] != '[')
    ensures NoHeader(Line(k, v) + b, bol)
  {
    var m := |k| + |v| + 2;
    var t := Line(k, v) + b;
    forall i | 0 <= i < |t|
      ensures !HeaderIn(t, i, bol)
    {
      if i == 0 {
        assert t[0] == k[0];
      } else if i <= |k| {
        assert t[i - 1] == k[i - 1] && !EndsKey(k[i - 1]);
      } else if i == |k| + 1 {
        assert t[i - 1] == '=';
      } else if i < m {
        assert t[i - 1] == v[i - |k| - 2];
      } else {
        assert t[i] == b[i - m];
        if m < i {
          assert t[i - 1] == b[i - m - 1] && !HeaderIn(b, i - m, bol');
        }
      }
    }
  }

  lemma InsertedOk(n: string, g: string, b: string, last: bool, k: string, v: string)
    requires SectOk(n, g, b, last) && KeyOk(k) && ValueOk(v) && (b != "" ==> b[0] != '[')
    ensures SectOk(n, g, Line(k, v) + b, last)
  {
    LineNoHeader(k, v, b, AtLineStart(g, false), AtLineStart(g, false));
    assert (Line(k, v) + b)[0] == k[0];
  }

  /** A header whose ']' comes last, with one line after it. */
  lemma NewSectionOk(n: string, k: string, v: string)
    requires ']' !in n && KeyOk(k) && ValueOk(v)
    ensures ValidRest(Sect(n, "\n", Line(k, v), Eof))
  {
    InsertedOk(n, "\n", "", true, k, v);
    assert Line(k, v) + "" == Line(k, v);
  }

  lemma InsertedValid(n: string, g: string, b: string, r: Rest, k: string, v: string)
    requires SectOk(n, g, b, r.Eof?) && ValidRest(r) && KeyOk(k) && ValueOk(v)
    ensures ValidRest(Inserted(n, g, Line(k, v), b, r))
  {
    if b != "" && b[0] == '[' {
      ChopOk(b + TextOf(r));
      hide Chop, TextOf;
      InsertedOk(n, g, "", true, k, v);
      assert Line(k, v) + "" == Line(k, v);
      assert AtLineStart(Line(k, v), AtLineStart(g, false));
    } else {
      InsertedOk(n, g, b, r.Eof?, k, v);
    }
  }

  predicate Clean(r: Rest) {
    match r
    case Eof => true
    case Dangling(n) => CString(n)
    case Sect(n, g, b, r') => CString(n) && CString(g) && CString(b) && Clean(r')
  }

  lemma CStringParts(a: string, b: string)
    ensures CString(a + b) <==> CString(a) && CString(b)
  {
    assert a == (a + b)[..|a|] && b == (a + b)[|a|..];
    if CString(a + b) {
      assert forall i :: 0 <= i < |b| ==> b[i] == (a + b)[|a| + i];
    }
  }

  lemma {:induction false} CleanText(r: Rest)
    ensures CString(TextOf(r)) <==> Clean(r)
    decreases r
  {
    match r
    case Eof =>
    case Dangling(n) => CStringParts("[", n);
    case Sect(n, g, b, r') =>
      CleanText(r');
      CStringParts("[", n);
      CStringParts("[" + n, "]");
      CStringParts("[" + n + "]", g);
      CStringParts("[" + n + "]" + g, b);
      CStringParts("[" + n + "]" + g + b, TextOf(r'));
  }

  lemma PutNotEof(r: Rest, s: string, k: string, v: string)
    ensures Put(r, s, k, v).Eof? <==> r.Eof?
  {
  }

  lemma {:induction false} PutValid(r: Rest, s: string, k: string, v: string)
    requires ValidRest(r) && Clean(r) && KeyOk(k) && ValueOk(v)
    ensures ValidRest(Put(r, s, k, v))
    decreases r
  {
    match r
    case Eof =>
    case Dangling(_) =>
    case Sect(n, g, b, r') =>
      hide Find, ReplaceAt, Inserted, SectOk, Defines;
      FindOk(b, k, 0);
      if n <= s && Find(b, k, 0).Slot? {
        ReplacedOk(n, g, b, r'.Eof?, k, v);
      } else if HasSec(r', s) {
        PutValid(r', s, k, v);
        PutNotEof(r', s, k, v);
      } else {
        InsertedValid(n, g, b, r', k, v);
      }
  }

  lemma NewlineOk(n: string, g: string, b: string)
    requires SectOk(n, g, b, true)
    ensures if b == "" then SectOk(n, g + "\n", "", false) else SectOk(n, g, b + "\n", false)
  {
    if b != "" {
      var b' := b + "\n";
      forall i | 0 <= i < |b'|
        ensures !HeaderIn(b', i, AtLineStart(g, false))
      {
        if i < |b| {
          assert b'[i] == b[i] && (i > 0 ==> b'[i - 1] == b[i - 1]) && !HeaderIn(b, i, AtLineStart(g, false));
        }
      }
      assert b'[0] == b[0];
    }
  }

  lemma {:induction false} AppendedValid(r: Rest, s: string, k: string, v: string)
    requires ValidRest(r) && !r.Eof? && SectionNameOk(s) && KeyOk(k) && ValueOk(v)
    ensures ValidRest(Appended(r, s, Line(k, v))) && !Appended(r, s, Line(k, v)).Eof?
    decreases r
  {
    hide Line, SectOk, KeyOk, ValueOk;
    match r
    case Dangling(n) =>
      NewSectionOk(n + "\n[" + s, k, v);
    case Sect(n, g, b, r') =>
      if !r'.Eof? {
        AppendedValid(r', s, k, v);
      } else {
        NewSectionOk(s, k, v);
        NewlineOk(n, g, b);
      }
  }

  lemma WriteValid(x: Ini, s: string, k: string, v: string)
    requires Valid(x) && CString(Text(x)) && SectionNameOk(s) && KeyOk(k) && ValueOk(v)
    ensures Valid(WriteTree(x, s, k, v))
  {
    hide Line, KeyOk, ValueOk;
    CStringParts(x.pre, TextOf(x.rest));
    CleanText(x.rest);
    if HasSec(x.rest, s) {
      PutValid(x.rest, s, k, v);
    } else if !x.rest.Eof? {
      AppendedValid(x.rest, s, k, v);
    } else {
      NewSectionOk(s, k, v);
      var p := x.pre + "\n";
      forall i | 0 <= i < |p|
        ensures !HeaderIn(p, i, true)
      {
        if i < |x.pre| {
          assert !HeaderIn(x.pre, i, true);
        }
      }
    }
  }

  lemma WriteClean(t: string, s: string, k: string, v: string)
    requires CString(t) && CString(s) && KeyOk(k) && ValueOk(v)
    ensures CString(WriteText(t, s, k, v))
  {
    hide ParseText;
    LineClean(k, v);
    hide Line;
    ParseTextOk(t, s, k);
    match ParseText(t, s, k)
    case NoSection =>
      CStringParts("[", s);
      CStringParts("[" + s, "]\n");
      CStringParts("[" + s + "]\n", Line(k, v));
      CStringParts(t, "\n");
      CStringParts(t + "\n", NewSection(s, k, v));
    case NoKey(_, e) =>
      if e <= |t| {
        CStringParts(t[..e], Line(k, v));
        CStringParts(t[..e] + Line(k, v), t[e..]);
      }
    case Hit(_, _, _, _, i, j) =>
      assert CString(v) by {
        assert forall x :: 0 <= x < |v| ==> !EndsLine(v[x]);
      }
      CStringParts(t[..i], v);
      CStringParts(t[..i] + v, t[j..]);
  }

  lemma LineClean(k: string, v: string)
    requires KeyOk(k) && ValueOk(v)
    ensures CString(Line(k, v))
  {
    LineShape(k, v, "");
    assert Line(k, v) + "" == Line(k, v);
  }
}
