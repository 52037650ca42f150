/** The store in use: writes and reads on one file, with the limits of the buffers. */
module IniSession {
  import opened Basics
  import opened IniScan
  import opened IniTree
  import opened IniBody
  import opened IniEdit
  import opened IniValid
  import opened IniLaws
  import opened IniFile

  /** What write_profile_string needs of the file and its arguments. */
  predicate WriteFits(t: string, w: Write) {
    && CString(t) && w.s != "" && ArgsOk(w.s, w.k, w.v)
    && |t| + 2 <= MAX_FILE_SIZE && Need(t, w.s, w.k, w.v) <= MAX_FILE_SIZE && PlainTail(t, w.s, w.k)
  }

  /** Every step of a run of writes has what it needs, and the file can be read in the end. */
  predicate RunFits(t: string, ws: seq<Write>)
    decreases |ws|
  {
    if ws == [] then CString(t) && |t| + 2 <= MAX_FILE_SIZE
    else WriteFits(t, ws[0]) && RunFits(WriteText(t, ws[0].s, ws[0].k, ws[0].v), ws[1..])
  }

  lemma WriteGivesText(t: string, w: Write)
    requires CString(t) && ArgsOk(w.s, w.k, w.v)
    ensures CString(WriteText(t, w.s, w.k, w.v)) && CString(w.s) && CString(w.k) && CString(w.v) && w.k != ""
  {
    WriteClean(t, w.s, w.k, w.v);
    assert forall i :: 0 <= i < |w.v| ==> !EndsLine(w.v[i]);
  }

  /** A run of writes leaves the text that the run spells out. */
  method WriteAll(store: IniStore, ws: seq<Write>) returns (ok: bool)
    requires RunFits(store.Content(), ws)
    modifies store
    ensures ok && store.Content() == Run(old(store.Content()), ws)
    ensures RunFits(store.Content(), [])
  {
    hide WriteText, ArgsOk, Need, PlainTail;
    ghost var t := store.Content();
    ok := true;
    var i := 0;
    assert ws[0..] == ws;
    while i < |ws|
      invariant 0 <= i <= |ws| && ok
      invariant RunFits(store.Content(), ws[i..]) && Run(store.Content(), ws[i..]) == Run(t, ws)
    {
      WriteGivesText(store.Content(), ws[i]);
      var r := store.WriteProfileString(ws[i].s, ws[i].k, ws[i].v, true);
      ok := ok && r == 1;
      assert ws[i..][1..] == ws[i + 1..];
      i := i + 1;
    }
  }

  /** Write, then read: 1 and the value come back, cut to the buffer, unless a header lacking its ']' swallows the
      write; then the read fails and leaves the buffer as it was. */
  method WriteThenRead(store: IniStore, s: string, k: string, v: string, value: array<char>) returns (w: int, r: int)
    requires RunFits(store.Content(), [Write(s, k, v)]) && value.Length > 0
    modifies store, value
    ensures w == 1 && store.Content() == WriteText(old(store.Content()), s, k, v)
    ensures r == if Loses(old(store.Content()), s, k) then 0 else 1
    ensures r == 1 ==>
              var n := if |v| < value.Length then |v| else value.Length - 1;
              && value[..n] == v[..n] && '\0' !in value[..n]
              && forall i :: n <= i < value.Length ==> value[i] == '\0'
    ensures r == 0 ==> value[..] == old(value[..])
  {
    hide WriteText, ReadText, Loses, ArgsOk, Need, PlainTail;
    ghost var t := store.Content();
    assert [Write(s, k, v)][1..] == [];
    WriteGivesText(t, Write(s, k, v));
    ReadAfterWrite(t, s, k, v);
    w := store.WriteProfileString(s, k, v, true);
    r := store.ReadProfileString(s, k, value, None);
  }

  /** Any run of writes over names none of which is a prefix of another, then a read of one of them: what a map that
      took the same updates holds. */
  method WriteAllThenRead(store: IniStore, ws: seq<Write>, ghost d: set<(string, string)>, s: string, k: string,
                          value: array<char>)
    returns (r: int)
    requires RunFits(store.Content(), ws) && value.Length > 0
    requires Good(Tree(store.Content()).rest) && Exact(Tree(store.Content()).rest, d)
    requires PrefixFree(d) && (s, k) in d && s != "" && k != "" && CString(s) && CString(k)
    requires forall w :: w in ws ==> ArgsOk(w.s, w.k, w.v) && (w.s, w.k) in d
    modifies store, value
    ensures match Last(ws, s, k, ReadText(old(store.Content()), s, k))
            case Some(v) =>
              var n := if |v| < value.Length then |v| else value.Length - 1;
              && r == 1 && value[..n] == v[..n] && '\0' !in value[..n]
              && forall i :: n <= i < value.Length ==> value[i] == '\0'
            case None => r == 0 && value[..] == old(value[..])
  {
    hide ReadText, Tree, Good, Exact, PrefixFree, ArgsOk, Run, Last;
    RunFitsClean(store.Content(), ws);
    WritesAreMapUpdates(store.Content(), ws, d, s, k);
    var _ := WriteAll(store, ws);
    r := store.ReadProfileString(s, k, value, None);
  }

  lemma RunFitsClean(t: string, ws: seq<Write>)
    requires RunFits(t, ws)
    ensures CString(t)
  {
    hide Need, PlainTail, WriteText;
  }

  // Enough for a caller to check

  /** The most characters a write can add. */
  function Cost(w: Write): nat { |w.s| + |w.k| + |w.v| + 6 }

  function Costs(ws: seq<Write>): nat
    decreases |ws|
  {
    if ws == [] then 0 else Cost(ws[0]) + Costs(ws[1..])
  }

  predicate NoPercent(t: string) { '%' !in t }

  lemma PercentParts(a: string, b: string)
    ensures NoPercent(a + b) <==> NoPercent(a) && NoPercent(b)
  {
  }

  lemma LinePercent(k: string, v: string)
    requires NoPercent(k) && NoPercent(v)
    ensures NoPercent(Line(k, v)) && |Line(k, v)| == |k| + |v| + 2
  {
  }

  lemma WriteGrows(t: string, w: Write)
    requires NoPercent(t) && NoPercent(w.s) && NoPercent(w.k) && NoPercent(w.v)
    ensures var t' := WriteText(t, w.s, w.k, w.v);
            && |t'| <= |t| + Cost(w) && NoPercent(t')
            && Need(t, w.s, w.k, w.v) <= |t| + Cost(w) + 1 && PlainTail(t, w.s, w.k)
  {
    hide ParseText;
    ParseTextOk(t, w.s, w.k);
    LinePercent(w.k, w.v);
    hide Line;
    match ParseText(t, w.s, w.k)
    case NoSection =>
      PercentParts("[" + w.s + "]\n", Line(w.k, w.v));
      PercentParts("[" + w.s, "]\n");
      PercentParts("[", w.s);
      PercentParts(t, "\n");
      PercentParts(t + "\n", NewSection(w.s, w.k, w.v));
    case NoKey(_, e) =>
      if e <= |t| {
        PercentParts(t[..e], Line(w.k, w.v));
        PercentParts(t[..e] + Line(w.k, w.v), t[e..]);
      }
    case Hit(_, _, _, _, i, j) =>
      PercentParts(t[..i], w.v);
      PercentParts(t[..i] + w.v, t[j..]);
  }

  /** Texts without '%' and room for all that the writes can add are enough for every step of a run. */
  lemma {:induction false} EnoughRoom(t: string, ws: seq<Write>)
    requires CString(t) && NoPercent(t) && |t| + Costs(ws) + 2 <= 16384
    requires forall w :: w in ws ==> w.s != "" && ArgsOk(w.s, w.k, w.v) && NoPercent(w.s) && NoPercent(w.k) && NoPercent(w.v)
    ensures RunFits(t, ws)
    decreases |ws|
  {
    hide WriteText, ArgsOk, NoPercent, PlainTail, Need;
    if ws != [] {
      var w := ws[0];
      WriteGrows(t, w);
      WriteGivesText(t, w);
      assert forall u :: u in ws[1..] ==> u in ws;
      EnoughRoom(WriteText(t, w.s, w.k, w.v), ws[1..]);
    }
  }
}
