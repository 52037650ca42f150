/** CreateDir of application/app.c: making a directory and its missing ancestors by cutting one string at each slash in
    turn. Directories are named by their components; repeated and trailing slashes do not matter to the file system. */
module CreateDirectory {
  import opened Basics

  const SLASH: char := '/'
  const NAME_SIZE: nat := 256

  datatype Dir = Dir(isAbsolute: bool, parts: seq<string>)

  /** The components of a path. */
  function Split(s: string): (r: seq<string>)
    ensures s != [] && s[|s| - 1] != SLASH ==> r != []
  {
    if s == [] then []
    else
      var init, c := s[..|s| - 1], s[|s| - 1];
      var r := Split(init);
      if c == SLASH then r
      else if init == [] || init[|init| - 1] == SLASH then r + [[c]]
      else r[..|r| - 1] + [r[|r| - 1] + [c]]
  }

  function DirOf(s: string): Dir { Dir(s != [] && s[0] == SLASH, Split(s)) }

  /** The root and the working directory exist, and so does the parent of every directory. */
  ghost predicate Closed(dirs: set<Dir>) {
    && Dir(true, []) in dirs && Dir(false, []) in dirs
    && forall d :: d in dirs && d.parts != [] ==> Dir(d.isAbsolute, d.parts[..|d.parts| - 1]) in dirs
  }

  /** Making the ancestors in order, up to the first that is missing and denied. */
  function Make(dirs: set<Dir>, denied: set<Dir>, isAbsolute: bool, parts: seq<string>): (set<Dir>, bool) {
    if parts == [] then (dirs, true)
    else
      var before := Make(dirs, denied, isAbsolute, parts[..|parts| - 1]);
      var d := Dir(isAbsolute, parts);
      if !before.1 || d in before.0 then before
      else if d in denied then (before.0, false)
      else (before.0 + {d}, true)
  }

  class FileSystem {
    var dirs: set<Dir>
    const denied: set<Dir>

    constructor (existing: set<Dir>, refused: set<Dir>)
      ensures dirs == existing && denied == refused
    {
      dirs, denied := existing, refused;
    }

    method Access(name: string) returns (r: int)
      ensures r == 0 <==> DirOf(name) in dirs
    {
      r := if DirOf(name) in dirs then 0 else -1;
    }

    /** Fails if the directory exists, its parent does not, or it is denied. */
    method Mkdir(name: string) returns (r: int)
      modifies this`dirs
      ensures var d := DirOf(name);
              var can := d !in old(dirs) && d !in denied
                         && d.parts != [] && Dir(d.isAbsolute, d.parts[..|d.parts| - 1]) in old(dirs);
              if can then r == 0 && dirs == old(dirs) + {d} else r == -1 && dirs == old(dirs)
    {
      var d := DirOf(name);
      if d in dirs || d in denied || d.parts == [] || Dir(d.isAbsolute, d.parts[..|d.parts| - 1]) !in dirs {
        return -1;
      }
      dirs := dirs + {d};
      r := 0;
    }
  }

  /** The C string in a buffer. */
  function CStr(a: seq<char>): string {
    if a == [] || a[0] == NUL then [] else [a[0]] + CStr(a[1..])
  }

  lemma {:induction false} CStrIs(a: seq<char>, n: nat)
    requires n < |a| && a[n] == NUL && forall i :: 0 <= i < n ==> a[i] != NUL
    ensures CStr(a) == a[..n]
    decreases n
  {
    if n > 0 {
      CStrIs(a[1..], n - 1);
      assert a[..n] == [a[0]] + a[1..][..n - 1];
    }
  }

  /** The components before the last slash: those that CreateDir has dealt with. */
  function Done(s: string): seq<string> {
    var r := Split(s);
    if s == [] || s[|s| - 1] == SLASH then r else r[..|r| - 1]
  }

  lemma DoneFirst(s: string)
    requires s != []
    ensures Done(s[..1]) == []
  {
    var c := s[0];
    assert s[..1] == [c] && [c][..0] == [];
    assert Split([c]) == if c == SLASH then [] else [[c]];
  }

  lemma DoneNext(s: string, i: nat)
    requires 0 < i < |s|
    ensures s[i] != SLASH ==> Done(s[..i + 1]) == Done(s[..i])
    ensures s[i] == SLASH ==> Done(s[..i + 1]) == Split(s[..i])
    ensures s[i - 1] == SLASH ==> Split(s[..i]) == Done(s[..i])
    ensures s[i - 1] != SLASH ==> Split(s[..i]) != [] && Done(s[..i]) == Split(s[..i])[..|Split(s[..i])| - 1]
  {
    assert s[..i + 1][..i] == s[..i];
  }

  lemma {:induction false} MakeOk(dirs: set<Dir>, denied: set<Dir>, isAbsolute: bool, parts: seq<string>)
    requires Closed(dirs)
    ensures var (after, ok) := Make(dirs, denied, isAbsolute, parts);
            && Closed(after)
            && (ok ==> Dir(isAbsolute, parts) in after)
    decreases |parts|
  {
    if parts != [] {
      MakeOk(dirs, denied, isAbsolute, parts[..|parts| - 1]);
    }
  }

  /** Once refused, nothing more is made. */
  lemma {:induction false} MakeStops(dirs: set<Dir>, denied: set<Dir>, isAbsolute: bool, parts: seq<string>, k: nat)
    requires k <= |parts| && !Make(dirs, denied, isAbsolute, parts[..k]).1
    ensures Make(dirs, denied, isAbsolute, parts) == Make(dirs, denied, isAbsolute, parts[..k])
    decreases |parts|
  {
    if k == |parts| {
      assert parts[..k] == parts;
    } else {
      assert parts[..|parts| - 1][..k] == parts[..k];
      MakeStops(dirs, denied, isAbsolute, parts[..|parts| - 1], k);
    }
  }

  /** A path's components start with those of any part of it that ends before a slash. */
  lemma {:induction false} SplitPrefix(s: string, i: nat)
    requires i < |s| && s[i] == SLASH
    ensures Split(s[..i]) <= Split(s)
    decreases |s|
  {
    var init := s[..|s| - 1];
    if i == |s| - 1 {
      assert s[..i] == init;
    } else {
      assert init[..i] == s[..i];
      SplitPrefix(init, i);
      if init[|init| - 1] != SLASH {
        SplitShort(init, i);
      }
    }
  }

  /** If the path goes on after the slash, then with a component of its own. */
  lemma {:induction false} SplitShort(s: string, i: nat)
    requires i < |s| && s[i] == SLASH && s[|s| - 1] != SLASH
    ensures |Split(s[..i])| < |Split(s)|
    decreases |s|
  {
    var init := s[..|s| - 1];
    assert init[..i] == s[..i];
    if init[|init| - 1] == SLASH {
      SplitPrefix(init, i);
    } else {
      SplitShort(init, i);
    }
  }

  lemma SplitSlash(s: string)
    ensures Split(s + [SLASH]) == Split(s)
  {
    assert (s + [SLASH])[..|s|] == s;
  }

  lemma MakeNothing(dirs: set<Dir>, denied: set<Dir>, isAbsolute: bool)
    ensures Make(dirs, denied, isAbsolute, []) == (dirs, true)
  {
  }

  lemma DoneAll(s: string)
    requires s != [] && s[|s| - 1] == SLASH
    ensures Done(s) == Split(s)
  {
  }

  /** One slash: what is to be made there is the next step of Make. */
  lemma MakeNext(dirs: set<Dir>, denied: set<Dir>, now: set<Dir>, full: string, i: nat)
    requires Closed(dirs) && 0 < i < |full| && full[i] == SLASH
    requires (now, true) == Make(dirs, denied, full[0] == SLASH, Done(full[..i]))
    ensures var d, next := DirOf(full[..i]), Make(dirs, denied, full[0] == SLASH, Done(full[..i + 1]));
            if d in now then next == (now, true)
            else
              && d.parts != [] && Dir(d.isAbsolute, d.parts[..|d.parts| - 1]) in now
              && if d in denied then Make(dirs, denied, full[0] == SLASH, Split(full)) == (now, false)
                 else next == (now + {d}, true)
  {
    hide Split, Done, Closed;
    var isAbsolute, parts := full[0] == SLASH, Split(full[..i]);
    assert DirOf(full[..i]) == Dir(isAbsolute, parts);
    DoneNext(full, i);
    MakeOk(dirs, denied, isAbsolute, Done(full[..i]));
    if Dir(isAbsolute, parts) !in now {
      assert full[i - 1] != SLASH && parts[..|parts| - 1] == Done(full[..i]);
      if Dir(isAbsolute, parts) in denied {
        assert Make(dirs, denied, isAbsolute, parts) == (now, false);
        SplitPrefix(full, i);
        assert Split(full)[..|parts|] == parts;
        MakeStops(dirs, denied, isAbsolute, Split(full), |parts|);
      }
    }
  }

  // Paths and their components

  function Slashes(n: nat): string { seq(n, _ => '/') }

  /** A path written out: slashes in front, then each component and the slashes behind it. */
  function Joined(lead: nat, parts: seq<string>, gaps: seq<nat>): string
    requires |parts| == |gaps|
  {
    if parts == [] then Slashes(lead)
    else Joined(lead, parts[..|parts| - 1], gaps[..|gaps| - 1]) + parts[|parts| - 1] + Slashes(gaps[|gaps| - 1])
  }

  /** Components are not empty and have no slash; there is a slash at least between two of them. */
  predicate Separated(parts: seq<string>, gaps: seq<nat>) {
    && |parts| == |gaps|
    && (forall i :: 0 <= i < |parts| ==> parts[i] != "" && '/' !in parts[i])
    && (forall i :: 0 <= i < |gaps| - 1 ==> gaps[i] > 0)
  }

  predicate IsPath(path: string, lead: nat, parts: seq<string>, gaps: seq<nat>) {
    Separated(parts, gaps) && path == Joined(lead, parts, gaps)
  }

  lemma {:induction false} SlashesAbsorbed(s: string, n: nat)
    ensures Split(s + Slashes(n)) == Split(s)
    decreases n
  {
    if n == 0 {
      assert s + Slashes(0) == s;
    } else {
      SlashesAbsorbed(s, n - 1);
      SplitSlash(s + Slashes(n - 1));
      assert s + Slashes(n) == s + Slashes(n - 1) + [SLASH];
    }
  }

  lemma SplitChar(s: string, c: char)
    requires c != SLASH
    ensures Split(s + [c]) == if s == [] || s[|s| - 1] == SLASH then Split(s) + [[c]]
                              else Split(s)[..|Split(s)| - 1] + [Split(s)[|Split(s)| - 1] + [c]]
  {
    assert (s + [c])[..|s|] == s;
  }

  lemma {:induction false} ComponentAdded(s: string, part: string)
    requires part != "" && '/' !in part && (s == "" || s[|s| - 1] == '/')
    ensures Split(s + part) == Split(s) + [part]
    decreases |part|
  {
    hide Split;
    var init, c := part[..|part| - 1], part[|part| - 1];
    assert c in part && part == init + [c];
    assert s + part == s + init + [c];
    if init == "" {
      SplitChar(s, c);
      assert s + part == s + [c] && part == [c];
    } else {
      var last := init[|init| - 1];
      assert last in part && (s + init)[|s + init| - 1] == last;
      ComponentAdded(s, init);
      SplitChar(s + init, c);
      assert (Split(s) + [init])[..|Split(s)|] == Split(s);
    }
  }

  /** Where the next component starts. */
  lemma JoinedEnds(lead: nat, parts: seq<string>, gaps: seq<nat>)
    requires Separated(parts, gaps) && (parts == [] || gaps[|gaps| - 1] > 0)
    ensures var s := Joined(lead, parts, gaps); s == "" || s[|s| - 1] == '/'
  {
  }

  /** Taking a path apart gives the components it was put together from, however many slashes there are. */
  lemma {:induction false} SplitJoined(lead: nat, parts: seq<string>, gaps: seq<nat>)
    requires Separated(parts, gaps)
    ensures Split(Joined(lead, parts, gaps)) == parts
    decreases |parts|
  {
    hide Split;
    if parts == [] {
      SplitEmpty();
      SlashesAbsorbed("", lead);
      assert "" + Slashes(lead) == Slashes(lead);
    } else {
      var n := |parts| - 1;
      var before := Joined(lead, parts[..n], gaps[..n]);
      assert Separated(parts[..n], gaps[..n]);
      SplitJoined(lead, parts[..n], gaps[..n]);
      JoinedEnds(lead, parts[..n], gaps[..n]);
      ComponentAdded(before, parts[n]);
      SlashesAbsorbed(before + parts[n], gaps[n]);
      assert parts[..n] + [parts[n]] == parts;
    }
  }

  lemma SplitEmpty()
    ensures Split("") == []
  {
  }

  lemma {:induction false} JoinedFirst(lead: nat, parts: seq<string>, gaps: seq<nat>)
    requires Separated(parts, gaps) && Joined(lead, parts, gaps) != ""
    ensures Joined(lead, parts, gaps)[0] == '/' <==> lead > 0
    decreases |parts|
  {
    if parts != [] {
      var n := |parts| - 1;
      assert Separated(parts[..n], gaps[..n]);
      if Joined(lead, parts[..n], gaps[..n]) != "" {
        JoinedFirst(lead, parts[..n], gaps[..n]);
      } else {
        JoinedEmpty(lead, parts[..n], gaps[..n]);
        assert parts[n][0] in parts[n];
      }
    }
  }

  lemma JoinedEmpty(lead: nat, parts: seq<string>, gaps: seq<nat>)
    requires Separated(parts, gaps) && Joined(lead, parts, gaps) == ""
    ensures lead == 0 && parts == []
  {
  }

  /** A path names the directory of its components, from the root if it begins with a slash. */
  lemma PathNames(path: string, lead: nat, parts: seq<string>, gaps: seq<nat>)
    requires IsPath(path, lead, parts, gaps)
    ensures DirOf(path) == Dir(lead > 0, parts)
  {
    SplitJoined(lead, parts, gaps);
    if path == "" {
      JoinedEmpty(lead, parts, gaps);
    } else {
      JoinedFirst(lead, parts, gaps);
    }
  }

  /** So two paths name one directory exactly when they have the same components and both or neither begin with a
      slash. */
  lemma PathsDiffer(path: string, lead: nat, parts: seq<string>, gaps: seq<nat>,
                    path': string, lead': nat, parts': seq<string>, gaps': seq<nat>)
    requires IsPath(path, lead, parts, gaps) && IsPath(path', lead', parts', gaps')
    ensures DirOf(path) == DirOf(path') <==> parts == parts' && (lead > 0) == (lead' > 0)
  {
    PathNames(path, lead, parts, gaps);
    PathNames(path', lead', parts', gaps');
  }

  /** Every string is a path of this form. */
  lemma {:induction false} EveryPath(path: string) returns (lead: nat, parts: seq<string>, gaps: seq<nat>)
    ensures IsPath(path, lead, parts, gaps)
    decreases |path|
  {
    if path == "" {
      lead, parts, gaps := 0, [], [];
    } else {
      hide IsPath;
      var init, c := path[..|path| - 1], path[|path| - 1];
      lead, parts, gaps := EveryPath(init);
      assert path == init + [c];
      if c == '/' {
        lead, gaps := SlashAdded(init, lead, parts, gaps);
      } else {
        parts, gaps := CharAdded(init, lead, parts, gaps, c);
      }
    }
  }

  lemma SlashAdded(init: string, lead: nat, parts: seq<string>, gaps: seq<nat>) returns (lead': nat, gaps': seq<nat>)
    requires IsPath(init, lead, parts, gaps)
    ensures IsPath(init + ['/'], lead', parts, gaps')
  {
    var n := |parts|;
    if n == 0 {
      lead', gaps' := lead + 1, gaps;
    } else {
      lead', gaps' := lead, gaps[..n - 1] + [gaps[n - 1] + 1];
      assert gaps'[..n - 1] + [gaps'[n - 1] - 1] == gaps;
      MoreSlashes(init, lead, parts, gaps');
    }
  }

  lemma CharAdded(init: string, lead: nat, parts: seq<string>, gaps: seq<nat>, c: char)
    returns (parts': seq<string>, gaps': seq<nat>)
    requires IsPath(init, lead, parts, gaps) && c != '/'
    ensures IsPath(init + [c], lead, parts', gaps')
  {
    var n := |parts|;
    if n == 0 || gaps[n - 1] > 0 {
      parts', gaps' := parts + [[c]], gaps + [0];
      assert parts'[..n] == parts && gaps'[..n] == gaps && Slashes(0) == "";
      assert Separated(parts', gaps');
    } else {
      parts', gaps' := parts[..n - 1] + [parts[n - 1] + [c]], gaps;
      assert parts'[n - 1][..|parts'[n - 1]| - 1] == parts[n - 1];
      assert parts'[..n - 1] + [parts[n - 1]] == parts;
      LongerPart(init, lead, parts', gaps, c);
      assert Separated(parts', gaps');
    }
  }

  lemma MoreSlashes(init: string, lead: nat, parts: seq<string>, gaps: seq<nat>)
    requires parts != [] && |parts| == |gaps| && gaps[|gaps| - 1] > 0
    requires init == Joined(lead, parts, gaps[..|gaps| - 1] + [gaps[|gaps| - 1] - 1])
    ensures init + ['/'] == Joined(lead, parts, gaps)
  {
    var n := |parts| - 1;
    var was := gaps[..n] + [gaps[n] - 1];
    assert was[..n] == gaps[..n];
    assert Slashes(gaps[n] - 1) + ['/'] == Slashes(gaps[n]);
  }

  lemma LongerPart(init: string, lead: nat, parts: seq<string>, gaps: seq<nat>, c: char)
    requires parts != [] && |parts| == |gaps| && gaps[|gaps| - 1] == 0
    requires parts[|parts| - 1] != "" && parts[|parts| - 1][|parts[|parts| - 1]| - 1] == c
    requires var n := |parts| - 1; init == Joined(lead, parts[..n] + [parts[n][..|parts[n]| - 1]], gaps)
    ensures init + [c] == Joined(lead, parts, gaps)
  {
    var n := |parts| - 1;
    var was := parts[..n] + [parts[n][..|parts[n]| - 1]];
    assert was[..n] == parts[..n];
    assert was[n] + [c] == parts[n] && Slashes(0) == "";
  }

  /** The local copy of the path, with a slash at its end. */
  method CopyPath(path: string) returns (dirName: array<char>, len: nat)
    requires path != [] && |path| + 2 <= NAME_SIZE
    ensures fresh(dirName) && dirName.Length == NAME_SIZE && len < NAME_SIZE && dirName[len] == NUL
    ensures dirName[..len] == if path[|path| - 1] == SLASH then path else path + [SLASH]
  {
    dirName := new char[NAME_SIZE](_ => NUL);
    forall k | 0 <= k < |path| {
      dirName[k] := path[k];
    }
    len := |path|;
    if dirName[len - 1] != SLASH {
      dirName[len] := SLASH;
      len := len + 1;
    }
  }

  lemma PathMade(path: string)
    requires path != []
    ensures forall lead: nat, parts, gaps :: IsPath(path, lead, parts, gaps) ==>
              (path[0] == SLASH) == (lead > 0) && Split(path) == parts
  {
    forall lead: nat, parts, gaps | IsPath(path, lead, parts, gaps)
      ensures (path[0] == SLASH) == (lead > 0) && Split(path) == parts
    {
      PathNames(path, lead, parts, gaps);
    }
  }

  /** CreateDir returns 1 exactly when it has made every missing ancestor and the directory itself; what it makes and
      where it stops is Make. The path fits the buffer with a slash and the terminating NUL. */
  method CreateDir(fs: FileSystem, path: string) returns (r: int)
    requires path != [] && |path| + 2 <= NAME_SIZE && NUL !in path
    requires Closed(fs.dirs)
    modifies fs`dirs
    ensures (fs.dirs, r == 1) == Make(old(fs.dirs), fs.denied, path[0] == SLASH, Split(path))
    ensures forall lead: nat, parts, gaps :: IsPath(path, lead, parts, gaps) ==>
              (fs.dirs, r == 1) == Make(old(fs.dirs), fs.denied, lead > 0, parts)
    ensures r == 0 || r == 1
  {
    hide Make, Split, Done, DirOf, Closed, IsPath;
    PathMade(path);
    var dirName, len := CopyPath(path);
    ghost var full := dirName[..len];
    ghost var dirs, denied, isAbsolute := fs.dirs, fs.denied, path[0] == SLASH;
    SplitSlash(path);
    var i := 1;
    DoneFirst(full);
    MakeNothing(dirs, denied, isAbsolute);
    while i < len
      invariant 1 <= i <= len == |full|
      invariant dirName[len] == NUL && forall k :: 0 <= k < len ==> dirName[k] == full[k]
      invariant (fs.dirs, true) == Make(dirs, denied, isAbsolute, Done(full[..i]))
    {
      if dirName[i] == SLASH {
        dirName[i] := NUL;
        ghost var name := full[..i];
        CStrIs(dirName[..], i);
        assert dirName[..][..i] == name;
        MakeNext(dirs, denied, fs.dirs, full, i);
        var a := fs.Access(CStr(dirName[..]));
        if a != 0 {
          var m := fs.Mkdir(CStr(dirName[..]));
          if m == -1 {
            return 0;
          }
        }
        dirName[i] := SLASH;
      }
      DoneNext(full, i);
      i := i + 1;
    }
    assert full[..len] == full;
    DoneAll(full);
    r := 1;
  }

  // What Make means

  predicate Allowed(dirs: set<Dir>, denied: set<Dir>, isAbsolute: bool, parts: seq<string>, k: nat)
    requires k <= |parts|
  {
    var d := Dir(isAbsolute, parts[..k]);
    d in dirs || d !in denied
  }

  /** It succeeds exactly when no missing ancestor, nor the directory itself, is denied. Then all of them exist. In any
      case nothing is lost, nothing else is made, nothing denied is made, and every parent exists. */
  lemma MakeMeaning(dirs: set<Dir>, denied: set<Dir>, isAbsolute: bool, parts: seq<string>)
    requires Closed(dirs)
    ensures var (after, ok) := Make(dirs, denied, isAbsolute, parts);
            && (ok <==> forall k: nat :: 1 <= k <= |parts| ==> Allowed(dirs, denied, isAbsolute, parts, k))
            && (ok ==> forall k: nat :: k <= |parts| ==> Dir(isAbsolute, parts[..k]) in after)
            && dirs <= after && Closed(after)
            && forall d :: d in after - dirs ==> d !in denied && d.isAbsolute == isAbsolute && d.parts <= parts
  {
    hide Make;
    MakeOk(dirs, denied, isAbsolute, parts);
    MakeAdds(dirs, denied, isAbsolute, parts);
    MakeSucceeds(dirs, denied, isAbsolute, parts);
    if Make(dirs, denied, isAbsolute, parts).1 {
      forall k: nat | k <= |parts|
        ensures Dir(isAbsolute, parts[..k]) in Make(dirs, denied, isAbsolute, parts).0
      {
        MakeAll(dirs, denied, isAbsolute, parts, k);
      }
    }
  }

  lemma {:induction false} MakeAdds(dirs: set<Dir>, denied: set<Dir>, isAbsolute: bool, parts: seq<string>)
    ensures var after := Make(dirs, denied, isAbsolute, parts).0;
            && dirs <= after
            && forall d :: d in after - dirs ==> d !in denied && d.isAbsolute == isAbsolute && d.parts <= parts
    decreases |parts|
  {
    if parts != [] {
      MakeAdds(dirs, denied, isAbsolute, parts[..|parts| - 1]);
    }
  }

  lemma {:induction false} MakeSucceeds(dirs: set<Dir>, denied: set<Dir>, isAbsolute: bool, parts: seq<string>)
    ensures Make(dirs, denied, isAbsolute, parts).1
            <==> forall k: nat :: 1 <= k <= |parts| ==> Allowed(dirs, denied, isAbsolute, parts, k)
    decreases |parts|
  {
    if parts != [] {
      var n, init := |parts|, parts[..|parts| - 1];
      MakeSucceeds(dirs, denied, isAbsolute, init);
      MakeAdds(dirs, denied, isAbsolute, init);
      assert parts[..n] == parts;
      LastIsNew(dirs, denied, isAbsolute, init, parts);
      forall k: nat | 1 <= k <= n - 1
        ensures Allowed(dirs, denied, isAbsolute, init, k) == Allowed(dirs, denied, isAbsolute, parts, k)
      {
        assert init[..k] == parts[..k];
      }
      assert Make(dirs, denied, isAbsolute, parts).1
             <==> Make(dirs, denied, isAbsolute, init).1 && Allowed(dirs, denied, isAbsolute, parts, n);
      if forall k: nat :: 1 <= k <= n - 1 ==> Allowed(dirs, denied, isAbsolute, init, k) {
        assert forall k: nat :: 1 <= k <= n - 1 ==> Allowed(dirs, denied, isAbsolute, parts, k);
      } else {
        var k: nat :| 1 <= k <= n - 1 && !Allowed(dirs, denied, isAbsolute, init, k);
        assert !Allowed(dirs, denied, isAbsolute, parts, k);
      }
    }
  }

  /** Making the ancestors does not make the directory. */
  lemma LastIsNew(dirs: set<Dir>, denied: set<Dir>, isAbsolute: bool, init: seq<string>, parts: seq<string>)
    requires |init| < |parts|
    ensures Dir(isAbsolute, parts) in Make(dirs, denied, isAbsolute, init).0 <==> Dir(isAbsolute, parts) in dirs
  {
    MakeAdds(dirs, denied, isAbsolute, init);
    var d := Dir(isAbsolute, parts);
    assert !(d.parts <= init);
  }

  lemma {:induction false} MakeAll(dirs: set<Dir>, denied: set<Dir>, isAbsolute: bool, parts: seq<string>, k: nat)
    requires Closed(dirs) && k <= |parts| && Make(dirs, denied, isAbsolute, parts).1
    ensures Dir(isAbsolute, parts[..k]) in Make(dirs, denied, isAbsolute, parts).0
    decreases |parts|
  {
    if k == |parts| {
      assert parts[..k] == parts;
      MakeOk(dirs, denied, isAbsolute, parts);
    } else {
      var init := parts[..|parts| - 1];
      assert init[..k] == parts[..k];
      MakeAll(dirs, denied, isAbsolute, init, k);
    }
  }
}
