// mkdir0, mkdir1 and mkdir2 of jsvc-unix.c: making the directories above the PID file, by
// cutting the path in place, recursing, and mending it again.
module MakeDirs {
  import opened CString
  import opened Prelude

  const ENOENT := 2
  const ENOMEM := 12
  const EEXIST := 17
  const ENOTDIR := 20

  // A directory as the kernel sees it: where the path starts and its names. Empty names
  // between slashes do not count.
  datatype Dir = Dir(absolute: bool, parts: seq<string>)

  function LastSlash(s: string): (r: Option<nat>)
    ensures r.Some? ==> r.value < |s| && s[r.value] == '/' && '/' !in s[r.value + 1..]
    ensures r.None? ==> '/' !in s
  {
    if s == "" then None
    else
      var n := |s| - 1;
      assert s == s[..n] + [s[n]];
      if s[n] == '/' then Some(n)
      else
        var r := LastSlash(s[..n]);
        assert r.Some? ==> s[r.value + 1..] == s[..n][r.value + 1..] + [s[n]];
        r
  }

  function Parts(s: string): seq<string>
    decreases |s|
  {
    var slash := LastSlash(s);
    if slash.None? then (if s == "" then [] else [s])
    else Parts(s[..slash.value]) + if slash.value + 1 < |s| then [s[slash.value + 1..]] else []
  }

  function DirOf(s: string): Dir {
    Dir(s != "" && s[0] == '/', Parts(s))
  }

  // A path is its names, each behind a slash; a slash at the end adds none.
  lemma PartsAre(s: string, name: string)
    requires '/' !in name
    ensures Parts(name) == if name == "" then [] else [name]
    ensures Parts(s + "/" + name) == Parts(s) + if name == "" then [] else [name]
  {
    var t := s + "/" + name;
    assert t[..|s|] == s && t[|s|] == '/' && t[|s| + 1..] == name;
    assert LastSlash(t) == Some(|s|);
    assert LastSlash(name).None?;
  }

  // A path that begins with a slash never names what one without names.
  lemma AbsoluteApart(s: string, t: string)
    ensures DirOf("/" + s) != DirOf("") && (t != "" && t[0] != '/' ==> DirOf("/" + s) != DirOf(t))
    ensures '/' !in t && t != "" ==> DirOf("/" + t) == Dir(true, [t]) && DirOf(t) == Dir(false, [t])
  {
    if '/' !in t {
      PartsAre("", t);
      assert "" + "/" + t == "/" + t;
      assert LastSlash("").None? && Parts("") == [];
    }
  }

  function Parent(d: Dir): Dir
    requires d.parts != []
  {
    d.(parts := d.parts[..|d.parts| - 1])
  }

  // The root and the current directory exist, and so does the parent of what exists.
  ghost predicate Closed(dirs: set<Dir>) {
    && Dir(true, []) in dirs && Dir(false, []) in dirs
    && forall d :: d in dirs && d.parts != [] ==> Parent(d) in dirs
  }

  ghost predicate IsPrefix(d: Dir, e: Dir) {
    d.absolute == e.absolute && d.parts <= e.parts
  }

  lemma {:induction false} PrefixesExist(dirs: set<Dir>, d: Dir, e: Dir)
    requires Closed(dirs) && e in dirs && IsPrefix(d, e)
    ensures d in dirs
    decreases |e.parts|
  {
    if d != e {
      PrefixesExist(dirs, d, Parent(e));
    }
  }

  // Regular files, by the path that leads to them: each stands in an existing directory and
  // is none itself.
  ghost predicate FilesStand(dirs: set<Dir>, files: set<Dir>) {
    forall f :: f in files ==> f !in dirs && f.parts != [] && Parent(f) in dirs
  }

  // How the kernel walks to the last name of a path: from the k-th name on, it stops at the
  // first thing on the way that is not a directory. 0 means that it gets there.
  function Walk(dirs: set<Dir>, files: set<Dir>, d: Dir, k: nat): int
    requires k <= |d.parts|
    decreases |d.parts| - k
  {
    var here := d.(parts := d.parts[..k]);
    if k == |d.parts| then 0
    else if here in dirs then Walk(dirs, files, d, k + 1)
    else if here in files then ENOTDIR
    else ENOENT
  }

  // The path leads through a regular file.
  ghost predicate FileAbove(files: set<Dir>, d: Dir) {
    exists f :: f in files && f != d && IsPrefix(f, d)
  }

  lemma {:induction false} WalkIs(dirs: set<Dir>, files: set<Dir>, d: Dir, k: nat)
    requires Closed(dirs) && FilesStand(dirs, files)
    requires k <= |d.parts| && (k > 0 ==> d.(parts := d.parts[..k - 1]) in dirs)
    ensures Walk(dirs, files, d, k) ==
      if d.parts == [] || Parent(d) in dirs then 0 else if FileAbove(files, d) then ENOTDIR else ENOENT
    decreases |d.parts| - k
  {
    var here := d.(parts := d.parts[..k]);
    if k < |d.parts| {
      assert IsPrefix(here, Parent(d)) by {
        assert d.parts[..|d.parts| - 1][..k] == d.parts[..k];
      }
      if here in dirs {
        WalkIs(dirs, files, d, k + 1);
      } else {
        if Parent(d) in dirs {
          PrefixesExist(dirs, here, Parent(d));
        }
        assert k > 0 ==> Parent(here) == d.(parts := d.parts[..k - 1]);
        OnlyFileAbove(dirs, files, d, here);
      }
    }
  }

  // Nothing stands on the way above what is missing.
  lemma OnlyFileAbove(dirs: set<Dir>, files: set<Dir>, d: Dir, here: Dir)
    requires Closed(dirs) && FilesStand(dirs, files)
    requires here !in dirs && here != d && IsPrefix(here, d)
    requires here.parts != [] ==> Parent(here) in dirs
    ensures FileAbove(files, d) <==> here in files
  {
    if f :| f in files && f != d && IsPrefix(f, d) && f != here {
      if |f.parts| < |here.parts| {
        assert IsPrefix(f, Parent(here));
        PrefixesExist(dirs, f, Parent(here));
      } else {
        assert |f.parts| > |here.parts| by {
          assert f.parts == d.parts[..|f.parts|] && here.parts == d.parts[..|here.parts|];
        }
        assert IsPrefix(here, Parent(f));
        PrefixesExist(dirs, here, Parent(f));
      }
      assert false;
    }
  }

  class FileSystem {
    var dirs: set<Dir>
    const files: set<Dir>
    // Directories that cannot be made, with the error that the attempt reports.
    const blocked: map<Dir, int>

    constructor (dirs: set<Dir>, files: set<Dir>, blocked: map<Dir, int>)
      ensures this.dirs == dirs && this.files == files && this.blocked == blocked
    {
      this.dirs, this.files, this.blocked := dirs, files, blocked;
    }

    ghost predicate Valid()
      reads this
    {
      Closed(dirs) && FilesStand(dirs, files) && forall d :: d in blocked ==> blocked[d] !in {0, ENOENT, EEXIST}
    }

    // mkdir(2), reporting errno on failure: this is mkdir0.
    method Mkdir0(name: string) returns (rc: int)
      requires Valid() && name != ""
      modifies this
      ensures Valid()
      ensures var d := DirOf(name);
        rc == if d in old(dirs) || d in files then EEXIST
              else if d.parts != [] && Parent(d) !in old(dirs) then (if FileAbove(files, d) then ENOTDIR else ENOENT)
              else if d in blocked then blocked[d] else 0
      ensures dirs == old(dirs) + if rc == 0 then {DirOf(name)} else {}
    {
      hide Walk, Parts;
      var d := DirOf(name);
      WalkIs(dirs, files, d, 0);
      var walk := Walk(dirs, files, d, 0);
      if walk != 0 {
        return walk;
      }
      if d in dirs || d in files {
        return EEXIST;
      }
      if d in blocked {
        return blocked[d];
      }
      dirs := dirs + {d};
      return 0;
    }
  }

  // A path stumbles when a directory is missing two levels up and a slash follows its last
  // name: the recursion then makes the directory itself, and making it once more fails.
  predicate Stumbles(dirs: set<Dir>, s: string)
    decreases |s|
  {
    var d := DirOf(s);
    var slash := LastSlash(s);
    d !in dirs && d.parts != [] && Parent(d) !in dirs && slash.Some?
    && (slash.value + 1 == |s| || Stumbles(dirs, s[..slash.value]))
  }

  // Neither a doubled nor a trailing slash.
  predicate Tidy(s: string) {
    (s != "" ==> s[|s| - 1] != '/') && forall i :: 0 < i < |s| ==> !(s[i - 1] == '/' && s[i] == '/')
  }

  lemma {:induction false} TidyNeverStumbles(dirs: set<Dir>, s: string)
    requires Tidy(s) && Closed(dirs)
    ensures !Stumbles(dirs, s)
    decreases |s|
  {
    var slash := LastSlash(s);
    if slash.Some? {
      if slash.value == 0 {
        assert Parts(s[..0]) == [];
      } else {
        TidyNeverStumbles(dirs, s[..slash.value]);
      }
    }
  }

  lemma PartsOfCut(s: string, i: nat)
    requires LastSlash(s) == Some(i)
    ensures i == 0 ==> Parts(s[..i]) == []
    ensures if i + 1 == |s| then Parts(s) == Parts(s[..i])
            else Parts(s) == Parts(s[..i]) + [s[i + 1..]] && Parts(s)[..|Parts(s)| - 1] == Parts(s[..i])
    ensures i > 0 ==> DirOf(s[..i]).absolute == DirOf(s).absolute
  {
  }

  // Cutting a path whose parent is missing always leaves a non-empty path.
  lemma CutPath(dirs: set<Dir>, s: string)
    requires Closed(dirs) && DirOf(s).parts != [] && Parent(DirOf(s)) !in dirs
    ensures LastSlash(s).Some? && LastSlash(s).value > 0
    ensures var cut := s[..LastSlash(s).value];
      if LastSlash(s).value + 1 == |s| then DirOf(cut) == DirOf(s) else DirOf(cut) == Parent(DirOf(s))
  {
    var d := DirOf(s);
    assert d.parts[..0] == [];
    var slash := LastSlash(s);
    if slash.Some? {
      PartsOfCut(s, slash.value);
      hide Parts, LastSlash;
      assert slash.value == 0 ==> |Parts(s)| <= 1;
    }
  }

  // None of what is still missing on the way to d is a regular file or cannot be made.
  ghost predicate NoneInTheWay(dirs: set<Dir>, obstacles: set<Dir>, d: Dir) {
    forall p :: IsPrefix(p, d) && p !in dirs ==> p !in obstacles
  }

  lemma NoneInTheWayStep(dirs: set<Dir>, obstacles: set<Dir>, d: Dir)
    requires d.parts != []
    ensures NoneInTheWay(dirs, obstacles, d) <==>
      NoneInTheWay(dirs, obstacles, Parent(d)) && (d in dirs || d !in obstacles)
  {
    forall p | IsPrefix(p, d)
      ensures p == d || IsPrefix(p, Parent(d))
    {
    }
    assert IsPrefix(d, d);
    assert forall p :: IsPrefix(p, Parent(d)) ==> IsPrefix(p, d);
  }

  lemma ExistingIsClear(dirs: set<Dir>, obstacles: set<Dir>, d: Dir)
    requires Closed(dirs) && d in dirs
    ensures NoneInTheWay(dirs, obstacles, d)
  {
    forall p | IsPrefix(p, d)
      ensures p in dirs
    {
      PrefixesExist(dirs, p, d);
    }
  }

  // When mkdir1 reports success, in terms of what is there before the call. A regular file
  // at the very path counts as success.
  ghost predicate CanMake(dirs: set<Dir>, files: set<Dir>, blocked: map<Dir, int>, s: string) {
    || DirOf(s) in dirs || DirOf(s) in files
    || (NoneInTheWay(dirs, blocked.Keys + files, DirOf(s)) && !Stumbles(dirs, s))
  }

  lemma CanMakeLast(dirs: set<Dir>, files: set<Dir>, blocked: map<Dir, int>, s: string)
    requires Closed(dirs) && DirOf(s) !in dirs && DirOf(s) !in files
    requires DirOf(s).parts != [] && Parent(DirOf(s)) in dirs
    ensures CanMake(dirs, files, blocked, s) <==> DirOf(s) !in blocked
  {
    hide LastSlash, Parts;
    NoneInTheWayStep(dirs, blocked.Keys + files, DirOf(s));
    ExistingIsClear(dirs, blocked.Keys + files, Parent(DirOf(s)));
  }

  lemma CanMakeDeep(dirs: set<Dir>, files: set<Dir>, blocked: map<Dir, int>, s: string)
    requires Closed(dirs) && DirOf(s) !in dirs && DirOf(s) !in files
    requires DirOf(s).parts != [] && Parent(DirOf(s)) !in dirs && !FileAbove(files, DirOf(s))
    ensures LastSlash(s).Some? && LastSlash(s).value > 0
    ensures var i := LastSlash(s).value;
      && DirOf(s[..i]) !in files
      && (CanMake(dirs, files, blocked, s) <==>
            i + 1 < |s| && CanMake(dirs, files, blocked, s[..i]) && DirOf(s) !in blocked)
  {
    hide Parts;
    var d := DirOf(s);
    CutPath(dirs, s);
    NoneInTheWayStep(dirs, blocked.Keys + files, d);
    assert IsPrefix(Parent(d), d) && Parent(d) != d;
  }

  lemma CannotMakeBelowFile(dirs: set<Dir>, files: set<Dir>, blocked: map<Dir, int>, s: string)
    requires FilesStand(dirs, files) && DirOf(s) !in dirs && DirOf(s) !in files && FileAbove(files, DirOf(s))
    ensures !CanMake(dirs, files, blocked, s)
  {
  }

  lemma MendedPath(m: string, s: string, i: nat)
    requires HoldsAt(m, 0, s) && i < |s| && s[i] == '/'
    ensures m[i] == '/' && HoldsAt(m[i := NUL], 0, s[..i])
    ensures m[i := NUL][i := '/'] == m
  {
    assert m[0..|s|][i] == m[i];
    assert m[i := NUL][0..i] == m[0..|s|][..i] == s[..i];
    assert forall c :: c in s[..i] ==> c in s;
  }

  // Some directory on the way to d cannot be made, for this reason.
  ghost predicate BlockedWith(blocked: map<Dir, int>, d: Dir, error: int) {
    exists p :: p in blocked && IsPrefix(p, d) && blocked[p] == error
  }

  lemma BlockedAbove(blocked: map<Dir, int>, p: Dir, d: Dir, error: int)
    requires IsPrefix(p, d)
    ensures BlockedWith(blocked, p, error) ==> BlockedWith(blocked, d, error)
    ensures p in blocked ==> BlockedWith(blocked, p, blocked[p])
  {
    assert IsPrefix(p, p);
    if q :| q in blocked && IsPrefix(q, p) && blocked[q] == error {
      assert IsPrefix(q, d);
    }
  }

  lemma NoFileAboveExisting(dirs: set<Dir>, files: set<Dir>, d: Dir)
    requires Closed(dirs) && FilesStand(dirs, files) && (d in dirs || d in files)
    ensures !FileAbove(files, d)
  {
    if f :| f in files && f != d && IsPrefix(f, d) {
      var e := if d in dirs then d else Parent(d);
      assert IsPrefix(f, e);
      PrefixesExist(dirs, f, e);
      assert false;
    }
  }

  lemma NoFileBelow(dirs: set<Dir>, files: set<Dir>, d: Dir)
    requires Closed(dirs) && FilesStand(dirs, files) && (d.parts == [] || Parent(d) in dirs)
    ensures !FileAbove(files, d)
  {
    if f :| f in files && f != d && IsPrefix(f, d) {
      PrefixesExist(dirs, f, Parent(d));
      assert false;
    }
  }

  lemma NoFileFurtherUp(files: set<Dir>, d: Dir, e: Dir)
    requires IsPrefix(d, e)
    ensures FileAbove(files, d) ==> FileAbove(files, e)
  {
  }

  // mkdir1. On every return, at every depth of the recursion, the path is as it was. Success
  // means a directory unless a regular file stands there, for which mkdir says EEXIST as well.
  method Mkdir1(a: array<char>, fs: FileSystem, ghost s: string) returns (rc: int)
    requires HoldsAt(a[..], 0, s) && s != "" && fs.Valid()
    modifies a, fs
    ensures a[..] == old(a[..]) && fs.Valid()
    ensures rc == 0 <==> CanMake(old(fs.dirs), fs.files, fs.blocked, s)
    ensures rc == 0 ==> (DirOf(s) in fs.dirs <==> DirOf(s) !in fs.files)
    ensures FileAbove(fs.files, DirOf(s)) ==> rc == ENOTDIR
    ensures rc != 0 && !FileAbove(fs.files, DirOf(s)) ==> rc == EEXIST || BlockedWith(fs.blocked, DirOf(s), rc)
    ensures old(fs.dirs) <= fs.dirs && forall d :: d in fs.dirs - old(fs.dirs) ==> IsPrefix(d, DirOf(s))
    decreases |s|
  {
    hide Parts, Stumbles, CanMake, StrLen, LastSlash, BlockedWith, FileAbove;
    ghost var m := a[..];
    StrLenHolds(m, 0, s);
    var name := a[..StrLen(a[..], 0)];
    assert name == s;
    rc := fs.Mkdir0(name);
    if rc == EEXIST {
      CanMakeExisting(old(fs.dirs), fs.files, fs.blocked, s);
      NoFileAboveExisting(old(fs.dirs), fs.files, DirOf(s));
      return 0;
    }
    if rc == ENOENT {
      assert fs.dirs == old(fs.dirs);
      CanMakeDeep(fs.dirs, fs.files, fs.blocked, s);
      CutPath(fs.dirs, s);
      var slash := LastSlash(name);
      if slash.Some? {
        var pos := slash.value;
        MendedPath(m, s, pos);
        a[pos] := NUL;
        assert a[..] == m[pos := NUL];
        FirstCharacter(m, s);
        if a[0] != NUL {
          rc := Mkdir1(a, fs, s[..pos]);
          NoFileFurtherUp(fs.files, DirOf(s[..pos]), DirOf(s));
          BlockedAbove(fs.blocked, DirOf(s[..pos]), DirOf(s), rc);
          PrefixesOfParent(DirOf(s));
          assert DirOf(s) !in fs.dirs || DirOf(s[..pos]) == DirOf(s);
          assert rc == 0 <==> CanMake(old(fs.dirs), fs.files, fs.blocked, s[..pos]);
          if rc == 0 {
            a[pos] := '/';
            rc := fs.Mkdir0(name);
            BlockedAbove(fs.blocked, DirOf(s), DirOf(s), rc);
          }
        }
        a[pos] := '/';
        assert a[..] == m;
      }
    } else if Parent(DirOf(s)) !in old(fs.dirs) {
      CannotMakeBelowFile(old(fs.dirs), fs.files, fs.blocked, s);
    } else {
      CanMakeLast(old(fs.dirs), fs.files, fs.blocked, s);
      NoFileBelow(old(fs.dirs), fs.files, DirOf(s));
      BlockedAbove(fs.blocked, DirOf(s), DirOf(s), rc);
    }
  }

  lemma PrefixesOfParent(d: Dir)
    requires d.parts != []
    ensures IsPrefix(d, d) && !IsPrefix(d, Parent(d))
    ensures forall p :: IsPrefix(p, Parent(d)) ==> IsPrefix(p, d)
  {
  }

  lemma FirstCharacter(m: string, s: string)
    requires HoldsAt(m, 0, s) && s != ""
    ensures m[0] != NUL
  {
    assert m[0..|s|][0] == s[0] && s[0] in s;
  }

  lemma CanMakeExisting(dirs: set<Dir>, files: set<Dir>, blocked: map<Dir, int>, s: string)
    requires DirOf(s) in dirs || DirOf(s) in files
    ensures CanMake(dirs, files, blocked, s)
  {
  }

  // mkdir2 works on a copy of the path, without its last name. strdup tells whether the
  // copy could be allocated.
  method Mkdir2(name: string, fs: FileSystem, strdup: bool) returns (rc: int)
    requires IsCString(name) && fs.Valid()
    modifies fs
    ensures fs.Valid() && old(fs.dirs) <= fs.dirs
    ensures !strdup ==> rc == ENOMEM && fs.dirs == old(fs.dirs)
    ensures strdup && (LastSlash(name).None? || LastSlash(name).value == 0) ==> rc == 0 && fs.dirs == old(fs.dirs)
    ensures strdup && LastSlash(name).Some? && LastSlash(name).value > 0 ==>
      var above := name[..LastSlash(name).value];
      && (rc == 0 <==> CanMake(old(fs.dirs), fs.files, fs.blocked, above))
      && (rc == 0 ==> ((forall d :: IsPrefix(d, DirOf(above)) ==> d in fs.dirs) <==> DirOf(above) !in fs.files))
      && (forall d :: d in fs.dirs - old(fs.dirs) ==> IsPrefix(d, DirOf(above)))
  {
    hide Parts, CanMake, LastSlash;
    rc := 0;
    if !strdup {
      return ENOMEM;
    }
    var dir := new char[|name| + 1];
    StrCpy(dir, name);
    var slash := LastSlash(name);
    if slash.Some? {
      var pos := slash.value;
      MendedPath(dir[..], name, pos);
      ghost var m := dir[..];
      dir[pos] := NUL;
      assert dir[..] == m[pos := NUL];
      if pos > 0 {
        FirstCharacter(dir[..], name[..pos]);
      }
      if dir[0] != NUL {
        rc := Mkdir1(dir, fs, name[..pos]);
        assert IsPrefix(DirOf(name[..pos]), DirOf(name[..pos]));
        if rc == 0 && DirOf(name[..pos]) !in fs.files {
          forall d | IsPrefix(d, DirOf(name[..pos]))
            ensures d in fs.dirs
          {
            PrefixesExist(fs.dirs, d, DirOf(name[..pos]));
          }
        }
      }
    }
  }

  // For the file x/a//pid the path above it is x/a/ and the call fails, although all that
  // is needed can be made: without the second slash it succeeds.
  lemma StumbleExample(dirs: set<Dir>, files: set<Dir>)
    requires Closed(dirs) && Dir(false, ["x"]) !in dirs
    requires forall f :: f in files ==> !IsPrefix(f, Dir(false, ["x", "a"]))
    ensures !CanMake(dirs, files, map[], "x/a/") && CanMake(dirs, files, map[], "x/a")
    ensures DirOf("x/a/") == DirOf("x/a")
  {
    assert "x/a/"[..3] == "x/a" && "x/a"[..1] == "x" && "x/a"[2..] == "a";
    assert LastSlash("x/a/") == Some(3) && LastSlash("x/a") == Some(1) && LastSlash("x").None?;
    assert Parts("x") == ["x"];
    assert Parts("x/a") == Parts("x") + ["a"] == ["x", "a"];
    assert Parts("x/a/") == Parts("x/a") + [] == ["x", "a"];
    var d := Dir(false, ["x", "a"]);
    assert Parent(d) == Dir(false, ["x"]);
    assert d !in dirs;
    assert Tidy("x/a");
    TidyNeverStumbles(dirs, "x/a");
  }

  // With a regular file x, the way to x/pid is reported as made, and x is no directory.
  method FileInTheWay() returns (fs: FileSystem, rc: int)
    ensures fs.Valid() && rc == 0 && DirOf("x") !in fs.dirs
  {
    assert LastSlash("x").None? && Parts("x") == ["x"];
    var x := Dir(false, ["x"]);
    assert Parent(x) == Dir(false, []);
    fs := new FileSystem({Dir(true, []), Dir(false, [])}, {x}, map[]);
    rc := Mkdir2("x/pid", fs, true);
    assert LastSlash("x/pid") == Some(1) && "x/pid"[..1] == "x" by {
      assert "x/pid"[..4] == "x/pi" && "x/pi"[..3] == "x/p" && "x/p"[..2] == "x/";
    }
  }
}
