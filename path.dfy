/**
 * VFS paths: a path is a string of '/'-separated components. `Path` holds
 * the queries (split at the last '/', components, directory and absolute
 * tests, joining), `PathBuf` is the owned string that `pop` and `join`
 * edit in place, and `to_absolute` resolves a relative path against a
 * working directory component by component.
 */
module Paths {
  import opened Common

  /** `rfind('/')`: the index of the last '/'. */
  function LastSlash(s: string): (r: Option<nat>)
    ensures r.None? <==> '/' !in s
    ensures r.Some? ==> r.value < |s| && s[r.value] == '/' && '/' !in s[r.value + 1..]
  {
    if |s| == 0 then None
    else if s[|s| - 1] == '/' then Some(|s| - 1)
    else
      assert s == s[..|s| - 1] + [s[|s| - 1]];
      var r := LastSlash(s[..|s| - 1]);
      if r.Some? then assert s[r.value + 1..] == s[..|s| - 1][r.value + 1..] + [s[|s| - 1]]; r
      else r
  }

  /** `find('/')`: the index of the first '/'. */
  function FirstSlash(s: string): (r: Option<nat>)
    ensures r.None? <==> '/' !in s
    ensures r.Some? ==> r.value < |s| && s[r.value] == '/' && '/' !in s[..r.value]
  {
    if |s| == 0 then None
    else if s[0] == '/' then Some(0)
    else
      assert s == [s[0]] + s[1..];
      var r := FirstSlash(s[1..]);
      if r.Some? then assert s[..r.value + 1] == [s[0]] + s[1..][..r.value]; Some(r.value + 1)
      else r
  }

  /** `split` (`rsplit_once('/')`): the text before and after the last '/'. */
  function Split(s: string): (r: Option<(string, string)>)
    ensures r.None? <==> '/' !in s
    ensures r.Some? ==> r.value.0 + "/" + r.value.1 == s && '/' !in r.value.1
  {
    match LastSlash(s)
    case None => None
    case Some(i) =>
      assert s == s[..i] + "/" + s[i + 1..];
      Some((s[..i], s[i + 1..]))
  }

  /** `parent`: the first half of `split`. */
  function Parent(s: string): (r: Option<string>)
    ensures r.None? <==> '/' !in s
  {
    match Split(s)
    case None => None
    case Some((parent, _)) => Some(parent)
  }

  /** `file_name`: the second half of `split`. */
  function FileName(s: string): (r: Option<string>)
    ensures r.None? <==> '/' !in s
    ensures r.Some? ==> '/' !in r.value
  {
    match Split(s)
    case None => None
    case Some((_, file)) => Some(file)
  }

  /** The parent, a '/' and the file name make up the path again. */
  lemma ParentFileName(s: string)
    requires '/' in s
    ensures Parent(s).value + "/" + FileName(s).value == s
    ensures |Parent(s).value| == LastSlash(s).value
  {
  }

  /** `is_dir`: the path ends with '/'. */
  predicate IsDir(s: string)
  {
    |s| > 0 && s[|s| - 1] == '/'
  }

  /** `is_absolute`: the path starts with '/'. */
  predicate IsAbsolute(s: string)
  {
    |s| > 0 && s[0] == '/'
  }

  /** `str::split('/')`: the pieces between the '/'s, empty ones included. */
  function SplitSlash(s: string): (r: seq<string>)
    ensures |r| >= 1
    ensures forall i :: 0 <= i < |r| ==> '/' !in r[i]
    decreases |s|
  {
    match FirstSlash(s)
    case None => [s]
    case Some(i) => [s[..i]] + SplitSlash(s[i + 1..])
  }

  /** `trim_start_matches('/')`: `s` without its leading run of '/'. */
  function TrimStart(s: string): (r: string)
    ensures |r| <= |s| && r == s[|s| - |r|..]
    ensures forall i :: 0 <= i < |s| - |r| ==> s[i] == '/'
    ensures |r| == 0 || r[0] != '/'
  {
    if |s| > 0 && s[0] == '/' then TrimStart(s[1..]) else s
  }

  /** `trim_end_matches('/')`: `s` without its trailing run of '/'. */
  function TrimEnd(s: string): (r: string)
    ensures |r| <= |s| && r == s[..|r|]
    ensures forall i :: |r| <= i < |s| ==> s[i] == '/'
    ensures |r| == 0 || r[|r| - 1] != '/'
  {
    if |s| > 0 && s[|s| - 1] == '/' then TrimEnd(s[..|s| - 1]) else s
  }

  /** The non-empty strings of `ps`, in order. */
  function NonEmpty(ps: seq<string>): (r: seq<string>)
    ensures |r| <= |ps|
    ensures forall c :: c in r ==> c in ps && c != ""
    ensures forall c :: c in ps && c != "" ==> c in r
  {
    if |ps| == 0 then []
    else if ps[0] == "" then NonEmpty(ps[1..])
    else [ps[0]] + NonEmpty(ps[1..])
  }

  /** Filtering distributes over concatenation: order and repeats are kept. */
  lemma {:induction false} NonEmptyConcat(a: seq<string>, b: seq<string>)
    ensures NonEmpty(a + b) == NonEmpty(a) + NonEmpty(b)
    decreases |a|
  {
    if |a| > 0 {
      assert (a + b)[0] == a[0] && (a + b)[1..] == a[1..] + b;
      NonEmptyConcat(a[1..], b);
      if a[0] != "" {
        assert NonEmpty(a + b) == [a[0]] + (NonEmpty(a[1..]) + NonEmpty(b));
      }
    } else {
      assert a + b == b;
    }
  }

  /** Splitting at a '/' between two strings splits each of them. */
  lemma {:induction false} SplitSlashConcat(a: string, b: string)
    ensures SplitSlash(a + "/" + b) == SplitSlash(a) + SplitSlash(b)
    decreases |a|
  {
    if '/' !in a {
      SplitAtJoint(a, b);
      SplitNone(a);
    } else {
      var i := FirstSlash(a).value;
      var rest := a[i + 1..];
      calc {
        SplitSlash(a + "/" + b);
        == { SplitBeforeJoint(a, b, i); }
        [a[..i]] + SplitSlash(rest + "/" + b);
        == { SplitSlashConcat(rest, b); }
        [a[..i]] + (SplitSlash(rest) + SplitSlash(b));
        ([a[..i]] + SplitSlash(rest)) + SplitSlash(b);
        == { SplitAt(a, i); }
        SplitSlash(a) + SplitSlash(b);
      }
    }
  }

  lemma SplitAtJoint(a: string, b: string)
    requires '/' !in a
    ensures SplitSlash(a + "/" + b) == [a] + SplitSlash(b)
  {
    var s := a + "/" + b;
    assert s[..|a|] == a && s[|a|] == '/' && s[|a| + 1..] == b;
    SplitAt(s, |a|);
  }

  lemma SplitBeforeJoint(a: string, b: string, i: nat)
    requires i < |a| && a[i] == '/' && '/' !in a[..i]
    ensures SplitSlash(a + "/" + b) == [a[..i]] + SplitSlash(a[i + 1..] + "/" + b)
  {
    var s := a + "/" + b;
    assert s[..i] == a[..i] && s[i] == '/';
    assert s[i + 1..] == a[i + 1..] + "/" + b;
    SplitAt(s, i);
  }

  /** Leading '/'s only add empty pieces. */
  lemma {:induction false} TrimStartIgnored(s: string)
    ensures NonEmpty(SplitSlash(TrimStart(s))) == NonEmpty(SplitSlash(s))
    decreases |s|
  {
    if |s| > 0 && s[0] == '/' {
      assert s[..0] == "";
      SplitAt(s, 0);
      assert ([""] + SplitSlash(s[1..]))[1..] == SplitSlash(s[1..]);
      TrimStartIgnored(s[1..]);
    }
  }

  /** Trailing '/'s only add empty pieces. */
  lemma {:induction false} TrimEndIgnored(s: string)
    ensures NonEmpty(SplitSlash(TrimEnd(s))) == NonEmpty(SplitSlash(s))
    decreases |s|
  {
    if |s| > 0 && s[|s| - 1] == '/' {
      var t := s[..|s| - 1];
      assert s == t + "/" + "";
      SplitSlashConcat(t, "");
      SplitNone("");
      NonEmptyConcat(SplitSlash(t), [""]);
      TrimEndIgnored(t);
    }
  }

  /** `iter`: the slash-trimmed path split at '/', without the empty pieces. */
  function Components(s: string): (r: seq<string>)
    ensures forall c :: c in r ==> c != "" && '/' !in c
  {
    NonEmpty(SplitSlash(TrimEnd(TrimStart(s))))
  }

  /** Trimming changes nothing: the components are the non-empty '/'-separated pieces. */
  lemma ComponentsArePieces(s: string)
    ensures Components(s) == NonEmpty(SplitSlash(s))
  {
    TrimEndIgnored(TrimStart(s));
    TrimStartIgnored(s);
  }

  /**
   * The components of two paths joined by '/' are the components of the
   * first followed by those of the second; a single name is its own only
   * component and the empty path has none. Together these fix `Components`
   * on every string.
   */
  lemma ComponentsConcat(a: string, b: string)
    ensures Components(a + "/" + b) == Components(a) + Components(b)
  {
    ComponentsArePieces(a + "/" + b);
    ComponentsArePieces(a);
    ComponentsArePieces(b);
    SplitSlashConcat(a, b);
    NonEmptyConcat(SplitSlash(a), SplitSlash(b));
  }

  lemma ComponentsName(c: string)
    requires '/' !in c
    ensures Components(c) == (if c == "" then [] else [c])
  {
    ComponentsArePieces(c);
  }

  /** An absolute path's components do not include a leading "/". */
  lemma ComponentsAbsoluteExample()
    ensures Components("/some/path") == ["some", "path"]
  {
    assert "/some/path" == "" + "/" + ("some" + "/" + "path");
    AbsoluteTwoNames("some", "path");
  }

  lemma AbsoluteTwoNames(x: string, y: string)
    requires x != "" && '/' !in x && y != "" && '/' !in y
    ensures Components("" + "/" + (x + "/" + y)) == [x, y]
  {
    calc {
      Components("" + "/" + (x + "/" + y));
    == { LeadingSlash(x + "/" + y); }
      Components(x + "/" + y);
    == { ComponentsConcat(x, y); }
      Components(x) + Components(y);
    == { ComponentsName(x); ComponentsName(y); }
      [x] + [y];
    }
  }

  /** A leading '/' adds no component. */
  lemma LeadingSlash(t: string)
    ensures Components("" + "/" + t) == Components(t)
  {
    var s := "" + "/" + t;
    assert s[0] == '/' && s[1..] == t;
    assert TrimStart(s) == TrimStart(t);
  }

  /** Two slash-free names joined by one '/' split into those two names. */
  lemma SplitTwo(a: string, b: string)
    requires '/' !in a && '/' !in b
    ensures SplitSlash(a + "/" + b) == [a, b]
  {
    var s := a + "/" + b;
    assert s[..|a|] == a && s[|a| + 1..] == b;
    SplitAt(s, |a|);
    SplitNone(b);
  }

  lemma SplitAt(s: string, k: nat)
    requires k < |s| && s[k] == '/' && '/' !in s[..k]
    ensures SplitSlash(s) == [s[..k]] + SplitSlash(s[k + 1..])
  {
    FirstSlashAt(s, k);
  }

  lemma SplitNone(s: string)
    requires '/' !in s
    ensures SplitSlash(s) == [s]
  {
  }

  /** Empty pieces between and after slashes are dropped. */
  lemma ComponentsDoubleSlashExample()
    ensures Components(['a', '/', '/', 'b', '/']) == ["a", "b"]
  {
    assert TrimEnd(['a', '/', '/', 'b', '/']) == ['a', '/', '/', 'b'] by {
      assert ['a', '/', '/', 'b', '/'][..4] == ['a', '/', '/', 'b'];
    }
    assert SplitSlash(['a', '/', '/', 'b']) == ["a", "", "b"] by {
      SplitADoubleSlashB();
    }
    assert NonEmpty(["a", "", "b"]) == ["a", "b"] by {
      assert ["a", "", "b"][1..] == ["", "b"];
      assert ["", "b"][1..] == ["b"];
    }
  }

  lemma SplitADoubleSlashB()
    ensures SplitSlash(['a', '/', '/', 'b']) == ["a", "", "b"]
  {
    assert ['a', '/', '/', 'b'][..1] == "a" && ['a', '/', '/', 'b'][2..] == "/b";
    SplitAt(['a', '/', '/', 'b'], 1);
    assert "/b"[..0] == "" && "/b"[1..] == "b";
    SplitAt("/b", 0);
    SplitNone("b");
  }

  lemma FirstSlashAt(s: string, k: nat)
    requires k < |s| && s[k] == '/' && '/' !in s[..k]
    ensures FirstSlash(s) == Some(k)
  {
  }

  /** `Path::join`: appends `p`, with a '/' between unless the path already ends in one. */
  function JoinPath(s: string, p: string): (r: string)
    ensures |r| == |s| + |p| + (if IsDir(s) then 0 else 1)
    ensures r[..|s|] == s && r[|r| - |p|..] == p
    ensures !IsDir(s) ==> r[|s|] == '/'
  {
    if IsDir(s) then s + p else s + "/" + p
  }

  /** Splitting a joined path gives back the directory (without its '/') and the name. */
  lemma SplitJoin(s: string, p: string)
    requires '/' !in p
    ensures Split(JoinPath(s, p)) == Some((if IsDir(s) then s[..|s| - 1] else s, p))
  {
    var r := JoinPath(s, p);
    var k := |r| - |p| - 1;
    assert r[k] == '/';
    assert r[k + 1..] == p;
    LastSlashAt(r, k);
    if IsDir(s) {
      assert r[..k] == s[..|s| - 1];
    } else {
      assert r[..k] == s;
    }
  }

  lemma LastSlashAt(s: string, k: nat)
    requires k < |s| && s[k] == '/' && '/' !in s[k + 1..]
    ensures LastSlash(s) == Some(k)
  {
  }

  /** Joining keeps a leading '/'. */
  lemma JoinAbsolute(s: string, p: string)
    requires IsAbsolute(s)
    ensures IsAbsolute(JoinPath(s, p))
  {
  }

  /** The string `PathBuf::pop` leaves: everything up to and including the last '/'. */
  function PopPath(s: string): (r: string)
    ensures '/' !in s ==> r == s
    ensures '/' in s ==> (|r| <= |s| && r == s[..|r|] && IsDir(r) && '/' !in s[|r|..])
  {
    match LastSlash(s)
    case None => s
    case Some(i) => s[..i + 1]
  }

  /** Popping keeps a leading '/'. */
  lemma PopAbsolute(s: string)
    requires IsAbsolute(s)
    ensures IsAbsolute(PopPath(s))
  {
  }

  /**
   * `pop` on a path that already ends in '/' changes nothing: the last '/'
   * is the final character, so a second ".." stays in the same directory.
   */
  lemma PopStaysOnDirectory(s: string)
    requires IsDir(s)
    ensures PopPath(s) == s
  {
    LastSlashAt(s, |s| - 1);
  }

  /**
   * The evidently intended `pop`: the parent directory, found by ignoring a
   * trailing '/' before looking for the last one.
   */
  function ParentDir(s: string): (r: string)
    ensures |r| <= |s| && r == s[..|r|]
  {
    if IsDir(s) && |s| > 1 then PopPath(s[..|s| - 1]) else PopPath(s)
  }

  /** The intended `pop` drops the last name whether or not the path ends in '/'. */
  lemma ParentDirDropsName(dir: string, name: string)
    requires name != "" && '/' !in name
    ensures ParentDir(dir + "/" + name) == dir + "/"
    ensures ParentDir(dir + "/" + name + "/") == dir + "/"
  {
    var s := dir + "/" + name;
    LastSlashAt(s, |dir|);
    assert s[..|dir| + 1] == dir + "/";
    var t := s + "/";
    assert t[..|t| - 1] == s;
  }

  /** What one component does to the working directory in `to_absolute`. */
  function Step(wd: string, part: string): string
  {
    if part == "." then wd
    else if part == ".." then PopPath(wd)
    else JoinPath(wd, part)
  }

  /** The working directory after all `parts`, first to last. */
  function Resolve(wd: string, parts: seq<string>): string
    decreases |parts|
  {
    if |parts| == 0 then wd else Resolve(Step(wd, parts[0]), parts[1..])
  }

  /** Resolving components in two runs is resolving them in one: they are applied first to last. */
  lemma {:induction false} ResolveConcat(wd: string, a: seq<string>, b: seq<string>)
    ensures Resolve(wd, a + b) == Resolve(Resolve(wd, a), b)
    decreases |a|
  {
    if |a| > 0 {
      assert (a + b)[0] == a[0] && (a + b)[1..] == a[1..] + b;
      ResolveConcat(Step(wd, a[0]), a[1..], b);
    } else {
      assert a + b == b;
    }
  }

  /** `to_absolute`: an absolute path as is, else the working directory after its components. */
  function ToAbsolutePath(s: string, wd: string): (r: string)
    ensures IsAbsolute(s) ==> r == s
  {
    if IsAbsolute(s) then s else Resolve(wd, Components(s))
  }

  /** Resolving against an absolute working directory stays absolute. */
  lemma {:induction false} ResolveAbsolute(wd: string, parts: seq<string>)
    requires IsAbsolute(wd)
    ensures IsAbsolute(Resolve(wd, parts))
    decreases |parts|
  {
    if |parts| > 0 {
      var part := parts[0];
      if part == ".." {
        PopAbsolute(wd);
      } else if part != "." {
        JoinAbsolute(wd, part);
      }
      ResolveAbsolute(Step(wd, part), parts[1..]);
    }
  }

  /** With an absolute working directory, `to_absolute` gives an absolute path. */
  lemma ToAbsoluteIsAbsolute(s: string, wd: string)
    requires IsAbsolute(wd)
    ensures IsAbsolute(ToAbsolutePath(s, wd))
  {
    if !IsAbsolute(s) {
      ResolveAbsolute(wd, Components(s));
    }
  }

  /** "." components leave the working directory as it is. */
  lemma {:induction false} DotsChangeNothing(wd: string, parts: seq<string>)
    requires forall i :: 0 <= i < |parts| ==> parts[i] == "."
    ensures Resolve(wd, parts) == wd
    decreases |parts|
  {
    if |parts| > 0 {
      DotsChangeNothing(wd, parts[1..]);
    }
  }

  /** As written, "../.." from "/a/b/c" climbs only one level. */
  lemma DoubleDotDotCounterexample()
    ensures ToAbsolutePath("../..", "/a/b/c") == "/a/b/"
  {
    DotDotComponents();
    assert Resolve("/a/b/c", ["..", ".."]) == "/a/b/" by {
      DotDotResolve();
    }
  }

  lemma DotDotComponents()
    ensures Components("../..") == ["..", ".."]
  {
    assert TrimStart("../..") == "../..";
    assert TrimEnd("../..") == "../..";
    DotDotPieces();
    DotDotNonEmpty();
  }

  lemma DotDotPieces()
    ensures SplitSlash("../..") == ["..", ".."]
  {
    assert ".." + "/" + ".." == "../..";
    SplitAtJoint("..", "..");
    SplitNone("..");
  }

  lemma DotDotNonEmpty()
    ensures NonEmpty(["..", ".."]) == ["..", ".."]
  {
    assert ["..", ".."][1..] == [".."];
    assert [".."][1..] == [];
  }

  lemma DotDotResolve()
    ensures Resolve("/a/b/c", ["..", ".."]) == "/a/b/"
  {
    LastSlashAt("/a/b/c", 4);
    assert "/a/b/c"[..5] == "/a/b/";
    assert PopPath("/a/b/c") == "/a/b/";
    PopStaysOnDirectory("/a/b/");
    assert ["..", ".."][1..] == [".."];
  }

  /** The intended `pop`, applied twice to "/a/b/c", climbs two levels. */
  lemma ParentDirTwice()
    ensures ParentDir(ParentDir("/a/b/c")) == "/a/"
  {
    ParentDirDropsName("/a/b", "c");
    assert "/a/b" + "/" + "c" == "/a/b/c";
    ParentDirDropsName("/a", "b");
    assert "/a" + "/" + "b" + "/" == "/a/b/";
  }

  /** The intended `pop` keeps a leading '/'. */
  lemma ParentDirAbsolute(s: string)
    requires IsAbsolute(s)
    ensures IsAbsolute(ParentDir(s))
  {
    if IsDir(s) && |s| > 1 {
      PopAbsolute(s[..|s| - 1]);
    } else {
      PopAbsolute(s);
    }
  }

  /** The working directory after `parts`, with ".." handled by the intended `pop`. */
  function ResolveIntended(wd: string, parts: seq<string>): string
    decreases |parts|
  {
    if |parts| == 0 then wd
    else
      var next :=
        if parts[0] == "." then wd
        else if parts[0] == ".." then ParentDir(wd)
        else JoinPath(wd, parts[0]);
      ResolveIntended(next, parts[1..])
  }

  /** `to_absolute` with the intended `pop`. */
  function ToAbsoluteIntended(s: string, wd: string): (r: string)
    ensures IsAbsolute(s) ==> r == s
  {
    if IsAbsolute(s) then s else ResolveIntended(wd, Components(s))
  }

  /** Resolving with the intended `pop` against an absolute working directory stays absolute. */
  lemma {:induction false} ResolveIntendedAbsolute(wd: string, parts: seq<string>)
    requires IsAbsolute(wd)
    ensures IsAbsolute(ResolveIntended(wd, parts))
    decreases |parts|
  {
    if |parts| > 0 {
      var part := parts[0];
      var next :=
        if part == "." then wd
        else if part == ".." then ParentDir(wd)
        else JoinPath(wd, part);
      if part == ".." {
        ParentDirAbsolute(wd);
      } else if part != "." {
        JoinAbsolute(wd, part);
      }
      ResolveIntendedAbsolute(next, parts[1..]);
    }
  }

  /** With the intended `pop`, "../.." from "/a/b/c" climbs two levels. */
  lemma DoubleDotDotIntended()
    ensures ToAbsoluteIntended("../..", "/a/b/c") == "/a/"
  {
    DotDotComponents();
    ParentDirTwice();
    assert ["..", ".."][1..] == [".."];
  }

  /** An owned path, edited in place. */
  class PathBuf {
    var path: string

    /** `new`: a copy of `p`. */
    constructor(p: string)
      ensures path == p
    {
      path := p;
    }

    /** `set`: replaces the contents with `p`. */
    method Set(p: string)
      modifies this
      ensures path == p
    {
      path := p;
    }

    /** `pop`: truncates just after the last '/', if there is one. */
    method Pop()
      modifies this
      ensures path == PopPath(old(path))
    {
      var split := LastSlash(path);
      if split.Some? {
        path := path[..split.value + 1];
      }
    }

    /** `join`: appends `p`, with a '/' unless the path already ends in one. */
    method Join(p: string)
      modifies this
      ensures path == JoinPath(old(path), p)
    {
      if IsDir(path) {
        path := path + p;
      } else {
        path := path + "/" + p;
      }
    }
  }

  /** `to_absolute`: walks the components, popping on "..", joining anything but ".". */
  method ToAbsolute(s: string, workingDir: string) returns (r: string)
    ensures r == ToAbsolutePath(s, workingDir)
  {
    if IsAbsolute(s) {
      return s;
    }
    var wd := new PathBuf(workingDir);
    var parts := Components(s);
    var i := 0;
    while i < |parts|
      invariant i <= |parts|
      invariant Resolve(wd.path, parts[i..]) == Resolve(workingDir, parts)
    {
      var part := parts[i];
      assert parts[i..][1..] == parts[i + 1..];
      if part == "." {
      } else if part == ".." {
        wd.Pop();
      } else {
        wd.Join(part);
      }
      i := i + 1;
    }
    return wd.path;
  }
}
