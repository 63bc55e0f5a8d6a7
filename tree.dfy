/**
 * The VFS tree: a node is a file or a directory, and a path is resolved
 * from a node by walking its components through the directories'
 * children. `find` can create the missing directories on the way,
 * `find_file` can create the missing file at the end, and `insert` adds a
 * node under its parent directory.
 *
 * What a walk reaches is stated against a snapshot of the directories'
 * children (a `Snapshot`, which `Mirrors` ties to the heap), so that a
 * walk is a pure function of the snapshot; a directory absent from a
 * snapshot counts as empty.
 */
module VfsTree {
  import opened Common
  import SyscallErr
  import Paths
  import opened Ramdisk

  datatype TreeError = NotFound | AlreadyExists | NotADirectory | IsADirectory

  /** The children of every directory, at one moment. */
  type Snapshot = map<Directory, map<string, Node>>

  /** The children of `d` in `s`; none when `s` does not hold `d`. */
  function Kids(s: Snapshot, d: Directory): map<string, Node>
  {
    if d in s then s[d] else map[]
  }

  /** Every directory that a directory of `s` holds is in `s` too. */
  ghost predicate Closed(s: Snapshot)
  {
    forall d, name :: d in s && name in s[d] && s[d][name].DirNode? ==> s[d][name].dir in s
  }

  /** `n` is a file, or a directory of `dirs`. */
  ghost predicate Within(n: Node, dirs: set<Directory>)
  {
    n.DirNode? ==> n.dir in dirs
  }

  /** `t` has every directory of `s`, and every child `s` has, unchanged. */
  ghost predicate Extends(s: Snapshot, t: Snapshot)
  {
    forall d :: d in s ==> d in t && forall name :: name in s[d] ==> name in t[d] && t[d][name] == s[d][name]
  }

  /**
   * What walking `parts` from `n` reaches: a file met before the last
   * component is `NotADirectory`, a missing child is `NotFound`.
   */
  function Walk(s: Snapshot, n: Node, parts: seq<string>): (r: Result<Node, TreeError>)
    ensures r.Err? ==> r.error == NotFound || r.error == NotADirectory
    decreases |parts|
  {
    if |parts| == 0 then Ok(n)
    else match n
      case FileNode(_) => Err(NotADirectory)
      case DirNode(d) =>
        if parts[0] in Kids(s, d) then Walk(s, Kids(s, d)[parts[0]], parts[1..]) else Err(NotFound)
  }

  /** Walking `p + q` is walking `p`, then `q` from where `p` ended. */
  lemma {:induction false} WalkAppend(s: Snapshot, n: Node, p: seq<string>, q: seq<string>)
    ensures Walk(s, n, p + q) == match Walk(s, n, p) case Ok(m) => Walk(s, m, q) case Err(e) => Err(e)
    decreases |p|
  {
    if |p| == 0 {
      assert p + q == q;
    } else if n.DirNode? && p[0] in Kids(s, n.dir) {
      assert (p + q)[0] == p[0] && (p + q)[1..] == p[1..] + q;
      WalkAppend(s, Kids(s, n.dir)[p[0]], p[1..], q);
    } else {
      assert (p + q)[0] == p[0];
    }
  }

  /** One more component: the walk of `parts[..k + 1]` takes one step from that of `parts[..k]`. */
  lemma WalkStep(s: Snapshot, n: Node, parts: seq<string>, k: nat)
    requires k < |parts|
    ensures Walk(s, n, parts[..k + 1]) == match Walk(s, n, parts[..k]) case Ok(m) => Walk(s, m, [parts[k]]) case Err(e) => Err(e)
  {
    assert parts[..k + 1] == parts[..k] + [parts[k]];
    WalkAppend(s, n, parts[..k], [parts[k]]);
  }

  /** Once the walk of `parts[..k]` fails, or hits a file with more to go, the whole walk does. */
  lemma WalkRest(s: Snapshot, n: Node, parts: seq<string>, k: nat)
    requires k <= |parts|
    ensures Walk(s, n, parts) == match Walk(s, n, parts[..k]) case Ok(m) => Walk(s, m, parts[k..]) case Err(e) => Err(e)
  {
    assert parts == parts[..k] + parts[k..];
    WalkAppend(s, n, parts[..k], parts[k..]);
  }

  /**
   * Adding directories and children never changes a walk that did not
   * end at a missing child: it reaches the same node, or the same file in
   * the way.
   */
  lemma {:induction false} WalkExtend(s: Snapshot, t: Snapshot, n: Node, parts: seq<string>)
    requires Extends(s, t)
    requires Walk(s, n, parts) != Err(NotFound)
    ensures Walk(t, n, parts) == Walk(s, n, parts)
    decreases |parts|
  {
    if |parts| > 0 && n.DirNode? {
      assert n.dir in s;
      WalkExtend(s, t, s[n.dir][parts[0]], parts[1..]);
    }
  }

  /** A walk from a node of `dirs` over a closed snapshot of them stays in `dirs`. */
  lemma {:induction false} WalkWithin(s: Snapshot, n: Node, parts: seq<string>)
    requires Closed(s) && Within(n, s.Keys)
    ensures Walk(s, n, parts).Ok? ==> Within(Walk(s, n, parts).value, s.Keys)
    decreases |parts|
  {
    if |parts| > 0 && n.DirNode? && parts[0] in Kids(s, n.dir) {
      WalkWithin(s, Kids(s, n.dir)[parts[0]], parts[1..]);
    }
  }

  /** `Node::new_root`: an empty directory with an empty name. */
  method NewRoot() returns (root: Node)
    ensures root.DirNode? && fresh(root.dir)
    ensures root.dir.name == "" && root.dir.children == map[]
  {
    var d := new Directory("");
    root := DirNode(d);
  }

  /**
   * `find`: walks the components of `path` from `root`. A file in the way
   * is `NotADirectory`; a missing component is a new empty directory when
   * `makeDirs`, else `NotFound`. `before` and `after` are the directories'
   * children before and after the call. The result is what walking
   * `after` gives; the walk only adds children and directories, and adds
   * none unless walking `before` ends at a missing child.
   */
  method Find(root: Node, path: string, makeDirs: bool, ghost dirs: set<Directory>, ghost before: Snapshot)
      returns (r: Result<Node, TreeError>, ghost made: set<Directory>, ghost after: Snapshot)
    requires Mirrors(before, dirs) && Within(root, dirs) && Closed(before)
    modifies dirs
    ensures fresh(made) && Mirrors(after, dirs + made) && Closed(after) && Extends(before, after)
    ensures r == Walk(after, root, Paths.Components(path))
    ensures r.Ok? ==> Within(r.value, dirs + made)
    ensures makeDirs ==> r.Ok? || r == Err(NotADirectory)
    ensures !makeDirs ==> made == {}
    ensures made == {} ==> after == before
    ensures made != {} ==> Walk(before, root, Paths.Components(path)) == Err(NotFound)
    ensures made != {} ==> r.Ok? && r.value.DirNode? && Kids(after, r.value.dir) == map[]
  {
    var parts := Paths.Components(path);
    var here := root;
    var k := 0;
    r := Ok(root);
    made := {};
    after := before;
    assert dirs + made == dirs;
    while k < |parts| && r.Ok?
      invariant 0 <= k <= |parts|
      invariant fresh(made)
      invariant Mirrors(after, dirs + made)
      invariant FindInv(before, after, root, parts, k, makeDirs, made == {}, r, here)
      decreases |parts| - k, r.Ok?
    {
      ghost var child, grown;
      r, here, k, child, grown := FindStep(root, parts, k, makeDirs, here, dirs, made, before, after);
      assert fresh(made + child);
      made := made + child;
      after := grown;
    }
    if r.Ok? {
      assert parts[..k] == parts;
    }
    if made != {} {
      WalkRest(before, root, parts, k);
    }
  }

  /** One pass of `find`'s loop: the component `parts[k]` looked up, or made, from `here`. */
  method FindStep(root: Node, parts: seq<string>, k: nat, makeDirs: bool, here: Node,
                  ghost dirs: set<Directory>, ghost made: set<Directory>, ghost before: Snapshot, ghost after: Snapshot)
      returns (r: Result<Node, TreeError>, here': Node, k': nat, ghost child: set<Directory>, ghost grown: Snapshot)
    requires k < |parts| && Mirrors(after, dirs + made)
    requires FindInv(before, after, root, parts, k, makeDirs, made == {}, Ok(here), here)
    modifies dirs + made
    ensures fresh(child) && Mirrors(grown, dirs + (made + child))
    ensures FindInv(before, grown, root, parts, k', makeDirs, made + child == {}, r, here')
    ensures r.Ok? ==> k' == k + 1
    ensures r.Err? ==> k' == k
  {
    match here
    case FileNode(_) =>
      FileStep(before, after, root, parts, k, makeDirs, made == {}, here);
      r, here', k', child, grown := Err(NotADirectory), here, k, {}, after;
      assert made + child == made;
    case DirNode(d) =>
      var next;
      next, child, grown := Descend(d, parts[k], makeDirs, dirs, made, after);
      DescendStep(before, after, grown, root, parts, k, makeDirs, made == {}, d, next, child, made + child == {});
      if next.Some? {
        r, here', k' := Ok(next.value), next.value, k + 1;
      } else {
        r, here', k' := Err(NotFound), here, k;
      }
  }

  /** `s` holds the children that the directories `ds` have now. */
  ghost predicate Mirrors(s: Snapshot, ds: set<Directory>)
    reads ds
  {
    s.Keys == ds && forall e :: e in ds ==> s[e] == e.children
  }

  lemma UnionAssoc<T>(a: set<T>, b: set<T>, c: set<T>)
    ensures a + b + c == a + (b + c)
    ensures (b + c == {}) == (b == {} && c == {})
  {
    if b + c == {} {
      assert forall x :: x in b ==> x in b + c;
    }
  }

  /** What `find`'s walk knows after `k` components. */
  ghost predicate FindInv(orig: Snapshot, cur: Snapshot, root: Node, parts: seq<string>, k: nat, makeDirs: bool, same: bool, r: Result<Node, TreeError>, here: Node)
  {
    k <= |parts| && Within(here, cur.Keys) && Closed(cur) && Extends(orig, cur)
    && (r.Ok? ==> r == Walk(cur, root, parts[..k]) == Ok(here))
    && (r.Err? ==> r == Walk(cur, root, parts))
    && (!makeDirs ==> same)
    && (same ==> cur == orig)
    && (!same ==> r.Ok? && here.DirNode? && here.dir in cur && Kids(cur, here.dir) == map[])
    && (!same ==> Walk(orig, root, parts[..k]) == Err(NotFound))
    && (makeDirs ==> r.Ok? || r == Err(NotADirectory))
  }

  /** A file met with components left makes the walk `NotADirectory`. */
  lemma FileStep(orig: Snapshot, cur: Snapshot, root: Node, parts: seq<string>, k: nat, makeDirs: bool, same: bool, here: Node)
    requires FindInv(orig, cur, root, parts, k, makeDirs, same, Ok(here), here) && k < |parts| && here.FileNode?
    ensures FindInv(orig, cur, root, parts, k, makeDirs, same, Err(NotADirectory), here)
  {
    WalkRest(cur, root, parts, k);
  }

  /** One component looked up, or made, in directory `d`. */
  lemma DescendStep(orig: Snapshot, cur: Snapshot, next: Snapshot, root: Node, parts: seq<string>, k: nat, makeDirs: bool, same: bool,
                    d: Directory, found: Option<Node>, child: set<Directory>, same': bool)
    requires FindInv(orig, cur, root, parts, k, makeDirs, same, Ok(DirNode(d)), DirNode(d)) && k < |parts|
    requires same' == (same && child == {})
    requires Closed(next) && Extends(cur, next) && next.Keys == cur.Keys + child
    requires parts[k] in Kids(cur, d) ==> found == Some(Kids(cur, d)[parts[k]]) && child == {} && next == cur
    requires parts[k] !in Kids(cur, d) && !makeDirs ==> found == None && child == {} && next == cur
    requires parts[k] !in Kids(cur, d) && makeDirs ==>
               found.Some? && found.value.DirNode? && child == {found.value.dir} && found.value.dir !in cur
               && Kids(next, found.value.dir) == map[] && Walk(next, DirNode(d), [parts[k]]) == Ok(found.value)
    ensures found.Some? ==> FindInv(orig, next, root, parts, k + 1, makeDirs, same', Ok(found.value), found.value)
    ensures found.None? ==> FindInv(orig, next, root, parts, k, makeDirs, same', Err(NotFound), DirNode(d))
  {
    WalkStep(cur, root, parts, k);
    if parts[k] in Kids(cur, d) {
      assert d in cur;
    } else if makeDirs {
      MakeStep(orig, cur, next, root, parts, k, d, found.value.dir, same);
    } else {
      WalkRest(cur, root, parts, k + 1);
    }
  }

  /** What `find` knows after it made a directory for the missing `parts[k]`. */
  lemma MakeStep(orig: Snapshot, cur: Snapshot, next: Snapshot, root: Node, parts: seq<string>, k: nat, d: Directory, child: Directory, first: bool)
    requires k < |parts| && Walk(cur, root, parts[..k]) == Ok(DirNode(d))
    requires Extends(orig, cur) && Extends(cur, next)
    requires Walk(next, DirNode(d), [parts[k]]) == Ok(DirNode(child))
    requires first ==> cur == orig && parts[k] !in Kids(cur, d)
    requires !first ==> Walk(orig, root, parts[..k]) == Err(NotFound)
    ensures Extends(orig, next)
    ensures Walk(next, root, parts[..k + 1]) == Ok(DirNode(child))
    ensures Walk(orig, root, parts[..k + 1]) == Err(NotFound)
  {
    ExtendsTrans(orig, cur, next);
    WalkExtend(cur, next, root, parts[..k]);
    WalkStep(next, root, parts, k);
    WalkStep(orig, root, parts, k);
  }

  /**
   * One component of `find` in directory `d`: the child of that name; or,
   * when there is none, a new empty directory under that name if
   * `makeDirs`, else nothing.
   */
  method Descend(d: Directory, name: string, makeDirs: bool, ghost dirs: set<Directory>, ghost made: set<Directory>, ghost cur: Snapshot)
      returns (found: Option<Node>, ghost child: set<Directory>, ghost next: Snapshot)
    requires d in dirs + made && Mirrors(cur, dirs + made) && Closed(cur)
    modifies d
    ensures fresh(child) && Mirrors(next, dirs + (made + child)) && Closed(next)
    ensures (made + child == {}) == (made == {} && child == {}) && Extends(cur, next) && next.Keys == cur.Keys + child
    ensures name in cur[d] ==> found == Some(cur[d][name]) && child == {} && next == cur
    ensures name !in cur[d] && !makeDirs ==> found == None && child == {} && next == cur
    ensures name !in cur[d] && makeDirs ==>
              found.Some? && found.value.DirNode? && child == {found.value.dir} && found.value.dir !in cur
              && Kids(next, found.value.dir) == map[] && Walk(next, DirNode(d), [name]) == Ok(found.value)
  {
    var got := d.GetNode(name);
    child := {};
    next := cur;
    if got.Ok? {
      found := Some(got.value);
    } else if makeDirs {
      var dir;
      dir, next := AddDir(d, name, dirs + made, cur);
      found := Some(DirNode(dir));
      child := {dir};
    } else {
      found := None;
    }
    UnionAssoc(dirs, made, child);
    if child == {} {
      assert made + child == made;
    }
  }

  /**
   * `Directory::new_ref` and `create_node` in `find`: `d` gains a new
   * empty directory under `name`, which it did not have; no other
   * directory changes.
   */
  method AddDir(d: Directory, name: string, ghost dirs: set<Directory>, ghost cur: Snapshot) returns (child: Directory, ghost next: Snapshot)
    requires d in dirs && Mirrors(cur, dirs) && name !in cur[d] && Closed(cur)
    modifies d
    ensures fresh(child) && child.name == name
    ensures Mirrors(next, dirs + {child}) && Closed(next) && Extends(cur, next) && next.Keys == cur.Keys + {child}
    ensures Kids(next, child) == map[] && Walk(next, DirNode(d), [name]) == Ok(DirNode(child))
  {
    child := new Directory(name);
    var _ := d.CreateNode(name, DirNode(child));
    ghost var grown: Snapshot := cur[d := cur[d][name := DirNode(child)]];
    next := grown[child := map[]];
    CreateStep(cur, d, name, child);
  }

  /**
   * The snapshot after `d` gains the new empty directory `child` under
   * `name`: `d`'s children grow by it and `child` has none.
   */
  lemma CreateStep(s: Snapshot, d: Directory, name: string, child: Directory)
    requires d in s && child !in s && name !in s[d] && Closed(s)
    ensures var grown: Snapshot := s[d := s[d][name := DirNode(child)]];
            var t := grown[child := map[]];
            Extends(s, t) && Closed(t) && Walk(t, DirNode(d), [name]) == Ok(DirNode(child))
  {
  }

  lemma ExtendsTrans(s: Snapshot, t: Snapshot, u: Snapshot)
    requires Extends(s, t) && Extends(t, u)
    ensures Extends(s, u)
  {
  }

  // ---- find_dir, find_file, insert ------------------------------------------

  /**
   * What `path` names from `root`: the child under the last component of
   * the directory its parent path walks to. No '/' is `NotFound`, a file
   * as the parent is `NotADirectory`.
   */
  function Resolve(s: Snapshot, root: Node, path: string): Result<Node, TreeError>
  {
    match Paths.Split(path)
    case None => Err(NotFound)
    case Some((parent, name)) => Child(s, Walk(s, root, Paths.Components(parent)), name)
  }

  /** The child `name` of where a walk ended. */
  function Child(s: Snapshot, w: Result<Node, TreeError>, name: string): Result<Node, TreeError>
  {
    match w
    case Err(e) => Err(e)
    case Ok(FileNode(_)) => Err(NotADirectory)
    case Ok(DirNode(d)) => if name in Kids(s, d) then Ok(Kids(s, d)[name]) else Err(NotFound)
  }

  /** `find_file`'s view of a resolved node: a directory is `IsADirectory`. */
  function AsFile(r: Result<Node, TreeError>): Result<File, TreeError>
  {
    match r
    case Ok(FileNode(f)) => Ok(f)
    case Ok(DirNode(_)) => Err(IsADirectory)
    case Err(e) => Err(e)
  }

  /** A resolution that did not end at a missing child survives added children. */
  lemma ResolveExtend(s: Snapshot, t: Snapshot, root: Node, path: string)
    requires Extends(s, t) && Closed(s) && Within(root, s.Keys)
    requires Resolve(s, root, path) != Err(NotFound)
    ensures Resolve(t, root, path) == Resolve(s, root, path)
  {
    var (parent, name) := Paths.Split(path).value;
    var w := Walk(s, root, Paths.Components(parent));
    WalkExtend(s, t, root, Paths.Components(parent));
    WalkWithin(s, root, Paths.Components(parent));
  }

  /** `find_dir`: `find`, where a file at the end is `NotADirectory`. */
  method FindDir(root: Node, path: string, makeDirs: bool, ghost dirs: set<Directory>, ghost before: Snapshot)
      returns (r: Result<Directory, TreeError>, ghost made: set<Directory>, ghost after: Snapshot)
    requires Mirrors(before, dirs) && Within(root, dirs) && Closed(before)
    modifies dirs
    ensures fresh(made) && Mirrors(after, dirs + made) && Closed(after) && Extends(before, after)
    ensures var w := Walk(after, root, Paths.Components(path));
            r == match w case Ok(DirNode(d)) => Ok(d) case Ok(FileNode(_)) => Err(NotADirectory) case Err(e) => Err(e)
    ensures r.Ok? ==> r.value in dirs + made
    ensures !makeDirs ==> made == {}
    ensures made == {} ==> after == before
    ensures made != {} ==> Walk(before, root, Paths.Components(path)) == Err(NotFound)
    ensures made != {} ==> r.Ok? && Kids(after, r.value) == map[]
  {
    var found;
    found, made, after := Find(root, path, makeDirs, dirs, before);
    match found
    case Ok(DirNode(d)) => r := Ok(d);
    case Ok(FileNode(_)) => r := Err(NotADirectory);
    case Err(e) => r := Err(e);
  }

  /**
   * `find_file`: the file that `path` names. A directory there is
   * `IsADirectory`; a missing one is a new empty file when `create`, else
   * `NotFound`; the parent path is found as `find` finds it. The result
   * is what resolving `path` in the tree afterwards gives, and the tree is
   * left as it was whenever resolving `path` beforehand did not end at a
   * missing child.
   */
  method FindFile(root: Node, path: string, makeDirs: bool, create: bool, ghost dirs: set<Directory>, ghost before: Snapshot)
      returns (r: Result<File, TreeError>, ghost made: set<Directory>, ghost after: Snapshot)
    requires Mirrors(before, dirs) && Within(root, dirs) && Closed(before)
    modifies dirs
    ensures fresh(made) && Mirrors(after, dirs + made) && Closed(after) && Extends(before, after)
    ensures r == AsFile(Resolve(after, root, path))
    ensures Paths.Split(path).None? ==> r == Err(NotFound)
    ensures Resolve(before, root, path) != Err(NotFound) ==> after == before && made == {}
    ensures !makeDirs && !create ==> after == before && made == {}
    ensures r.Ok? && Resolve(before, root, path).Err? ==> fresh(r.value) && r.value.Content() == []
    ensures create && makeDirs && Paths.Split(path).Some? ==> r.Ok? || r == Err(NotADirectory) || r == Err(IsADirectory)
  {
    made := {};
    after := before;
    var split := Paths.Split(path);
    if split.None? {
      return Err(NotFound), made, after;
    }
    var (parent, name) := split.value;
    var found;
    found, made, after := Find(root, parent, makeDirs, dirs, before);
    if found.Ok? {
      WalkWithin(after, root, Paths.Components(parent));
    }
    if found.Ok? && found.value.DirNode? && made == {} && !(name in Kids(before, found.value.dir)) {
      assert Resolve(before, root, path) == Err(NotFound);
    }
    match found
    case Err(e) =>
      r := Err(e);
    case Ok(FileNode(_)) =>
      r := Err(NotADirectory);
    case Ok(DirNode(d)) =>
      var got := d.GetNode(name);
      match got
      case Ok(FileNode(f)) =>
        r := Ok(f);
      case Ok(DirNode(_)) =>
        r := Err(IsADirectory);
      case Err(_) =>
        if create {
          ghost var cur := after;
          var f;
          f, after := AddFile(d, name, dirs + made, cur);
          WalkExtend(cur, after, root, Paths.Components(parent));
          r := Ok(f);
        } else {
          r := Err(NotFound);
        }
    if made != {} {
      assert Walk(before, root, Paths.Components(parent)) == Err(NotFound);
    }
  }

  /**
   * `File::new_empty` and `create_node` in `find_file`: `d` gains a new
   * empty file under `name`, which it did not have; no other directory
   * changes.
   */
  method AddFile(d: Directory, name: string, ghost dirs: set<Directory>, ghost cur: Snapshot) returns (f: File, ghost next: Snapshot)
    requires d in dirs && Mirrors(cur, dirs) && name !in cur[d] && Closed(cur)
    modifies d
    ensures fresh(f) && f.Content() == []
    ensures Mirrors(next, dirs) && Closed(next) && Extends(cur, next)
    ensures next == cur[d := cur[d][name := FileNode(f)]]
  {
    f := new File([]);
    var put;
    put, next := Attach(d, name, FileNode(f), dirs, cur);
  }

  /**
   * `create_node` on `d`: `node` goes under `name` when `d` has no child
   * of that name, and nothing changes when it has one.
   */
  method Attach(d: Directory, name: string, node: Node, ghost dirs: set<Directory>, ghost cur: Snapshot)
      returns (r: Result<(), TreeError>, ghost next: Snapshot)
    requires d in dirs && Mirrors(cur, dirs) && Closed(cur) && Within(node, dirs)
    modifies d
    ensures Mirrors(next, dirs) && Closed(next) && Extends(cur, next)
    ensures r.Ok? <==> name !in cur[d]
    ensures r.Ok? ==> next == cur[d := cur[d][name := node]]
    ensures r.Err? ==> r.error == AlreadyExists && next == cur
  {
    var put := d.CreateNode(name, node);
    if put.Err? {
      // `create_node` fails only on a name that is there already.
      r := Err(AlreadyExists);
      next := cur;
    } else {
      r := Ok(());
      next := cur[d := cur[d][name := node]];
    }
  }

  /**
   * `insert`: `node` goes under the last component of `path`, in the
   * directory that the parent path finds (made on the way when
   * `makeDirs`). An existing name is `AlreadyExists` and changes nothing.
   */
  method Insert(root: Node, path: string, makeDirs: bool, node: Node, ghost dirs: set<Directory>, ghost before: Snapshot)
      returns (r: Result<(), TreeError>, ghost made: set<Directory>, ghost after: Snapshot)
    requires Mirrors(before, dirs) && Within(root, dirs) && Within(node, dirs) && Closed(before)
    modifies dirs
    ensures fresh(made) && Mirrors(after, dirs + made) && Closed(after) && Extends(before, after)
    ensures Paths.Split(path).None? ==> r == Err(NotFound)
    ensures r.Ok? ==> Resolve(after, root, path) == Ok(node) && Resolve(before, root, path) == Err(NotFound)
    ensures Resolve(before, root, path).Ok? <==> r == Err(AlreadyExists)
    ensures r == Err(AlreadyExists) ==> after == before && made == {}
    ensures r.Err? && r.error != AlreadyExists ==> Resolve(after, root, path) == Err(r.error)
    ensures !makeDirs && r.Err? ==> after == before && made == {}
  {
    made := {};
    after := before;
    var split := Paths.Split(path);
    if split.None? {
      return Err(NotFound), made, after;
    }
    var (parent, name) := split.value;
    var found;
    found, made, after := FindDir(root, parent, makeDirs, dirs, before);
    ghost var comps := Paths.Components(parent);
    if found.Err? {
      assert after == before;
      return Err(found.error), made, after;
    }
    var d := found.value;
    ghost var cur := after;
    r, after := Attach(d, name, node, dirs + made, cur);
    if r.Err? {
      assert made == {} && after == before;
    } else {
      WalkExtend(cur, after, root, comps);
      assert Child(after, Walk(after, root, comps), name) == Ok(node);
      if made != {} {
        assert Walk(before, root, comps) == Err(NotFound);
      } else {
        assert Child(before, Walk(before, root, comps), name) == Err(NotFound);
      }
    }
  }
}
