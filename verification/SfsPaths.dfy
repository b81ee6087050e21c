/** Path resolution over the flat directory table. */
module SfsPaths {
  import opened SfsImage

  /** The directory table is a tree: the root is a directory, every other live entry hangs
      below a live directory of smaller depth. */
  ghost predicate Tree(dir: seq<Dirent>, depth: seq<nat>) {
    && |dir| == |depth| == MAX_DIRENTS
    && dir[0].kind.Dir? && dir[0].parent == ROOT_PARENT
    && forall i :: 0 < i < MAX_DIRENTS && !dir[i].kind.Free? ==> HangsBelow(dir, depth, i)
  }

  ghost predicate HangsBelow(dir: seq<Dirent>, depth: seq<nat>, i: nat)
    requires |dir| == |depth| == MAX_DIRENTS && i < MAX_DIRENTS
  {
    dir[i].parent < MAX_DIRENTS && dir[dir[i].parent].kind.Dir? && depth[dir[i].parent] < depth[i]
  }

  /** Following parents from entry i arrives at the root. */
  ghost predicate ReachesRoot(dir: seq<Dirent>, i: nat, steps: nat)
    requires i < |dir| == MAX_DIRENTS
    decreases steps
  {
    i == 0 || (steps > 0 && !dir[i].kind.Free? && dir[i].parent < MAX_DIRENTS
               && ReachesRoot(dir, dir[i].parent, steps - 1))
  }

  lemma {:induction false} ParentChainsReachRoot(dir: seq<Dirent>, depth: seq<nat>, i: nat)
    requires Tree(dir, depth) && i < MAX_DIRENTS && !dir[i].kind.Free?
    ensures ReachesRoot(dir, i, depth[i])
    decreases depth[i]
  {
    if i != 0 {
      assert HangsBelow(dir, depth, i);
      ParentChainsReachRoot(dir, depth, dir[i].parent);
      MoreSteps(dir, dir[i].parent, depth[dir[i].parent], depth[i] - 1);
    }
  }

  lemma {:induction false} MoreSteps(dir: seq<Dirent>, i: nat, m: nat, n: nat)
    requires i < |dir| == MAX_DIRENTS && ReachesRoot(dir, i, m) && m <= n
    ensures ReachesRoot(dir, i, n)
    decreases n
  {
    if i != 0 { MoreSteps(dir, dir[i].parent, m - 1, n - 1); }
  }

  ghost predicate Siblings(dir: seq<Dirent>, i: int, j: int) {
    && 0 <= i < |dir| && 0 <= j < |dir|
    && !dir[i].kind.Free? && !dir[j].kind.Free? && dir[i].parent == dir[j].parent
  }

  /** Sibling names are distinct, and no name is empty. */
  ghost predicate Unique(dir: seq<Dirent>) {
    && (forall i, j {:trigger Siblings(dir, i, j)} :: Siblings(dir, i, j) && i != j ==> dir[i].name != dir[j].name)
    && forall i :: 0 <= i < |dir| && !dir[i].kind.Free? ==> dir[i].name != ""
  }

  predicate Matches(e: Dirent, dirsOnly: bool, parent: nat, name: string) {
    (if dirsOnly then e.kind.Dir? else !e.kind.Free?) && e.parent == parent && e.name == name
  }

  /** The first entry below `parent` with that name, or MAX_DIRENTS. */
  ghost function Child(dir: seq<Dirent>, dirsOnly: bool, parent: nat, name: string, k: nat := 0): (r: nat)
    requires k <= |dir| == MAX_DIRENTS
    ensures k <= r <= MAX_DIRENTS
    ensures r < MAX_DIRENTS ==> Matches(dir[r], dirsOnly, parent, name)
    ensures forall j :: k <= j < r ==> !Matches(dir[j], dirsOnly, parent, name)
    decreases |dir| - k
  {
    if k == |dir| || Matches(dir[k], dirsOnly, parent, name) then k
    else Child(dir, dirsOnly, parent, name, k + 1)
  }

  lemma ChildIs(dir: seq<Dirent>, dirsOnly: bool, parent: nat, name: string, i: nat)
    requires |dir| == MAX_DIRENTS && Unique(dir)
    requires i < MAX_DIRENTS && Matches(dir[i], dirsOnly, parent, name)
    ensures Child(dir, dirsOnly, parent, name) == i
  {
    var c := Child(dir, dirsOnly, parent, name);
    assert Siblings(dir, c, i);
  }

  /** The length of the first path component. */
  function Sep(path: string): (k: nat)
    ensures k <= |path| && (k < |path| ==> path[k] == '/')
    ensures forall j :: 0 <= j < k ==> path[j] != '/'
  {
    if path == "" || path[0] == '/' then 0 else 1 + Sep(path[1..])
  }

  /** What follows the first component and its slash. */
  function Rest(path: string): (r: string)
    ensures path != "" ==> |r| < |path|
  {
    var k := Sep(path);
    if k < |path| then path[k + 1..] else ""
  }

  /** The component loop of `sfs_lookup` and of `sfs_lookup_parent`. */
  ghost function Walk(dir: seq<Dirent>, dirsOnly: bool, at: nat, path: string): (r: nat)
    requires |dir| == MAX_DIRENTS && at < MAX_DIRENTS
    ensures r <= MAX_DIRENTS
    decreases |path|
  {
    if path == "" then at
    else
      var c := Child(dir, dirsOnly, at, path[..Sep(path)]);
      if c == MAX_DIRENTS then c else Walk(dir, dirsOnly, c, Rest(path))
  }

  function Stripped(path: string): (r: string) {
    var p := if path != "" && path[0] == '/' then path[1..] else path;
    if p != "" && p[|p| - 1] == '/' then p[..|p| - 1] else p
  }

  ghost function Lookup(dir: seq<Dirent>, path: string): (r: nat)
    requires |dir| == MAX_DIRENTS
    ensures r <= MAX_DIRENTS
  {
    Walk(dir, false, 0, Stripped(path))
  }

  /** One past the last slash; 0 when there is none. */
  function NameStart(path: string): (n: nat)
    ensures n <= |path| && (n > 0 ==> path[n - 1] == '/')
    ensures forall j :: n <= j < |path| ==> path[j] != '/'
  {
    if path == "" then 0
    else if path[|path| - 1] == '/' then |path|
    else NameStart(path[..|path| - 1])
  }

  function BaseName(path: string): string {
    var p := Stripped(path);
    p[NameStart(p)..]
  }

  function ParentPath(path: string): string {
    var p := Stripped(path);
    var n := NameStart(p);
    if n == 0 then "" else p[..n - 1]
  }

  ghost function LookupParent(dir: seq<Dirent>, path: string): (r: nat)
    requires |dir| == MAX_DIRENTS
    ensures r <= MAX_DIRENTS
  {
    Walk(dir, true, 0, ParentPath(path))
  }

  /** Two slashes, or the stripped path's start and a slash, directly before the last
      component. */
  predicate Doubled(path: string) {
    var p := Stripped(path);
    var n := NameStart(p);
    n > 0 && (n == 1 || p[n - 2] == '/')
  }

  predicate EndsInSlash(u: string) { u != "" && u[|u| - 1] == '/' }

  lemma SepOfJoin(u: string, n: string)
    ensures u != "" ==> Sep(u + "/" + n) == Sep(u) && (u + "/" + n)[..Sep(u)] == u[..Sep(u)]
    ensures Sep(u) < |u| ==> Rest(u + "/" + n) == Rest(u) + "/" + n
    ensures u != "" && Sep(u) == |u| ==> Rest(u + "/" + n) == n
    ensures u == "" ==> Sep(u + "/" + n) == 0
  {
    var w := u + "/" + n;
    var a, b := Sep(u), Sep(w);
    assert w[|u|] == '/' && forall j :: 0 <= j < |u| ==> w[j] == u[j];
    assert a <= b;
    assert b <= a;
  }

  lemma SepOfName(n: string)
    requires '/' !in n
    ensures Sep(n) == |n| && Rest(n) == ""
  {
    assert forall j :: 0 <= j < |n| ==> n[j] in n;
  }

  lemma TailEnds(u: string, k: nat)
    requires k < |u| && u[k] == '/' && !EndsInSlash(u)
    ensures u[k + 1..] != "" && !EndsInSlash(u[k + 1..])
  {
    assert u[k + 1..][|u| - k - 2] == u[|u| - 1];
  }

  /** Walking `u/name` is walking u and then taking the child. */
  lemma {:induction false} WalkJoin(dir: seq<Dirent>, at: nat, u: string, name: string)
    requires |dir| == MAX_DIRENTS && at < MAX_DIRENTS
    requires u != "" && !EndsInSlash(u) && name != "" && '/' !in name
    ensures var p := Walk(dir, false, at, u);
            Walk(dir, false, at, u + "/" + name) == if p == MAX_DIRENTS then p else Child(dir, false, p, name)
    decreases |u|
  {
    SepOfJoin(u, name);
    var c := Child(dir, false, at, u[..Sep(u)]);
    if c < MAX_DIRENTS {
      if Sep(u) == |u| {
        WalkName(dir, c, name);
      } else {
        TailEnds(u, Sep(u));
        WalkJoin(dir, c, Rest(u), name);
      }
    }
  }

  lemma WalkName(dir: seq<Dirent>, at: nat, name: string)
    requires |dir| == MAX_DIRENTS && at < MAX_DIRENTS && name != "" && '/' !in name
    ensures Walk(dir, false, at, name) == Child(dir, false, at, name)
  {
    SepOfName(name);
    assert name[..|name|] == name;
  }

  /** A doubled slash asks for an entry with an empty name, and there is none. */
  lemma {:induction false} WalkDoubled(dir: seq<Dirent>, at: nat, u: string, name: string)
    requires |dir| == MAX_DIRENTS && at < MAX_DIRENTS && Unique(dir)
    requires u == "" || EndsInSlash(u)
    ensures Walk(dir, false, at, u + "/" + name) == MAX_DIRENTS
    decreases |u|
  {
    SepOfJoin(u, name);
    if u == "" {
      assert (u + "/" + name)[..0] == "";
    } else {
      var c := Child(dir, false, at, u[..Sep(u)]);
      if c < MAX_DIRENTS {
        assert u[|u| - 1] == '/';
        assert Rest(u) == "" || EndsInSlash(Rest(u));
        WalkDoubled(dir, c, Rest(u), name);
      }
    }
  }

  /** Walking directories only finds what the full walk finds, unless the full walk ends
      at a file. */
  lemma {:induction false} WalkDirs(dir: seq<Dirent>, depth: seq<nat>, at: nat, path: string)
    requires Tree(dir, depth) && Unique(dir) && at < MAX_DIRENTS && !dir[at].kind.Free?
    ensures var d, a := Walk(dir, true, at, path), Walk(dir, false, at, path);
            && (d < MAX_DIRENTS ==> a == d)
            && (dir[at].kind.Dir? && d < MAX_DIRENTS ==> dir[d].kind.Dir?)
            && (dir[at].kind.Dir? && d == MAX_DIRENTS && a < MAX_DIRENTS ==> dir[a].kind.File?)
    decreases |path|
  {
    if path != "" {
      var name := path[..Sep(path)];
      var a, d := Child(dir, false, at, name), Child(dir, true, at, name);
      if d < MAX_DIRENTS {
        ChildIs(dir, false, at, name, d);
        WalkDirs(dir, depth, d, Rest(path));
      } else if a < MAX_DIRENTS && dir[at].kind.Dir? {
        assert dir[a].kind.File?;
        FilesHaveNoChildren(dir, depth, a, Rest(path));
      }
    }
  }

  lemma FilesHaveNoChildren(dir: seq<Dirent>, depth: seq<nat>, at: nat, path: string)
    requires Tree(dir, depth) && at < MAX_DIRENTS && dir[at].kind.File?
    ensures Walk(dir, false, at, path) == if path == "" then at else MAX_DIRENTS
  {
    if path != "" {
      var c := Child(dir, false, at, path[..Sep(path)]);
      assert 0 < c < MAX_DIRENTS ==> HangsBelow(dir, depth, c);
    }
  }

  /** What `sfs_lookup` finds is the child of what `sfs_lookup_parent` finds, except that
      it never finds anything behind a doubled slash. */
  lemma LookupAgrees(dir: seq<Dirent>, depth: seq<nat>, path: string)
    requires Tree(dir, depth) && Unique(dir) && BaseName(path) != ""
    ensures var q := LookupParent(dir, path);
            && (q < MAX_DIRENTS ==> dir[q].kind.Dir?)
            && Lookup(dir, path) == if Doubled(path) || q == MAX_DIRENTS then MAX_DIRENTS
                                    else Child(dir, false, q, BaseName(path))
  {
    var p := Stripped(path);
    var n := NameStart(p);
    var name := BaseName(path);
    WalkDirs(dir, depth, 0, ParentPath(path));
    if n == 0 {
      assert p[0..] == p;
      WalkName(dir, 0, name);
    } else {
      var u := ParentPath(path);
      assert p == u + "/" + name;
      if Doubled(path) {
        WalkDoubled(dir, 0, u, name);
      } else {
        WalkJoin(dir, 0, u, name);
        var a := Walk(dir, false, 0, u);
        if a < MAX_DIRENTS && dir[a].kind.File? {
          FilesHaveNoChildren(dir, depth, a, name);
          WalkName(dir, a, name);
        }
      }
    }
  }

  /** A new entry in a free slot, with a name its directory does not hold. */
  ghost predicate Adds(dir: seq<Dirent>, slot: nat, e: Dirent) {
    && |dir| == MAX_DIRENTS && slot < MAX_DIRENTS && dir[slot].kind.Free? && !e.kind.Free? && e.name != ""
    && Child(dir, false, e.parent, e.name) == MAX_DIRENTS
  }

  lemma AddKeepsUnique(dir: seq<Dirent>, slot: nat, e: Dirent)
    requires Adds(dir, slot, e) && Unique(dir)
    ensures Unique(dir[slot := e])
  {
    var dir' := dir[slot := e];
    forall i, j | Siblings(dir', i, j) && i != j
      ensures dir'[i].name != dir'[j].name
    {
      assert i != slot && j != slot ==> Siblings(dir, i, j);
      assert i == slot ==> !Matches(dir[j], false, e.parent, e.name);
      assert j == slot ==> !Matches(dir[i], false, e.parent, e.name);
    }
  }

  /** A new entry below a directory keeps the tree. */
  lemma AddKeepsTree(dir: seq<Dirent>, depth: seq<nat>, slot: nat, e: Dirent)
    requires Tree(dir, depth) && slot < MAX_DIRENTS && dir[slot].kind.Free?
    requires e.parent < MAX_DIRENTS && dir[e.parent].kind.Dir?
    ensures Tree(dir[slot := e], depth[slot := depth[e.parent] + 1])
  {
    var dir', depth' := dir[slot := e], depth[slot := depth[e.parent] + 1];
    forall i | 0 < i < MAX_DIRENTS && !dir'[i].kind.Free?
      ensures HangsBelow(dir', depth', i)
    {
      assert i != slot ==> HangsBelow(dir, depth, i);
    }
  }

  /** Freeing an entry that has no children keeps the tree and the unique names. */
  lemma RemoveKeepsTree(dir: seq<Dirent>, depth: seq<nat>, i: nat)
    requires Tree(dir, depth) && 0 < i < MAX_DIRENTS
    requires forall j :: 0 <= j < MAX_DIRENTS && !dir[j].kind.Free? ==> dir[j].parent != i
    ensures Tree(dir[i := dir[i].(kind := Free)], depth)
    ensures Unique(dir) ==> Unique(dir[i := dir[i].(kind := Free)])
  {
    var dir' := dir[i := dir[i].(kind := Free)];
    forall j | 0 < j < MAX_DIRENTS && !dir'[j].kind.Free?
      ensures HangsBelow(dir', depth, j)
    {
      assert HangsBelow(dir, depth, j);
    }
    assert forall j, k :: Siblings(dir', j, k) ==> Siblings(dir, j, k);
  }

  lemma FileHasNoChild(dir: seq<Dirent>, depth: seq<nat>, i: nat)
    requires Tree(dir, depth) && i < MAX_DIRENTS && dir[i].kind.File?
    ensures i != 0 && forall j :: 0 <= j < MAX_DIRENTS && !dir[j].kind.Free? ==> dir[j].parent != i
  {
    assert forall j :: 0 < j < MAX_DIRENTS && !dir[j].kind.Free? ==> HangsBelow(dir, depth, j);
  }

  lemma AddKeepsChild(dir: seq<Dirent>, slot: nat, e: Dirent, dirsOnly: bool, at: nat, name: string)
    requires Adds(dir, slot, e) && Child(dir, dirsOnly, at, name) < MAX_DIRENTS
    ensures Child(dir[slot := e], dirsOnly, at, name) == Child(dir, dirsOnly, at, name)
  {
    var c, dir' := Child(dir, dirsOnly, at, name), dir[slot := e];
    assert Matches(dir[c], false, at, name) && !Matches(dir[c], false, e.parent, e.name);
    assert Matches(dir'[c], dirsOnly, at, name) && !Matches(dir'[slot], dirsOnly, at, name);
    var c' := Child(dir', dirsOnly, at, name);
    assert c' <= c && c' != slot;
    assert dir'[c'] == dir[c'];
  }

  /** Every path that resolved keeps its target when an entry is added. */
  lemma {:induction false} AddKeepsWalks(dir: seq<Dirent>, slot: nat, e: Dirent, dirsOnly: bool, at: nat, path: string)
    requires Adds(dir, slot, e) && at < MAX_DIRENTS && Walk(dir, dirsOnly, at, path) < MAX_DIRENTS
    ensures Walk(dir[slot := e], dirsOnly, at, path) == Walk(dir, dirsOnly, at, path)
    decreases |path|
  {
    if path != "" {
      var name := path[..Sep(path)];
      AddKeepsChild(dir, slot, e, dirsOnly, at, name);
      AddKeepsWalks(dir, slot, e, dirsOnly, Child(dir, dirsOnly, at, name), Rest(path));
    }
  }

  /** The created path resolves to the new entry. */
  lemma AddIsFound(dir: seq<Dirent>, depth: seq<nat>, slot: nat, e: Dirent, path: string)
    requires Tree(dir, depth) && Unique(dir) && Adds(dir, slot, e)
    requires !Doubled(path) && e.parent == LookupParent(dir, path) < MAX_DIRENTS && e.name == BaseName(path)
    ensures Lookup(dir[slot := e], path) == slot
  {
    LookupAgrees(dir, depth, path);
    AddKeepsTree(dir, depth, slot, e);
    AddKeepsUnique(dir, slot, e);
    AddKeepsWalks(dir, slot, e, true, 0, ParentPath(path));
    LookupAgrees(dir[slot := e], depth[slot := depth[e.parent] + 1], path);
    ChildIs(dir[slot := e], false, e.parent, e.name, slot);
  }

  /** After an entry is freed, a path resolves to what it resolved to before or not at all,
      and never to the freed entry. */
  lemma {:induction false} RemoveKeepsWalks(dir: seq<Dirent>, i: nat, at: nat, path: string)
    requires |dir| == MAX_DIRENTS && Unique(dir) && i < MAX_DIRENTS && at < MAX_DIRENTS && at != i
    ensures var r := Walk(dir[i := dir[i].(kind := Free)], false, at, path);
            r != i && (r < MAX_DIRENTS ==> r == Walk(dir, false, at, path))
    decreases |path|
  {
    if path != "" {
      var dir' := dir[i := dir[i].(kind := Free)];
      var c := Child(dir', false, at, path[..Sep(path)]);
      if c < MAX_DIRENTS {
        ChildIs(dir, false, at, path[..Sep(path)], c);
        RemoveKeepsWalks(dir, i, c, Rest(path));
      }
    }
  }

  lemma RemovedIsNotFound(dir: seq<Dirent>, i: nat, path: string)
    requires |dir| == MAX_DIRENTS && Unique(dir) && 0 < i < MAX_DIRENTS && Lookup(dir, path) == i
    ensures Lookup(dir[i := dir[i].(kind := Free)], path) == MAX_DIRENTS
  {
    RemoveKeepsWalks(dir, i, 0, Stripped(path));
  }

  /** Why the doubled slash matters: `//b` does not resolve although `b` exists, and its
      parent does, so creating it makes a second `b`. */
  lemma DoubledSlashMakesDuplicates(dir: seq<Dirent>, depth: seq<nat>, slot: nat)
    requires Tree(dir, depth) && Unique(dir) && Lookup(dir, "b") < MAX_DIRENTS
    requires slot < MAX_DIRENTS && dir[slot].kind.Free?
    ensures Lookup(dir, "//b") == MAX_DIRENTS && LookupParent(dir, "//b") == 0
    ensures !Unique(dir[slot := Dirent(BaseName("//b"), File, LookupParent(dir, "//b"), 0, 0)])
  {
    assert Stripped("//b") == "/b" && NameStart("/b"[..1]) == 1 && NameStart("/b") == 1;
    assert BaseName("//b") == "b" && ParentPath("//b") == "" && Doubled("//b");
    LookupAgrees(dir, depth, "//b");
    assert Stripped("b") == "b" && NameStart("") == 0 && NameStart("b") == 0 && "b"[0..] == "b";
    LookupAgrees(dir, depth, "b");
    var dir' := dir[slot := Dirent("b", File, 0, 0, 0)];
    assert Siblings(dir', slot, Lookup(dir, "b"));
  }

  lemma RootOnlyOk(dir: seq<Dirent>, depth: seq<nat>)
    requires |dir| == |depth| == MAX_DIRENTS && dir[0] == Dirent("/", Dir, ROOT_PARENT, 0, 0)
    requires forall i :: 0 < i < MAX_DIRENTS ==> dir[i].kind.Free?
    ensures Tree(dir, depth) && Unique(dir)
  {
    assert forall i, j :: Siblings(dir, i, j) ==> i == j == 0;
  }

  /** The tree does not depend on extents and sizes. */
  lemma SameTree(a: seq<Dirent>, b: seq<Dirent>, depth: seq<nat>)
    requires Tree(a, depth) && |a| == |b|
    requires forall i :: 0 <= i < |a| ==> b[i] == a[i].(start := b[i].start, size := b[i].size)
    ensures Tree(b, depth) && (Unique(a) ==> Unique(b))
  {
    forall i | 0 < i < MAX_DIRENTS && !b[i].kind.Free?
      ensures HangsBelow(b, depth, i)
    {
      assert HangsBelow(a, depth, i);
    }
    assert forall i, j :: Siblings(b, i, j) ==> Siblings(a, i, j);
  }

  lemma SepIs(path: string, k: nat)
    requires k <= |path| && (k < |path| ==> path[k] == '/') && forall j :: 0 <= j < k ==> path[j] != '/'
    ensures Sep(path) == k
  {
  }

  lemma NameStartIs(path: string, n: nat)
    requires n <= |path| && (n > 0 ==> path[n - 1] == '/') && forall j :: n <= j < |path| ==> path[j] != '/'
    ensures NameStart(path) == n
  {
  }

  /** A walk ends at a live entry, and at a directory when only directories count. */
  lemma {:induction false} WalkIsLive(dir: seq<Dirent>, dirsOnly: bool, at: nat, path: string)
    requires |dir| == MAX_DIRENTS && at < MAX_DIRENTS
    requires !dir[at].kind.Free? && (dirsOnly ==> dir[at].kind.Dir?)
    ensures var r := Walk(dir, dirsOnly, at, path);
            r < MAX_DIRENTS ==> !dir[r].kind.Free? && (dirsOnly ==> dir[r].kind.Dir?)
    decreases |path|
  {
    if path != "" {
      var c := Child(dir, dirsOnly, at, path[..Sep(path)]);
      if c < MAX_DIRENTS { WalkIsLive(dir, dirsOnly, c, Rest(path)); }
    }
  }

  /** The parts of a path between its slashes, some of them perhaps empty. */
  ghost predicate Parts(cs: seq<string>) {
    forall i :: 0 <= i < |cs| ==> '/' !in cs[i]
  }

  /** The parts with a slash between any two. */
  ghost function Joined(cs: seq<string>): string {
    if cs == [] then "" else if |cs| == 1 then cs[0] else cs[0] + "/" + Joined(cs[1..])
  }

  /** The path, or what follows its leading slash, has these parts. */
  ghost predicate Spells(path: string, cs: seq<string>) {
    Parts(cs) && (path == "/" + Joined(cs) || (path == Joined(cs) && (path == "" || path[0] != '/')))
  }

  /** Without a last part that is empty. */
  ghost function Trim(cs: seq<string>): seq<string> {
    if cs != [] && cs[|cs| - 1] == "" then cs[..|cs| - 1] else cs
  }

  /** Going down the tree by names, one child after the other. */
  ghost function Descend(dir: seq<Dirent>, dirsOnly: bool, at: nat, cs: seq<string>): nat
    requires |dir| == MAX_DIRENTS && at < MAX_DIRENTS
    decreases |cs|
  {
    if cs == [] then at
    else
      var c := Child(dir, dirsOnly, at, cs[0]);
      if c == MAX_DIRENTS then c else Descend(dir, dirsOnly, c, cs[1..])
  }

  /** Every path has parts. */
  lemma {:induction false} SplitExists(path: string) returns (cs: seq<string>)
    ensures cs != [] && Parts(cs) && Joined(cs) == path
    decreases |path|
  {
    var k := Sep(path);
    if k == |path| {
      cs := [path];
    } else {
      var rest := SplitExists(path[k + 1..]);
      cs := [path[..k]] + rest;
      assert cs[1..] == rest && path == path[..k] + "/" + path[k + 1..];
    }
  }

  /** Every path is spelled by some parts. */
  lemma EveryPathIsSpelled(path: string) returns (cs: seq<string>)
    ensures Spells(path, cs)
  {
    if path != "" && path[0] == '/' {
      cs := SplitExists(path[1..]);
      assert path == "/" + path[1..];
    } else {
      cs := SplitExists(path);
    }
  }

  /** Seen from its end, a path is its parent's path, a slash and the last part. */
  lemma {:induction false} JoinedEnd(cs: seq<string>)
    requires |cs| > 1
    ensures Joined(cs) == Joined(cs[..|cs| - 1]) + "/" + cs[|cs| - 1]
  {
    var n := |cs| - 1;
    if n > 1 {
      JoinedEnd(cs[1..]);
      assert cs[1..][..n - 1] == cs[..n][1..];
    }
  }

  lemma EndOf(u: string, last: string, j: string)
    requires '/' !in last && j == u + "/" + last
    ensures j != "" && (j[|j| - 1] == '/' <==> last == "") && (last == "" ==> j[..|j| - 1] == u)
  {
    if last != "" { assert j[|j| - 1] == last[|last| - 1]; }
  }

  /** A joined path ends in a slash exactly when its last part is empty. */
  lemma JoinedTrim(cs: seq<string>)
    requires Parts(cs)
    ensures var j := Joined(cs);
            Joined(Trim(cs)) == if j != "" && j[|j| - 1] == '/' then j[..|j| - 1] else j
  {
    if |cs| == 1 {
      if cs[0] != "" { assert cs[0][|cs[0]| - 1] in cs[0]; }
    } else if |cs| > 1 {
      JoinedEnd(cs);
      EndOf(Joined(cs[..|cs| - 1]), cs[|cs| - 1], Joined(cs));
    }
  }

  lemma StripSpelled(path: string, cs: seq<string>)
    requires Spells(path, cs)
    ensures Stripped(path) == Joined(Trim(cs))
  {
    JoinedTrim(cs);
    assert ("/" + Joined(cs))[1..] == Joined(cs);
  }

  lemma {:induction false} WalkDescends(dir: seq<Dirent>, dirsOnly: bool, at: nat, cs: seq<string>)
    requires |dir| == MAX_DIRENTS && at < MAX_DIRENTS && Parts(cs)
    ensures Walk(dir, dirsOnly, at, Joined(cs)) == Descend(dir, dirsOnly, at, Trim(cs))
    decreases |cs|
  {
    if cs != [] {
      SepOfName(cs[0]);
      assert cs[0][..|cs[0]|] == cs[0];
      if |cs| > 1 {
        WalkFirst(dir, dirsOnly, at, cs[0], Joined(cs[1..]));
        var c := Child(dir, dirsOnly, at, cs[0]);
        TrimTail(cs);
        if c < MAX_DIRENTS { WalkDescends(dir, dirsOnly, c, cs[1..]); }
      }
    }
  }

  lemma TrimTail(cs: seq<string>)
    requires |cs| > 1
    ensures Trim(cs) != [] && Trim(cs)[0] == cs[0] && Trim(cs)[1..] == Trim(cs[1..])
  {
  }

  lemma WalkFirst(dir: seq<Dirent>, dirsOnly: bool, at: nat, name: string, rest: string)
    requires |dir| == MAX_DIRENTS && at < MAX_DIRENTS && '/' !in name
    ensures var c := Child(dir, dirsOnly, at, name);
            Walk(dir, dirsOnly, at, name + "/" + rest) == if c == MAX_DIRENTS then c else Walk(dir, dirsOnly, c, rest)
  {
    var w := name + "/" + rest;
    assert w[|name|] == '/' && forall j :: 0 <= j < |name| ==> w[j] == name[j] && name[j] in name;
    SepIs(w, |name|);
    assert w[..|name|] == name && w[|name| + 1..] == rest;
  }

  /** What follows the last slash. */
  lemma SplitAt(u: string, name: string, w: string)
    requires '/' !in name && w == u + "/" + name
    ensures NameStart(w) == |u| + 1 && w[..|u|] == u && w[|u| + 1..] == name
  {
    assert w[|u|] == '/';
    forall j | |u| + 1 <= j < |w|
      ensures w[j] != '/'
    {
      assert w[j] == name[j - |u| - 1];
    }
    NameStartIs(w, |u| + 1);
  }

  lemma SplitSpelled(path: string, cs: seq<string>)
    requires Spells(path, cs)
    ensures var ds := Trim(cs);
            if ds == [] then ParentPath(path) == "" && BaseName(path) == ""
            else ParentPath(path) == Joined(ds[..|ds| - 1]) && BaseName(path) == ds[|ds| - 1]
  {
    StripSpelled(path, cs);
    var ds := Trim(cs);
    if |ds| == 1 {
      assert forall i :: 0 <= i < |ds[0]| ==> ds[0][i] in ds[0];
      NameStartIs(ds[0], 0);
    } else if |ds| > 1 {
      JoinedEnd(ds);
      SplitAt(Joined(ds[..|ds| - 1]), ds[|ds| - 1], Joined(ds));
    }
  }

  /** What a path of these parts resolves to: the entry found by going down the tree by its
      parts, of which up to two empty ones at the end do not count. */
  ghost predicate Resolves(dir: seq<Dirent>, path: string, r: nat)
    requires |dir| == MAX_DIRENTS
  {
    forall cs :: Spells(path, cs) ==> r == Descend(dir, false, 0, Trim(Trim(cs)))
  }

  lemma PathMeans(dir: seq<Dirent>, path: string)
    requires |dir| == MAX_DIRENTS
    ensures Resolves(dir, path, Lookup(dir, path))
  {
    forall cs | Spells(path, cs)
      ensures Lookup(dir, path) == Descend(dir, false, 0, Trim(Trim(cs)))
    {
      StripSpelled(path, cs);
      WalkDescends(dir, false, 0, Trim(cs));
    }
  }

  /** The name is the last part, behind a trailing slash if any, and the parent is found by
      going down directories by the parts before, of which one empty one at the end does not
      count. */
  ghost predicate Divided(dir: seq<Dirent>, cs: seq<string>, r: nat, name: string)
    requires |dir| == MAX_DIRENTS
  {
    var ds := Trim(cs);
    if ds == [] then r == 0 && name == ""
    else r == Descend(dir, true, 0, Trim(ds[..|ds| - 1])) && name == ds[|ds| - 1]
  }

  /** The path has this parent and this name. */
  ghost predicate Divides(dir: seq<Dirent>, path: string, r: nat, name: string)
    requires |dir| == MAX_DIRENTS
  {
    forall cs :: Spells(path, cs) ==> Divided(dir, cs, r, name)
  }

  lemma PartsDivide(dir: seq<Dirent>, path: string, cs: seq<string>)
    requires |dir| == MAX_DIRENTS && Spells(path, cs)
    ensures Divided(dir, cs, LookupParent(dir, path), BaseName(path))
  {
    SplitSpelled(path, cs);
    var ds := Trim(cs);
    if ds != [] { ParentFound(dir, path, ds[..|ds| - 1]); }
  }

  lemma ParentFound(dir: seq<Dirent>, path: string, cs: seq<string>)
    requires |dir| == MAX_DIRENTS && Parts(cs) && ParentPath(path) == Joined(cs)
    ensures LookupParent(dir, path) == Descend(dir, true, 0, Trim(cs))
  {
    WalkDescends(dir, true, 0, cs);
  }

  lemma ParentMeans(dir: seq<Dirent>, path: string)
    requires |dir| == MAX_DIRENTS
    ensures Divides(dir, path, LookupParent(dir, path), BaseName(path))
  {
    forall cs | Spells(path, cs)
      ensures Divided(dir, cs, LookupParent(dir, path), BaseName(path))
    {
      PartsDivide(dir, path, cs);
    }
  }

  /** Names joined, with or without a leading and a trailing slash. */
  ghost predicate Written(path: string, cs: seq<string>) {
    && cs != [] && Parts(cs) && "" !in cs
    && (var j := Joined(cs); path == j || path == "/" + j || path == j + "/" || path == "/" + (j + "/"))
  }

  lemma TrimNames(cs: seq<string>)
    requires "" !in cs
    ensures Trim(cs) == cs && Trim(cs + [""]) == cs && (cs != [] ==> Trim(cs[..|cs| - 1]) == cs[..|cs| - 1])
  {
  }

  lemma JoinedSlash(cs: seq<string>)
    requires cs != []
    ensures Joined(cs + [""]) == Joined(cs) + "/"
  {
    JoinedEnd(cs + [""]);
    assert (cs + [""])[..|cs|] == cs;
  }

  lemma JoinedStart(cs: seq<string>)
    requires cs != [] && Parts(cs) && cs[0] != ""
    ensures Joined(cs) != "" && Joined(cs)[0] != '/'
  {
    assert cs[0][0] in cs[0];
  }

  lemma WrittenIsSpelled(path: string, cs: seq<string>) returns (all: seq<string>)
    requires Written(path, cs)
    ensures Spells(path, all) && Trim(all) == cs
  {
    TrimNames(cs);
    JoinedSlash(cs);
    JoinedStart(cs);
    assert (Joined(cs) + "/")[0] == Joined(cs)[0];
    all := if path == Joined(cs) || path == "/" + Joined(cs) then cs else cs + [""];
  }

  /** Such a path leads down by exactly these names, and its parent by all but the last
      through directories. */
  lemma PathOfNames(dir: seq<Dirent>, path: string, cs: seq<string>)
    requires |dir| == MAX_DIRENTS && Written(path, cs)
    ensures Lookup(dir, path) == Descend(dir, false, 0, cs)
    ensures LookupParent(dir, path) == Descend(dir, true, 0, cs[..|cs| - 1]) && BaseName(path) == cs[|cs| - 1]
  {
    var all := WrittenIsSpelled(path, cs);
    PathMeans(dir, path);
    PartsDivide(dir, path, all);
    TrimNames(cs);
  }

  /** The text before the first NUL: what a stored name reads back as. */
  function CString(name: string): (r: string)
    ensures r == name <==> '\0' !in name
    ensures '\0' !in r
  {
    if name == "" || name[0] == '\0' then "" else [name[0]] + CString(name[1..])
  }

  /** The name the path's entry will read back as is not empty and not yet in the directory
      the path leads to. */
  ghost predicate NewName(dir: seq<Dirent>, path: string)
    requires |dir| == MAX_DIRENTS
  {
    && CString(BaseName(path)) != ""
    && Child(dir, false, LookupParent(dir, path), CString(BaseName(path))) == MAX_DIRENTS
  }

  /** No doubled slash before the last component and no NUL in it. */
  predicate Plain(path: string) {
    !Doubled(path) && '\0' !in BaseName(path)
  }

  /** When creating the entry of a path that did not resolve keeps sibling names unique:
      exactly for a new name, which a plain path always has. */
  lemma CreateKeepsUnique(dir: seq<Dirent>, depth: seq<nat>, slot: nat, e: Dirent, path: string)
    requires Tree(dir, depth) && Unique(dir) && slot < MAX_DIRENTS && dir[slot].kind.Free? && !e.kind.Free?
    requires Lookup(dir, path) == MAX_DIRENTS && BaseName(path) != ""
    requires e.parent == LookupParent(dir, path) < MAX_DIRENTS && e.name == CString(BaseName(path))
    ensures Unique(dir[slot := e]) <==> NewName(dir, path)
    ensures NewName(dir, path) ==> Adds(dir, slot, e)
    ensures Plain(path) ==> NewName(dir, path) && Lookup(dir[slot := e], path) == slot
  {
    LookupAgrees(dir, depth, path);
    var c := Child(dir, false, e.parent, e.name);
    if e.name == "" {
      assert dir[slot := e][slot].name == "";
    } else if c == MAX_DIRENTS {
      AddKeepsUnique(dir, slot, e);
      if Plain(path) { AddIsFound(dir, depth, slot, e, path); }
    } else {
      assert Siblings(dir[slot := e], slot, c);
    }
  }

  /** Why the NUL matters: where `b` exists, a path whose last component reads `b`, a NUL
      and an `x` does not resolve, and creating it makes a second `b`. */
  lemma NulMakesDuplicates(dir: seq<Dirent>, depth: seq<nat>, slot: nat)
    requires Tree(dir, depth) && Unique(dir) && Lookup(dir, "b") < MAX_DIRENTS
    requires forall i :: 0 <= i < MAX_DIRENTS ==> '\0' !in dir[i].name
    requires slot < MAX_DIRENTS && dir[slot].kind.Free?
    ensures Lookup(dir, "b\0x") == MAX_DIRENTS && LookupParent(dir, "b\0x") == 0 && !Doubled("b\0x")
    ensures !Unique(dir[slot := Dirent(CString(BaseName("b\0x")), File, LookupParent(dir, "b\0x"), 0, 0)])
  {
    var path := "b\0x";
    assert Stripped(path) == path;
    NameStartIs(path, 0);
    assert path[0..] == path && BaseName(path) == path && ParentPath(path) == "";
    LookupAgrees(dir, depth, path);
    assert path[1] == '\0';
    assert path[1..][0] == '\0' && CString(path[1..]) == "" && CString(path) == "b";
    assert Stripped("b") == "b";
    NameStartIs("b", 0);
    assert "b"[0..] == "b";
    LookupAgrees(dir, depth, "b");
    var dir' := dir[slot := Dirent("b", File, 0, 0, 0)];
    assert Siblings(dir', slot, Lookup(dir, "b"));
  }

  /** Creating an entry changes no path that resolved. */
  lemma AddKeepsLookups(dir: seq<Dirent>, slot: nat, e: Dirent)
    requires Adds(dir, slot, e)
    ensures KeepsLookups(dir, dir[slot := e])
  {
    forall p | Lookup(dir, p) < MAX_DIRENTS
      ensures Lookup(dir[slot := e], p) == Lookup(dir, p)
    {
      AddKeepsWalks(dir, slot, e, false, 0, Stripped(p));
    }
  }

  /** Every path that resolved still resolves to the same entry. */
  ghost predicate KeepsLookups(dir: seq<Dirent>, dir': seq<Dirent>)
    requires |dir| == |dir'| == MAX_DIRENTS
  {
    forall p :: Lookup(dir, p) < MAX_DIRENTS ==> Lookup(dir', p) == Lookup(dir, p)
  }

  /** What creating the entry of a path does to names, for every path: uniqueness survives
      exactly for a new name, and then no resolution changes; a plain path always has a new
      name and now resolves to the entry. */
  ghost predicate NamesAfter(dir: seq<Dirent>, dir': seq<Dirent>, slot: nat, path: string)
    requires |dir| == |dir'| == MAX_DIRENTS
  {
    Unique(dir) ==>
      && (Unique(dir') <==> NewName(dir, path))
      && (NewName(dir, path) ==> KeepsLookups(dir, dir'))
      && (Plain(path) ==> NewName(dir, path) && Lookup(dir', path) == slot)
  }

  lemma NamesAfterCreate(dir: seq<Dirent>, depth: seq<nat>, slot: nat, e: Dirent, path: string)
    requires Tree(dir, depth) && slot < MAX_DIRENTS && dir[slot].kind.Free? && !e.kind.Free?
    requires Lookup(dir, path) == MAX_DIRENTS && BaseName(path) != ""
    requires e.parent == LookupParent(dir, path) < MAX_DIRENTS && e.name == CString(BaseName(path))
    ensures NamesAfter(dir, dir[slot := e], slot, path)
    ensures Tree(dir[slot := e], depth[slot := depth[e.parent] + 1])
  {
    WalkIsLive(dir, true, 0, ParentPath(path));
    AddKeepsTree(dir, depth, slot, e);
    if Unique(dir) {
      CreateKeepsUnique(dir, depth, slot, e, path);
      if NewName(dir, path) { AddKeepsLookups(dir, slot, e); }
    }
  }
}
