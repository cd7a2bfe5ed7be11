/**
 * The file system as the finders see it: an abstract directory tree, and
 * `os.walk` over it (top-down, with the caller's in-place pruning of `dirs`)
 * as a recursive function. The order of children stands for whatever order
 * the operating system lists them in; the properties proved about the walk
 * and the finders are about membership, not order.
 */
module DirTree {
  import opened Common

  /** What `open(path, encoding='utf-8').read()` gives for a file. */
  datatype Content = Decoded(text: string) | Undecodable | Unreadable

  /**
   * What the finders and readers learn about one directory entry that is not a
   * directory: `stat().st_size`, `is_file()`, its text, and two opaque fields
   * (modification time and content digest) that are only copied.
   */
  datatype FileEntry = FileEntry(size: nat, isRegular: bool, content: Content, mtime: string, digest: string)

  datatype Node =
    | Dir(name: string, children: seq<Node>)
    | File(name: string, entry: FileEntry)

  /** A non-directory entry as one `os.walk` step lists it in `files`. */
  datatype DirFile = DirFile(name: string, entry: FileEntry)

  /**
   * One `(root, dirs, files)` triple of `os.walk`: root is the walked top
   * joined with the directory names in `rel`.
   */
  datatype WalkStep = WalkStep(rel: seq<string>, files: seq<DirFile>)

  /** The non-directory children of a directory, in listing order. */
  function FilesOf(children: seq<Node>): seq<DirFile>
    decreases |children|
  {
    if children == [] then []
    else
      (match children[0]
       case File(n, e) => [DirFile(n, e)]
       case Dir(_, _) => [])
      + FilesOf(children[1..])
  }

  /** A directory lists a file exactly when the file is one of its children. */
  lemma {:induction false} FilesOfExactly(children: seq<Node>, name: string, entry: FileEntry)
    ensures DirFile(name, entry) in FilesOf(children) <==> File(name, entry) in children
    decreases |children|
  {
    if children != [] {
      FilesOfExactly(children[1..], name, entry);
      assert children == [children[0]] + children[1..];
    }
  }

  /**
   * `os.walk(top)` where the loop body sets `dirs[:] = [d for d in dirs if d not in ignore]`:
   * the top directory is always listed; a sub-directory named in `ignore` is never entered.
   * A top that is not a directory yields nothing.
   */
  function Walk(node: Node, rel: seq<string>, ignore: seq<string>): seq<WalkStep>
    decreases node, 1
  {
    match node
    case File(_, _) => []
    case Dir(_, children) => [WalkStep(rel, FilesOf(children))] + WalkChildren(children, rel, ignore)
  }

  function WalkChildren(children: seq<Node>, rel: seq<string>, ignore: seq<string>): seq<WalkStep>
    decreases children, 0
  {
    if children == [] then []
    else
      (match children[0]
       case Dir(n, _) => if n in ignore then [] else Walk(children[0], rel + [n], ignore)
       case File(_, _) => [])
      + WalkChildren(children[1..], rel, ignore)
  }

  /**
   * d is the directory reached from node by descending, in order, into the
   * sub-directories named in `names` (node itself when `names` is empty).
   */
  ghost predicate ReachedBy(node: Node, names: seq<string>, d: Node)
    ensures ReachedBy(node, names, d) ==> d.Dir?
    decreases |names|
  {
    node.Dir? &&
    if names == [] then d == node
    else exists c :: c in node.children && c.Dir? && c.name == names[0] && ReachedBy(c, names[1..], d)
  }

  /** No directory on the way down is named in `ignore`. */
  ghost predicate Avoids(names: seq<string>, ignore: seq<string>) {
    forall c :: c in names ==> c !in ignore
  }

  /**
   * s lists the files of a directory reached from node, below `rel`, without
   * entering a directory named in `ignore`.
   */
  ghost predicate ListsReached(node: Node, rel: seq<string>, ignore: seq<string>, s: WalkStep) {
    exists names, d ::
      s.rel == rel + names && ReachedBy(node, names, d) && Avoids(names, ignore) && s.files == FilesOf(d.children)
  }

  /** Pruning works: every step of the walk lists a directory reached without entering an ignored one. */
  lemma {:induction false} WalkStepReached(node: Node, rel: seq<string>, ignore: seq<string>, s: WalkStep)
    requires s in Walk(node, rel, ignore)
    ensures ListsReached(node, rel, ignore, s)
    decreases node, 1
  {
    match node
    case Dir(_, children) =>
      if s == WalkStep(rel, FilesOf(children)) {
        assert rel + [] == rel && ReachedBy(node, [], node);
      } else {
        WalkChildrenStepReached(children, rel, ignore, s);
        var k :| 0 <= k < |children| && children[k].Dir? && children[k].name !in ignore &&
          ListsReached(children[k], rel + [children[k].name], ignore, s);
        ListsReachedLifts(node, k, rel, ignore, s);
      }
  }

  lemma {:induction false} WalkChildrenStepReached(children: seq<Node>, rel: seq<string>, ignore: seq<string>, s: WalkStep)
    requires s in WalkChildren(children, rel, ignore)
    ensures exists k ::
      0 <= k < |children| && children[k].Dir? && children[k].name !in ignore &&
      ListsReached(children[k], rel + [children[k].name], ignore, s)
    decreases children, 0
  {
    if s in WalkChildren(children[1..], rel, ignore) {
      WalkChildrenStepReached(children[1..], rel, ignore, s);
      var k :| 0 <= k < |children[1..]| && children[1..][k].Dir? && children[1..][k].name !in ignore &&
        ListsReached(children[1..][k], rel + [children[1..][k].name], ignore, s);
      assert children[k + 1] == children[1..][k];
    } else {
      match children[0]
      case Dir(n, _) =>
        WalkStepReached(children[0], rel + [n], ignore, s);
    }
  }

  /** A step listed below a non-ignored child directory is listed below its parent. */
  lemma ListsReachedLifts(node: Node, k: nat, rel: seq<string>, ignore: seq<string>, s: WalkStep)
    requires node.Dir? && k < |node.children| && node.children[k].Dir? && node.children[k].name !in ignore
    requires ListsReached(node.children[k], rel + [node.children[k].name], ignore, s)
    ensures ListsReached(node, rel, ignore, s)
  {
    var n := node.children[k].name;
    var names, d :| s.rel == rel + [n] + names && ReachedBy(node.children[k], names, d) &&
      Avoids(names, ignore) && s.files == FilesOf(d.children);
    ReachedThroughChild(node, k, names, d);
    AvoidsCons(n, names, ignore);
    assert s.rel == rel + ([n] + names);
  }

  /** Descending into a child directory and then along `names` reaches what the child reaches along `names`. */
  lemma ReachedThroughChild(node: Node, k: nat, names: seq<string>, d: Node)
    requires node.Dir? && k < |node.children| && node.children[k].Dir?
    requires ReachedBy(node.children[k], names, d)
    ensures ReachedBy(node, [node.children[k].name] + names, d)
  {
    assert ([node.children[k].name] + names)[1..] == names;
  }

  lemma AvoidsCons(n: string, names: seq<string>, ignore: seq<string>)
    requires n !in ignore && Avoids(names, ignore)
    ensures Avoids([n] + names, ignore)
  {
  }

  /** Pruning loses nothing else: every directory reached around the ignored ones has its step in the walk. */
  lemma {:induction false} WalkReaches(node: Node, rel: seq<string>, ignore: seq<string>, names: seq<string>, d: Node)
    requires ReachedBy(node, names, d) && Avoids(names, ignore)
    ensures WalkStep(rel + names, FilesOf(d.children)) in Walk(node, rel, ignore)
    decreases |names|
  {
    if names == [] {
      assert rel + names == rel;
      assert Walk(node, rel, ignore)[0] == WalkStep(rel, FilesOf(d.children));
    } else {
      var c :| c in node.children && c.Dir? && c.name == names[0] && ReachedBy(c, names[1..], d);
      var sub := rel + [names[0]];
      assert names[0] in names;
      assert forall x :: x in names[1..] ==> x in names;
      WalkReaches(c, sub, ignore, names[1..], d);
      assert sub + names[1..] == rel + names;
      var k :| 0 <= k < |node.children| && node.children[k] == c;
      WalkChildrenContains(node.children, rel, ignore, k, WalkStep(rel + names, FilesOf(d.children)));
    }
  }

  /** Whatever the walk of a non-ignored child directory lists, the walk of its parent lists too. */
  lemma {:induction false} WalkChildrenContains(children: seq<Node>, rel: seq<string>, ignore: seq<string>, k: nat, s: WalkStep)
    requires k < |children| && children[k].Dir? && children[k].name !in ignore
    requires s in Walk(children[k], rel + [children[k].name], ignore)
    ensures s in WalkChildren(children, rel, ignore)
    decreases k
  {
    if k > 0 {
      WalkChildrenContains(children[1..], rel, ignore, k - 1, s);
    }
  }

  // ---------------------------------------------------------------------------
  // The finders' loop: for each step, for each file, keep a record when it qualifies
  // ---------------------------------------------------------------------------

  /** The records that `pick` makes from the files of one step, in order. */
  function CollectIn<R>(rel: seq<string>, files: seq<DirFile>, pick: (seq<string>, DirFile) -> Option<R>): seq<R>
    decreases |files|
  {
    if files == [] then []
    else
      CollectIn(rel, files[..|files| - 1], pick)
      + (match pick(rel, files[|files| - 1]) case Some(r) => [r] case None => [])
  }

  /** The records that `pick` makes from the files of every step, in walk order. */
  function Collect<R>(steps: seq<WalkStep>, pick: (seq<string>, DirFile) -> Option<R>): seq<R>
    decreases |steps|
  {
    if steps == [] then []
    else Collect(steps[..|steps| - 1], pick) + CollectIn(steps[|steps| - 1].rel, steps[|steps| - 1].files, pick)
  }

  /** r is what `pick` makes of some file of some step. */
  ghost predicate Picked<R>(steps: seq<WalkStep>, pick: (seq<string>, DirFile) -> Option<R>, r: R) {
    exists k, j :: 0 <= k < |steps| && 0 <= j < |steps[k].files| && pick(steps[k].rel, steps[k].files[j]) == Some(r)
  }

  lemma {:induction false} CollectInExactly<R>(rel: seq<string>, files: seq<DirFile>, pick: (seq<string>, DirFile) -> Option<R>, r: R)
    ensures r in CollectIn(rel, files, pick) <==> exists j :: 0 <= j < |files| && pick(rel, files[j]) == Some(r)
    decreases |files|
  {
    if files != [] {
      var init := files[..|files| - 1];
      CollectInExactly(rel, init, pick, r);
      if exists j :: 0 <= j < |files| && pick(rel, files[j]) == Some(r) {
        var j :| 0 <= j < |files| && pick(rel, files[j]) == Some(r);
        if j < |files| - 1 {
          assert init[j] == files[j];
        }
      }
      if r in CollectIn(rel, init, pick) {
        var j :| 0 <= j < |init| && pick(rel, init[j]) == Some(r);
        assert files[j] == init[j];
      }
    }
  }

  /** The finders drop exactly what `pick` rejects: a record is collected iff some file yields it. */
  lemma {:induction false} CollectExactly<R>(steps: seq<WalkStep>, pick: (seq<string>, DirFile) -> Option<R>, r: R)
    ensures r in Collect(steps, pick) <==> Picked(steps, pick, r)
    decreases |steps|
  {
    if steps != [] {
      var n := |steps|;
      var init := steps[..n - 1];
      CollectExactly(init, pick, r);
      CollectInExactly(steps[n - 1].rel, steps[n - 1].files, pick, r);
      if Picked(steps, pick, r) {
        var k, j :| 0 <= k < n && 0 <= j < |steps[k].files| && pick(steps[k].rel, steps[k].files[j]) == Some(r);
        if k < n - 1 {
          assert init[k] == steps[k];
          assert Picked(init, pick, r);
        }
      }
      if r in Collect(init, pick) {
        var k, j :| 0 <= k < |init| && 0 <= j < |init[k].files| && pick(init[k].rel, init[k].files[j]) == Some(r);
        assert steps[k] == init[k];
      }
      if r in CollectIn(steps[n - 1].rel, steps[n - 1].files, pick) {
        var j :| 0 <= j < |steps[n - 1].files| && pick(steps[n - 1].rel, steps[n - 1].files[j]) == Some(r);
        assert Picked(steps, pick, r);
      }
    }
  }

  /**
   * r is what `pick` makes of some file in some directory reached from node without
   * entering a directory named in `ignore`; `pick` sees the names leading to that directory.
   */
  ghost predicate PickedInTree<R>(node: Node, ignore: seq<string>, pick: (seq<string>, DirFile) -> Option<R>, r: R) {
    exists names, d, f: DirFile ::
      ReachedBy(node, names, d) && Avoids(names, ignore) && File(f.name, f.entry) in d.children && pick(names, f) == Some(r)
  }

  /** Every record of a file in a directory reachable around the ignored ones is collected. */
  lemma CollectWalkComplete<R>(node: Node, ignore: seq<string>, pick: (seq<string>, DirFile) -> Option<R>,
                               names: seq<string>, d: Node, f: DirFile, r: R)
    requires ReachedBy(node, names, d) && Avoids(names, ignore) && File(f.name, f.entry) in d.children
    requires pick(names, f) == Some(r)
    ensures r in Collect(Walk(node, [], ignore), pick)
  {
    var steps := Walk(node, [], ignore);
    CollectExactly(steps, pick, r);
    WalkReaches(node, [], ignore, names, d);
    assert [] + names == names;
    FilesOfExactly(d.children, f.name, f.entry);
    var k :| 0 <= k < |steps| && steps[k] == WalkStep(names, FilesOf(d.children));
    var j :| 0 <= j < |steps[k].files| && steps[k].files[j] == DirFile(f.name, f.entry);
    assert Picked(steps, pick, r);
  }

  /** Every collected record is the record of a file in a directory reachable around the ignored ones. */
  lemma CollectWalkSound<R>(node: Node, ignore: seq<string>, pick: (seq<string>, DirFile) -> Option<R>, r: R)
    requires r in Collect(Walk(node, [], ignore), pick)
    ensures PickedInTree(node, ignore, pick, r)
  {
    var steps := Walk(node, [], ignore);
    CollectExactly(steps, pick, r);
    var k, j :| 0 <= k < |steps| && 0 <= j < |steps[k].files| && pick(steps[k].rel, steps[k].files[j]) == Some(r);
    WalkStepReached(node, [], ignore, steps[k]);
    var names, d :| steps[k].rel == [] + names && ReachedBy(node, names, d) && Avoids(names, ignore) &&
      steps[k].files == FilesOf(d.children);
    assert [] + names == names;
    var f := steps[k].files[j];
    FilesOfExactly(d.children, f.name, f.entry);
  }

  /**
   * What a finder collects over the pruned walk is exactly what `pick` accepts from
   * the files of the directories reachable without entering an ignored one.
   */
  lemma CollectWalkExactly<R>(node: Node, ignore: seq<string>, pick: (seq<string>, DirFile) -> Option<R>, r: R)
    ensures r in Collect(Walk(node, [], ignore), pick) <==> PickedInTree(node, ignore, pick, r)
  {
    if r in Collect(Walk(node, [], ignore), pick) {
      CollectWalkSound(node, ignore, pick, r);
    }
    if PickedInTree(node, ignore, pick, r) {
      var names, d, f: DirFile :| ReachedBy(node, names, d) && Avoids(names, ignore) && File(f.name, f.entry) in d.children &&
        pick(names, f) == Some(r);
      CollectWalkComplete(node, ignore, pick, names, d, f, r);
    }
  }

  /**
   * The loop every finder runs: for each `(root, dirs, files)` of the walk, for
   * each file, append the record `pick` makes of it, if any.
   */
  method CollectWalk<R>(steps: seq<WalkStep>, pick: (seq<string>, DirFile) -> Option<R>) returns (found: seq<R>)
    ensures found == Collect(steps, pick)
  {
    found := [];
    var k := 0;
    while k < |steps|
      invariant 0 <= k <= |steps|
      invariant found == Collect(steps[..k], pick)
    {
      var step := steps[k];
      ghost var before := found;
      var j := 0;
      while j < |step.files|
        invariant 0 <= j <= |step.files|
        invariant found == before + CollectIn(step.rel, step.files[..j], pick)
      {
        assert step.files[..j + 1][..j] == step.files[..j];
        match pick(step.rel, step.files[j]) {
          case Some(r) => found := found + [r];
          case None =>
        }
        j := j + 1;
      }
      WholeSlice(step.files);
      assert steps[..k + 1][..k] == steps[..k];
      k := k + 1;
    }
    WholeSlice(steps);
  }

  /**
   * `for repo_dir in base.iterdir(): if repo_dir.is_dir(): found.extend(scan(repo_dir))`:
   * the records of every directory entry, in listing order.
   */
  function OverRepos<R>(entries: seq<Node>, scan: Node -> seq<R>): seq<R>
    decreases |entries|
  {
    if entries == [] then []
    else
      var last := entries[|entries| - 1];
      OverRepos(entries[..|entries| - 1], scan) + (if last.Dir? then scan(last) else [])
  }

  /** A record is gathered exactly when some directory entry's scan yields it; plain files are skipped. */
  lemma {:induction false} OverReposExactly<R>(entries: seq<Node>, scan: Node -> seq<R>, r: R)
    ensures r in OverRepos(entries, scan) <==> exists k :: 0 <= k < |entries| && entries[k].Dir? && r in scan(entries[k])
    decreases |entries|
  {
    if entries != [] {
      var n := |entries|;
      var init := entries[..n - 1];
      OverReposExactly(init, scan, r);
      if exists k :: 0 <= k < n && entries[k].Dir? && r in scan(entries[k]) {
        var k :| 0 <= k < n && entries[k].Dir? && r in scan(entries[k]);
        if k < n - 1 {
          assert init[k] == entries[k];
        }
      }
      if r in OverRepos(init, scan) {
        var k :| 0 <= k < |init| && init[k].Dir? && r in scan(init[k]);
        assert entries[k] == init[k];
      }
    }
  }
}
