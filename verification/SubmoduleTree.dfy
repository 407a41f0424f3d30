/**
 The repair of a whole moved subtree (Repair-XmipSubmoduleLink and Get-XmipNestedGit,
 Xmip/Move-XmipSubmodule.ps1): the working trees at and beneath the new path are found by walking
 the directories, are all different, and after the repair all have their two links meeting.
 */
module SubmoduleTree {
  import opened Text
  import opened SubmoduleLink
  import opened SubmoduleText

  // ---------------------------------------------------------------- the trees beneath a directory

  datatype Mark = NoGit | GitFile | GitDirectory

  /** A directory: what it has under the name .git, and its child directories. */
  datatype Dir = Dir(mark: Mark, child: seq<(string, Dir)>)

  const SKIPPED := ["target", "bin", "obj", "node_modules", ".git"]

  function NestedEach(dir: Dir, es: seq<(string, Dir)>, at: string): seq<(string, Mark)>
    requires forall e :: e in es ==> e in dir.child
    decreases dir, 0, |es|
  {
    if es == [] then []
    else
      assert es[0] in dir.child;
      var path := at + "/" + es[0].0;
      (if es[0].0 in SKIPPED then []
       else (if es[0].1.mark.NoGit? then [] else [(path, es[0].1.mark)]) + Nested(es[0].1, path))
      + NestedEach(dir, es[1..], at)
  }

  /** Get-XmipNestedGit: every directory beneath with a .git of its own, build output not walked. */
  function Nested(dir: Dir, at: string): seq<(string, Mark)>
    decreases dir, 1, 0
  {
    NestedEach(dir, dir.child, at)
  }

  function FilesOf(trees: seq<(string, Mark)>): seq<string> {
    if trees == [] then []
    else if trees[0].1.GitFile? then [trees[0].0] + FilesOf(trees[1..])
    else FilesOf(trees[1..])
  }

  /** The trees beneath whose .git is a file, which are the ones repaired. */
  function NestedFiles(dir: Dir, at: string): seq<string> {
    FilesOf(Nested(dir, at))
  }

  /** Where a .git is a file, the files hold it. */
  ghost predicate Holds(files: Files, trees: seq<(string, Mark)>) {
    forall t :: t in trees && t.1.GitFile? ==> t.0 in files.pointer
  }

  // ---------------------------------------------------------------- which trees are found

  /** d is what these names lead to from a directory. */
  ghost predicate Beneath(dir: Dir, names: seq<string>, d: Dir)
    decreases |names|
  {
    if names == [] then d == dir
    else exists e :: e in dir.child && e.0 == names[0] && Beneath(e.1, names[1..], d)
  }

  predicate IsBuildOutput(name: string) {
    name == "target" || name == "bin" || name == "obj" || name == "node_modules"
  }

  /** The walk comes past no build output, and into no git directory. */
  ghost predicate Walked(names: seq<string>) {
    names != [] && forall n :: n in names ==> n != ".git" && !IsBuildOutput(n)
  }

  lemma SkippedAre(name: string)
    ensures name in SKIPPED <==> name == ".git" || IsBuildOutput(name)
  {
  }

  lemma {:induction false} NestedEachHolds(dir: Dir, es: seq<(string, Dir)>, at: string, t: (string, Mark))
    requires forall e :: e in es ==> e in dir.child
    ensures t in NestedEach(dir, es, at) <==>
      exists e :: e in es && e.0 !in SKIPPED &&
        ((t == (at + "/" + e.0, e.1.mark) && !t.1.NoGit?) || t in Nested(e.1, at + "/" + e.0))
  {
    if es != [] {
      assert es[0] in dir.child && es == [es[0]] + es[1..];
      NestedEachHolds(dir, es[1..], at, t);
      if t in NestedEach(dir, es, at) && t !in NestedEach(dir, es[1..], at) {
        assert es[0] in es;
      }
    }
  }

  lemma JoinUnder(at: string, name: string, names: seq<string>)
    ensures names == [] ==> at + "/" + Join([name] + names, '/') == at + "/" + name
    ensures names != [] ==> at + "/" + Join([name] + names, '/') == (at + "/" + name) + "/" + Join(names, '/')
  {
    assert ([name] + names)[1..] == names;
  }

  lemma {:induction false} BeneathIsFound(dir: Dir, names: seq<string>, d: Dir, at: string)
    requires Beneath(dir, names, d) && Walked(names) && !d.mark.NoGit?
    ensures (at + "/" + Join(names, '/'), d.mark) in Nested(dir, at)
    decreases |names|
  {
    var t := (at + "/" + Join(names, '/'), d.mark);
    var e :| e in dir.child && e.0 == names[0] && Beneath(e.1, names[1..], d);
    assert names == [names[0]] + names[1..];
    SkippedAre(names[0]);
    assert names[0] in names && e.0 !in SKIPPED;
    hide IsBuildOutput;
    JoinUnder(at, names[0], names[1..]);
    if names[1..] != [] {
      BeneathIsFound(e.1, names[1..], d, at + "/" + e.0);
    }
    NestedEachHolds(dir, dir.child, at, t);
  }

  lemma {:induction false} FoundIsBeneath(dir: Dir, at: string, t: (string, Mark))
    requires t in Nested(dir, at)
    ensures exists names, d ::
      Beneath(dir, names, d) && Walked(names) && !d.mark.NoGit? && t == (at + "/" + Join(names, '/'), d.mark)
    decreases dir
  {
    NestedEachHolds(dir, dir.child, at, t);
    var e :| e in dir.child && e.0 !in SKIPPED &&
      ((t == (at + "/" + e.0, e.1.mark) && !t.1.NoGit?) || t in Nested(e.1, at + "/" + e.0));
    SkippedAre(e.0);
    hide IsBuildOutput;
    if t in Nested(e.1, at + "/" + e.0) {
      FoundIsBeneath(e.1, at + "/" + e.0, t);
      var names, d :| Beneath(e.1, names, d) && Walked(names) && !d.mark.NoGit? &&
        t == (at + "/" + e.0 + "/" + Join(names, '/'), d.mark);
      JoinUnder(at, e.0, names);
      var all := [e.0] + names;
      assert all[1..] == names && Beneath(dir, all, d) && Walked(all);
    } else {
      JoinUnder(at, e.0, []);
      assert [e.0] + [] == [e.0] && [e.0][1..] == [];
      assert Beneath(e.1, [], e.1);
      assert Beneath(dir, [e.0], e.1) && Walked([e.0]);
    }
  }

  /** Get-XmipNestedGit reports exactly the trees below that no skipped directory is on the way to. */
  lemma NestedIsEveryWalkedTree(dir: Dir, at: string, path: string, mark: Mark)
    ensures (path, mark) in Nested(dir, at) <==>
      exists names, d :: Beneath(dir, names, d) && Walked(names) && !d.mark.NoGit? &&
        d.mark == mark && path == at + "/" + Join(names, '/')
  {
    if (path, mark) in Nested(dir, at) {
      FoundIsBeneath(dir, at, (path, mark));
    }
    forall names, d | Beneath(dir, names, d) && Walked(names) && !d.mark.NoGit?
      ensures (at + "/" + Join(names, '/'), d.mark) in Nested(dir, at)
    {
      BeneathIsFound(dir, names, d, at);
    }
  }

  // ---------------------------------------------------------------- every tree is found once

  ghost predicate NamesDiffer(es: seq<(string, Dir)>) {
    forall i, j :: 0 <= i < j < |es| ==> es[i].0 != es[j].0
  }

  /** What a file system gives: names of one directory differ, and none is empty, a dot or holds a slash. */
  ghost predicate WellNamed(dir: Dir) {
    && NamesDiffer(dir.child)
    && (forall e :: e in dir.child ==> IsPlain(e.0) && '/' !in e.0 && '\n' !in e.0 && WellNamed(e.1))
  }

  ghost predicate NamesBelow(at: string, path: string, names: seq<string>) {
    && names != [] && Split(path, '/') == Split(at, '/') + names
    && (forall n :: n in names ==> IsPlain(n))
    && ('\n' !in at ==> '\n' !in path)
  }

  lemma ChildHasName(at: string, name: string)
    requires IsPlain(name) && '/' !in name && '\n' !in name
    ensures NamesBelow(at, at + "/" + name, [name])
  {
    assert at + "/" + name == at + ['/'] + name;
    SplitOfConcat(at, '/', name);
    SplitAtFirst(name, '/', "");
  }

  lemma ChildGoesOn(at: string, name: string, path: string, names: seq<string>)
    requires NamesBelow(at, at + "/" + name, [name]) && NamesBelow(at + "/" + name, path, names)
    ensures NamesBelow(at, path, [name] + names)
  {
    assert Split(at, '/') + [name] + names == Split(at, '/') + ([name] + names);
  }

  lemma {:induction false} BeneathIsPlain(dir: Dir, names: seq<string>, d: Dir)
    requires WellNamed(dir) && Beneath(dir, names, d)
    ensures forall n :: n in names ==> IsPlain(n) && '/' !in n && '\n' !in n
    decreases |names|
  {
    if names != [] {
      var e :| e in dir.child && e.0 == names[0] && Beneath(e.1, names[1..], d);
      BeneathIsPlain(e.1, names[1..], d);
      assert names == [names[0]] + names[1..];
    }
  }

  lemma {:induction false} JoinHoldsNoLine(names: seq<string>)
    requires forall n :: n in names ==> '\n' !in n
    ensures '\n' !in Join(names, '/')
  {
    if |names| > 1 {
      assert names[0] in names && forall n :: n in names[1..] ==> n in names;
      JoinHoldsNoLine(names[1..]);
    }
  }

  /** A found tree's path goes on from the directory's by plain names ... */
  lemma FoundHasNames(dir: Dir, at: string, t: (string, Mark))
    requires WellNamed(dir) && t in Nested(dir, at)
    ensures exists names :: NamesBelow(at, t.0, names)
  {
    hide Nested;
    FoundIsBeneath(dir, at, t);
    var names, d :| Beneath(dir, names, d) && Walked(names) && !d.mark.NoGit? && t == (at + "/" + Join(names, '/'), d.mark);
    hide Beneath, WellNamed;
    BeneathIsPlain(dir, names, d);
    SplitOfConcat(at, '/', Join(names, '/'));
    SplitOfJoin(names, '/');
    JoinHoldsNoLine(names);
    assert t.0 == at + ['/'] + Join(names, '/');
    assert NamesBelow(at, t.0, names);
  }

  /** ... the first of them the name of the child it was found in. */
  lemma FoundInOne(dir: Dir, e: (string, Dir), at: string, t: (string, Mark))
    requires WellNamed(dir) && e in dir.child
    requires t.0 == at + "/" + e.0 || t in Nested(e.1, at + "/" + e.0)
    ensures exists names :: NamesBelow(at, t.0, names) && names[0] == e.0
  {
    hide NamesBelow, Nested;
    ChildHasName(at, e.0);
    if t in Nested(e.1, at + "/" + e.0) {
      FoundHasNames(e.1, at + "/" + e.0, t);
      var names :| NamesBelow(at + "/" + e.0, t.0, names);
      ChildGoesOn(at, e.0, t.0, names);
    }
  }

  lemma FoundInChild(dir: Dir, es: seq<(string, Dir)>, at: string, t: (string, Mark))
    requires WellNamed(dir) && (forall e :: e in es ==> e in dir.child)
    requires t in NestedEach(dir, es, at)
    ensures exists e, names :: e in es && NamesBelow(at, t.0, names) && names[0] == e.0
  {
    hide NamesBelow, WellNamed, Nested, NestedEach;
    NestedEachHolds(dir, es, at, t);
    var e :| e in es && (t.0 == at + "/" + e.0 || t in Nested(e.1, at + "/" + e.0));
    FoundInOne(dir, e, at, t);
  }

  ghost predicate DistinctTrees(trees: seq<(string, Mark)>) {
    forall i, j :: 0 <= i < j < |trees| ==> trees[i].0 != trees[j].0
  }

  lemma DistinctAppend(a: seq<(string, Mark)>, b: seq<(string, Mark)>)
    requires DistinctTrees(a) && DistinctTrees(b)
    requires forall t, u :: t in a && u in b ==> t.0 != u.0
    ensures DistinctTrees(a + b)
  {
    forall i, j | 0 <= i < j < |a + b|
      ensures (a + b)[i].0 != (a + b)[j].0
    {
      assert i < |a| ==> (a + b)[i] in a;
      assert j >= |a| ==> (a + b)[j] in b;
    }
  }

  /** What a single child contributes is apart from what the others do, and the child itself from its own. */
  lemma ChildrenApart(dir: Dir, e: (string, Dir), es: seq<(string, Dir)>, at: string)
    requires WellNamed(dir) && e in dir.child && (forall x :: x in es ==> x in dir.child && x.0 != e.0)
    ensures forall t, u :: t in NestedEach(dir, [e], at) && u in NestedEach(dir, es, at) ==> t.0 != u.0
    ensures forall u :: u in Nested(e.1, at + "/" + e.0) ==> u.0 != at + "/" + e.0
  {
    forall t, u | t in NestedEach(dir, [e], at) && u in NestedEach(dir, es, at)
      ensures t.0 != u.0
    {
      FoundInChild(dir, [e], at, t);
      FoundInChild(dir, es, at, u);
      var x, a :| x in [e] && NamesBelow(at, t.0, a) && a[0] == x.0;
      var y, b :| y in es && NamesBelow(at, u.0, b) && b[0] == y.0;
      assert (Split(at, '/') + a)[|Split(at, '/')|] == a[0] && (Split(at, '/') + b)[|Split(at, '/')|] == b[0];
    }
    forall u | u in Nested(e.1, at + "/" + e.0)
      ensures u.0 != at + "/" + e.0
    {
      FoundHasNames(e.1, at + "/" + e.0, u);
    }
  }

  /** A child well named, and the others named otherwise. */
  lemma FirstApart(dir: Dir, es: seq<(string, Dir)>)
    requires WellNamed(dir) && es != [] && NamesDiffer(es) && forall e :: e in es ==> e in dir.child
    ensures WellNamed(es[0].1) && NamesDiffer(es[0].1.child) && NamesDiffer(es[1..])
    ensures forall x :: x in es[1..] ==> x in dir.child && x.0 != es[0].0
  {
    assert es[0] in dir.child && forall j :: 0 <= j < |es[1..]| ==> es[1..][j] == es[j + 1];
    forall x | x in es[1..]
      ensures x in dir.child && x.0 != es[0].0
    {
      assert x in es;
      var j :| 0 <= j < |es[1..]| && es[1..][j] == x;
      assert es[j + 1] == x;
    }
  }

  /** What one child contributes is itself, if it has a .git, and what is found in it. */
  lemma OneChild(dir: Dir, e: (string, Dir), at: string)
    requires e in dir.child
    ensures NestedEach(dir, [e], at) == if e.0 in SKIPPED then [] else
      (if e.1.mark.NoGit? then [] else [(at + "/" + e.0, e.1.mark)]) + Nested(e.1, at + "/" + e.0)
  {
    assert [e][1..] == [];
  }

  lemma NestedInFront(dir: Dir, es: seq<(string, Dir)>, at: string)
    requires es != [] && forall e :: e in es ==> e in dir.child
    ensures NestedEach(dir, es, at) == NestedEach(dir, [es[0]], at) + NestedEach(dir, es[1..], at)
  {
    assert es[0] in dir.child && [es[0]][1..] == [];
  }

  /** The descent into one child. */
  lemma OneChildOnce(dir: Dir, e: (string, Dir), at: string)
    requires WellNamed(dir) && e in dir.child && DistinctTrees(Nested(e.1, at + "/" + e.0))
    ensures DistinctTrees(NestedEach(dir, [e], at))
  {
    ChildrenApart(dir, e, [], at);
    OneChild(dir, e, at);
    hide WellNamed, Nested, NestedEach;
    if e.0 !in SKIPPED {
      var path := at + "/" + e.0;
      DistinctAppend(if e.1.mark.NoGit? then [] else [(path, e.1.mark)], Nested(e.1, path));
    }
  }

  lemma NothingTwice(dir: Dir, at: string)
    ensures DistinctTrees(NestedEach(dir, [], at))
  {
  }

  lemma NestedIsEach(dir: Dir, at: string)
    ensures Nested(dir, at) == NestedEach(dir, dir.child, at)
  {
  }

  /** No tree is found twice. */
  lemma {:induction false} FoundOnce(dir: Dir, es: seq<(string, Dir)>, at: string)
    requires WellNamed(dir) && NamesDiffer(es) && forall e :: e in es ==> e in dir.child
    ensures DistinctTrees(NestedEach(dir, es, at))
    decreases dir, |es|
  {
    hide WellNamed, NamesDiffer, DistinctTrees;
    if es == [] {
      NothingTwice(dir, at);
    } else {
      var e, rest := es[0], es[1..];
      assert e in dir.child;
      FirstApart(dir, es);
      ChildrenApart(dir, e, rest, at);
      NestedInFront(dir, es, at);
      NestedIsEach(e.1, at + "/" + e.0);
      hide Nested, NestedEach;
      FoundOnce(dir, rest, at);
      FoundOnce(e.1, e.1.child, at + "/" + e.0);
      OneChildOnce(dir, e, at);
      DistinctAppend(NestedEach(dir, [e], at), NestedEach(dir, rest, at));
    }
  }

  // ---------------------------------------------------------------- the moved tree and all beneath it

  /** The working trees a move repairs: the moved one and those found beneath it whose .git is a file. */
  function Moved(to: string, moved: Dir): seq<string> {
    [to] + NestedFiles(moved, to)
  }

  /** The same, said of the directories: a tree at or beneath the new path, nothing skipped on the way. */
  ghost predicate AtOrBeneath(to: string, moved: Dir, path: string) {
    path == to || exists names, d ::
      Beneath(moved, names, d) && Walked(names) && d.mark.GitFile? && path == to + "/" + Join(names, '/')
  }

  /** A subtree as git leaves it: plainly named, and every tree with a git directory of its own. */
  ghost predicate Movable(root: seq<string>, files: Files, to: string, moved: Dir) {
    && Plain(to) && '\n' !in to && WellNamed(moved)
    && (forall p :: AtOrBeneath(to, moved, p) ==> p in files.pointer)
    && (forall p, q, i, j :: AtOrBeneath(to, moved, p) && AtOrBeneath(to, moved, q) && p != q
          && NamesGit(files.pointer[p], i) && NamesGit(files.pointer[q], j)
          ==> Location(root, i) != Location(root, j))
  }

  lemma {:induction false} FilesOfHolds(trees: seq<(string, Mark)>)
    ensures forall p :: p in FilesOf(trees) <==> (p, GitFile) in trees
    ensures DistinctTrees(trees) ==> forall i, j :: 0 <= i < j < |FilesOf(trees)| ==> FilesOf(trees)[i] != FilesOf(trees)[j]
  {
    if trees != [] {
      FilesOfHolds(trees[1..]);
      assert trees == [trees[0]] + trees[1..];
      assert forall j :: 0 <= j < |trees[1..]| ==> trees[1..][j] == trees[j + 1];
    }
  }

  lemma NestedIsBeneath(to: string, moved: Dir, p: string)
    requires WellNamed(moved)
    ensures (p, GitFile) in Nested(moved, to) ==> p != to && (Plain(to) && '\n' !in to ==> Plain(p) && '\n' !in p)
    ensures AtOrBeneath(to, moved, p) <==> p == to || (p, GitFile) in Nested(moved, to)
  {
    NestedIsEveryWalkedTree(moved, to, p, GitFile);
    hide WellNamed, Nested, Beneath, Walked, Split;
    if (p, GitFile) in Nested(moved, to) {
      FoundHasNames(moved, to, (p, GitFile));
      var names :| NamesBelow(to, p, names);
      assert Split(p, '/') != Split(to, '/');
    }
  }

  lemma MovedDiffer(to: string, files: seq<string>)
    requires to !in files && forall i, j :: 0 <= i < j < |files| ==> files[i] != files[j]
    ensures var all := [to] + files; forall i, j :: 0 <= i < j < |all| ==> all[i] != all[j]
  {
    var all := [to] + files;
    assert forall j :: 1 <= j < |all| ==> all[j] == files[j - 1] && all[j] in files;
  }

  /** The repair's list is the trees at or beneath the new path, each once, each plainly named. */
  lemma MovedIsAtOrBeneath(to: string, moved: Dir)
    requires WellNamed(moved)
    ensures forall p :: p in Moved(to, moved) <==> AtOrBeneath(to, moved, p)
    ensures forall i, j :: 0 <= i < j < |Moved(to, moved)| ==> Moved(to, moved)[i] != Moved(to, moved)[j]
    ensures Plain(to) && '\n' !in to ==> forall p :: p in Moved(to, moved) ==> Plain(p) && '\n' !in p
  {
    NestedIsEach(moved, to);
    FoundOnce(moved, moved.child, to);
    FilesOfHolds(Nested(moved, to));
    hide WellNamed, Nested, NestedEach, AtOrBeneath, Plain;
    forall p
      ensures p in NestedFiles(moved, to) ==> p != to && (Plain(to) && '\n' !in to ==> Plain(p) && '\n' !in p)
      ensures p in Moved(to, moved) <==> AtOrBeneath(to, moved, p)
    {
      NestedIsBeneath(to, moved, p);
    }
    MovedDiffer(to, NestedFiles(moved, to));
  }

  /**
   Every tree whose pointer led into the root's .git/ says where it now is, and so does its config;
   where that has a worktree line, the two links meet.
   */
  ghost predicate AllLinksMeet(root: seq<string>, before: Files, after: Files, to: string, moved: Dir) {
    forall p, inner :: AtOrBeneath(to, moved, p) && p in before.pointer && NamesGit(before.pointer[p], inner) ==>
      && Says(before, after, p, inner)
      && (inner in before.config && WorktreeOf(before.config[inner]).Some? ==> LinksMeet(root, after, p, inner))
  }

  lemma MovedOwnGit(root: seq<string>, files: Files, to: string, moved: Dir)
    requires Movable(root, files, to, moved)
    ensures OwnGit(root, files, Moved(to, moved))
  {
    MovedIsAtOrBeneath(to, moved);
    hide Moved, AtOrBeneath, Location, NamesGit, WellNamed, Plain;
    var paths := Moved(to, moved);
    forall p, q | p in paths && q in paths && p != q && LeadsIntoGit(files.pointer[p]) && LeadsIntoGit(files.pointer[q])
      ensures GitOf(root, files, p) != GitOf(root, files, q)
    {
      GuardIsNamesGit(files.pointer[p], InnerOf(files.pointer[p]));
      GuardIsNamesGit(files.pointer[q], InnerOf(files.pointer[q]));
    }
  }

  /** A second repair of the moved subtree changes nothing. */
  lemma MovedStaysRepaired(root: seq<string>, files: Files, to: string, moved: Dir)
    requires Movable(root, files, to, moved)
    ensures var after := RepairedAll(files, Moved(to, moved)); RepairedAll(after, Moved(to, moved)) == after
  {
    MovedOwnGit(root, files, to, moved);
    RepairAgainChangesNothing(root, files, Moved(to, moved));
  }

  /** The repair of the moved subtree makes all its links meet. */
  lemma MovedLinksMeet(root: seq<string>, files: Files, to: string, moved: Dir)
    requires root != [] && Movable(root, files, to, moved)
    ensures AllLinksMeet(root, files, RepairedAll(files, Moved(to, moved)), to, moved)
  {
    var paths := Moved(to, moved);
    var after := RepairedAll(files, paths);
    MovedOwnGit(root, files, to, moved);
    MovedIsAtOrBeneath(to, moved);
    hide Moved, AtOrBeneath, NamesGit, OwnGit, LinksMeet, Says, WorktreeOf, WellNamed, Plain;
    forall p, inner | AtOrBeneath(to, moved, p) && NamesGit(files.pointer[p], inner)
      ensures Says(files, after, p, inner)
      ensures inner in files.config && WorktreeOf(files.config[inner]).Some? ==> LinksMeet(root, after, p, inner)
    {
      RepairedAllSays(root, files, paths, p, inner);
      if inner in files.config && WorktreeOf(files.config[inner]).Some? {
        RepairedLinksMeet(root, files, paths, p, inner);
      }
    }
  }

  // ---------------------------------------------------------------- the methods that rewrite the files

  /** The estate's files, which the repair rewrites in place. */
  class GitFiles {
    var pointer: map<string, string>
    var config: map<string, string>

    ghost function Now(): Files
      reads this
    {
      Files(pointer, config)
    }

    constructor (pointer: map<string, string>, config: map<string, string>)
      ensures Now() == Files(pointer, config)
    {
      this.pointer, this.config := pointer, config;
    }

    /** Repair-XmipGitPointer. */
    method RepairPointer(path: string)
      requires path in pointer
      modifies this
      ensures Now() == Repaired(old(Now()), path)
    {
      var inner := InnerOf(pointer[path]);
      if !(".git/" <= inner) {
        return;
      }
      pointer := pointer[path := "gitdir: " + Ups(Depth(path)) + inner + "\n"];
      if inner in config {
        config := config[inner := Rewrite(config[inner], Ups(Depth(inner)) + path)];
      }
    }

    /** Repair-XmipSubmoduleLink's links: the moved tree's own, then those of every tree beneath it. */
    method RepairLink(to: string, moved: Dir)
      requires to in pointer && Holds(Now(), Nested(moved, to))
      modifies this
      ensures Now() == RepairedAll(old(Now()), Moved(to, moved))
      ensures forall root: seq<string> :: root != [] && Movable(root, old(Now()), to, moved) ==>
        AllLinksMeet(root, old(Now()), Now(), to, moved) && RepairedAll(Now(), Moved(to, moved)) == Now()
    {
      ghost var before := Now();
      RepairPointer(to);
      var nested := Nested(moved, to);
      RepairedOne(before, to, NestedFiles(moved, to));
      for i := 0 to |nested|
        invariant pointer.Keys == before.pointer.Keys
        invariant RepairedAll(Now(), FilesOf(nested[i..])) == RepairedAll(before, Moved(to, moved))
      {
        assert nested[i..][0] == nested[i] && nested[i..][1..] == nested[i + 1..];
        if nested[i].1.GitFile? {
          assert nested[i] in nested;
          RepairPointer(nested[i].0);
        }
      }
      assert nested[|nested|..] == [];
      forall root: seq<string> | root != [] && Movable(root, before, to, moved)
        ensures AllLinksMeet(root, before, Now(), to, moved) && RepairedAll(Now(), Moved(to, moved)) == Now()
      {
        MovedLinksMeet(root, before, to, moved);
        MovedStaysRepaired(root, before, to, moved);
      }
    }
  }
}
