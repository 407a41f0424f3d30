/**
 Which mounted repository a file belongs to.  The estate asks it three ways: up from the file's
 parts (Get-XmipMapWeight), up from the file's folder by GetDirectoryName (Resolve-XmipOwner) and
 down a list of folders, longest first (Get-XmipModuleConsumer).  All three are proved to give the
 deepest mount strictly above the file, and the third to differ exactly where the path is a mount.
 */
module DeepestOwner {
  import opened Wrappers
  import opened Text

  /** path is strictly inside the directory. */
  predicate Inside(directory: string, path: string) {
    directory + "/" <= path
  }

  /** The deepest mount strictly above a path; None where there is none. */
  ghost predicate IsDeepest(mounts: set<string>, path: string, owner: Option<string>) {
    match owner
    case None => forall m :: m in mounts ==> !Inside(m, path)
    case Some(d) => d in mounts && Inside(d, path) && forall m :: m in mounts && Inside(m, path) ==> |m| <= |d|
  }

  lemma DeepestIsUnique(mounts: set<string>, path: string, a: Option<string>, b: Option<string>)
    requires IsDeepest(mounts, path, a) && IsDeepest(mounts, path, b)
    ensures a == b
  {
    if a.Some? && b.Some? {
      assert a.value == path[..|a.value|] && b.value == path[..|b.value|];
    }
  }

  // ---------------------------------------------------------------- up from the parts

  /** Get-XmipMapWeight's inner loop: the first mount met going up from `depth` parts. */
  function Upward(mounts: set<string>, part: seq<string>, depth: nat): Option<string>
    requires depth <= |part|
  {
    if depth == 0 then None
    else
      var within := Join(part[..depth], '/');
      if within in mounts then Some(within) else Upward(mounts, part, depth - 1)
  }

  function OwnerOfFile(mounts: set<string>, path: string): Option<string> {
    var part := Split(path, '/');
    Upward(mounts, part, |part| - 1)
  }

  /** What is strictly above a path is a shorter run of its parts, and the other way round. */
  lemma InsideIsFewerParts(m: string, path: string)
    ensures Inside(m, path) <==> Split(m, '/') < Split(path, '/')
  {
    var a, b := Split(m, '/'), Split(path, '/');
    SplitIsFree(m, '/');
    SplitIsFree(path, '/');
    JoinOfSplit(m, '/');
    JoinOfSplit(path, '/');
    PrefixOfJoin(a, b, '/');
    if Inside(m, path) {
      assert m + "/" <= path + "/";
    }
    if a < b {
      assert b == a + b[|a|..];
      JoinAppend(a, b[|a|..], '/');
    }
  }

  /** A mount above a path, no deeper than so many of its parts, is no longer than they are joined. */
  lemma NoDeeperIsNoLonger(m: string, path: string, depth: nat)
    requires 0 < depth < |Split(path, '/')| && Inside(m, path) && |Split(m, '/')| <= depth
    ensures var within := Join(Split(path, '/')[..depth], '/');
      |m| <= |within| && (|Split(m, '/')| == depth ==> m == within)
  {
    var part, a := Split(path, '/'), Split(m, '/');
    InsideIsFewerParts(m, path);
    JoinOfSplit(m, '/');
    hide Split;
    if |a| < depth {
      assert part[..depth] == a + part[|a|..depth];
      JoinAppend(a, part[|a|..depth], '/');
    } else {
      assert a == part[..depth];
    }
  }

  lemma PartsAreInside(path: string, depth: nat)
    requires 0 < depth < |Split(path, '/')|
    ensures var within := Join(Split(path, '/')[..depth], '/'); Inside(within, path) && |Split(within, '/')| == depth
  {
    hide Split, Join;
    var part := Split(path, '/');
    SplitIsFree(path, '/');
    SplitOfJoin(part[..depth], '/');
    InsideIsFewerParts(Join(part[..depth], '/'), path);
  }

  lemma {:induction false} UpwardIsDeepest(mounts: set<string>, path: string, depth: nat)
    requires depth < |Split(path, '/')|
    ensures match Upward(mounts, Split(path, '/'), depth)
      case None => forall m :: m in mounts && Inside(m, path) ==> |Split(m, '/')| > depth
      case Some(d) =>
        && d in mounts && Inside(d, path)
        && forall m :: m in mounts && Inside(m, path) && |Split(m, '/')| <= depth ==> |m| <= |d|
  {
    hide Split, Join, Inside;
    if depth > 0 {
      UpwardIsDeepest(mounts, path, depth - 1);
      PartsAreInside(path, depth);
      forall m | m in mounts && Inside(m, path) && |Split(m, '/')| <= depth
        ensures var within := Join(Split(path, '/')[..depth], '/');
          |m| <= |within| && (|Split(m, '/')| == depth ==> m == within)
      {
        NoDeeperIsNoLonger(m, path, depth);
      }
    }
  }

  lemma FileHasDeepestOwner(mounts: set<string>, path: string)
    ensures IsDeepest(mounts, path, OwnerOfFile(mounts, path))
  {
    UpwardIsDeepest(mounts, path, |Split(path, '/')| - 1);
    forall m | m in mounts && Inside(m, path)
      ensures |Split(m, '/')| <= |Split(path, '/')| - 1
    {
      InsideIsFewerParts(m, path);
    }
  }

  // ---------------------------------------------------------------- up by GetDirectoryName

  /** System.IO.Path.GetDirectoryName of a normalized path: what precedes the last slash, none above "/". */
  function DirectoryName(at: string): string {
    var part := Split(at, '/');
    var front := Join(part[..|part| - 1], '/');
    if |part| == 1 || at == "/" then "" else if front == "" then "/" else front
  }

  /** A path of several parts is what is in front of its last slash, the slash, and the last part. */
  lemma FrontAndLast(front: seq<string>, last: string)
    requires front != []
    ensures Join(front + [last], '/') == Join(front, '/') + "/" + last
  {
    assert Join([last], '/') == last;
    hide Join;
    JoinAppend(front, [last], '/');
    assert "/" == ['/'];
  }

  /** Above what lies in the root is the root, and above that and above a bare name nothing. */
  lemma DirectoryNameAtTheTop(name: string)
    requires name != "" && '/' !in name
    ensures DirectoryName("/" + name) == "/" && DirectoryName("/") == "" && DirectoryName(name) == ""
  {
    hide Split, Join;
    SplitAtFirst(name, '/', "");
    SplitAtFirst("", '/', name);
    assert "" + ['/'] + name == "/" + name;
    assert [""] + [name] == ["", name] && ["", name][..1] == [""];
    JoinOfSplit("", '/');
    assert [name][..0] == [];
  }

  lemma DirectoryNameShrinks(at: string)
    requires at != ""
    ensures |DirectoryName(at)| < |at|
  {
    hide Split, Join;
    var part := Split(at, '/');
    JoinOfSplit(at, '/');
    if |part| > 1 {
      FrontAndLast(part[..|part| - 1], part[|part| - 1]);
      assert part == part[..|part| - 1] + [part[|part| - 1]];
      if |at| == 1 {
        assert at == "/";
      }
    }
  }

  /** The first of a path and the directories above it that is a mount's full path. */
  function Walk(owner: map<string, string>, at: string): (found: Option<string>)
    ensures found.Some? ==> found.value in owner
    decreases |at|
  {
    if at == "" then None
    else if at in owner then Some(at)
    else
      DirectoryNameShrinks(at);
      Walk(owner, DirectoryName(at))
  }

  /** Resolve-XmipOwner: the repository at that mount, empty where there is none. */
  method ResolveOwner(path: string, owner: map<string, string>) returns (holder: string)
    ensures holder == match Walk(owner, path) case None => "" case Some(at) => owner[at]
  {
    var at := path;
    while at != ""
      invariant Walk(owner, at) == Walk(owner, path)
      decreases |at|
    {
      if at in owner {
        return owner[at];
      }
      DirectoryNameShrinks(at);
      var up := DirectoryName(at);
      if up == at {
        break;
      }
      at := up;
    }
    return "";
  }

  function Full(root: string, path: string): string {
    root + "/" + path
  }

  /** Every mount's full path, and nothing else, has an owner. */
  ghost predicate OwnsMounts(owner: map<string, string>, root: string, mounts: set<string>) {
    forall at :: at in owner <==> exists m :: m in mounts && at == Full(root, m)
  }

  lemma {:induction false} NothingAboveRoot(owner: map<string, string>, root: string, mounts: set<string>, at: string)
    requires OwnsMounts(owner, root, mounts) && |at| <= |root|
    ensures Walk(owner, at) == None
    decreases |at|
  {
    if at != "" {
      DirectoryNameShrinks(at);
      NothingAboveRoot(owner, root, mounts, DirectoryName(at));
    }
  }

  lemma DirectoryNameOfJoin(part: seq<string>)
    requires |part| >= 2 && Free(part, '/')
    requires Join(part[..|part| - 1], '/') != ""
    ensures DirectoryName(Join(part, '/')) == Join(part[..|part| - 1], '/')
  {
    hide Split, Join;
    SplitOfJoin(part, '/');
    FrontAndLast(part[..|part| - 1], part[|part| - 1]);
    assert part == part[..|part| - 1] + [part[|part| - 1]];
    assert |Join(part, '/')| >= 2;
  }

  lemma DirectoryOfFull(root: string, part: seq<string>)
    requires root != "" && |part| >= 1 && Free(part, '/')
    ensures DirectoryName(Full(root, Join(part, '/'))) ==
      if |part| == 1 then root else Full(root, Join(part[..|part| - 1], '/'))
  {
    hide DirectoryName;
    var head, front := Split(root, '/'), part[..|part| - 1];
    SplitIsFree(root, '/');
    JoinOfSplit(root, '/');
    JoinAppend(head, part, '/');
    var all := head + part;
    assert all[..|all| - 1] == head + front;
    if |part| == 1 {
      assert head + front == head;
    } else {
      JoinAppend(head, front, '/');
    }
    DirectoryNameOfJoin(all);
  }

  lemma OwnedIsMount(owner: map<string, string>, root: string, mounts: set<string>, within: string)
    requires OwnsMounts(owner, root, mounts)
    ensures Full(root, within) in owner <==> within in mounts
  {
    if Full(root, within) in owner {
      var m :| m in mounts && Full(root, within) == Full(root, m);
      assert Full(root, m)[|root| + 1..] == m && Full(root, within)[|root| + 1..] == within;
    }
  }

  lemma {:induction false} WalkFollowsParts(owner: map<string, string>, root: string, mounts: set<string>,
                                            part: seq<string>, depth: nat)
    requires root != "" && depth <= |part| && Free(part, '/')
    requires OwnsMounts(owner, root, mounts)
    ensures Walk(owner, if depth == 0 then root else Full(root, Join(part[..depth], '/'))) ==
      match Upward(mounts, part, depth) case None => None case Some(m) => Some(Full(root, m))
  {
    hide OwnsMounts, DirectoryName, Join;
    if depth == 0 {
      NothingAboveRoot(owner, root, mounts, root);
    } else {
      OwnedIsMount(owner, root, mounts, Join(part[..depth], '/'));
      assert Full(root, Join(part[..depth], '/')) != "";
      DirectoryOfFull(root, part[..depth]);
      assert part[..depth][..depth - 1] == part[..depth - 1];
      WalkFollowsParts(owner, root, mounts, part, depth - 1);
    }
  }

  // ---------------------------------------------------------------- down the folders, longest first

  predicate LongestFirst(names: seq<string>) {
    forall i, j :: 0 <= i < j < |names| ==> |names[j]| <= |names[i]|
  }

  /** The folder is the referenced path or holds it. */
  predicate IsUnder(root: string, m: string, reference: string) {
    Full(root, m) + "/" <= reference + "/"
  }

  /** Get-XmipModuleConsumer's inner loop: the first folder the reference is in, itself included. */
  function Scan(names: seq<string>, root: string, reference: string): Option<string> {
    if names == [] then None
    else if IsUnder(root, names[0], reference) then Some(names[0])
    else Scan(names[1..], root, reference)
  }

  method FindFolder(names: seq<string>, root: string, reference: string) returns (found: Option<string>)
    ensures found == Scan(names, root, reference)
  {
    for place := 0 to |names|
      invariant Scan(names, root, reference) == Scan(names[place..], root, reference)
    {
      if IsUnder(root, names[place], reference) {
        return Some(names[place]);
      }
      assert names[place..][1..] == names[place + 1..];
    }
    found := None;
  }

  /** The innermost of the folders that hold a referenced path; None where none does. */
  ghost predicate IsInnermost(names: seq<string>, root: string, reference: string, found: Option<string>) {
    match found
    case None => forall m :: m in names ==> !IsUnder(root, m, reference)
    case Some(d) =>
      && d in names && IsUnder(root, d, reference)
      && forall m :: m in names && IsUnder(root, m, reference) ==> |m| <= |d|
  }

  lemma InnermostIsUnique(names: seq<string>, root: string, reference: string, a: Option<string>, b: Option<string>)
    requires IsInnermost(names, root, reference, a) && IsInnermost(names, root, reference, b)
    ensures a == b
  {
    if a.Some? && b.Some? {
      var held := reference + "/";
      assert Full(root, a.value) == held[..|root| + 1 + |a.value|] && Full(root, b.value) == held[..|root| + 1 + |b.value|];
      assert Full(root, a.value)[|root| + 1..] == a.value && Full(root, b.value)[|root| + 1..] == b.value;
    }
  }

  /** The scan with its break finds the innermost folder, whatever path is referenced. */
  lemma {:induction false} ScanFinds(names: seq<string>, root: string, reference: string)
    requires LongestFirst(names)
    ensures IsInnermost(names, root, reference, Scan(names, root, reference))
  {
    hide Full;
    if names != [] {
      ScanFinds(names[1..], root, reference);
      assert forall m :: m in names <==> m == names[0] || m in names[1..];
      forall m | m in names[1..]
        ensures |m| <= |names[0]|
      {
        var j :| 0 <= j < |names[1..]| && names[1..][j] == m;
        assert names[j + 1] == m;
      }
    }
  }

  lemma FolderHolds(root: string, m: string, path: string)
    ensures IsUnder(root, m, Full(root, path)) <==> m == path || Inside(m, path)
  {
    var folder, held := Full(root, m) + "/", Full(root, path) + "/";
    assert folder == root + "/" + (m + "/") && held == root + "/" + (path + "/");
    assert folder <= held <==> m + "/" <= path + "/" by {
      assert folder[|root| + 1..] == m + "/" && held[|root| + 1..] == path + "/";
      if m + "/" <= path + "/" {
        assert forall i :: |root| < i < |folder| ==> folder[i] == (m + "/")[i - |root| - 1];
      }
    }
    if m + "/" <= path + "/" {
      if |m| == |path| {
        assert m == (path + "/")[..|m|] == path;
      } else {
        assert m + "/" == (path + "/")[..|m| + 1] == path[..|m| + 1];
      }
    }
    if Inside(m, path) {
      assert path <= path + "/";
    }
  }

  // ---------------------------------------------------------------- the three agree

  /** Resolve-XmipOwner's walk from the file's folder names the mount the upward loop names. */
  lemma WalkAgrees(mounts: set<string>, root: string, owner: map<string, string>, path: string)
    requires root != "" && OwnsMounts(owner, root, mounts)
    ensures Walk(owner, DirectoryName(Full(root, path))) ==
      match OwnerOfFile(mounts, path) case None => None case Some(m) => Some(Full(root, m))
  {
    hide DirectoryName, Walk, OwnsMounts;
    var part := Split(path, '/');
    SplitIsFree(path, '/');
    JoinOfSplit(path, '/');
    DirectoryOfFull(root, part);
    WalkFollowsParts(owner, root, mounts, part, |part| - 1);
  }

  /** The longest-first scan names it too, if and only if the path is not itself a mount. */
  lemma ScanAgreesOffMounts(mounts: set<string>, names: seq<string>, root: string, path: string)
    requires LongestFirst(names) && forall m :: m in names <==> m in mounts
    ensures Scan(names, root, Full(root, path)) == OwnerOfFile(mounts, path) <==> path !in mounts
  {
    hide Scan, Full, OwnerOfFile, IsUnder;
    FileHasDeepestOwner(mounts, path);
    ScanFinds(names, root, Full(root, path));
    forall m | m in names
      ensures IsUnder(root, m, Full(root, path)) <==> m == path || Inside(m, path)
    {
      FolderHolds(root, m, path);
    }
    if path !in mounts {
      DeepestIsUnique(mounts, path, Scan(names, root, Full(root, path)), OwnerOfFile(mounts, path));
    }
  }
}
