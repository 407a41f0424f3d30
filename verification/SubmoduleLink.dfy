/**
 The two links a moved submodule and its git directory hold to each other, and their repair for one
 working tree after another (Repair-XmipGitPointer, Xmip/Move-XmipSubmodule.ps1).

 Paths are relative to the estate root, with forward slashes.  A working tree's `.git` file says
 where its git directory is, and that directory's config says where the working tree is, each by
 climbing to the root and down again.
 */
module SubmoduleLink {
  import opened Wrappers
  import opened Text

  /** The `.git` files by working tree, and the config files by git directory. */
  datatype Files = Files(pointer: map<string, string>, config: map<string, string>)

  // ---------------------------------------------------------------- what a pointer says

  const GITDIR := "gitdir:"

  /** -replace '^gitdir:\s*', '' */
  function AfterGitdir(s: string): string {
    if GITDIR <= s then TrimStart(s[|GITDIR|..], WHITE) else s
  }

  /** -replace '^(\.\./)+', '' */
  function StripUps(s: string): string {
    if "../" <= s then StripUps(s[3..]) else s
  }

  function Ups(n: nat): string {
    if n == 0 then "" else "../" + Ups(n - 1)
  }

  /** The link a `.git` file holds, as git reads it. */
  function LinkOf(text: string): string {
    AfterGitdir(Trim(text, WHITE))
  }

  /** The git directory a `.git` file names, counted from wherever it was written for. */
  function InnerOf(text: string): string {
    StripUps(LinkOf(text))
  }

  predicate LeadsIntoGit(text: string) {
    ".git/" <= InnerOf(text)
  }

  // ---------------------------------------------------------------- what a config says

  const KEY := "worktree = "

  /** -replace 'worktree = [^\n]*', on one line. */
  function RewriteLine(line: string, target: string): string {
    if KEY <= line then KEY + target
    else if line == "" then ""
    else [line[0]] + RewriteLine(line[1..], target)
  }

  function RewriteLines(lines: seq<string>, target: string): seq<string> {
    if lines == [] then [] else [RewriteLine(lines[0], target)] + RewriteLines(lines[1..], target)
  }

  function Rewrite(text: string, target: string): string {
    Join(RewriteLines(Split(text, '\n'), target), '\n')
  }

  /** The value after the first "worktree = " of a line. */
  function ValueIn(line: string): Option<string> {
    if KEY <= line then Some(line[|KEY|..])
    else if line == "" then None
    else ValueIn(line[1..])
  }

  function FirstValue(lines: seq<string>): Option<string> {
    if lines == [] then None
    else if ValueIn(lines[0]).Some? then ValueIn(lines[0])
    else FirstValue(lines[1..])
  }

  /** The working tree a config names, if it has a worktree line. */
  function WorktreeOf(text: string): Option<string> {
    FirstValue(Split(text, '\n'))
  }

  // ---------------------------------------------------------------- the repair of one working tree

  function Depth(path: string): nat {
    |Split(path, '/')|
  }

  function PointerFor(path: string, inner: string): string {
    "gitdir: " + Ups(Depth(path)) + inner + "\n"
  }

  function WorktreeFor(path: string, inner: string): string {
    Ups(Depth(inner)) + path
  }

  /** Repair-XmipGitPointer, as a function of the files. */
  function Repaired(files: Files, path: string): Files
    requires path in files.pointer
  {
    var inner := InnerOf(files.pointer[path]);
    if !LeadsIntoGit(files.pointer[path]) then files
    else
      Files(files.pointer[path := PointerFor(path, inner)],
            if inner in files.config
            then files.config[inner := Rewrite(files.config[inner], WorktreeFor(path, inner))]
            else files.config)
  }

  /** One tree after another; a path without a .git file is passed over. */
  function RepairedAll(files: Files, paths: seq<string>): Files
    decreases |paths|
  {
    if paths == [] then files
    else RepairedAll(if paths[0] in files.pointer then Repaired(files, paths[0]) else files, paths[1..])
  }

  lemma RepairedOne(files: Files, path: string, more: seq<string>)
    requires path in files.pointer
    ensures RepairedAll(files, [path] + more) == RepairedAll(Repaired(files, path), more)
  {
    assert ([path] + more)[1..] == more;
  }

  // ---------------------------------------------------------------- repairing again changes nothing

  /** What is left after the climbs begins with none and ends as the text did. */
  lemma {:induction false} StripUpsGives(s: string)
    ensures !("../" <= StripUps(s))
    ensures StripUps(s) == "" || (s != "" && StripUps(s)[|StripUps(s)| - 1] == s[|s| - 1])
  {
    if "../" <= s {
      StripUpsGives(s[3..]);
    }
  }

  /** The git directory's name does not end in white space. */
  lemma InnerIsTrimmed(text: string)
    ensures var inner := InnerOf(text); inner == "" || inner[|inner| - 1] !in WHITE
  {
    var t := Trim(text, WHITE);
    TrimEndGives(TrimStart(text, WHITE), WHITE);
    var link := AfterGitdir(t);
    if GITDIR <= t {
      TrimStartGives(t[|GITDIR|..], WHITE);
    }
    StripUpsGives(link);
  }

  lemma {:induction false} StripUpsOfUps(n: nat, rest: string)
    requires !("../" <= rest)
    ensures StripUps(Ups(n) + rest) == rest
  {
    if n == 0 {
      assert "" + rest == rest;
    } else {
      assert Ups(n) + rest == "../" + (Ups(n - 1) + rest);
      assert ("../" + (Ups(n - 1) + rest))[3..] == Ups(n - 1) + rest;
      StripUpsOfUps(n - 1, rest);
    }
  }

  lemma LinkIsRead(link: string)
    requires link != "" && link[0] !in WHITE && link[|link| - 1] !in WHITE
    ensures LinkOf(GITDIR + " " + link + "\n") == link
  {
    var line := GITDIR + " " + link;
    var text := line + "\n";
    assert text[0] == 'g' && TrimStart(text, WHITE) == text;
    assert text[..|text| - 1] == line && line[|line| - 1] == link[|link| - 1];
    assert TrimEnd(text, WHITE) == TrimEnd(line, WHITE) == line;
    assert line[|GITDIR|..] == " " + link && (" " + link)[1..] == link;
    assert TrimStart(link, WHITE) == link;
  }

  /** From any earlier number of climbs, the rewritten pointer names the same git directory. */
  lemma PointerKeepsInner(path: string, inner: string)
    requires ".git/" <= inner && inner[|inner| - 1] !in WHITE
    ensures LinkOf(PointerFor(path, inner)) == Ups(Depth(path)) + inner
    ensures InnerOf(PointerFor(path, inner)) == inner
  {
    var ups := Ups(Depth(path));
    var link := ups + inner;
    assert PointerFor(path, inner) == GITDIR + " " + link + "\n";
    assert link[0] == '.' && link[|link| - 1] == inner[|inner| - 1];
    LinkIsRead(link);
    hide LinkOf, Depth, PointerFor;
    assert inner[1] == ".git/"[1] == 'g';
    StripUpsOfUps(Depth(path), inner);
  }

  lemma LastsFrom(s: string, k: nat)
    requires k < |s|
    ensures s[k..] == [s[k]] + s[k + 1..]
  {
  }

  lemma KeyLetters(k: nat)
    requires 1 <= k < |KEY|
    ensures KEY[k] != 'w' && KEY[k..] == [KEY[k]] + KEY[k + 1..]
  {
    var letters := ['w', 'o', 'r', 'k', 't', 'r', 'e', 'e', ' ', '=', ' '];
    assert KEY == letters;
    assert letters[k] != 'w';
    LastsFrom(KEY, k);
  }

  /** The part of the key from its k-th letter on. */
  lemma {:induction false} KeyNotMade(line: string, target: string, k: nat)
    requires 1 <= k <= |KEY| && KEY[k..] <= RewriteLine(line, target)
    ensures KEY[k..] <= line
    decreases |KEY| - k
  {
    if k < |KEY| {
      KeyLetters(k);
      var r := RewriteLine(line, target);
      assert r[0] == KEY[k] && !(KEY <= line) && r[1..] == RewriteLine(line[1..], target);
      assert KEY[k + 1..] <= r[1..] by {
        assert KEY[k..][1..] == KEY[k + 1..];
      }
      hide RewriteLine;
      KeyNotMade(line[1..], target, k + 1);
      assert line == [line[0]] + line[1..];
    }
  }

  /** Rewriting a line makes no new key in front of the one it found. */
  lemma KeyFoundFirst(line: string, target: string)
    requires line != "" && !(KEY <= line)
    ensures !(KEY <= RewriteLine(line, target))
  {
    var r := RewriteLine(line, target);
    assert line == [line[0]] + line[1..] && KEY == [KEY[0]] + KEY[1..];
    if KEY <= r {
      assert KEY[1..] <= r[1..] && r[1..] == RewriteLine(line[1..], target);
      KeyNotMade(line[1..], target, 1);
    }
  }

  lemma {:induction false} RewriteLineTwice(line: string, target: string)
    ensures RewriteLine(RewriteLine(line, target), target) == RewriteLine(line, target)
    ensures ValueIn(RewriteLine(line, target)) == if ValueIn(line).Some? then Some(target) else None
    ensures '\n' !in line && '\n' !in target ==> '\n' !in RewriteLine(line, target)
  {
    if KEY <= line {
      assert (KEY + target)[|KEY|..] == target;
      assert '\n' !in KEY;
    } else if line != "" {
      RewriteLineTwice(line[1..], target);
      KeyFoundFirst(line, target);
      assert RewriteLine(line, target)[1..] == RewriteLine(line[1..], target);
    }
  }

  lemma {:induction false} RewriteLinesTwice(lines: seq<string>, target: string)
    requires Free(lines, '\n') && '\n' !in target
    ensures |RewriteLines(lines, target)| == |lines| && Free(RewriteLines(lines, target), '\n')
    ensures RewriteLines(RewriteLines(lines, target), target) == RewriteLines(lines, target)
    ensures FirstValue(RewriteLines(lines, target)) == if FirstValue(lines).Some? then Some(target) else None
  {
    if lines != [] {
      assert lines[0] in lines && forall l :: l in lines[1..] ==> l in lines;
      RewriteLineTwice(lines[0], target);
      RewriteLinesTwice(lines[1..], target);
    }
  }

  /** A config names the target once rewritten, if it had a worktree line, and rewriting it again changes nothing. */
  lemma RewriteTwice(text: string, target: string)
    requires '\n' !in target
    ensures Rewrite(Rewrite(text, target), target) == Rewrite(text, target)
    ensures WorktreeOf(Rewrite(text, target)) == if WorktreeOf(text).Some? then Some(target) else None
  {
    var lines := Split(text, '\n');
    SplitIsFree(text, '\n');
    RewriteLinesTwice(lines, target);
    SplitOfJoin(RewriteLines(lines, target), '\n');
  }

  // ---------------------------------------------------------------- where the links lead

  /** Following a relative link from a directory: up on "..", nowhere on "" and ".", else down. */
  function Follow(from: seq<string>, link: seq<string>): seq<string>
    decreases |link|
  {
    if link == [] then from
    else if link[0] == ".." then Follow(if from == [] then [] else from[..|from| - 1], link[1..])
    else if link[0] == "" || link[0] == "." then Follow(from, link[1..])
    else Follow(from + [link[0]], link[1..])
  }

  predicate IsPlain(part: string) {
    part != "" && part != "." && part != ".."
  }

  predicate Plain(path: string) {
    forall part :: part in Split(path, '/') ==> IsPlain(part)
  }

  function UpParts(n: nat): seq<string> {
    if n == 0 then [] else [".."] + UpParts(n - 1)
  }

  lemma {:induction false} SplitOfUps(n: nat, rest: string)
    ensures Split(Ups(n) + rest, '/') == UpParts(n) + Split(rest, '/')
  {
    hide Split;
    if n == 0 {
      assert "" + rest == rest && [] + Split(rest, '/') == Split(rest, '/');
    } else {
      SplitOfUps(n - 1, rest);
      SplitAtFirst("..", '/', Ups(n - 1) + rest);
      assert Ups(n) + rest == ".." + "/" + (Ups(n - 1) + rest);
      assert [".."] + (UpParts(n - 1) + Split(rest, '/')) == UpParts(n) + Split(rest, '/');
    }
  }

  lemma {:induction false} FollowUps(from: seq<string>, n: nat, rest: seq<string>)
    ensures Follow(from, UpParts(n) + rest) == Follow(from[..if n <= |from| then |from| - n else 0], rest)
    decreases n
  {
    if n == 0 {
      assert UpParts(0) + rest == rest && from[..|from|] == from;
    } else {
      assert (UpParts(n) + rest)[0] == ".." && (UpParts(n) + rest)[1..] == UpParts(n - 1) + rest;
      var up := if from == [] then [] else from[..|from| - 1];
      FollowUps(up, n - 1, rest);
      assert up[..if n - 1 <= |up| then |up| - (n - 1) else 0] == from[..if n <= |from| then |from| - n else 0];
    }
  }

  /** A plain link goes down by each of its parts; any other gets less far. */
  lemma {:induction false} FollowDown(from: seq<string>, link: seq<string>)
    ensures (forall part :: part in link ==> IsPlain(part)) ==> Follow(from, link) == from + link
    ensures !(forall part :: part in link ==> IsPlain(part)) ==> |Follow(from, link)| < |from| + |link|
    ensures |Follow(from, link)| <= |from| + |link|
    decreases |link|
  {
    if link == [] {
      assert from + link == from;
    } else {
      assert link == [link[0]] + link[1..];
      assert forall part :: part in link <==> part == link[0] || part in link[1..];
      if IsPlain(link[0]) {
        FollowDown(from + [link[0]], link[1..]);
        assert from + [link[0]] + link[1..] == from + link;
      } else if link[0] == ".." {
        FollowDown(if from == [] then [] else from[..|from| - 1], link[1..]);
      } else {
        FollowDown(from, link[1..]);
      }
    }
  }

  /** Where a path from the estate root is, in full. */
  function Location(root: seq<string>, path: string): seq<string> {
    Follow(root, Split(path, '/'))
  }

  /** A working tree's pointer leads to the git directory, from a tree at any plain path. */
  lemma PointerLeadsToGit(root: seq<string>, path: string, inner: string)
    requires Plain(path) && ".git/" <= inner && inner[|inner| - 1] !in WHITE
    ensures Follow(Location(root, path), Split(LinkOf(PointerFor(path, inner)), '/')) == Location(root, inner)
  {
    var parts := Split(path, '/');
    PointerKeepsInner(path, inner);
    SplitOfUps(Depth(path), inner);
    FollowDown(root, parts);
    FollowUps(root + parts, |parts|, Split(inner, '/'));
    assert (root + parts)[..|root|] == root;
  }

  /** The git directory's worktree line leads back, if and only if its own path is plain. */
  lemma WorktreeLeadsBack(root: seq<string>, path: string, inner: string)
    requires root != [] && Plain(path)
    ensures Follow(Location(root, inner), Split(WorktreeFor(path, inner), '/')) == Location(root, path) <==> Plain(inner)
  {
    var parts, down := Split(inner, '/'), Split(path, '/');
    var at := Location(root, inner);
    SplitOfUps(|parts|, path);
    FollowDown(root, parts);
    FollowDown(root, down);
    FollowUps(at, |parts|, down);
    var up := at[..if |parts| <= |at| then |at| - |parts| else 0];
    FollowDown(up, down);
    if Plain(inner) {
      assert up == root;
    } else {
      assert |up| < |root|;
      assert |up + down| < |root + down|;
    }
  }

  lemma CoreIsPlain()
    ensures Plain("core")
  {
    SplitAtFirst("core", '/', "");
    assert IsPlain("core");
    hide Split;
  }

  lemma DoubledIsNotPlain()
    ensures !Plain(".git//m")
  {
    hide Split;
    SplitAtFirst(".git", '/', "/m");
    SplitAtFirst("", '/', "m");
    assert ".git//m" == ".git" + ['/'] + "/m" && "" + ['/'] + "m" == "/m";
    var parts := Split(".git//m", '/');
    assert parts[1] == "" && parts[1] in parts;
  }

  /** A git directory spelled with a doubled slash is climbed out of once too often. */
  lemma DoubledSlashLeadsAstray(root: seq<string>)
    requires root != []
    ensures var inner := ".git//m"; var text := PointerFor("core", inner);
      && InnerOf(text) == inner && LeadsIntoGit(text)
      && Follow(Location(root, inner), Split(WorktreeFor("core", inner), '/')) != Location(root, "core")
  {
    hide WorktreeFor, Follow, Location, PointerFor, InnerOf, Split, Plain;
    var inner := ".git//m";
    assert inner[|inner| - 1] == 'm';
    PointerKeepsInner("core", inner);
    CoreIsPlain();
    DoubledIsNotPlain();
    WorktreeLeadsBack(root, "core", inner);
  }

  // ---------------------------------------------------------------- the whole subtree

  /** Repairing this working tree would change nothing. */
  ghost predicate Settled(files: Files, path: string) {
    path in files.pointer && Repaired(files, path) == files
  }

  /** Where the git directory a working tree's pointer names is, however it is spelled. */
  function GitOf(root: seq<string>, files: Files, path: string): seq<string>
    requires path in files.pointer
  {
    Location(root, InnerOf(files.pointer[path]))
  }

  /** Two working trees whose pointers lead into the root's .git/ have git directories of their own. */
  ghost predicate OwnGit(root: seq<string>, files: Files, paths: seq<string>) {
    && (forall p :: p in paths ==> p in files.pointer && '\n' !in p)
    && (forall i, j :: 0 <= i < j < |paths| ==> paths[i] != paths[j])
    && (forall p, q :: p in paths && q in paths && p != q && LeadsIntoGit(files.pointer[p]) && LeadsIntoGit(files.pointer[q])
          ==> GitOf(root, files, p) != GitOf(root, files, q))
  }

  lemma {:induction false} UpsHoldNoLine(n: nat)
    ensures '\n' !in Ups(n)
  {
    if n > 0 {
      UpsHoldNoLine(n - 1);
    }
  }

  lemma RepairSettles(files: Files, path: string)
    requires path in files.pointer && '\n' !in path
    ensures Settled(Repaired(files, path), path)
    ensures InnerOf(Repaired(files, path).pointer[path]) == InnerOf(files.pointer[path])
  {
    var text := files.pointer[path];
    var inner := InnerOf(text);
    if LeadsIntoGit(text) {
      InnerIsTrimmed(text);
      PointerKeepsInner(path, inner);
      UpsHoldNoLine(Depth(inner));
      if inner in files.config {
        RewriteTwice(files.config[inner], WorktreeFor(path, inner));
      }
    }
  }

  /** Repairing one tree leaves another as settled as it was, and its git directory's name unchanged. */
  lemma RepairLeavesOthers(files: Files, path: string, other: string)
    requires path in files.pointer && other in files.pointer && other != path
    requires LeadsIntoGit(files.pointer[path]) && LeadsIntoGit(files.pointer[other])
      ==> InnerOf(files.pointer[path]) != InnerOf(files.pointer[other])
    ensures Repaired(files, path).pointer[other] == files.pointer[other]
    ensures Settled(files, other) ==> Settled(Repaired(files, path), other)
  {
  }

  lemma RepairKeepsGit(root: seq<string>, files: Files, path: string, q: string)
    requires path in files.pointer && '\n' !in path && q in files.pointer
    ensures q in Repaired(files, path).pointer
    ensures GitOf(root, Repaired(files, path), q) == GitOf(root, files, q)
    ensures LeadsIntoGit(Repaired(files, path).pointer[q]) == LeadsIntoGit(files.pointer[q])
  {
    hide Location;
    RepairSettles(files, path);
  }

  /** Trees with git directories of their own keep them over a repair. */
  lemma OwnGitKept(root: seq<string>, files: Files, paths: seq<string>, path: string)
    requires OwnGit(root, files, paths) && path in paths
    ensures OwnGit(root, Repaired(files, path), paths)
  {
    hide GitOf, LeadsIntoGit;
    forall q | q in paths
      ensures q in Repaired(files, path).pointer
      ensures GitOf(root, Repaired(files, path), q) == GitOf(root, files, q)
      ensures LeadsIntoGit(Repaired(files, path).pointer[q]) == LeadsIntoGit(files.pointer[q])
    {
      RepairKeepsGit(root, files, path, q);
    }
    hide Repaired;
  }

  lemma OwnGitTail(root: seq<string>, files: Files, paths: seq<string>)
    requires OwnGit(root, files, paths) && paths != []
    ensures OwnGit(root, files, paths[1..])
  {
    hide GitOf, LeadsIntoGit;
    assert forall q :: q in paths[1..] ==> q in paths;
    assert forall i :: 0 <= i < |paths[1..]| ==> paths[1..][i] == paths[i + 1];
  }

  /** After a tree's repair it is settled, and so are those that were. */
  lemma OneMoreSettled(root: seq<string>, files: Files, done: seq<string>, path: string, all: seq<string>)
    requires OwnGit(root, files, all) && path in all && forall p :: p in done ==> p in all && Settled(files, p)
    ensures forall p :: p in done + [path] ==> Settled(Repaired(files, path), p)
  {
    RepairSettles(files, path);
    forall p | p in done + [path]
      ensures Settled(Repaired(files, path), p)
    {
      if p != path {
        assert p in done;
        hide Location;
        RepairLeavesOthers(files, path, p);
      }
    }
  }

  lemma {:induction false} RepairAllSettles(root: seq<string>, files: Files, done: seq<string>, paths: seq<string>)
    requires OwnGit(root, files, done + paths)
    requires forall p :: p in done ==> Settled(files, p)
    ensures forall p :: p in done + paths ==> Settled(RepairedAll(files, paths), p)
    decreases |paths|
  {
    if paths == [] {
      assert done + paths == done;
    } else {
      var path, all := paths[0], done + paths;
      assert all[|done|] == path && all == (done + [path]) + paths[1..] && path in files.pointer;
      hide OwnGit, Settled, Repaired;
      OwnGitKept(root, files, all, path);
      OneMoreSettled(root, files, done, path, all);
      RepairAllSettles(root, Repaired(files, path), done + [path], paths[1..]);
    }
  }

  lemma {:induction false} SettledStays(files: Files, paths: seq<string>)
    requires forall p :: p in paths ==> Settled(files, p)
    ensures RepairedAll(files, paths) == files
    decreases |paths|
  {
    if paths != [] {
      assert paths[0] in paths && forall p :: p in paths[1..] ==> p in paths;
      SettledStays(files, paths[1..]);
    }
  }

  /** The repair leaves every tree settled, so repairing again changes nothing. */
  lemma RepairAgainChangesNothing(root: seq<string>, files: Files, paths: seq<string>)
    requires OwnGit(root, files, paths)
    ensures forall p :: p in paths ==> Settled(RepairedAll(files, paths), p)
    ensures RepairedAll(RepairedAll(files, paths), paths) == RepairedAll(files, paths)
  {
    assert [] + paths == paths;
    RepairAllSettles(root, files, [], paths);
    SettledStays(RepairedAll(files, paths), paths);
  }

  /** Files the repair has no business with are left as they were. */
  lemma {:induction false} RepairTouchesNoOther(files: Files, paths: seq<string>, other: string)
    ensures other !in paths && other in files.pointer ==>
      other in RepairedAll(files, paths).pointer && RepairedAll(files, paths).pointer[other] == files.pointer[other]
    ensures RepairedAll(files, paths).pointer.Keys == files.pointer.Keys
    ensures RepairedAll(files, paths).config.Keys == files.config.Keys
    decreases |paths|
  {
    if paths != [] {
      RepairTouchesNoOther(if paths[0] in files.pointer then Repaired(files, paths[0]) else files, paths[1..], other);
    }
  }

  /** A tree's pointer leads to its git directory, and the worktree line back if and only if that is plainly named. */
  ghost predicate LinksMeet(root: seq<string>, files: Files, path: string, inner: string) {
    && path in files.pointer && inner in files.config && WorktreeOf(files.config[inner]).Some?
    && Follow(Location(root, path), Split(LinkOf(files.pointer[path]), '/')) == Location(root, inner)
    && (Follow(Location(root, inner), Split(WorktreeOf(files.config[inner]).value, '/')) == Location(root, path)
        <==> Plain(inner))
  }

  /** A settled tree's links meet, where its pointer leads into the root's .git/. */
  lemma SettledLinksMeet(root: seq<string>, files: Files, path: string)
    requires root != [] && Plain(path) && '\n' !in path
    requires Settled(files, path) && LeadsIntoGit(files.pointer[path])
    requires InnerOf(files.pointer[path]) in files.config
    requires WorktreeOf(files.config[InnerOf(files.pointer[path])]).Some?
    ensures LinksMeet(root, files, path, InnerOf(files.pointer[path]))
  {
    var inner := InnerOf(files.pointer[path]);
    InnerIsTrimmed(files.pointer[path]);
    UpsHoldNoLine(Depth(inner));
    assert files.pointer[path] == Repaired(files, path).pointer[path] == PointerFor(path, inner);
    assert files.config[inner] == Repaired(files, path).config[inner]
      == Rewrite(files.config[inner], WorktreeFor(path, inner));
    RewriteTwice(files.config[inner], WorktreeFor(path, inner));
    PointerLeadsToGit(root, path, inner);
    WorktreeLeadsBack(root, path, inner);
  }

  /** One repair changes neither which git directory a tree names, nor whether a config has a worktree line. */
  lemma RepairKeeps(files: Files, path: string, p: string, git: string)
    requires path in files.pointer && '\n' !in path && p in files.pointer && git in files.config
    ensures var next := Repaired(files, path);
      && p in next.pointer && InnerOf(next.pointer[p]) == InnerOf(files.pointer[p])
      && git in next.config && (WorktreeOf(next.config[git]).Some? <==> WorktreeOf(files.config[git]).Some?)
  {
    var inner := InnerOf(files.pointer[path]);
    RepairSettles(files, path);
    UpsHoldNoLine(Depth(inner));
    RewriteTwice(files.config[git], WorktreeFor(path, inner));
  }

  lemma {:induction false} RepairAllKeeps(root: seq<string>, files: Files, paths: seq<string>, p: string, git: string)
    requires OwnGit(root, files, paths)
    requires p in files.pointer && git in files.config
    ensures var after := RepairedAll(files, paths);
      && p in after.pointer && InnerOf(after.pointer[p]) == InnerOf(files.pointer[p])
      && git in after.config && (WorktreeOf(after.config[git]).Some? <==> WorktreeOf(files.config[git]).Some?)
    decreases |paths|
  {
    if paths != [] {
      assert paths == [paths[0]] + paths[1..] && paths[0] in paths;
      OwnGitKept(root, files, paths, paths[0]);
      OwnGitTail(root, Repaired(files, paths[0]), paths);
      RepairKeeps(files, paths[0], p, git);
      hide OwnGit, Repaired, InnerOf, WorktreeOf;
      RepairAllKeeps(root, Repaired(files, paths[0]), paths[1..], p, git);
    }
  }
}
