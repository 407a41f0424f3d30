/**
 What the repair of submodule links reads and writes, character by character: which `.git` files lead
 into the root's .git/, what they say afterwards, and which words of a config are replaced.
 */
module SubmoduleText {
  import opened Wrappers
  import opened Text
  import opened SubmoduleLink

  // ---------------------------------------------------------------- a pointer into the root's .git/

  predicate Blank(s: string) {
    forall c :: c in s ==> c in WHITE
  }

  /** The text is a climb of n levels and then the path, behind "gitdir:" if that is there, white space aside. */
  predicate Spells(text: string, n: nat, path: string, lead: string, key: string, gap: string, end: string) {
    && text == lead + key + gap + Ups(n) + path + end
    && Blank(lead) && Blank(gap) && Blank(end)
    && (key == "gitdir:" || (key == "" && gap == ""))
  }

  /** A `.git` file's text that leads, from whatever depth, into this directory of the root's .git/. */
  ghost predicate NamesGit(text: string, inner: string) {
    && ".git/" <= inner && inner[|inner| - 1] !in WHITE
    && exists n, lead, key, gap, end :: Spells(text, n, inner, lead, key, gap, end)
  }

  lemma {:induction false} TrimStartParts(s: string)
    ensures var t := TrimStart(s, WHITE); |t| <= |s| && s == s[..|s| - |t|] + t && Blank(s[..|s| - |t|])
  {
    if s != "" && s[0] in WHITE {
      TrimStartParts(s[1..]);
      var t := TrimStart(s[1..], WHITE);
      assert s[..|s| - |t|] == [s[0]] + s[1..][..|s| - 1 - |t|];
    }
  }

  lemma {:induction false} TrimEndParts(s: string)
    ensures var t := TrimEnd(s, WHITE); t <= s && Blank(s[|t|..])
  {
    if s != "" && s[|s| - 1] in WHITE {
      var front := s[..|s| - 1];
      TrimEndParts(front);
      var t := TrimEnd(front, WHITE);
      assert s[|t|..] == front[|t|..] + [s[|s| - 1]];
    }
  }

  lemma {:induction false} TrimStartOf(lead: string, s: string)
    requires Blank(lead) && s != "" && s[0] !in WHITE
    ensures TrimStart(lead + s, WHITE) == s
  {
    if lead == "" {
      assert lead + s == s;
    } else {
      assert (lead + s)[1..] == lead[1..] + s;
      assert lead[0] in lead && forall c :: c in lead[1..] ==> c in lead;
      TrimStartOf(lead[1..], s);
    }
  }

  lemma {:induction false} TrimEndOf(s: string, end: string)
    requires Blank(end) && s != "" && s[|s| - 1] !in WHITE
    ensures TrimEnd(s + end, WHITE) == s
  {
    if end == "" {
      assert s + end == s;
    } else {
      assert (s + end)[..|s + end| - 1] == s + end[..|end| - 1];
      assert end[|end| - 1] in end && forall c :: c in end[..|end| - 1] ==> c in end;
      TrimEndOf(s, end[..|end| - 1]);
    }
  }

  lemma OneClimb(n: nat, rest: string)
    ensures Ups(0) + rest == rest
    ensures "../" + (Ups(n) + rest) == Ups(n + 1) + rest
  {
  }

  lemma {:induction false} StripUpsParts(s: string) returns (n: nat)
    ensures s == Ups(n) + StripUps(s)
  {
    if "../" <= s {
      n := StripUpsParts(s[3..]);
      hide Ups;
      assert s == "../" + s[3..];
      OneClimb(n, StripUps(s));
      n := n + 1;
    } else {
      n := 0;
      OneClimb(0, s);
    }
  }

  lemma TrimParts(text: string) returns (lead: string, end: string)
    ensures text == lead + Trim(text, WHITE) + end && Blank(lead) && Blank(end)
  {
    var start := TrimStart(text, WHITE);
    TrimStartParts(text);
    TrimEndParts(start);
    lead, end := text[..|text| - |start|], start[|Trim(text, WHITE)|..];
  }

  lemma GitdirParts(t: string) returns (key: string, gap: string)
    ensures t == key + gap + AfterGitdir(t) && Blank(gap) && (key == "gitdir:" || (key == "" && gap == ""))
  {
    if GITDIR <= t {
      var rest := t[|GITDIR|..];
      TrimStartParts(rest);
      key, gap := "gitdir:", rest[..|rest| - |AfterGitdir(t)|];
      assert rest == gap + AfterGitdir(t);
    } else {
      key, gap := "", "";
      assert t == "" + "" + t;
    }
  }

  /** Every text is spelled as what is read in it. */
  lemma ReadIsSpelled(text: string)
    ensures exists n, lead, key, gap, end :: Spells(text, n, InnerOf(text), lead, key, gap, end)
  {
    hide Trim, AfterGitdir, StripUps, Blank;
    var lead, end := TrimParts(text);
    var key, gap := GitdirParts(Trim(text, WHITE));
    var n := StripUpsParts(LinkOf(text));
    assert lead + (key + gap + (Ups(n) + InnerOf(text))) + end == lead + key + gap + Ups(n) + InnerOf(text) + end;
    assert Spells(text, n, InnerOf(text), lead, key, gap, end);
  }

  lemma TrimOf(lead: string, line: string, end: string)
    requires Blank(lead) && Blank(end) && line != "" && line[0] !in WHITE && line[|line| - 1] !in WHITE
    ensures Trim(lead + line + end, WHITE) == line
  {
    hide Blank;
    assert lead + line + end == lead + (line + end);
    TrimStartOf(lead, line + end);
    TrimEndOf(line, end);
  }

  lemma AfterGitdirOf(key: string, gap: string, link: string)
    requires Blank(gap) && link != "" && link[0] !in WHITE && !("gitdir:" <= link)
    requires key == "gitdir:" || (key == "" && gap == "")
    ensures AfterGitdir(key + gap + link) == link
  {
    if key == "gitdir:" {
      assert (key + gap + link)[|GITDIR|..] == gap + link;
      TrimStartOf(gap, link);
    } else {
      assert key + gap + link == link;
    }
  }

  lemma ClimbBegins(n: nat, path: string)
    requires path != ""
    ensures var link := Ups(n) + path;
      && link[0] == (if n == 0 then path[0] else '.') && link[|link| - 1] == path[|path| - 1]
      && (!("gitdir:" <= path) ==> !("gitdir:" <= link))
  {
    assert n == 0 ==> Ups(n) + path == path;
  }

  lemma LineBegins(key: string, gap: string, link: string)
    requires link != "" && (key == "gitdir:" || (key == "" && gap == ""))
    ensures var line := key + gap + link;
      line[|line| - 1] == link[|link| - 1] && line[0] == if key == "" then link[0] else 'g'
  {
  }

  lemma Regroup(lead: string, key: string, gap: string, ups: string, path: string, end: string)
    ensures lead + key + gap + ups + path + end == lead + (key + gap + (ups + path)) + end
  {
  }

  /** What a spelled pointer is read as: its climb and its path. */
  lemma SpelledIsRead(text: string, n: nat, path: string, lead: string, key: string, gap: string, end: string)
    requires Spells(text, n, path, lead, key, gap, end)
    requires path != "" && path[0] !in WHITE && path[|path| - 1] !in WHITE
    requires !("../" <= path) && !("gitdir:" <= path)
    ensures LinkOf(text) == Ups(n) + path && InnerOf(text) == path
  {
    hide Trim, AfterGitdir, StripUps, Blank, Ups;
    var link := Ups(n) + path;
    ClimbBegins(n, path);
    var line := key + gap + link;
    LineBegins(key, gap, link);
    Regroup(lead, key, gap, Ups(n), path, end);
    TrimOf(lead, line, end);
    AfterGitdirOf(key, gap, link);
    StripUpsOfUps(n, path);
  }

  /** The repair takes exactly the pointers that lead into the root's .git/, and reads where they lead. */
  lemma GuardIsNamesGit(text: string, inner: string)
    ensures LeadsIntoGit(text) && InnerOf(text) == inner <==> NamesGit(text, inner)
  {
    hide InnerOf, Spells;
    if LeadsIntoGit(text) && InnerOf(text) == inner {
      InnerIsTrimmed(text);
      ReadIsSpelled(text);
    }
    if NamesGit(text, inner) {
      var n, lead, key, gap, end :| Spells(text, n, inner, lead, key, gap, end);
      assert inner[0] == ".git/"[0] && inner[1] == ".git/"[1];
      SpelledIsRead(text, n, inner, lead, key, gap, end);
    }
  }

  /** A pointer as git prints it is taken exactly where the path behind its climb begins with ".git/". */
  lemma PrintedIsTaken(n: nat, path: string)
    requires path != "" && path[0] !in WHITE && path[|path| - 1] !in WHITE
    requires !("../" <= path) && !("gitdir:" <= path)
    ensures var text := "gitdir: " + Ups(n) + path + "\n";
      && InnerOf(text) == path
      && (LeadsIntoGit(text) <==> ".git/" <= path)
      && (NamesGit(text, path) <==> ".git/" <= path)
  {
    var text := "gitdir: " + Ups(n) + path + "\n";
    assert "gitdir: " == "" + "gitdir:" + " ";
    assert Spells(text, n, path, "", "gitdir:", " ", "\n");
    SpelledIsRead(text, n, path, "", "gitdir:", " ", "\n");
  }

  // ---------------------------------------------------------------- a config's worktree line

  /** No "worktree = " from any of the characters on. */
  ghost predicate Keyless(line: string) {
    forall i :: 0 <= i <= |line| ==> !("worktree = " <= line[i..])
  }

  lemma {:induction false} KeylessStays(line: string, target: string)
    requires Keyless(line)
    ensures RewriteLine(line, target) == line && ValueIn(line) == None
  {
    assert line[0..] == line;
    if line != "" {
      assert forall i :: 0 <= i <= |line[1..]| ==> line[1..][i..] == line[i + 1..];
      KeylessStays(line[1..], target);
    }
  }

  lemma NoKeyInFront(front: string, rest: string)
    requires front != "" && 'w' !in front
    ensures var line := front + rest; !(KEY <= line) && line[0] == front[0] && line[1..] == front[1..] + rest
  {
    assert (front + rest)[0] == front[0] != KEY[0];
  }

  lemma {:induction false} KeyIsFound(front: string, rest: string, target: string)
    requires 'w' !in front && KEY <= rest
    ensures RewriteLine(front + rest, target) == front + (KEY + target)
    ensures ValueIn(front + rest) == Some(rest[|KEY|..])
  {
    if front == "" {
      assert front + rest == rest;
    } else {
      NoKeyInFront(front, rest);
      KeyIsFound(front[1..], rest, target);
      assert front + (KEY + target) == [front[0]] + (front[1..] + (KEY + target));
    }
  }

  /** In a line what stands behind the first "worktree = " is replaced, and nothing in front of it. */
  lemma KeyedLineIsRewritten(front: string, was: string, target: string)
    requires 'w' !in front
    ensures RewriteLine(front + "worktree = " + was, target) == front + "worktree = " + target
    ensures ValueIn(front + "worktree = " + was) == Some(was)
  {
    hide RewriteLine, ValueIn;
    var rest := "worktree = " + was;
    KeyIsFound(front, rest, target);
    assert front + "worktree = " + was == front + rest && rest[|KEY|..] == was;
    assert front + "worktree = " + target == front + (KEY + target);
  }

  lemma {:induction false} KeylessLinesStay(lines: seq<string>, more: seq<string>, target: string)
    requires forall l :: l in lines ==> Keyless(l)
    ensures RewriteLines(lines + more, target) == lines + RewriteLines(more, target)
    ensures FirstValue(lines + more) == FirstValue(more)
  {
    if lines == [] {
      assert lines + more == more;
    } else {
      assert lines[0] in lines && forall l :: l in lines[1..] ==> l in lines;
      assert (lines + more)[1..] == lines[1..] + more;
      KeylessStays(lines[0], target);
      KeylessLinesStay(lines[1..], more, target);
    }
  }

  /** A config's lines, one of which names a working tree behind a front of any other letters. */
  ghost predicate Keyed(before: seq<string>, front: string, value: string, after: seq<string>) {
    && Free(before + [front + "worktree = " + value] + after, '\n') && 'w' !in front
    && (forall l :: l in before ==> Keyless(l)) && (forall l :: l in after ==> Keyless(l))
  }

  function KeyedText(before: seq<string>, front: string, value: string, after: seq<string>): string {
    Join(before + [front + "worktree = " + value] + after, '\n')
  }

  /** Rewriting replaces the working tree's path, and that alone. */
  lemma ConfigIsRewritten(before: seq<string>, front: string, was: string, after: seq<string>, target: string)
    requires Keyed(before, front, was, after)
    ensures WorktreeOf(KeyedText(before, front, was, after)) == Some(was)
    ensures Rewrite(KeyedText(before, front, was, after), target) == KeyedText(before, front, target, after)
  {
    hide Keyless, RewriteLine, ValueIn;
    var line := front + "worktree = " + was;
    assert before + [line] + after == before + ([line] + after) && ([line] + after)[1..] == after;
    SplitOfJoin(before + [line] + after, '\n');
    KeyedLineIsRewritten(front, was, target);
    KeylessLinesStay(before, [line] + after, target);
    KeylessLinesStay(after, [], target);
    assert after + [] == after && RewriteLines([], target) == [];
    var done := front + "worktree = " + target;
    assert RewriteLines([line] + after, target) == [done] + after;
    assert before + ([done] + after) == before + [done] + after;
  }

  // ---------------------------------------------------------------- what the files say after the repair

  /** The pointer climbs from the tree to the root and the config from the git directory, and nothing else is new. */
  ghost predicate Says(before: Files, after: Files, path: string, inner: string) {
    && path in after.pointer && after.pointer[path] == "gitdir: " + Ups(|Split(path, '/')|) + inner + "\n"
    && (inner in before.config ==>
          inner in after.config && after.config[inner] == Rewrite(before.config[inner], Ups(|Split(inner, '/')|) + path))
  }

  lemma RepairSays(files: Files, path: string, inner: string)
    requires path in files.pointer && NamesGit(files.pointer[path], inner)
    ensures Says(files, Repaired(files, path), path, inner)
  {
    hide NamesGit;
    GuardIsNamesGit(files.pointer[path], inner);
  }

  /** The repair of a tree changes neither pointer nor config of one with a git directory of its own. */
  lemma RepairLeaves(root: seq<string>, files: Files, paths: seq<string>, path: string, p: string, inner: string)
    requires OwnGit(root, files, paths) && path in paths && p in paths && path != p && NamesGit(files.pointer[p], inner)
    ensures var next := Repaired(files, path);
      && next.pointer[p] == files.pointer[p]
      && (inner in files.config ==> inner in next.config && next.config[inner] == files.config[inner])
  {
    hide NamesGit, Location;
    GuardIsNamesGit(files.pointer[p], inner);
  }

  lemma OwnGitLess(root: seq<string>, files: Files, p: string, paths: seq<string>)
    requires OwnGit(root, files, [p] + paths) && paths != []
    ensures OwnGit(root, files, [p] + paths[1..])
  {
    hide GitOf, LeadsIntoGit;
    var all, less := [p] + paths, [p] + paths[1..];
    assert forall i :: 0 <= i < |less| ==> less[i] == all[if i == 0 then 0 else i + 1];
    assert forall q :: q in less ==> q in all;
  }

  lemma {:induction false} RepairAllLeaves(root: seq<string>, files: Files, p: string, paths: seq<string>, inner: string)
    requires OwnGit(root, files, [p] + paths) && NamesGit(files.pointer[p], inner)
    ensures var next := RepairedAll(files, paths);
      && p in next.pointer && next.pointer[p] == files.pointer[p]
      && (inner in files.config ==> inner in next.config && next.config[inner] == files.config[inner])
    decreases |paths|
  {
    if paths != [] {
      var all := [p] + paths;
      assert all[0] == p && all[1] == paths[0] && paths == [paths[0]] + paths[1..];
      var next := Repaired(files, paths[0]);
      RepairLeaves(root, files, all, paths[0], p, inner);
      OwnGitKept(root, files, all, paths[0]);
      OwnGitLess(root, next, p, paths);
      hide OwnGit, Repaired, NamesGit;
      RepairAllLeaves(root, next, p, paths[1..], inner);
    }
  }

  lemma PrintedNamesGit(n: nat, inner: string)
    requires ".git/" <= inner && inner[|inner| - 1] !in WHITE
    ensures NamesGit("gitdir: " + Ups(n) + inner + "\n", inner)
  {
    assert inner[0] == ".git/"[0] && inner[1] == ".git/"[1];
    PrintedIsTaken(n, inner);
  }

  /** After the repair of a list of trees, every one whose pointer led into the root's .git/ says where it now is. */
  lemma {:induction false} RepairedAllSays(root: seq<string>, files: Files, paths: seq<string>, p: string, inner: string)
    requires OwnGit(root, files, paths) && p in paths && NamesGit(files.pointer[p], inner)
    ensures Says(files, RepairedAll(files, paths), p, inner)
    decreases |paths|
  {
    var path, rest, next := paths[0], paths[1..], Repaired(files, paths[0]);
    assert paths == [path] + rest && path in paths;
    OwnGitKept(root, files, paths, path);
    if p == path {
      RepairSays(files, p, inner);
      PrintedNamesGit(|Split(p, '/')|, inner);
      hide OwnGit, Repaired, NamesGit;
      RepairAllLeaves(root, next, p, rest, inner);
    } else {
      RepairLeaves(root, files, paths, path, p, inner);
      OwnGitTail(root, next, paths);
      hide OwnGit, Repaired, NamesGit;
      RepairedAllSays(root, next, rest, p, inner);
    }
  }

  /**
   After the repair, every working tree whose pointer led into the root's .git/, to a git directory
   with a worktree line, has its two links meet: each leads to where the other is, the second
   exactly when the git directory's path is plain.
   */
  lemma RepairedLinksMeet(root: seq<string>, files: Files, paths: seq<string>, p: string, inner: string)
    requires root != [] && OwnGit(root, files, paths) && p in paths && Plain(p)
    requires NamesGit(files.pointer[p], inner)
    requires inner in files.config && WorktreeOf(files.config[inner]).Some?
    ensures LinksMeet(root, RepairedAll(files, paths), p, inner)
  {
    hide NamesGit;
    GuardIsNamesGit(files.pointer[p], inner);
    RepairAllKeeps(root, files, paths, p, inner);
    RepairAgainChangesNothing(root, files, paths);
    SettledLinksMeet(root, RepairedAll(files, paths), p);
  }

  // ---------------------------------------------------------------- one move, letter by letter

  lemma CoreParts()
    ensures |Split("module/core", '/')| == 2 && |Split(".git/modules/core", '/')| == 3
    ensures Ups(1) == "../" && Ups(2) == "../../" && Ups(3) == "../../../"
  {
    hide Split;
    SplitAtFirst("core", '/', "");
    SplitAtFirst("module", '/', "core");
    SplitAtFirst("modules", '/', "core");
    SplitAtFirst(".git", '/', "modules/core");
    assert "module" + ['/'] + "core" == "module/core" && "modules" + ['/'] + "core" == "modules/core";
    assert ".git" + ['/'] + "modules/core" == ".git/modules/core";
    assert Ups(0) == "" && Ups(1) == "../" + Ups(0) && Ups(2) == "../" + Ups(1);
  }

  lemma ShortIsKeyless(s: string)
    requires 'w' !in s
    ensures Keyless(s)
  {
    forall i | 0 <= i <= |s|
      ensures !("worktree = " <= s[i..])
    {
      assert "worktree = "[0] == 'w';
      assert i < |s| ==> s[i..][0] == s[i];
    }
  }

  lemma CoreText(value: string)
    ensures KeyedText(["[core]"], "\t", value, [""]) == "[core]\n\tworktree = " + value + "\n"
  {
    var line := "\t" + "worktree = " + value;
    assert ["[core]"] + [line] + [""] == ["[core]", line, ""];
    assert ["[core]", line, ""][1..] == [line, ""] && [line, ""][1..] == [""];
    assert Join([line, ""], '\n') == line + "\n";
  }

  lemma CoreLines()
    ensures var line := "\t" + "worktree = " + "../../../core";
      Free(["[core]"] + [line] + [""], '\n') && 'w' !in "\t" && Keyless("[core]") && Keyless("")
  {
    var line := "\t" + "worktree = " + "../../../core";
    assert line == "\tworktree = ../../../core" && '\n' !in line;
    ShortIsKeyless("[core]");
    ShortIsKeyless("");
  }

  lemma CoreConfig(target: string)
    ensures Rewrite("[core]\n\tworktree = " + "../../../core" + "\n", target) == "[core]\n\tworktree = " + target + "\n"
  {
    hide Keyless, Rewrite, KeyedText, Free;
    CoreLines();
    ConfigIsRewritten(["[core]"], "\t", "../../../core", [""], target);
    CoreText("../../../core");
    CoreText(target);
  }

  lemma CoreTexts()
    ensures "gitdir: " + "../" + ".git/modules/core" + "\n" == "gitdir: ../.git/modules/core\n"
    ensures "gitdir: " + "../../" + ".git/modules/core" + "\n" == "gitdir: ../../.git/modules/core\n"
    ensures "../../../" + "module/core" == "../../../module/core"
  {
  }

  lemma CoreConfigs()
    ensures "[core]\n\tworktree = " + "../../../core" + "\n" == "[core]\n\tworktree = ../../../core\n"
    ensures "[core]\n\tworktree = " + "../../../module/core" + "\n" == "[core]\n\tworktree = ../../../module/core\n"
  {
  }

  lemma CorePointer()
    ensures InnerOf("gitdir: ../.git/modules/core\n") == ".git/modules/core"
    ensures PointerFor("module/core", ".git/modules/core") == "gitdir: ../../.git/modules/core\n"
    ensures WorktreeFor("module/core", ".git/modules/core") == "../../../module/core"
  {
    hide InnerOf, Split, Ups, NamesGit, LeadsIntoGit;
    CoreParts();
    CoreTexts();
    var path := ".git/modules/core";
    assert path[0] == '.' && path[1] == 'g';
    PrintedIsTaken(1, path);
  }

  /** The submodule core moved to module/core: its pointer climbs one more level, its config names the new path. */
  lemma CoreIsRepaired()
    ensures Repaired(Files(map["module/core" := "gitdir: ../.git/modules/core\n"],
                           map[".git/modules/core" := "[core]\n\tworktree = ../../../core\n"]), "module/core")
      == Files(map["module/core" := "gitdir: ../../.git/modules/core\n"],
               map[".git/modules/core" := "[core]\n\tworktree = ../../../module/core\n"])
  {
    hide Rewrite, InnerOf, PointerFor, WorktreeFor;
    CorePointer();
    CoreConfigs();
    CoreConfig("../../../module/core");
  }
}
