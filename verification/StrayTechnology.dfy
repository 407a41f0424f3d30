/**
 An accepted estate whose flat list does not say where one repository is: the module core.log declares
 itself a built technology and depends first on another provider.
 */
module StrayTechnology {
  import opened Wrappers
  import opened Sorting
  import opened Text
  import opened Estate
  import opened EstatePosition
  import opened ManifestCheck

  const IMPLEMENTED: (string, Toml) := ("maturity", Words("implemented"))

  const A := [IMPLEMENTED]
  const LOG := [
    ("architecturalDomain", Words("Technology")), ("dependency", List(["xmip-a"])), IMPLEMENTED,
    ("repositoryRole", Words("technology-implementation"))]
  const CORE := [("log", Table(LOG)), IMPLEMENTED]
  const ROOT := Table([("a", Table(A)), ("core", Table(CORE))])

  const PLACES := [Place(["a"], A), Place(["core"], CORE), Place(["core", "log"], LOG)]

  lemma {:induction false} ValuesHoldNoPlace(node: Toml, es: seq<(string, Toml)>, path: seq<string>)
    requires node.Table? && (forall e :: e in es ==> e in node.entries && !e.1.Table?)
    ensures PlacesEach(node, es, path) == []
  {
    if es != [] {
      assert es[0] in es;
      ValuesHoldNoPlace(node, es[1..], path);
    }
  }

  lemma StartsAreInOrder(es: seq<(string, Toml)>)
    requires forall e :: e in es ==> e.0 != ""
    requires forall i, j :: 0 <= i < j < |es| ==> es[i].0[0] < es[j].0[0]
    ensures ByKey(es) == es
  {
    forall i, j | 0 <= i < j < |es|
      ensures KeyAtMost(es[i], es[j])
    {
      assert es[i] in es && es[j] in es;
    }
    SortedKeeps(es, KeyAtMost);
  }

  lemma KeysAreInOrder()
    ensures ByKey(A) == A && ByKey(LOG) == LOG && ByKey(CORE) == CORE && ByKey(ROOT.entries) == ROOT.entries
  {
    hide ByKey;
    StartsAreInOrder(A);
    StartsAreInOrder(LOG);
    StartsAreInOrder(CORE);
    StartsAreInOrder(ROOT.entries);
  }

  lemma PlacesInFront(node: Toml, es: seq<(string, Toml)>, path: seq<string>)
    requires node.Table? && es != [] && forall e :: e in es ==> e in node.entries
    ensures PlacesEach(node, es, path) ==
      (if es[0].1.Table? then Places(es[0].1, path + [es[0].0]) else []) + PlacesEach(node, es[1..], path)
  {
  }

  lemma PlacesOfLog()
    ensures Places(Table(LOG), ["core", "log"]) == [Place(["core", "log"], LOG)]
  {
    hide ByKey, PlacesEach;
    KeysAreInOrder();
    ValuesHoldNoPlace(Table(LOG), LOG, ["core", "log"]);
  }

  lemma PlacesOfCore()
    ensures Places(Table(CORE), ["core"]) == [Place(["core"], CORE), Place(["core", "log"], LOG)]
  {
    hide ByKey, PlacesEach;
    KeysAreInOrder();
    PlacesOfLog();
    ValuesHoldNoPlace(Table(CORE), CORE[1..], ["core"]);
    PlacesInFront(Table(CORE), CORE, ["core"]);
    assert ["core"] + ["log"] == ["core", "log"];
  }

  lemma PlacesAtTop()
    ensures Places(ROOT, []) == PlacesEach(ROOT, ByKey(ROOT.entries), [])
  {
    assert [] + PlacesEach(ROOT, ByKey(ROOT.entries), []) == PlacesEach(ROOT, ByKey(ROOT.entries), []);
  }

  lemma PlacesOfRoot()
    ensures Places(ROOT, []) == PLACES
  {
    hide ByKey;
    KeysAreInOrder();
    PlacesOfCore();
    ValuesHoldNoPlace(Table(A), A, ["a"]);
    var a, core := ("a", Table(A)), ("core", Table(CORE));
    assert ROOT.entries == [a, core] && [a, core][1..] == [core] && [core][1..] == [];
    assert [] + ["a"] == ["a"] && [] + ["core"] == ["core"];
    assert Places(Table(A), ["a"]) == [Place(["a"], A)];
    hide Places;
    PlacesInFront(ROOT, [a, core], []);
    PlacesInFront(ROOT, [core], []);
    ValuesHoldNoPlace(ROOT, [], []);
    PlacesAtTop();
  }

  /** Its flat list. */
  const LIST := [
    Repository("xmip-a", "Xmip a module.", "Capabilities", "common-capability", "implemented", [],
               "", "", false, "xmip-a"),
    Repository("xmip-core", "Xmip core module.", "Capabilities", "common-capability", "implemented", [],
               "", "", false, "xmip-core"),
    Repository("xmip-core-log", "Xmip log module.", "Technology", "technology-implementation", "implemented", ["xmip-a"],
               "", "", false, "xmip-core-log")]

  lemma GetInFront(e: (string, Toml), es: seq<(string, Toml)>, key: string)
    ensures Get([e] + es, key) == if e.0 == key then Some(e.1) else Get(es, key)
  {
    assert ([e] + es)[1..] == es;
  }

  lemma GetOfNothing(key: string)
    ensures Get([], key) == None
  {
  }

  lemma GetOfLog(key: string)
    ensures Get(LOG, key) ==
      if key == "architecturalDomain" then Some(Words("Technology"))
      else if key == "dependency" then Some(List(["xmip-a"]))
      else if key == "maturity" then Some(Words("implemented"))
      else if key == "repositoryRole" then Some(Words("technology-implementation"))
      else None
  {
    hide Get;
    assert LOG == [LOG[0]] + [LOG[1], LOG[2], LOG[3]];
    assert [LOG[1], LOG[2], LOG[3]] == [LOG[1]] + [LOG[2], LOG[3]] && [LOG[2], LOG[3]] == [LOG[2]] + [LOG[3]];
    assert [LOG[3]] == [LOG[3]] + [];
    GetInFront(LOG[0], [LOG[1], LOG[2], LOG[3]], key);
    GetInFront(LOG[1], [LOG[2], LOG[3]], key);
    GetInFront(LOG[2], [LOG[3]], key);
    GetInFront(LOG[3], [], key);
    GetOfNothing(key);
  }

  lemma GetOfCore(key: string)
    ensures Get(CORE, key) ==
      if key == "log" then Some(Table(LOG)) else if key == "maturity" then Some(Words("implemented")) else None
  {
    GetInFront(CORE[0], [CORE[1]], key);
    GetInFront(CORE[1], [], key);
    assert CORE == [CORE[0]] + [CORE[1]] && [CORE[1]] == [CORE[1]] + [];
  }

  lemma GetOfA(key: string)
    ensures Get(A, key) == if key == "maturity" then Some(Words("implemented")) else None
  {
    GetInFront(A[0], [], key);
    assert A == [A[0]] + [];
  }

  lemma EntryOfA()
    ensures RepositoryAt(["a"], A) == LIST[0]
  {
    assert NameOf(["a"]) == "xmip-a" && "Xmip " + "a" + " module." == "Xmip a module.";
    hide NameOf, Get;
    GetOfA("description");
    GetOfA("architecturalDomain");
    GetOfA("repositoryRole");
    GetOfA("maturity");
    GetOfA("dependency");
    GetOfA("primaryLanguage");
    GetOfA("mount");
    GetOfA("optional");
  }

  lemma EntryOfCore()
    ensures RepositoryAt(["core"], CORE) == LIST[1]
  {
    assert NameOf(["core"]) == "xmip-core" && "Xmip " + "core" + " module." == "Xmip core module.";
    hide NameOf, Get;
    GetOfCore("description");
    GetOfCore("architecturalDomain");
    GetOfCore("repositoryRole");
    GetOfCore("maturity");
    GetOfCore("dependency");
    GetOfCore("primaryLanguage");
    GetOfCore("mount");
    GetOfCore("optional");
  }

  lemma EntryOfLog()
    ensures RepositoryAt(["core", "log"], LOG) == LIST[2]
  {
    assert NameOf(["core", "log"]) == "xmip-core-log" by {
      assert Join(["core", "log"], '-') == "core" + "-" + Join(["log"], '-');
    }
    assert "Xmip " + "log" + " module." == "Xmip log module.";
    hide NameOf, Get;
    GetOfLog("description");
    GetOfLog("architecturalDomain");
    GetOfLog("repositoryRole");
    GetOfLog("maturity");
    GetOfLog("dependency");
    GetOfLog("primaryLanguage");
    GetOfLog("mount");
    GetOfLog("optional");
  }

  lemma {:induction false} NoCollision(path: seq<string>, es: seq<(string, Toml)>)
    requires forall e :: e in es ==> e.0 in METADATA ==> !e.1.Table?
    ensures CollisionFault(path, es).None?
  {
    if es != [] {
      assert es[0] in es;
      NoCollision(path, es[1..]);
    }
  }

  lemma StartsWith(s: string, c: char)
    requires s != "" && s[0] == c && c !in WHITE
    ensures !IsBlank(s)
  {
    assert s[0] in s;
  }

  lemma PlacesAreSound()
    ensures forall p :: p in PLACES ==> Sound(p)
    ensures CollisionFault([], ROOT.entries).None?
  {
    GetOfA("maturity");
    GetOfCore("maturity");
    GetOfLog("maturity");
    StartsWith("implemented", 'i');
    assert "a" !in METADATA && "core" !in METADATA && "log" !in METADATA;
    NoCollision([], ROOT.entries);
    NoCollision(["a"], A);
    NoCollision(["core"], CORE);
    NoCollision(["core", "log"], LOG);
    hide Get, CollisionFault, IsBlank;
  }

  lemma RootFlattens()
    ensures Flatten(ROOT, []) == Ok(LIST)
  {
    PlacesOfRoot();
    PlacesAreSound();
    EntryOfA();
    EntryOfCore();
    EntryOfLog();
    FlattenIsPlaces(ROOT, []);
    hide Sound, RepositoryAt, Flatten, Places, Repositories;
    RepositoriesAt(PLACES);
    var rs := Repositories(PLACES);
    assert rs[0] == RepositoryAt(PLACES[0].path, PLACES[0].entries);
    assert rs[1] == RepositoryAt(PLACES[1].path, PLACES[1].entries);
    assert rs[2] == RepositoryAt(PLACES[2].path, PLACES[2].entries);
    assert rs == LIST;
  }

  lemma WordIsHyphenated(s: string)
    requires s != "" && forall i :: 0 <= i < |s| ==> 'a' <= s[i] <= 'z'
    ensures Hyphenated(s)
  {
    SplitAtFirst(s, '-', "");
  }

  lemma KeysAreHyphenated()
    ensures Hyphenated("xmip") && Hyphenated("a") && Hyphenated("core") && Hyphenated("log")
  {
    hide Hyphenated;
    WordIsHyphenated("xmip");
    WordIsHyphenated("a");
    WordIsHyphenated("core");
    WordIsHyphenated("log");
  }

  lemma NamesOfWordsAreValid(path: seq<string>)
    requires path != [] && forall k :: k in path ==> Hyphenated(k)
    ensures ValidName(NameOf(path)) && Hyphenated(NameOf(path))
  {
    hide Hyphenated;
    KeysAreHyphenated();
    NameIsValidByKeys(path);
    HyphenatedByKeys(["xmip"] + path);
    assert NameOf(path) == Join(["xmip"] + path, '-') by {
      assert (["xmip"] + path)[1..] == path;
    }
  }

  lemma NamesOfList()
    ensures forall r :: r in LIST ==> ValidName(r.name) && Hyphenated(r.crate) && r.crate == r.name
  {
    hide ValidName, Hyphenated;
    EntryOfA();
    EntryOfCore();
    EntryOfLog();
    RepositoryFacts(["a"], A);
    RepositoryFacts(["core"], CORE);
    RepositoryFacts(["core", "log"], LOG);
    hide RepositoryAt, NameOf;
    KeysAreHyphenated();
    NamesOfWordsAreValid(["a"]);
    NamesOfWordsAreValid(["core"]);
    NamesOfWordsAreValid(["core", "log"]);
  }

  lemma EntryIsGood(r: Repository)
    requires r in LIST
    ensures WellFormed(r, true)
  {
    hide ValidName, Hyphenated, IsBlank;
    NamesOfList();
    StartsWith(r.description, 'X');
    StartsWith(r.crate, 'x');
    assert r.maturity == MATURITY[7];
    hide WellFormed;
    FormIsGood(r, true);
  }

  lemma RootIsAccepted()
    ensures Accepted("owner", LIST, true)
  {
    hide IsBlank, WellFormed;
    StartsWith("owner", 'o');
    assert LIST[0] in LIST && |LIST[0].name| == 6 && |LIST[1].name| == 9 && |LIST[2].name| == 13;
    forall r | r in LIST
      ensures EntryAccepted(r, NamesOf(LIST), true)
    {
      EntryIsGood(r);
      assert LIST[0].name in NamesOf(LIST);
    }
  }

  /**
   The estate is accepted, and yet its readers lose core.log: the one takes it for a technology of
   xmip-a with the leaf re-log, and so does the list of built technologies.
   */
  lemma ModuleReadAsTechnology()
    ensures Flatten(ROOT, []) == Ok(LIST) && Accepted("owner", LIST, true)
    ensures |Places(ROOT, [])| == |LIST| && Places(ROOT, [])[2].path == ["core", "log"]
    ensures ReadPosition(LIST[2]) == Some(Position("xmip-a", "re-log"))
    ensures PositionAt(["core", "log"]) == Position("", "xmip-core-log")
    ensures TestBuilt(LIST[2], ByName(LIST)) == Some(true)
    ensures Past(LIST[2].name, LIST[2].dependencies[0]) == Some("re-log")
  {
    hide Flatten, Places, EntryAccepted, ByName;
    RootFlattens();
    RootIsAccepted();
    PlacesOfRoot();
    ByNameFinds(LIST, 0);
    assert "xmip-core-log"[|"xmip-a"| + 1..] == "re-log";
    assert NameOf(["core", "log"]) == "xmip-core-log" by {
      EntryOfLog();
      RepositoryFacts(["core", "log"], LOG);
    }
  }
}
