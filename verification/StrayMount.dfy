/**
 An accepted estate one of whose children is read as a fact of its parent: the module core.mount is
 taken for where core is to be mounted.
 */
module StrayMount {
  import opened Wrappers
  import opened Sorting
  import opened Text
  import opened Estate
  import opened EstatePosition
  import opened ManifestCheck
  import opened StrayTechnology

  const MOUNT := [IMPLEMENTED]
  const CORE_WITH_MOUNT := [IMPLEMENTED, ("mount", Table(MOUNT))]
  const ESTATE := Table([("core", Table(CORE_WITH_MOUNT))])

  const TABLES := [Place(["core"], CORE_WITH_MOUNT), Place(["core", "mount"], MOUNT)]

  /** Its flat list. */
  const ENTRIES := [
    Repository("xmip-core", "Xmip core module.", "Capabilities", "common-capability", "implemented", [],
               "", TABLE_TEXT, false, "xmip-core"),
    Repository("xmip-core-mount", "Xmip mount module.", "Capabilities", "common-capability", "implemented", [],
               "", "", false, "xmip-core-mount")]

  lemma MaturityBeforeMount()
    ensures ByKey(CORE_WITH_MOUNT) == CORE_WITH_MOUNT && ByKey(MOUNT) == MOUNT && ByKey(ESTATE.entries) == ESTATE.entries
  {
    StartsAreInOrder(MOUNT);
    StartsAreInOrder(ESTATE.entries);
    assert "maturity"[1..] == "aturity" && "mount"[1..] == "ount";
    assert KeyAtMost(CORE_WITH_MOUNT[0], CORE_WITH_MOUNT[1]);
    SortedKeeps(CORE_WITH_MOUNT, KeyAtMost);
  }

  lemma PlacesOfCoreWithMount()
    ensures Places(Table(CORE_WITH_MOUNT), ["core"]) == TABLES
  {
    hide ByKey;
    var core := CORE_WITH_MOUNT;
    MaturityBeforeMount();
    ValuesHoldNoPlace(Table(MOUNT), MOUNT, ["core", "mount"]);
    assert Places(Table(MOUNT), ["core", "mount"]) == [Place(["core", "mount"], MOUNT)];
    assert core[1..] == [core[1]] && core[1..][1..] == [] && ["core"] + ["mount"] == ["core", "mount"];
    PlacesInFront(Table(core), core, ["core"]);
    PlacesInFront(Table(core), core[1..], ["core"]);
    ValuesHoldNoPlace(Table(core), [], ["core"]);
    hide PlacesEach;
  }

  lemma PlacesOfEstate()
    ensures Places(ESTATE, []) == TABLES
  {
    hide ByKey;
    MaturityBeforeMount();
    PlacesOfCoreWithMount();
    var es := ESTATE.entries;
    assert es[1..] == [] && [] + ["core"] == ["core"];
    PlacesInFront(ESTATE, es, []);
    ValuesHoldNoPlace(ESTATE, [], []);
    assert Places(ESTATE, []) == [] + PlacesEach(ESTATE, es, []);
    hide Places, PlacesEach;
  }

  lemma GetOfCoreWithMount(key: string)
    ensures Get(CORE_WITH_MOUNT, key) ==
      if key == "maturity" then Some(Words("implemented")) else if key == "mount" then Some(Table(MOUNT)) else None
  {
    var core := CORE_WITH_MOUNT;
    GetInFront(core[0], [core[1]], key);
    GetInFront(core[1], [], key);
    assert core == [core[0]] + [core[1]] && [core[1]] == [core[1]] + [];
  }

  lemma EntryOfCoreWithMount()
    ensures RepositoryAt(["core"], CORE_WITH_MOUNT) == ENTRIES[0]
  {
    assert NameOf(["core"]) == "xmip-core" && "Xmip " + "core" + " module." == "Xmip core module.";
    hide NameOf, Get;
    GetOfCoreWithMount("description");
    GetOfCoreWithMount("architecturalDomain");
    GetOfCoreWithMount("repositoryRole");
    GetOfCoreWithMount("maturity");
    GetOfCoreWithMount("dependency");
    GetOfCoreWithMount("primaryLanguage");
    GetOfCoreWithMount("mount");
    GetOfCoreWithMount("optional");
  }

  lemma EntryOfMount()
    ensures RepositoryAt(["core", "mount"], MOUNT) == ENTRIES[1]
  {
    assert NameOf(["core", "mount"]) == "xmip-core-mount" by {
      assert Join(["core", "mount"], '-') == "core" + "-" + Join(["mount"], '-');
    }
    assert "Xmip " + "mount" + " module." == "Xmip mount module.";
    hide NameOf, Get;
    GetOfA("description");
    GetOfA("architecturalDomain");
    GetOfA("repositoryRole");
    GetOfA("maturity");
    GetOfA("dependency");
    GetOfA("primaryLanguage");
    GetOfA("mount");
    GetOfA("optional");
  }

  lemma TablesAreSound()
    ensures forall p :: p in TABLES ==> Sound(p)
    ensures CollisionFault([], ESTATE.entries).None?
  {
    GetOfA("maturity");
    GetOfCoreWithMount("maturity");
    StartsWith("implemented", 'i');
    assert "core" !in METADATA && "mount" !in METADATA;
    NoCollision([], ESTATE.entries);
    NoCollision(["core"], CORE_WITH_MOUNT);
    NoCollision(["core", "mount"], MOUNT);
    hide Get, CollisionFault, IsBlank;
  }

  lemma EstateFlattens()
    ensures Flatten(ESTATE, []) == Ok(ENTRIES)
  {
    PlacesOfEstate();
    TablesAreSound();
    EntryOfCoreWithMount();
    EntryOfMount();
    FlattenIsPlaces(ESTATE, []);
    hide Sound, RepositoryAt, Flatten, Places, Repositories;
    RepositoriesAt(TABLES);
    var rs := Repositories(TABLES);
    assert rs[0] == RepositoryAt(TABLES[0].path, TABLES[0].entries);
    assert rs[1] == RepositoryAt(TABLES[1].path, TABLES[1].entries);
    assert rs == ENTRIES;
  }

  lemma EntryIsGood(r: Repository)
    requires r in ENTRIES
    ensures WellFormed(r, true)
  {
    hide ValidName, Hyphenated, IsBlank;
    EntryOfCoreWithMount();
    EntryOfMount();
    RepositoryFacts(["core"], CORE_WITH_MOUNT);
    RepositoryFacts(["core", "mount"], MOUNT);
    hide RepositoryAt, NameOf;
    WordIsHyphenated("mount");
    KeysAreHyphenated();
    NamesOfWordsAreValid(["core"]);
    NamesOfWordsAreValid(["core", "mount"]);
    StartsWith(r.description, 'X');
    StartsWith(r.crate, 'x');
    assert r.maturity == MATURITY[7];
    hide WellFormed;
    FormIsGood(r, true);
  }

  lemma EstateIsAccepted()
    ensures Accepted("owner", ENTRIES, true)
  {
    hide IsBlank, WellFormed;
    StartsWith("owner", 'o');
    assert |ENTRIES[0].name| == 9 && |ENTRIES[1].name| == 15;
    forall r | r in ENTRIES
      ensures EntryAccepted(r, NamesOf(ENTRIES), true)
    {
      EntryIsGood(r);
    }
  }

  /** The estate is accepted, and yet core is said to be mounted at the text of its own child's table. */
  lemma ChildReadAsMount()
    ensures Flatten(ESTATE, []) == Ok(ENTRIES) && Accepted("owner", ENTRIES, true)
    ensures HasChild(CORE_WITH_MOUNT, "mount") && Places(ESTATE, [])[..] == TABLES
    ensures ENTRIES[0].mount == TABLE_TEXT && RepositoryAt(["core"], Values(CORE_WITH_MOUNT)).mount == ""
  {
    hide Flatten, Places, EntryAccepted;
    EstateFlattens();
    EstateIsAccepted();
    PlacesOfEstate();
    GetOfCoreWithMount("mount");
    GetOfValues(CORE_WITH_MOUNT, "mount");
  }
}
