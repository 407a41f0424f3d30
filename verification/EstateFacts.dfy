/**
 What a flattened estate is made of: the tables the walk refuses and those it takes, the facts of a
 table that states little, and the dictionary's order of the list (Resolve-XmipNodeFacts,
 Assert-XmipNoMetadataCollision and Expand-XmipEstate, Xmip/Expand-XmipEstate.ps1).
 */
module EstateFacts {
  import opened Wrappers
  import opened Sorting
  import opened Text
  import opened Estate
  import opened EstatePosition

  // ---------------------------------------------------------------- what is refused

  /** The keys the children of a table cannot have. */
  predicate IsMetadata(key: string) {
    || key == "description" || key == "architecturalDomain" || key == "repositoryRole"
    || key == "maturity" || key == "dependency" || key == "primaryLanguage"
  }

  lemma MetadataAre(key: string)
    ensures key in METADATA <==> IsMetadata(key)
  {
  }

  ghost predicate NoChildIsMetadata(entries: seq<(string, Toml)>) {
    forall e :: e in entries && e.1.Table? ==> !IsMetadata(e.0)
  }

  lemma {:induction false} CollisionsAreMetadata(path: seq<string>, entries: seq<(string, Toml)>)
    ensures CollisionFault(path, entries).None? <==> NoChildIsMetadata(entries)
  {
    hide IsMetadata;
    if entries != [] {
      MetadataAre(entries[0].0);
      CollisionsAreMetadata(path, entries[1..]);
      assert entries == [entries[0]] + entries[1..];
    }
  }

  /** A refusal names the first child that has a fact's name, and where it is. */
  lemma {:induction false} CollisionIsNamed(path: seq<string>, entries: seq<(string, Toml)>) returns (i: nat)
    requires CollisionFault(path, entries).Some?
    ensures i < |entries| && entries[i].1.Table? && IsMetadata(entries[i].0)
    ensures NoChildIsMetadata(entries[..i])
    ensures CollisionFault(path, entries) == Some(Collision(entries[i].0, path))
  {
    hide IsMetadata;
    MetadataAre(entries[0].0);
    if entries[0].1.Table? && entries[0].0 in METADATA {
      i := 0;
    } else {
      i := CollisionIsNamed(path, entries[1..]);
      assert entries[..i + 1] == [entries[0]] + entries[1..][..i];
      i := i + 1;
    }
  }

  /** The text a table states under a key, or none. */
  function Stated(entries: seq<(string, Toml)>, key: string): string {
    var v := Get(entries, key);
    if v.None? then ""
    else
      match v.value
      case Words(t) => t
      case Flag(b) => if b then "True" else "False"
      case List(items) => Join(items, ' ')
      case Table(_) => "System.Collections.Specialized.OrderedDictionary"
  }

  ghost predicate IsMature(entries: seq<(string, Toml)>) {
    exists c :: c in Stated(entries, "maturity") && c != ' ' && c != '\t' && c != '\r' && c != '\n'
  }

  lemma MatureIsNotBlank(path: seq<string>, entries: seq<(string, Toml)>)
    requires path != []
    ensures FactsFault(path, entries).None? <==> IsMature(entries)
  {
    assert TextOf(Get(entries, "maturity"), "") == Stated(entries, "maturity");
  }

  /** The walk succeeds exactly where every table says how mature it is and none has a child named like a fact. */
  lemma FlattenedIsSound(root: Toml)
    requires root.Table?
    ensures Flatten(root, []).Ok? <==>
      NoChildIsMetadata(root.entries) &&
      forall p :: p in Places(root, []) ==> IsMature(p.entries) && NoChildIsMetadata(p.entries)
  {
    hide NoChildIsMetadata, IsMature, CollisionFault, FactsFault, Flatten, Places;
    FlattenIsPlaces(root, []);
    CollisionsAreMetadata([], root.entries);
    forall p | p in Places(root, [])
      ensures Sound(p) <==> IsMature(p.entries) && NoChildIsMetadata(p.entries)
    {
      CollisionsAreMetadata(p.path, p.entries);
      MatureIsNotBlank(p.path, p.entries);
    }
  }

  // ---------------------------------------------------------------- a table that states little

  /** A table that says nothing of itself but how mature it is, and what else no table needs to say. */
  predicate StatesLittle(entries: seq<(string, Toml)>) {
    && Get(entries, "description").None? && Get(entries, "architecturalDomain").None?
    && Get(entries, "repositoryRole").None? && Get(entries, "dependency").None?
    && Get(entries, "primaryLanguage").None? && Get(entries, "mount").None? && Get(entries, "optional").None?
  }

  /** A provider or a module that states little is a common capability without dependencies. */
  lemma LittleStatedHigh(path: seq<string>, entries: seq<(string, Toml)>)
    requires path != [] && |path| < 3 && StatesLittle(entries)
    ensures var name := "xmip-" + Join(path, '-');
      RepositoryAt(path, entries) ==
        Repository(name, "Xmip " + path[|path| - 1] + " module.", "Capabilities", "common-capability",
                   Stated(entries, "maturity"), [], "", "", false, name)
  {
    hide Get, Join;
  }

  lemma NamesAre(path: seq<string>)
    ensures NameOf(path) == "xmip-" + Join(path, '-')
  {
  }

  /** What is further down and states little implements the table it is in, and depends on it alone. */
  lemma LittleStatedDeep(path: seq<string>, entries: seq<(string, Toml)>)
    requires |path| >= 3 && StatesLittle(entries)
    ensures var name, parent := "xmip-" + Join(path, '-'), "xmip-" + Join(path[..|path| - 1], '-');
      RepositoryAt(path, entries) ==
        Repository(name, path[|path| - 1] + " implementation of " + parent + ".", "Technology",
                   "technology-implementation", Stated(entries, "maturity"), [parent], "", "", false, name)
  {
    hide Get, Join, NameOf;
    var parent := NameOf(path[..|path| - 1]);
    NamesAre(path);
    NamesAre(path[..|path| - 1]);
    assert [parent] + [] == [parent];
  }

  lemma CastIsStated(entries: seq<(string, Toml)>, key: string)
    ensures TextOf(Get(entries, key), "") == Stated(entries, key)
    ensures forall default :: Get(entries, key).Some? ==> TextOf(Get(entries, key), default) == Stated(entries, key)
  {
    hide Get, Join;
  }

  /** What a table states stands, but for the domain and the role of what is three levels down or more. */
  lemma StatedStands(path: seq<string>, entries: seq<(string, Toml)>)
    requires path != []
    ensures var r := RepositoryAt(path, entries);
      && (Get(entries, "description").Some? ==> r.description == Stated(entries, "description"))
      && (|path| < 3 && Get(entries, "architecturalDomain").Some? ==> r.domain == Stated(entries, "architecturalDomain"))
      && (|path| < 3 && Get(entries, "repositoryRole").Some? ==> r.role == Stated(entries, "repositoryRole"))
      && (|path| >= 3 ==> r.domain == "Technology" && r.role == "technology-implementation")
      && r.maturity == Stated(entries, "maturity") && r.language == Stated(entries, "primaryLanguage")
      && r.mount == Stated(entries, "mount")
      && (forall items :: Get(entries, "dependency") == Some(List(items)) ==>
            r.dependencies == (if |path| >= 3 then [NameOf(path[..|path| - 1])] else []) + items)
      && (forall on :: Get(entries, "optional") == Some(Flag(on)) ==> r.optional == on)
  {
    hide Get, TextOf, Stated, NameOf;
    CastIsStated(entries, "description");
    CastIsStated(entries, "architecturalDomain");
    CastIsStated(entries, "repositoryRole");
    CastIsStated(entries, "maturity");
    CastIsStated(entries, "primaryLanguage");
    CastIsStated(entries, "mount");
  }

  predicate MeansNo(v: Toml) {
    v == Flag(false) || v == Words("") || v == List([]) || v == List([""])
  }

  /** One text is a list of one; a flag is off where it is not stated, false, an empty text or nothing but that. */
  lemma CastsAsWritten(path: seq<string>, entries: seq<(string, Toml)>)
    requires path != [] && |path| < 3
    ensures var r := RepositoryAt(path, entries);
      && (forall t :: Get(entries, "dependency") == Some(Words(t)) ==> r.dependencies == [t])
      && (Get(entries, "dependency").None? ==> r.dependencies == [])
      && (r.optional <==> Get(entries, "optional").Some? && !MeansNo(Get(entries, "optional").value))
  {
    hide Get, NameOf;
  }

  // ---------------------------------------------------------------- the order of the list

  ghost predicate DiffersAt(a: seq<string>, b: seq<string>, k: nat) {
    k < |a| && k < |b| && a[..k] == b[..k] && a[k] != b[k] && InDictionary(a[k], b[k])
  }

  /** A path stands before those it leads to, and otherwise by the first key in which they differ. */
  ghost predicate StandsBefore(a: seq<string>, b: seq<string>) {
    a <= b || exists k: nat :: DiffersAt(a, b, k)
  }

  ghost predicate InPathOrder(places: seq<Place>) {
    forall i, j :: 0 <= i < j < |places| ==> StandsBefore(places[i].path, places[j].path)
  }

  ghost predicate KeysOrdered(es: seq<(string, Toml)>) {
    forall i, j :: 0 <= i < j < |es| ==> es[i].0 != es[j].0 && InDictionary(es[i].0, es[j].0)
  }

  lemma ByKeyIsOrdered(es: seq<(string, Toml)>)
    requires DistinctKeys(es)
    ensures KeysOrdered(ByKey(es))
  {
    hide InDictionary, AtMost, Sorted;
    ByKeyIsDistinct(es);
    assert IsOrder(KeyAtMost) by {
      forall a: (string, Toml), b: (string, Toml)
        ensures KeyAtMost(a, b) || KeyAtMost(b, a)
      {
        AtMostIsTotal(a.0, b.0);
      }
      forall a: (string, Toml), b: (string, Toml), c: (string, Toml) | KeyAtMost(a, b) && KeyAtMost(b, c)
        ensures KeyAtMost(a, c)
      {
        AtMostIsTransitive(a.0, b.0, c.0);
      }
    }
    SortedIsInOrder(es, KeyAtMost);
    var sorted := ByKey(es);
    forall i, j | 0 <= i < j < |sorted|
      ensures InDictionary(sorted[i].0, sorted[j].0)
    {
      AtMostIsDictionary(sorted[i].0, sorted[j].0);
    }
  }

  /** What leads on by an earlier key stands before what leads on by a later one. */
  lemma EarlierKeyFirst(node: Toml, e: (string, Toml), es: seq<(string, Toml)>, base: seq<string>, p: Place, q: Place)
    requires KeysOrdered([e] + es) && LeadsTo(node, [e], base, p) && LeadsTo(node, es, base, q)
    ensures StandsBefore(p.path, q.path)
  {
    hide Follow, InDictionary;
    var x :| x in es && x.0 == q.path[|base|];
    var k :| 0 <= k < |es| && es[k] == x;
    assert ([e] + es)[k + 1] == x && ([e] + es)[0] == e;
    assert DiffersAt(p.path, q.path, |base|);
  }

  lemma OrderTogether(node: Toml, e: (string, Toml), es: seq<(string, Toml)>, base: seq<string>,
                      first: seq<Place>, rest: seq<Place>)
    requires KeysOrdered([e] + es) && InPathOrder(first) && InPathOrder(rest)
    requires forall p :: p in first <==> LeadsTo(node, [e], base, p)
    requires forall p :: p in rest <==> LeadsTo(node, es, base, p)
    ensures InPathOrder(first + rest)
  {
    hide LeadsTo, KeysOrdered, StandsBefore;
    var all := first + rest;
    forall i, j | 0 <= i < j < |all|
      ensures StandsBefore(all[i].path, all[j].path)
    {
      if i < |first| <= j {
        assert first[i] in first && rest[j - |first|] in rest;
        EarlierKeyFirst(node, e, es, base, first[i], rest[j - |first|]);
      }
    }
  }

  lemma KeysOrderedTail(e: (string, Toml), es: seq<(string, Toml)>)
    requires KeysOrdered([e] + es)
    ensures KeysOrdered(es) && DistinctKeys(es)
  {
    assert forall i :: 0 <= i < |es| ==> es[i] == ([e] + es)[i + 1];
  }

  lemma {:induction false} EachInPathOrder(node: Toml, es: seq<(string, Toml)>, base: seq<string>)
    requires node.Table? && UniqueKeys(node) && KeysOrdered(es) && forall e :: e in es ==> e in node.entries
    ensures InPathOrder(PlacesEach(node, es, base))
    decreases node, 0, |es|
  {
    hide LeadsTo, Holds, ByKey, InDictionary;
    if es != [] {
      var e, more := es[0], es[1..];
      assert e in node.entries && es == [e] + more && UniqueKeys(e.1);
      var first := if e.1.Table? then Places(e.1, base + [e.0]) else [];
      var rest := PlacesEach(node, more, base);
      assert PlacesEach(node, es, base) == first + rest;
      KeysOrderedTail(e, more);
      PlacesEachLead(node, more, base);
      EachInPathOrder(node, more, base);
      hide UniqueKeys, KeysOrdered;
      if e.1.Table? {
        PlacesLead(e.1, base + [e.0]);
        InPathOrderBelow(e.1, base + [e.0]);
      }
      hide Places, PlacesEach, InPathOrder, DistinctPaths;
      ChildLeads(node, e, base, first);
      OrderTogether(node, e, more, base, first, rest);
    }
  }

  /** A table stands before what is in it, and tables side by side in the order of their keys. */
  lemma {:induction false} InPathOrderBelow(node: Toml, base: seq<string>)
    requires node.Table? && UniqueKeys(node)
    ensures InPathOrder(Places(node, base))
    decreases node, 1, 0
  {
    hide ByKey, KeysOrdered;
    var es := ByKey(node.entries);
    ByKeyIsOrdered(node.entries);
    EachInPathOrder(node, es, base);
    PlacesEachBelow(node, es, base);
    PlacesInTwo(node, base);
    var below := PlacesEach(node, es, base);
    hide Places, PlacesEach, UniqueKeys;
    if base != [] {
      var all := [Place(base, node.entries)] + below;
      forall i, j | 0 <= i < j < |all|
        ensures StandsBefore(all[i].path, all[j].path)
      {
        assert all[j] == below[j - 1] && below[j - 1] in below;
      }
    }
  }

  /** The list is in the order of the tables' paths: each repository has its table's name, in that order. */
  lemma FlattenedInPathOrder(root: Toml)
    requires root.Table? && UniqueKeys(root) && Flatten(root, []).Ok?
    ensures var rs, places := Flatten(root, []).value, Places(root, []);
      && |rs| == |places| && InPathOrder(places)
      && forall i :: 0 <= i < |rs| ==> rs[i].name == "xmip-" + Join(places[i].path, '-')
  {
    hide Flatten, Places, InPathOrder, Sound;
    InPathOrderBelow(root, []);
    FlattenedAt(root);
  }
}
