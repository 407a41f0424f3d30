/**
 What the flattened list keeps of the tree, and how its readers get a repository's position back
 (Get-XmipEstateRepository, Get-XmipBuiltTechnology, Test-XmipManifest): keys may hold hyphens, so
 a name does not say where its parent's name ends; the first dependency does.
 */
module EstatePosition {
  import opened Wrappers
  import opened Sorting
  import opened Text
  import opened Estate

  /** A table of the tree: where it is and what it holds. */
  datatype Place = Place(path: seq<string>, entries: seq<(string, Toml)>)

  function PlacesEach(node: Toml, es: seq<(string, Toml)>, path: seq<string>): seq<Place>
    requires node.Table? && forall e :: e in es ==> e in node.entries
    decreases node, 0, |es|
  {
    if es == [] then []
    else
      assert es[0] in node.entries;
      (if es[0].1.Table? then Places(es[0].1, path + [es[0].0]) else []) + PlacesEach(node, es[1..], path)
  }

  /** The tables in pre-order, keys in order, the top left out. */
  function Places(node: Toml, path: seq<string>): seq<Place>
    requires node.Table?
    decreases node, 1, 0
  {
    (if path == [] then [] else [Place(path, node.entries)]) + PlacesEach(node, ByKey(node.entries), path)
  }

  function Repositories(places: seq<Place>): seq<Repository>
    requires forall p :: p in places ==> p.path != []
  {
    if places == [] then []
    else
      assert places[0] in places;
      [RepositoryAt(places[0].path, places[0].entries)] + Repositories(places[1..])
  }

  predicate Sound(p: Place) {
    FactsFault(p.path, p.entries).None? && CollisionFault(p.path, p.entries).None?
  }

  lemma {:induction false} RepositoriesAppend(a: seq<Place>, b: seq<Place>)
    requires forall p :: p in a + b ==> p.path != []
    ensures (forall p :: p in a ==> p.path != []) && (forall p :: p in b ==> p.path != [])
    ensures Repositories(a + b) == Repositories(a) + Repositories(b)
  {
    hide RepositoryAt;
    assert forall p :: p in a ==> p in a + b;
    assert forall p :: p in b ==> p in a + b;
    if a == [] {
      assert a + b == b;
    } else {
      assert (a + b)[1..] == a[1..] + b && a[0] in a + b;
      RepositoriesAppend(a[1..], b);
    }
  }

  lemma {:induction false} PlacesEachBelow(node: Toml, es: seq<(string, Toml)>, path: seq<string>)
    requires node.Table? && forall e :: e in es ==> e in node.entries
    ensures forall p :: p in PlacesEach(node, es, path) ==> path < p.path
    decreases node, 0, |es|
  {
    hide ByKey;
    if es != [] {
      assert es[0] in node.entries;
      if es[0].1.Table? {
        PlacesBelow(es[0].1, path + [es[0].0]);
      }
      PlacesEachBelow(node, es[1..], path);
    }
  }

  lemma {:induction false} PlacesBelow(node: Toml, path: seq<string>)
    requires node.Table?
    ensures forall p :: p in Places(node, path) ==> path <= p.path && p.path != []
    decreases node, 1, 0
  {
    hide ByKey;
    PlacesEachBelow(node, ByKey(node.entries), path);
  }

  /** The walk succeeds exactly when every table is sound, and then gives the repositories of all tables in pre-order. */
  lemma {:induction false} FlattenEachIsPlaces(node: Toml, es: seq<(string, Toml)>, path: seq<string>)
    requires node.Table? && forall e :: e in es ==> e in node.entries
    ensures FlattenEach(node, es, path).Ok? <==> forall p :: p in PlacesEach(node, es, path) ==> Sound(p)
    ensures (forall p :: p in PlacesEach(node, es, path) ==> p.path != []) &&
      (FlattenEach(node, es, path).Ok? ==> FlattenEach(node, es, path).value == Repositories(PlacesEach(node, es, path)))
    decreases node, 0, |es|
  {
    hide RepositoryAt, FactsFault, CollisionFault, ByKey;
    PlacesEachBelow(node, es, path);
    if es != [] {
      assert es[0] in node.entries;
      var first := if es[0].1.Table? then Places(es[0].1, path + [es[0].0]) else [];
      var rest := PlacesEach(node, es[1..], path);
      if es[0].1.Table? {
        FlattenIsPlaces(es[0].1, path + [es[0].0]);
      }
      FlattenEachIsPlaces(node, es[1..], path);
      assert forall p :: p in first + rest <==> p in first || p in rest;
      RepositoriesAppend(first, rest);
    }
  }

  lemma {:induction false} FlattenIsPlaces(node: Toml, path: seq<string>)
    requires node.Table?
    ensures Flatten(node, path).Ok? <==>
      CollisionFault(path, node.entries).None? && forall p :: p in Places(node, path) ==> Sound(p)
    ensures path != [] && (forall p :: p in Places(node, path) ==> Sound(p)) ==> CollisionFault(path, node.entries).None?
    ensures (forall p :: p in Places(node, path) ==> p.path != []) &&
      (Flatten(node, path).Ok? ==> Flatten(node, path).value == Repositories(Places(node, path)))
    decreases node, 1, 0
  {
    hide RepositoryAt, CollisionFault, ByKey;
    PlacesBelow(node, path);
    var below := PlacesEach(node, ByKey(node.entries), path);
    FlattenEachIsPlaces(node, ByKey(node.entries), path);
    if path == [] {
      assert Places(node, path) == [] + below == below;
      assert FlattenEach(node, ByKey(node.entries), path).Ok? ==> [] + Repositories(below) == Repositories(below);
    } else {
      var here := Place(path, node.entries);
      assert Places(node, path) == [here] + below;
      assert forall p :: p in [here] + below <==> p == here || p in below;
      assert here in Places(node, path);
      RepositoriesAppend([here], below);
      assert Repositories([here]) == [RepositoryAt(path, node.entries)];
    }
  }

  // ---------------------------------------------------------------- one place for every table

  ghost predicate DistinctKeys(es: seq<(string, Toml)>) {
    forall i, j :: 0 <= i < j < |es| ==> es[i].0 != es[j].0
  }

  /** No table holds a key twice, which TOML does not allow. */
  ghost predicate UniqueKeys(node: Toml) {
    node.Table? ==> DistinctKeys(node.entries) && forall e :: e in node.entries ==> UniqueKeys(e.1)
  }

  /** The table a path of keys leads to, if it leads to one. */
  function Follow(node: Toml, path: seq<string>): Option<Toml>
    decreases |path|
  {
    if !node.Table? then None
    else if path == [] then Some(node)
    else
      var child := Get(node.entries, path[0]);
      if child.None? then None else Follow(child.value, path[1..])
  }

  lemma {:induction false} GetFinds(es: seq<(string, Toml)>, e: (string, Toml))
    requires DistinctKeys(es)
    ensures e in es <==> Get(es, e.0) == Some(e.1)
  {
    if es != [] {
      assert es == [es[0]] + es[1..];
      GetFinds(es[1..], e);
      assert forall j :: 0 <= j < |es[1..]| ==> es[1..][j] == es[j + 1];
    }
  }

  lemma {:induction false} InsertKeepsDistinct(e: (string, Toml), es: seq<(string, Toml)>)
    requires DistinctKeys(es) && forall x :: x in es ==> x.0 != e.0
    ensures DistinctKeys(Insert(e, es, KeyAtMost))
  {
    if es != [] && !KeyAtMost(e, es[0]) {
      InsertKeepsDistinct(e, es[1..]);
      var r := Insert(e, es[1..], KeyAtMost);
      forall j | 0 <= j < |r|
        ensures r[j].0 != es[0].0
      {
        assert r[j] in r && es[0] in es;
        if r[j] != e {
          var k :| 0 <= k < |es[1..]| && es[1..][k] == r[j];
          assert es[k + 1] == r[j];
        }
      }
    }
  }

  lemma {:induction false} ByKeyIsDistinct(es: seq<(string, Toml)>)
    requires DistinctKeys(es)
    ensures DistinctKeys(ByKey(es))
  {
    if es != [] {
      ByKeyIsDistinct(es[1..]);
      forall x | x in ByKey(es[1..])
        ensures x.0 != es[0].0
      {
        var k :| 0 <= k < |es[1..]| && es[1..][k] == x;
        assert es[k + 1] == x;
      }
      InsertKeepsDistinct(es[0], ByKey(es[1..]));
    }
  }

  ghost predicate DistinctPaths(places: seq<Place>) {
    forall i, j :: 0 <= i < j < |places| ==> places[i].path != places[j].path
  }

  /** The place is where its path, from the base on, leads in the node. */
  ghost predicate Holds(node: Toml, base: seq<string>, p: Place) {
    base <= p.path && p.path != [] && Follow(node, p.path[|base|..]) == Some(Table(p.entries))
  }

  /** A path further down is where a key of the node and the rest of the path lead. */
  ghost predicate LeadsTo(node: Toml, es: seq<(string, Toml)>, base: seq<string>, p: Place) {
    && base < p.path
    && exists e :: e in es && e.0 == p.path[|base|] && Follow(e.1, p.path[|base| + 1..]) == Some(Table(p.entries))
  }

  lemma NothingLeads(node: Toml, base: seq<string>)
    ensures forall p :: !LeadsTo(node, [], base, p)
  {
  }

  lemma SplitLead(node: Toml, e: (string, Toml), es: seq<(string, Toml)>, base: seq<string>)
    ensures forall p :: LeadsTo(node, [e] + es, base, p) <==> LeadsTo(node, [e], base, p) || LeadsTo(node, es, base, p)
  {
    assert forall x :: x in [e] + es <==> x in [e] || x in es;
  }

  /** Where one child leads is to the places of its own table. */
  lemma ChildLeads(node: Toml, e: (string, Toml), base: seq<string>, first: seq<Place>)
    requires if !e.1.Table? then first == []
      else forall p :: p in first <==> Holds(e.1, base + [e.0], p)
    ensures forall p :: p in first <==> LeadsTo(node, [e], base, p)
  {
    forall p: Place
      ensures p in first <==> LeadsTo(node, [e], base, p)
    {
      if base < p.path && p.path[|base|] == e.0 {
        assert base + [e.0] <= p.path;
      }
      if p in first {
        assert e in [e];
      }
    }
  }

  lemma ChildLeadsApart(node: Toml, e: (string, Toml), es: seq<(string, Toml)>, base: seq<string>, p: Place, q: Place)
    requires DistinctKeys([e] + es) && LeadsTo(node, [e], base, p) && LeadsTo(node, es, base, q)
    ensures p.path != q.path
  {
    var x :| x in es && x.0 == q.path[|base|];
    var k :| 0 <= k < |es| && es[k] == x;
    assert ([e] + es)[k + 1].0 != ([e] + es)[0].0;
  }

  lemma LeadTogether(node: Toml, e: (string, Toml), es: seq<(string, Toml)>, base: seq<string>,
                     first: seq<Place>, rest: seq<Place>)
    requires DistinctKeys([e] + es) && DistinctPaths(first) && DistinctPaths(rest)
    requires forall p :: p in first <==> LeadsTo(node, [e], base, p)
    requires forall p :: p in rest <==> LeadsTo(node, es, base, p)
    ensures DistinctPaths(first + rest)
    ensures forall p :: p in first + rest <==> LeadsTo(node, [e] + es, base, p)
  {
    hide LeadsTo, DistinctKeys;
    SplitLead(node, e, es, base);
    forall i, j | 0 <= i < j < |first + rest|
      ensures (first + rest)[i].path != (first + rest)[j].path
    {
      if i < |first| <= j {
        assert first[i] in first && rest[j - |first|] in rest;
        ChildLeadsApart(node, e, es, base, first[i], rest[j - |first|]);
      }
    }
  }

  lemma {:induction false} PlacesEachLead(node: Toml, es: seq<(string, Toml)>, base: seq<string>)
    requires node.Table? && UniqueKeys(node) && DistinctKeys(es) && forall e :: e in es ==> e in node.entries
    ensures DistinctPaths(PlacesEach(node, es, base))
    ensures forall p :: p in PlacesEach(node, es, base) <==> LeadsTo(node, es, base, p)
    decreases node, 0, |es|
  {
    hide LeadsTo, Holds, ByKey;
    if es == [] {
      NothingLeads(node, base);
    } else {
      var e := es[0];
      assert e in node.entries && es == [e] + es[1..] && UniqueKeys(e.1);
      var first := if e.1.Table? then Places(e.1, base + [e.0]) else [];
      var rest := PlacesEach(node, es[1..], base);
      assert PlacesEach(node, es, base) == first + rest;
      hide UniqueKeys;
      PlacesEachLead(node, es[1..], base);
      if e.1.Table? {
        PlacesLead(e.1, base + [e.0]);
      }
      hide Places, PlacesEach, DistinctPaths;
      ChildLeads(node, e, base, first);
      LeadTogether(node, e, es[1..], base, first, rest);
    }
  }

  /** Following a path below the base is following its first key and then the rest. */
  lemma KeyLeads(node: Toml, es: seq<(string, Toml)>, base: seq<string>, p: Place)
    requires node.Table? && DistinctKeys(node.entries) && base < p.path
    requires forall e :: e in es <==> e in node.entries
    ensures LeadsTo(node, es, base, p) <==> Follow(node, p.path[|base|..]) == Some(Table(p.entries))
  {
    var rest := p.path[|base|..];
    assert rest[0] == p.path[|base|] && rest[1..] == p.path[|base| + 1..];
    var child := Get(node.entries, rest[0]);
    if child.Some? {
      GetFinds(node.entries, (rest[0], child.value));
    }
    if LeadsTo(node, es, base, p) {
      var e :| e in es && e.0 == p.path[|base|] && Follow(e.1, p.path[|base| + 1..]) == Some(Table(p.entries));
      GetFinds(node.entries, e);
    }
  }

  /** The places of a tree are exactly its tables, each once. */
  lemma {:induction false} PlacesLead(node: Toml, base: seq<string>)
    requires node.Table? && UniqueKeys(node)
    ensures DistinctPaths(Places(node, base))
    ensures forall p :: p in Places(node, base) <==> Holds(node, base, p)
    decreases node, 1, 0
  {
    hide ByKey;
    var es := ByKey(node.entries);
    ByKeyIsDistinct(node.entries);
    PlacesEachLead(node, es, base);
    PlacesEachBelow(node, es, base);
    var here, below := if base == [] then [] else [Place(base, node.entries)], PlacesEach(node, es, base);
    assert Places(node, base) == here + below;
    hide Places, PlacesEach, LeadsTo;
    forall p: Place
      ensures p in here + below <==> Holds(node, base, p)
    {
      if base < p.path {
        KeyLeads(node, es, base, p);
      } else if p.path == base {
        assert p.path[|base|..] == [];
      }
    }
  }

  // ---------------------------------------------------------------- a parent comes before its children

  function ParentPath(path: seq<string>): seq<string>
    requires path != []
  {
    path[..|path| - 1]
  }

  ghost predicate ParentBefore(places: seq<Place>, i: nat)
    requires i < |places| && places[i].path != []
  {
    exists j :: 0 <= j < i && places[j].path == ParentPath(places[i].path)
  }

  /** What stands before a list of places takes no parent away. */
  lemma ParentBeforeBehind(head: seq<Place>, places: seq<Place>, i: nat)
    requires i < |places| && places[i].path != [] && ParentBefore(places, i)
    ensures ParentBefore(head + places, |head| + i)
  {
    var j :| 0 <= j < i && places[j].path == ParentPath(places[i].path);
    assert (head + places)[|head| + j] == places[j];
  }

  lemma ParentBeforeAhead(places: seq<Place>, tail: seq<Place>, i: nat)
    requires i < |places| && places[i].path != [] && ParentBefore(places, i)
    ensures ParentBefore(places + tail, i)
  {
    var j :| 0 <= j < i && places[j].path == ParentPath(places[i].path);
    assert (places + tail)[j] == places[j];
  }

  lemma ParentBeforeFirst(places: seq<Place>, i: nat)
    requires 0 < i < |places| && places[i].path != [] && places[0].path == ParentPath(places[i].path)
    ensures ParentBefore(places, i)
  {
  }

  lemma {:induction false} ParentBeforeEach(node: Toml, es: seq<(string, Toml)>, base: seq<string>, i: nat)
    requires node.Table? && (forall e :: e in es ==> e in node.entries) && i < |PlacesEach(node, es, base)|
    ensures var places := PlacesEach(node, es, base);
      |places[i].path| > |base| && (|places[i].path| > |base| + 1 ==> ParentBefore(places, i))
    decreases node, 0, |es|
  {
    hide ByKey;
    var places := PlacesEach(node, es, base);
    PlacesEachBelow(node, es, base);
    assert places[i] in places;
    assert es[0] in node.entries;
    var first := if es[0].1.Table? then Places(es[0].1, base + [es[0].0]) else [];
    var rest := PlacesEach(node, es[1..], base);
    assert places == first + rest;
    hide Places, PlacesEach, ParentBefore;
    if |places[i].path| > |base| + 1 {
      if i < |first| {
        ParentBeforeChild(es[0].1, base + [es[0].0], i);
        ParentBeforeAhead(first, rest, i);
      } else {
        ParentBeforeEach(node, es[1..], base, i - |first|);
        ParentBeforeBehind(first, rest, i - |first|);
      }
    }
  }

  lemma PlacesInTwo(node: Toml, base: seq<string>)
    requires node.Table?
    ensures Places(node, base) ==
      (if base == [] then [] else [Place(base, node.entries)]) + PlacesEach(node, ByKey(node.entries), base)
  {
  }

  /** Every table below the base has its parent's table earlier in the list. */
  lemma {:induction false} ParentBeforeChild(node: Toml, base: seq<string>, i: nat)
    requires node.Table? && i < |Places(node, base)|
    ensures var places := Places(node, base);
      places[i].path != [] && (|places[i].path| > |base| && |places[i].path| > 1 ==> ParentBefore(places, i))
    decreases node, 1, 0
  {
    hide ByKey, Places, PlacesEach, ParentBefore;
    var places := Places(node, base);
    PlacesBelow(node, base);
    assert places[i] in places;
    var head := if base == [] then [] else [Place(base, node.entries)];
    PlacesInTwo(node, base);
    if |places[i].path| > |base| && |places[i].path| > 1 {
      ParentBeforeEach(node, ByKey(node.entries), base, i - |head|);
      if |places[i].path| > |base| + 1 {
        ParentBeforeBehind(head, PlacesEach(node, ByKey(node.entries), base), i - |head|);
      } else {
        assert base <= places[i].path && ParentPath(places[i].path) == base;
        ParentBeforeFirst(places, i);
      }
    }
  }

  lemma {:induction false} RepositoriesAt(places: seq<Place>)
    requires forall p :: p in places ==> p.path != []
    ensures |Repositories(places)| == |places|
    ensures forall i :: 0 <= i < |places| ==>
      places[i].path != [] && Repositories(places)[i] == RepositoryAt(places[i].path, places[i].entries)
  {
    hide RepositoryAt;
    if places != [] {
      assert places[0] in places && forall p :: p in places[1..] ==> p in places;
      RepositoriesAt(places[1..]);
    }
  }

  /** The flattened list, repository by repository: the sound tables of the tree in pre-order. */
  lemma FlattenedAt(root: Toml)
    requires root.Table? && Flatten(root, []).Ok?
    ensures var rs, places := Flatten(root, []).value, Places(root, []);
      && |rs| == |places|
      && forall i :: 0 <= i < |rs| ==>
        places[i].path != [] && Sound(places[i]) && rs[i] == RepositoryAt(places[i].path, places[i].entries)
  {
    hide RepositoryAt, FactsFault, CollisionFault;
    var places := Places(root, []);
    FlattenIsPlaces(root, []);
    RepositoriesAt(places);
    forall i | 0 <= i < |places|
      ensures Sound(places[i])
    {
      assert places[i] in places;
    }
  }

  /** rs[i] is at depth three or below, and its first dependency is rs[j], its tree parent. */
  ghost predicate HostedBy(rs: seq<Repository>, places: seq<Place>, i: nat, j: nat)
    requires |rs| == |places| && i < |rs| && j < |rs|
  {
    && places[i].path != [] && places[j].path == ParentPath(places[i].path)
    && rs[i].dependencies != [] && rs[i].dependencies[0] == rs[j].name
    && rs[i].name == rs[j].name + "-" + places[i].path[|places[i].path| - 1]
  }

  lemma RepositoryFacts(path: seq<string>, entries: seq<(string, Toml)>)
    requires path != []
    ensures var r := RepositoryAt(path, entries);
      && r.name == r.crate == NameOf(path)
      && r.maturity == TextOf(Get(entries, "maturity"), "")
      && (|path| >= 3 ==> r.dependencies == [NameOf(ParentPath(path))] + ListOf(Get(entries, "dependency")))
  {
  }

  lemma NameExtendsParent(path: seq<string>)
    requires |path| >= 2
    ensures NameOf(path) == NameOf(ParentPath(path)) + "-" + path[|path| - 1]
  {
    assert path == ParentPath(path) + [path[|path| - 1]];
    JoinAppend(ParentPath(path), [path[|path| - 1]], '-');
  }

  /** At depth three and below, the first dependency names the tree parent, which is listed earlier. */
  lemma ParentIsFirstDependency(root: Toml, i: nat)
    requires root.Table? && Flatten(root, []).Ok? && i < |Places(root, [])|
    requires |Places(root, [])[i].path| >= 3
    ensures var rs, places := Flatten(root, []).value, Places(root, []);
      |rs| == |places| && exists j: nat :: j < i && HostedBy(rs, places, i, j)
  {
    hide RepositoryAt, Flatten, Places, NameOf, Sound, Get, ListOf, TextOf;
    var rs, places := Flatten(root, []).value, Places(root, []);
    FlattenedAt(root);
    ParentBeforeChild(root, [], i);
    var path := places[i].path;
    var j: nat :| j < i && places[j].path == ParentPath(path);
    NameExtendsParent(path);
    assert rs[j] == RepositoryAt(places[j].path, places[j].entries);
    RepositoryFacts(places[j].path, places[j].entries);
    RepositoryFacts(path, places[i].entries);
    assert rs[i].dependencies[0] == NameOf(ParentPath(path)) == rs[j].name;
    assert HostedBy(rs, places, i, j);
  }

  // ---------------------------------------------------------------- facts are a table's own values

  /** A table without its child tables: what it says of itself. */
  function Values(entries: seq<(string, Toml)>): seq<(string, Toml)> {
    if entries == [] then []
    else (if entries[0].1.Table? then [] else [entries[0]]) + Values(entries[1..])
  }

  predicate HasChild(entries: seq<(string, Toml)>, key: string) {
    var v := Get(entries, key);
    v.Some? && v.value.Table?
  }

  lemma {:induction false} GetOfValues(entries: seq<(string, Toml)>, key: string)
    requires DistinctKeys(entries)
    ensures Get(Values(entries), key) == if HasChild(entries, key) then None else Get(entries, key)
  {
    if entries != [] {
      assert forall j :: 0 <= j < |entries[1..]| ==> entries[1..][j] == entries[j + 1];
      GetOfValues(entries[1..], key);
      if entries[0].0 == key && Get(entries[1..], key).Some? {
        GetFinds(entries[1..], (key, Get(entries[1..], key).value));
        assert false;
      }
      if entries[0].1.Table? {
        assert Values(entries) == Values(entries[1..]);
      } else {
        assert Values(entries) == [entries[0]] + Values(entries[1..]);
      }
    }
  }

  lemma {:induction false} MetadataIsNoChild(path: seq<string>, entries: seq<(string, Toml)>, key: string)
    requires CollisionFault(path, entries).None? && key in METADATA
    ensures !HasChild(entries, key)
  {
    if entries != [] {
      MetadataIsNoChild(path, entries[1..], key);
    }
  }

  /** A repository's facts are the values of eight keys, the last two of them no metadata to the collision check. */
  lemma FactsAreEightKeys(path: seq<string>, a: seq<(string, Toml)>, b: seq<(string, Toml)>)
    requires path != [] && forall key :: key in METADATA ==> Get(a, key) == Get(b, key)
    requires Get(a, "mount") == Get(b, "mount") && Get(a, "optional") == Get(b, "optional")
    ensures RepositoryAt(path, a) == RepositoryAt(path, b)
  {
    hide Get, TextOf, ListOf, FlagOf, NameOf;
    assert METADATA[0] == "description" && METADATA[1] == "architecturalDomain" && METADATA[2] == "repositoryRole";
    assert METADATA[3] == "maturity" && METADATA[4] == "dependency" && METADATA[5] == "primaryLanguage";
  }

  lemma ChildIsReadAsFact(path: seq<string>, a: seq<(string, Toml)>, b: seq<(string, Toml)>)
    requires path != []
    requires HasChild(a, "mount") ==> Get(b, "mount").None?
    requires HasChild(a, "optional") ==> Get(b, "optional").None?
    requires HasChild(a, "mount") || HasChild(a, "optional")
    ensures RepositoryAt(path, a) != RepositoryAt(path, b)
  {
    hide Get, ListOf, NameOf;
    var r, q := RepositoryAt(path, a), RepositoryAt(path, b);
    if HasChild(a, "optional") {
      assert r.optional && !q.optional;
    } else {
      assert r.mount == TABLE_TEXT && q.mount == "";
      assert |r.mount| > 0;
    }
  }

  /**
   The collision check means to keep a child from being read as a fact of its parent.  It does so if
   and only if no child is named mount or optional, two keys it does not know to be metadata.
   */
  lemma ChildrenAreNotFacts(path: seq<string>, entries: seq<(string, Toml)>)
    requires path != [] && DistinctKeys(entries) && CollisionFault(path, entries).None?
    ensures RepositoryAt(path, entries) == RepositoryAt(path, Values(entries)) <==>
      !HasChild(entries, "mount") && !HasChild(entries, "optional")
  {
    hide Values, DistinctKeys, CollisionFault, RepositoryAt, Get;
    forall key | key in METADATA
      ensures Get(Values(entries), key) == Get(entries, key)
    {
      GetOfValues(entries, key);
      MetadataIsNoChild(path, entries, key);
    }
    GetOfValues(entries, "mount");
    GetOfValues(entries, "optional");
    if HasChild(entries, "mount") || HasChild(entries, "optional") {
      ChildIsReadAsFact(path, entries, Values(entries));
    } else {
      FactsAreEightKeys(path, entries, Values(entries));
    }
  }

  // ---------------------------------------------------------------- the readers

  datatype Position = Position(parent: string, leaf: string)

  /** String.Substring from past the parent and its hyphen; None where it throws. */
  function Past(name: string, parent: string): Option<string> {
    if |parent| + 1 <= |name| then Some(name[|parent| + 1..]) else None
  }

  /** Get-XmipEstateRepository's Parent and Leaf, from a flat entry alone; None where it throws. */
  function ReadPosition(r: Repository): Option<Position> {
    if r.domain != "Technology" then Some(Position("", r.name))
    else if r.dependencies == [] then None
    else
      var parent := r.dependencies[0];
      if parent == "" then Some(Position("", r.name))
      else
        var leaf := Past(r.name, parent);
        if leaf.None? then None else Some(Position(parent, leaf.value))
  }

  /** A technology's parent and last key; a module or a provider hosts nothing and keeps its whole name. */
  function PositionAt(path: seq<string>): Position
    requires path != []
  {
    if |path| >= 3 then Position(NameOf(ParentPath(path)), path[|path| - 1]) else Position("", NameOf(path))
  }

  /**
   The reader gives a repository's position back, hyphens in its keys or not, exactly where it is
   not a module that declares itself a technology and depends on something.
   */
  lemma PositionIsReadBack(path: seq<string>, entries: seq<(string, Toml)>)
    requires path != []
    ensures var r := RepositoryAt(path, entries);
      ReadPosition(r) == Some(PositionAt(path)) <==>
        |path| >= 3 || r.domain != "Technology" || (r.dependencies != [] && r.dependencies[0] == "")
  {
    var r := RepositoryAt(path, entries);
    if |path| >= 3 {
      NameExtendsParent(path);
      var parent, leaf := NameOf(ParentPath(path)), path[|path| - 1];
      assert r.name[|parent| + 1..] == leaf;
    }
  }

  /** The same of every entry of an estate's flattened list. */
  lemma EstateIsReadBack(root: Toml, i: nat)
    requires root.Table? && Flatten(root, []).Ok? && i < |Places(root, [])|
    ensures var rs, places := Flatten(root, []).value, Places(root, []);
      && |rs| == |places| && places[i].path != []
      && (ReadPosition(rs[i]) == Some(PositionAt(places[i].path)) <==>
            |places[i].path| >= 3 || rs[i].domain != "Technology" ||
            (rs[i].dependencies != [] && rs[i].dependencies[0] == ""))
  {
    hide RepositoryAt, Flatten, Places, ReadPosition;
    FlattenedAt(root);
    PositionIsReadBack(Places(root, [])[i].path, Places(root, [])[i].entries);
  }

  /**
   Get-XmipBuiltTechnology's leaf, the name past the first dependency's, is the last key exactly where
   that dependency is as long as the tree parent's name: always at depth three and below.
   */
  lemma BuiltLeafIsLastKey(path: seq<string>, entries: seq<(string, Toml)>)
    requires path != [] && RepositoryAt(path, entries).dependencies != []
    ensures var r := RepositoryAt(path, entries);
      var parent := r.dependencies[0];
      Past(r.name, parent) == Some(path[|path| - 1]) <==>
        || |path| >= 3
        || (|path| == 2 && |parent| == |NameOf(ParentPath(path))|)
        || (|path| == 1 && |parent| == |"xmip"|)
  {
    var r := RepositoryAt(path, entries);
    var parent, last := r.dependencies[0], path[|path| - 1];
    RepositoryFacts(path, entries);
    if |path| >= 2 {
      NameExtendsParent(path);
    } else {
      assert r.name == "xmip" + "-" + last;
    }
    hide NameOf, RepositoryAt;
    assert |parent| + 1 + |last| == |r.name| ==> r.name[|parent| + 1..] == last;
  }
}
