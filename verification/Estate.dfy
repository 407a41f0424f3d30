/**
 The manifest's tree flattened into repositories (Expand-XmipEstate and Resolve-XmipNodeFacts,
 Xmip/Expand-XmipEstate.ps1): one entry for every table of the tree, a table before what is in it,
 the path joined by hyphens as the name.
 */
module Estate {
  import opened Wrappers
  import opened Sorting
  import opened Text

  /** The parsed manifest: a table is a child node, anything else is metadata. */
  datatype Toml =
    | Table(entries: seq<(string, Toml)>)
    | Words(text: string)
    | Flag(on: bool)
    | List(items: seq<string>)

  /** Get-TomlValue: None where the key is absent. */
  function Get(entries: seq<(string, Toml)>, key: string): Option<Toml> {
    if entries == [] then None
    else if entries[0].0 == key then Some(entries[0].1)
    else Get(entries[1..], key)
  }

  /** The text .NET makes of a table object: the name of its type. */
  const TABLE_TEXT := "System.Collections.Specialized.OrderedDictionary"

  /** The [string], [string[]] and [bool] casts of what Get-TomlValue gives. */
  function TextOf(v: Option<Toml>, default: string): string {
    match v
    case None => default
    case Some(Words(t)) => t
    case Some(Flag(b)) => if b then "True" else "False"
    case Some(List(items)) => Join(items, ' ')
    case Some(Table(_)) => TABLE_TEXT
  }

  function ListOf(v: Option<Toml>): seq<string> {
    match v
    case None => []
    case Some(List(items)) => items
    case Some(_) => [TextOf(v, "")]
  }

  function FlagOf(v: Option<Toml>): bool {
    match v
    case None => false
    case Some(Flag(b)) => b
    case Some(Words(t)) => t != ""
    case Some(List(items)) => |items| > 1 || (|items| == 1 && items[0] != "")
    case Some(Table(_)) => true
  }

  predicate IsBlank(s: string) {
    forall c :: c in s ==> c == ' ' || c == '\t' || c == '\r' || c == '\n'
  }

  const METADATA :=
    ["description", "architecturalDomain", "repositoryRole", "maturity", "dependency", "primaryLanguage"]

  datatype Repository = Repository(
    name: string, description: string, domain: string, role: string, maturity: string,
    dependencies: seq<string>, language: string, mount: string, optional: bool, crate: string)

  datatype Fault = NoEstate | NoRepositories | NoMaturity(name: string) | Collision(key: string, path: seq<string>)

  /** The name of the repository at a path. */
  function NameOf(path: seq<string>): string {
    "xmip-" + Join(path, '-')
  }

  /** Resolve-XmipNodeFacts and New-XmipRepositoryEntry, for a node that states its maturity. */
  function RepositoryAt(path: seq<string>, entries: seq<(string, Toml)>): Repository
    requires path != []
  {
    var name, leaf := NameOf(path), path[|path| - 1];
    var declared := ListOf(Get(entries, "dependency"));
    var maturity, language := TextOf(Get(entries, "maturity"), ""), TextOf(Get(entries, "primaryLanguage"), "");
    var mount, optional := TextOf(Get(entries, "mount"), ""), FlagOf(Get(entries, "optional"));
    if |path| >= 3 then
      var parent := NameOf(path[..|path| - 1]);
      Repository(name, TextOf(Get(entries, "description"), leaf + " implementation of " + parent + "."),
                 "Technology", "technology-implementation", maturity, [parent] + declared,
                 language, mount, optional, name)
    else
      Repository(name, TextOf(Get(entries, "description"), "Xmip " + leaf + " module."),
                 TextOf(Get(entries, "architecturalDomain"), "Capabilities"),
                 TextOf(Get(entries, "repositoryRole"), "common-capability"), maturity, declared,
                 language, mount, optional, name)
  }

  function FactsFault(path: seq<string>, entries: seq<(string, Toml)>): Option<Fault> {
    if path != [] && IsBlank(TextOf(Get(entries, "maturity"), "")) then Some(NoMaturity(NameOf(path))) else None
  }

  /** Assert-XmipNoMetadataCollision: the first metadata key that is a table. */
  function CollisionFault(path: seq<string>, entries: seq<(string, Toml)>): Option<Fault> {
    if entries == [] then None
    else if entries[0].0 in METADATA && entries[0].1.Table? then Some(Collision(entries[0].0, path))
    else CollisionFault(path, entries[1..])
  }

  // ---------------------------------------------------------------- keys in order

  predicate KeyAtMost(a: (string, Toml), b: (string, Toml)) {
    AtMost(a.0, b.0)
  }

  /** Get-TomlKey | Sort-Object. */
  function ByKey(es: seq<(string, Toml)>): (r: seq<(string, Toml)>)
    ensures forall x :: x in r <==> x in es
    ensures |r| == |es|
  {
    Sorted(es, KeyAtMost)
  }

  // ---------------------------------------------------------------- the walk

  /** Expand-XmipEstate's loop over the children still to come, in key order. */
  function FlattenEach(node: Toml, es: seq<(string, Toml)>, path: seq<string>): Result<seq<Repository>, Fault>
    requires node.Table? && forall e :: e in es ==> e in node.entries
    decreases node, 0, |es|
  {
    if es == [] then Ok([])
    else
      assert es[0] in node.entries;
      var first := if es[0].1.Table? then Flatten(es[0].1, path + [es[0].0]) else Ok([]);
      if first.Err? then first
      else
        var rest := FlattenEach(node, es[1..], path);
        if rest.Err? then rest else Ok(first.value + rest.value)
  }

  function Flatten(node: Toml, path: seq<string>): Result<seq<Repository>, Fault>
    requires node.Table?
    decreases node, 1, 0
  {
    if FactsFault(path, node.entries).Some? then Err(FactsFault(path, node.entries).value)
    else if CollisionFault(path, node.entries).Some? then Err(CollisionFault(path, node.entries).value)
    else
      var here := if path == [] then [] else [RepositoryAt(path, node.entries)];
      var below := FlattenEach(node, ByKey(node.entries), path);
      if below.Err? then below else Ok(here + below.value)
  }

  /** The list the walk appends to, shared by all its calls. */
  class RepositoryList {
    var item: seq<Repository>

    constructor ()
      ensures item == []
    {
      item := [];
    }

    method Add(r: Repository)
      modifies this
      ensures item == old(item) + [r]
    {
      item := item + [r];
    }
  }

  lemma FlattenLast(node: Toml, path: seq<string>)
    requires node.Table?
    ensures FlattenEach(node, [], path) == Ok([])
  {
  }

  lemma FlattenStep(node: Toml, es: seq<(string, Toml)>, path: seq<string>, i: nat)
    requires node.Table? && i < |es| && forall e :: e in es ==> e in node.entries
    ensures es[i] in node.entries
    ensures var rest := FlattenEach(node, es[i + 1..], path);
      FlattenEach(node, es[i..], path) ==
        if !es[i].1.Table? then rest
        else
          var first := Flatten(es[i].1, path + [es[i].0]);
          if first.Err? then first else if rest.Err? then rest else Ok(first.value + rest.value)
  {
    assert es[i..][0] == es[i] && es[i..][1..] == es[i + 1..];
    var rest := FlattenEach(node, es[i + 1..], path);
    assert rest.Ok? ==> [] + rest.value == rest.value;
  }

  lemma NothingStatedAtTheTop(entries: seq<(string, Toml)>)
    ensures FactsFault([], entries) == None
  {
  }

  /** What the loop has appended and what it still has to append make up the whole. */
  ghost predicate Remains(node: Toml, es: seq<(string, Toml)>, path: seq<string>, i: nat,
                          start: seq<Repository>, now: seq<Repository>)
    requires node.Table? && i <= |es| && forall e :: e in es ==> e in node.entries
  {
    match FlattenEach(node, es[i..], path)
    case Err(f) => FlattenEach(node, es, path) == Err(f)
    case Ok(rest) => FlattenEach(node, es, path).Ok? && start + FlattenEach(node, es, path).value == now + rest
  }

  /** Expand-XmipEstate. */
  method Expand(node: Toml, path: seq<string>, into: RepositoryList) returns (fault: Option<Fault>)
    requires node.Table?
    modifies into
    ensures match Flatten(node, path)
      case Err(f) => fault == Some(f)
      case Ok(rs) => fault == None && into.item == old(into.item) + rs
    decreases node
  {
    hide RepositoryAt, FactsFault, CollisionFault, ByKey, FlattenEach;
    if |path| >= 1 {
      fault := FactsFault(path, node.entries);
      if fault.Some? {
        return;
      }
      into.Add(RepositoryAt(path, node.entries));
    } else {
      NothingStatedAtTheTop(node.entries);
    }
    fault := CollisionFault(path, node.entries);
    if fault.Some? {
      return;
    }
    ghost var start := into.item;
    var es := ByKey(node.entries);
    FlattenLast(node, path);
    for i := 0 to |es|
      invariant Remains(node, es, path, i, start, into.item)
    {
      FlattenStep(node, es, path, i);
      if es[i].1.Table? {
        fault := Expand(es[i].1, path + [es[i].0], into);
        if fault.Some? {
          return;
        }
      }
    }
    assert es[|es|..] == [];
    ghost var here := if path == [] then [] else [RepositoryAt(path, node.entries)];
    ghost var below := FlattenEach(node, es, path).value;
    assert start == old(into.item) + here && into.item == start + below;
    assert into.item == old(into.item) + (here + below);
    return None;
  }

  /** Expand-XmipManifestFromTree: the estate flattened, refused where there is none or it is empty. */
  method ExpandManifest(source: seq<(string, Toml)>) returns (result: Result<seq<Repository>, Fault>)
    ensures match Get(source, "xmip")
      case None => result == Err(NoEstate)
      case Some(Table(es)) =>
        if Flatten(Table(es), []) == Ok([]) then result == Err(NoRepositories) else result == Flatten(Table(es), [])
      case Some(_) => result == Err(NoRepositories)
  {
    var estate := Get(source, "xmip");
    if estate.None? {
      return Err(NoEstate);
    }
    var into := new RepositoryList();
    if estate.value.Table? {
      var fault := Expand(estate.value, [], into);
      if fault.Some? {
        return Err(fault.value);
      }
      assert [] + Flatten(estate.value, []).value == Flatten(estate.value, []).value;
    }
    if |into.item| == 0 {
      return Err(NoRepositories);
    }
    return Ok(into.item);
  }
}
