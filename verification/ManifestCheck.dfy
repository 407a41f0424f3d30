/**
 The acceptance of a flattened manifest (Test-XmipManifest and Assert-XmipRepositoryEntry,
 Xmip/Get-XmipManifest.ps1), and what an accepted estate's names then say: joined by hyphens they
 could collide, and where they are accepted each names one table of the tree.
 */
module ManifestCheck {
  import opened Wrappers
  import opened Text
  import opened Estate
  import opened EstatePosition

  datatype Problem =
    | NoOwner | Empty | Duplicate
    | BadName(name: string) | NoDescription(name: string)
    | NoCrate(name: string) | BadCrate(name: string) | CrateDiffers(name: string)
    | BadMaturity(name: string) | Unknown(dependency: string, name: string) | OnItself(name: string)

  const MATURITY :=
    ["planned", "reserved", "created", "configured", "submodule", "workspace", "scaffolded", "implemented",
     "verified", "supported"]

  /** [a-z0-9]+(?:-[a-z0-9]+)* */
  predicate Hyphenated(s: string) {
    forall w :: w in Split(s, '-') ==> w != "" && forall c :: c in w ==> 'a' <= c <= 'z' || IsDigit(c)
  }

  predicate ValidName(s: string) {
    "xmip-" <= s && Hyphenated(s[5..])
  }

  /** Assert-XmipRepositoryEntry's checks before the dependencies, in their order. */
  function FormProblem(r: Repository, mustMatch: bool): Option<Problem> {
    if !ValidName(r.name) then Some(BadName(r.name))
    else if IsBlank(r.description) then Some(NoDescription(r.name))
    else if IsBlank(r.crate) then Some(NoCrate(r.name))
    else if !Hyphenated(r.crate) then Some(BadCrate(r.name))
    else if mustMatch && r.crate != r.name then Some(CrateDiffers(r.name))
    else if r.maturity !in MATURITY then Some(BadMaturity(r.name))
    else None
  }

  // ---------------------------------------------------------------- what form is good

  predicate IsLetterOrDigit(c: char) {
    'a' <= c <= 'z' || '0' <= c <= '9'
  }

  /** Behind every hyphen comes something that is not one. */
  predicate HyphensApart(s: string) {
    forall i :: 0 <= i < |s| && s[i] == '-' ==> i + 1 < |s| && s[i + 1] != '-'
  }

  predicate HoldsLetters(s: string) {
    forall c :: c in s ==> IsLetterOrDigit(c) || c == '-'
  }

  /** Small letters, digits and hyphens, each hyphen between two of the others. */
  predicate IsWords(s: string) {
    s != "" && s[0] != '-' && HyphensApart(s) && HoldsLetters(s)
  }

  predicate IsMaturity(s: string) {
    || s == "planned" || s == "reserved" || s == "created" || s == "configured" || s == "submodule"
    || s == "workspace" || s == "scaffolded" || s == "implemented" || s == "verified" || s == "supported"
  }

  predicate WellFormed(r: Repository, mustMatch: bool) {
    && "xmip-" <= r.name && IsWords(r.name[5..])
    && !IsBlank(r.description) && IsWords(r.crate)
    && (mustMatch ==> r.crate == r.name) && IsMaturity(r.maturity)
  }

  lemma ApartStep(s: string)
    requires s != ""
    ensures HyphensApart(s) <==> HyphensApart(s[1..]) && (s[0] == '-' ==> |s| > 1 && s[1] != '-')
    ensures HoldsLetters(s) <==> HoldsLetters(s[1..]) && (IsLetterOrDigit(s[0]) || s[0] == '-')
  {
    hide IsLetterOrDigit;
    var t := s[1..];
    assert s == [s[0]] + t;
    if HyphensApart(s) {
      forall i | 0 <= i < |t| && t[i] == '-'
        ensures i + 1 < |t| && t[i + 1] != '-'
      {
        assert s[i + 1] == '-';
      }
    }
  }

  predicate AllNonEmpty(parts: seq<string>) {
    forall p :: p in parts ==> p != ""
  }

  predicate AllHoldLetters(parts: seq<string>) {
    forall p :: p in parts ==> forall c :: c in p ==> IsLetterOrDigit(c)
  }

  lemma FirstApart(p: string, parts: seq<string>)
    ensures AllNonEmpty([p] + parts) <==> p != "" && AllNonEmpty(parts)
    ensures AllHoldLetters([p] + parts) <==> AllHoldLetters([p]) && AllHoldLetters(parts)
  {
    hide IsLetterOrDigit;
    var all := [p] + parts;
    assert p in all && p in [p] && forall x :: x in parts ==> x in all;
    assert forall x :: x in all ==> x == p || x in parts;
  }

  lemma LetterInFront(c: char, p: string)
    ensures AllHoldLetters([[c] + p]) <==> IsLetterOrDigit(c) && AllHoldLetters([p])
    ensures AllHoldLetters([""])
  {
    hide IsLetterOrDigit;
    assert p in [p] && [c] + p in [[c] + p];
    assert forall x :: x in [c] + p <==> x == c || x in p;
  }

  /** The parts of a split text say which characters it holds and where its hyphens are. */
  lemma {:induction false} PartsTell(s: string)
    ensures var parts := Split(s, '-');
      && (parts[0] == "" <==> s == "" || s[0] == '-')
      && (AllNonEmpty(parts[1..]) <==> HyphensApart(s))
      && (AllHoldLetters(parts) <==> HoldsLetters(s))
  {
    if s == "" {
      LetterInFront('-', "");
    } else {
      hide IsLetterOrDigit, AllNonEmpty, AllHoldLetters, HyphensApart, HoldsLetters;
      PartsTell(s[1..]);
      ApartStep(s);
      var rest := Split(s[1..], '-');
      FirstApart(rest[0], rest[1..]);
      assert rest == [rest[0]] + rest[1..];
      LetterInFront(s[0], rest[0]);
      if s[0] == '-' {
        FirstApart("", rest);
        assert Split(s, '-')[1..] == rest;
      } else {
        FirstApart([s[0]] + rest[0], rest[1..]);
      }
    }
  }

  lemma HyphenatedIsWords(s: string)
    ensures Hyphenated(s) <==> IsWords(s)
  {
    var parts := Split(s, '-');
    PartsTell(s);
    FirstApart(parts[0], parts[1..]);
    assert parts == [parts[0]] + parts[1..];
    hide HyphensApart, HoldsLetters, Split;
  }

  lemma MaturitiesAre(s: string)
    ensures s in MATURITY <==> IsMaturity(s)
  {
  }

  lemma WordsAreNotBlank(s: string)
    ensures IsWords(s) ==> !IsBlank(s)
  {
    if IsWords(s) {
      assert s[0] in s;
    }
  }

  /** The checks find nothing exactly in a well-formed entry. */
  lemma FormIsGood(r: Repository, mustMatch: bool)
    ensures FormProblem(r, mustMatch).None? <==> WellFormed(r, mustMatch)
  {
    hide Hyphenated, IsWords;
    HyphenatedIsWords(r.name[if "xmip-" <= r.name then 5 else 0..]);
    HyphenatedIsWords(r.crate);
    WordsAreNotBlank(r.crate);
    MaturitiesAre(r.maturity);
    hide IsMaturity;
  }

  predicate EntryAccepted(r: Repository, known: set<string>, mustMatch: bool) {
    WellFormed(r, mustMatch) && forall d :: d in r.dependencies ==> d in known && d != r.name
  }

  method CheckEntry(r: Repository, known: set<string>, mustMatch: bool) returns (problem: Option<Problem>)
    ensures problem.None? <==> EntryAccepted(r, known, mustMatch)
    ensures problem.Some? && problem.value.Unknown? ==>
      problem.value.dependency in r.dependencies && problem.value.dependency !in known
  {
    problem := FormProblem(r, mustMatch);
    FormIsGood(r, mustMatch);
    if problem.Some? {
      return;
    }
    for i := 0 to |r.dependencies|
      invariant problem.None?
      invariant forall j :: 0 <= j < i ==> r.dependencies[j] in known && r.dependencies[j] != r.name
    {
      if r.dependencies[i] !in known {
        return Some(Unknown(r.dependencies[i], r.name));
      }
      if r.dependencies[i] == r.name {
        return Some(OnItself(r.name));
      }
    }
  }

  function NamesOf(rs: seq<Repository>): set<string> {
    set r | r in rs :: r.name
  }

  predicate UniqueNames(rs: seq<Repository>) {
    forall i, j :: 0 <= i < j < |rs| ==> rs[i].name != rs[j].name
  }

  predicate Accepted(owner: string, rs: seq<Repository>, mustMatch: bool) {
    && !IsBlank(owner) && rs != [] && UniqueNames(rs)
    && forall r :: r in rs ==> EntryAccepted(r, NamesOf(rs), mustMatch)
  }

  /** Test-XmipManifest: None where the manifest is accepted, else the first problem. */
  method TestManifest(owner: string, rs: seq<Repository>, mustMatch: bool) returns (problem: Option<Problem>)
    ensures problem.None? <==> Accepted(owner, rs, mustMatch)
  {
    if IsBlank(owner) {
      return Some(NoOwner);
    }
    if |rs| == 0 {
      return Some(Empty);
    }
    var known: set<string> := {};
    for i := 0 to |rs|
      invariant known == NamesOf(rs[..i]) && UniqueNames(rs[..i])
    {
      assert rs[..i + 1] == rs[..i] + [rs[i]];
      if rs[i].name in known {
        var j :| 0 <= j < i && rs[j].name == rs[i].name;
        return Some(Duplicate);
      }
      known := known + {rs[i].name};
    }
    assert rs[..|rs|] == rs;
    for i := 0 to |rs|
      invariant forall j :: 0 <= j < i ==> EntryAccepted(rs[j], known, mustMatch)
    {
      problem := CheckEntry(rs[i], known, mustMatch);
      if problem.Some? {
        assert rs[i] in rs;
        return;
      }
    }
    return None;
  }

  // ---------------------------------------------------------------- names, keys and tables

  lemma {:induction false} HyphenatedByKeys(path: seq<string>)
    requires path != []
    ensures Hyphenated(Join(path, '-')) <==> forall k :: k in path ==> Hyphenated(k)
  {
    assert path == [path[0]] + path[1..];
    if |path| > 1 {
      HyphenatedByKeys(path[1..]);
      SplitOfConcat(path[0], '-', Join(path[1..], '-'));
      var a, b := Split(path[0], '-'), Split(Join(path[1..], '-'), '-');
      assert Join(path, '-') == path[0] + ['-'] + Join(path[1..], '-');
      assert Split(Join(path, '-'), '-') == a + b;
      assert forall w :: w in a + b <==> w in a || w in b;
      assert Hyphenated(Join(path, '-')) <==> Hyphenated(path[0]) && Hyphenated(Join(path[1..], '-'));
    }
  }

  /** A path's name is a valid one exactly when each key is hyphenated words. */
  lemma NameIsValidByKeys(path: seq<string>)
    requires path != []
    ensures ValidName(NameOf(path)) <==> forall k :: k in path ==> Hyphenated(k)
  {
    assert NameOf(path)[5..] == Join(path, '-');
    HyphenatedByKeys(path);
  }

  /** Two places of a tree can have one name. */
  lemma HyphensCollide()
    ensures NameOf(["core", "aws-sqs"]) == NameOf(["core", "aws", "sqs"])
  {
    assert Join(["aws", "sqs"], '-') == "aws-sqs";
    assert ["core", "aws", "sqs"][1..] == ["aws", "sqs"];
  }

  /** In an accepted estate a name is one table's alone, so a lookup by name finds the table it was made from. */
  lemma AcceptedNamesIdentifyTables(root: Toml, owner: string, mustMatch: bool, i: nat, j: nat)
    requires root.Table? && Flatten(root, []).Ok? && Accepted(owner, Flatten(root, []).value, mustMatch)
    requires i < |Places(root, [])| && j < |Places(root, [])|
    requires Places(root, [])[i].path != [] && Places(root, [])[j].path != []
    requires NameOf(Places(root, [])[i].path) == NameOf(Places(root, [])[j].path)
    ensures i == j
  {
    hide Flatten, Places, RepositoryAt, EntryAccepted;
    var rs, places := Flatten(root, []).value, Places(root, []);
    FlattenedAt(root);
    RepositoryFacts(places[i].path, places[i].entries);
    RepositoryFacts(places[j].path, places[j].entries);
    assert rs[i].name == rs[j].name;
  }

  /** The dependency the tree derives is never the one a manifest is refused for. */
  lemma DerivedDependencyResolves(root: Toml, i: nat)
    requires root.Table? && Flatten(root, []).Ok? && i < |Places(root, [])|
    requires |Places(root, [])[i].path| >= 3
    ensures var rs := Flatten(root, []).value;
      i < |rs| && rs[i].dependencies != [] && rs[i].dependencies[0] in NamesOf(rs) && rs[i].dependencies[0] != rs[i].name
  {
    hide Flatten, Places;
    ParentIsFirstDependency(root, i);
    var rs, places := Flatten(root, []).value, Places(root, []);
    var j: nat :| j < i && HostedBy(rs, places, i, j);
    assert rs[j] in rs;
  }

  // ---------------------------------------------------------------- lookups by name

  /** `$byName`, the last of a name winning. */
  function ByName(rs: seq<Repository>): map<string, Repository> {
    if rs == [] then map[] else ByName(rs[..|rs| - 1])[rs[|rs| - 1].name := rs[|rs| - 1]]
  }

  lemma {:induction false} ByNameFinds(rs: seq<Repository>, i: nat)
    requires UniqueNames(rs) && i < |rs|
    ensures rs[i].name in ByName(rs) && ByName(rs)[rs[i].name] == rs[i]
  {
    if i < |rs| - 1 {
      assert rs[..|rs| - 1][i] == rs[i];
      ByNameFinds(rs[..|rs| - 1], i);
    }
  }

  /** Test-XmipBuiltTechnology's facts about the repository itself. */
  predicate SaysBuilt(r: Repository) {
    && r.role == "technology-implementation" && r.maturity != "reserved" && r.maturity != "planned"
    && !r.optional && r.language == ""
  }

  predicate Hosts(parent: Repository) {
    parent.domain != "Library" && parent.language == ""
  }

  /** Test-XmipBuiltTechnology; None where its first-dependency index throws. */
  function TestBuilt(r: Repository, byName: map<string, Repository>): Option<bool> {
    if !SaysBuilt(r) then Some(false)
    else if r.dependencies == [] then None
    else if r.dependencies[0] !in byName then Some(false)
    else Some(Hosts(byName[r.dependencies[0]]))
  }

  /** A built technology is one whose first dependency is known and hosts it; one that names none throws. */
  lemma BuiltByFirstDependency(r: Repository, byName: map<string, Repository>)
    requires r.role == "technology-implementation" && r.maturity != "reserved" && r.maturity != "planned"
    requires !r.optional && r.language == ""
    ensures TestBuilt(r, byName).None? <==> r.dependencies == []
    ensures TestBuilt(r, byName) == Some(true) <==>
      r.dependencies != [] && r.dependencies[0] in byName &&
      byName[r.dependencies[0]].domain != "Library" && byName[r.dependencies[0]].language == ""
  {
  }

  /** In an accepted estate the parent a technology is judged by is its parent in the tree. */
  lemma BuiltIsJudgedByTreeParent(root: Toml, owner: string, mustMatch: bool, i: nat)
    requires root.Table? && Flatten(root, []).Ok? && Accepted(owner, Flatten(root, []).value, mustMatch)
    requires i < |Places(root, [])| && |Places(root, [])[i].path| >= 3
    ensures var rs, places := Flatten(root, []).value, Places(root, []);
      && |rs| == |places|
      && exists j: nat :: j < i && HostedBy(rs, places, i, j)
           && TestBuilt(rs[i], ByName(rs)) == Some(
                && rs[i].role == "technology-implementation" && rs[i].maturity != "reserved" && rs[i].maturity != "planned"
                && !rs[i].optional && rs[i].language == "" && rs[j].domain != "Library" && rs[j].language == "")
  {
    hide Flatten, Places, EntryAccepted, ByName;
    ParentIsFirstDependency(root, i);
    var rs, places := Flatten(root, []).value, Places(root, []);
    var j: nat :| j < i && HostedBy(rs, places, i, j);
    ByNameFinds(rs, j);
  }

  // ---------------------------------------------------------------- the readers, in an accepted estate

  /** An accepted dependency is a valid name, and no shorter than that. */
  lemma AcceptedDependencyIsLong(rs: seq<Repository>, owner: string, mustMatch: bool, i: nat, d: string)
    requires Accepted(owner, rs, mustMatch) && i < |rs| && d in rs[i].dependencies
    ensures |d| >= 5
  {
    assert rs[i] in rs && EntryAccepted(rs[i], NamesOf(rs), mustMatch);
    var r :| r in rs && r.name == d;
    assert EntryAccepted(r, NamesOf(rs), mustMatch);
    hide IsWords;
    assert "xmip-" <= r.name;
  }

  /**
   In an accepted estate Get-XmipEstateRepository gives every position back but that of a provider or
   module declaring itself a technology.
   */
  lemma AcceptedPositionIsReadBack(root: Toml, owner: string, mustMatch: bool, i: nat)
    requires root.Table? && Flatten(root, []).Ok? && Accepted(owner, Flatten(root, []).value, mustMatch)
    requires i < |Places(root, [])|
    ensures var rs, places := Flatten(root, []).value, Places(root, []);
      && |rs| == |places| && places[i].path != []
      && (ReadPosition(rs[i]) == Some(PositionAt(places[i].path)) <==>
            |places[i].path| >= 3 || rs[i].domain != "Technology")
  {
    hide Flatten, Places, Accepted, ReadPosition, PositionAt;
    EstateIsReadBack(root, i);
    var r := Flatten(root, []).value[i];
    if r.dependencies != [] {
      AcceptedDependencyIsLong(Flatten(root, []).value, owner, mustMatch, i, r.dependencies[0]);
    }
  }

  /**
   In an accepted estate Get-XmipBuiltTechnology gives a built technology's last key as its leaf exactly
   where it is at depth three or below, or is a module whose first dependency's name is as long as its
   provider's.
   */
  lemma AcceptedBuiltLeaf(root: Toml, owner: string, mustMatch: bool, i: nat)
    requires root.Table? && Flatten(root, []).Ok? && Accepted(owner, Flatten(root, []).value, mustMatch)
    requires i < |Places(root, [])| && i < |Flatten(root, []).value|
    requires TestBuilt(Flatten(root, []).value[i], ByName(Flatten(root, []).value)) == Some(true)
    ensures var r, path := Flatten(root, []).value[i], Places(root, [])[i].path;
      && path != [] && r.dependencies != []
      && (Past(r.name, r.dependencies[0]) == Some(path[|path| - 1]) <==>
            |path| >= 3 || (|path| == 2 && |r.dependencies[0]| == |NameOf(ParentPath(path))|))
  {
    hide Flatten, Places, Accepted, Past, RepositoryAt, ByName;
    var r := Flatten(root, []).value[i];
    FlattenedAt(root);
    AcceptedDependencyIsLong(Flatten(root, []).value, owner, mustMatch, i, r.dependencies[0]);
    BuiltLeafIsLastKey(Places(root, [])[i].path, Places(root, [])[i].entries);
  }
}
