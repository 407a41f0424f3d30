/**
 Every module a change reaches (Get-XmipModuleConsumer, Xmip/Get-XmipDeclaredModule.ps1): those
 that use a changed module through the package their Cargo.toml needs or through the folder a
 .NET project references, directly or through others.
 */
module ModuleConsumer {
  import opened Wrappers
  import opened DeepestOwner

  datatype Entry = Entry(package: string, needs: seq<string>, references: seq<string>)

  /** The declared modules as read: each declared module's entry, the names longest first, and the root. */
  datatype Declared = Declared(read: map<string, Entry>, names: seq<string>, root: string)

  function PathToken(name: string): string {
    "path:" + name
  }

  /** What the set of reached things holds for a module: its path, and its package if it has one. */
  function Tokens(e: Declared, m: string): set<string> {
    {PathToken(m)} + if m in e.read && e.read[m].package != "" then {e.read[m].package} else {}
  }

  /** The module whose folder holds a referenced path, as a reached thing. */
  predicate OwnerIn(e: Declared, reference: string, reached: set<string>) {
    var owner := Scan(e.names, e.root, reference);
    owner.Some? && PathToken(owner.value) in reached
  }

  predicate Uses(e: Declared, entry: Entry, reached: set<string>) {
    || (exists n :: n in entry.needs && n in reached)
    || (exists r :: r in entry.references && OwnerIn(e, r, reached))
  }

  ghost predicate Consumes(e: Declared, c: string, m: string) {
    c in e.read && Uses(e, e.read[c], Tokens(e, m))
  }

  ghost predicate Path(e: Declared, p: seq<string>) {
    p != [] && forall i :: 0 <= i < |p| - 1 ==> Consumes(e, p[i], p[i + 1])
  }

  /** c uses a given module, directly or through other modules. */
  ghost predicate Reaches(e: Declared, c: string, given: seq<string>) {
    exists p :: Path(e, p) && p[0] == c && p[|p| - 1] in given
  }

  ghost predicate NoDuplicates(s: seq<string>) {
    forall i, j :: 0 <= i < j < |s| ==> s[i] != s[j]
  }

  /** The hashtable's keys, each once, in whatever order it walks them. */
  ghost predicate Enumerates(order: seq<string>, read: map<string, Entry>) {
    && (forall n :: n in order <==> n in read)
    && NoDuplicates(order)
  }

  /** The reached things are the tokens of the given modules and of the consumers found. */
  ghost predicate ReachedAre(e: Declared, reached: set<string>, given: seq<string>, consumers: seq<string>) {
    forall t :: t in reached <==> exists m :: (m in given || m in consumers) && t in Tokens(e, m)
  }

  function OwnerToken(e: Declared, reference: string): Option<string> {
    match Scan(e.names, e.root, reference)
    case None => None
    case Some(owner) => Some(PathToken(owner))
  }

  ghost predicate AreOwners(e: Declared, owners: seq<string>, references: seq<string>) {
    && (forall o :: o in owners ==> exists r :: r in references && OwnerToken(e, r) == Some(o))
    && (forall r :: r in references && OwnerToken(e, r).Some? ==> OwnerToken(e, r).value in owners)
  }

  lemma OneMoreOwner(e: Declared, before: seq<string>, after: seq<string>, references: seq<string>, r: string)
    requires AreOwners(e, before, references)
    requires after == before + match OwnerToken(e, r) case None => [] case Some(o) => [o]
    ensures AreOwners(e, after, references + [r])
  {
    forall o | o in after
      ensures exists x :: x in references + [r] && OwnerToken(e, x) == Some(o)
    {
      if o in before {
        var x :| x in references && OwnerToken(e, x) == Some(o);
        assert x in references + [r];
      } else {
        assert r in references + [r];
      }
    }
  }

  method OwnersOf(e: Declared, references: seq<string>) returns (owners: seq<string>)
    ensures AreOwners(e, owners, references)
  {
    owners := [];
    for i := 0 to |references|
      invariant AreOwners(e, owners, references[..i])
    {
      assert references[..i + 1] == references[..i] + [references[i]];
      ghost var before := owners;
      var found := FindFolder(e.names, e.root, references[i]);
      if found.Some? {
        owners := owners + [PathToken(found.value)];
      }
      OneMoreOwner(e, before, owners, references[..i], references[i]);
    }
    assert references[..|references|] == references;
  }

  lemma UsesByOwners(e: Declared, entry: Entry, owners: seq<string>, reached: set<string>)
    requires AreOwners(e, owners, entry.references)
    ensures Uses(e, entry, reached) <==>
      (exists n :: n in entry.needs && n in reached) || (exists o :: o in owners && o in reached)
  {
    if o :| o in owners && o in reached {
      var r :| r in entry.references && OwnerToken(e, r) == Some(o);
      assert OwnerIn(e, r, reached);
    }
    if r :| r in entry.references && OwnerIn(e, r, reached) {
      assert OwnerToken(e, r).value in owners;
    }
  }

  lemma UsesMeansConsumes(e: Declared, c: string, reached: set<string>, given: seq<string>, consumers: seq<string>)
    requires c in e.read && ReachedAre(e, reached, given, consumers)
    ensures Uses(e, e.read[c], reached) <==> exists m :: (m in given || m in consumers) && Consumes(e, c, m)
  {
    var entry := e.read[c];
    if Uses(e, entry, reached) {
      if n :| n in entry.needs && n in reached {
        var m :| (m in given || m in consumers) && n in Tokens(e, m);
        assert Consumes(e, c, m);
      } else {
        var r :| r in entry.references && OwnerIn(e, r, reached);
        var m :| (m in given || m in consumers) && PathToken(Scan(e.names, e.root, r).value) in Tokens(e, m);
        assert OwnerIn(e, r, Tokens(e, m));
        assert Consumes(e, c, m);
      }
    }
    if m :| (m in given || m in consumers) && Consumes(e, c, m) {
      assert forall t :: t in Tokens(e, m) ==> t in reached;
      if n :| n in entry.needs && n in Tokens(e, m) {
      } else {
        var r :| r in entry.references && OwnerIn(e, r, Tokens(e, m));
        assert OwnerIn(e, r, reached);
      }
    }
  }

  lemma ReachesThrough(e: Declared, c: string, m: string, given: seq<string>)
    requires Consumes(e, c, m) && (m in given || Reaches(e, m, given))
    ensures Reaches(e, c, given)
  {
    var p := [m];
    if m in given {
      assert Path(e, p);
    } else {
      p :| Path(e, p) && p[0] == m && p[|p| - 1] in given;
    }
    var q := [c] + p;
    assert forall i :: 0 < i < |q| ==> q[i] == p[i - 1];
    assert Path(e, q) && q[0] == c && q[|q| - 1] in given;
  }

  /** Whatever uses one of the given modules or one of the consumers is one of the two. */
  ghost predicate ClosedUnderUse(e: Declared, given: seq<string>, consumers: seq<string>) {
    forall c, m :: Consumes(e, c, m) && (m in given || m in consumers) ==> c in given || c in consumers
  }

  /** Once a pass finds nothing more, everything that reaches a given module has been found. */
  lemma {:induction false} ClosedHoldsReachers(e: Declared, given: seq<string>, consumers: seq<string>, p: seq<string>)
    requires Path(e, p) && p[|p| - 1] in given
    requires ClosedUnderUse(e, given, consumers)
    ensures p[0] in given || p[0] in consumers
    decreases |p|
  {
    if |p| > 1 {
      assert forall i :: 0 <= i < |p| - 2 ==> Consumes(e, p[1..][i], p[1..][i + 1]);
      ClosedHoldsReachers(e, given, consumers, p[1..]);
      assert Consumes(e, p[0], p[1]);
    }
  }

  ghost predicate Found(e: Declared, reached: set<string>, given: seq<string>, consumers: seq<string>) {
    && ReachedAre(e, reached, given, consumers)
    && NoDuplicates(consumers)
    && (forall c :: c in consumers ==> c in e.read && c !in given && Reaches(e, c, given))
  }

  ghost predicate NothingMore(e: Declared, order: seq<string>, given: seq<string>, consumers: seq<string>,
                              reached: set<string>) {
    forall c :: c in order && c in e.read && c !in given && c !in consumers ==> !Uses(e, e.read[c], reached)
  }

  lemma ReachedOneMore(e: Declared, before: set<string>, after: set<string>, given: seq<string>, m: string)
    requires ReachedAre(e, before, given, []) && after == before + Tokens(e, m)
    ensures ReachedAre(e, after, given + [m], [])
  {
    forall t | t in after
      ensures exists x :: (x in given + [m] || x in []) && t in Tokens(e, x)
    {
      if t in before {
        var x :| (x in given || x in []) && t in Tokens(e, x);
        assert x in given + [m];
      } else {
        assert m in given + [m];
      }
    }
  }

  lemma FoundOneMore(e: Declared, reached: set<string>, given: seq<string>, consumers: seq<string>, c: string)
    requires Found(e, reached, given, consumers)
    requires c in e.read && c !in given && c !in consumers && Uses(e, e.read[c], reached)
    ensures Found(e, reached + Tokens(e, c), given, consumers + [c])
  {
    UsesMeansConsumes(e, c, reached, given, consumers);
    var m :| (m in given || m in consumers) && Consumes(e, c, m);
    ReachesThrough(e, c, m, given);
    forall t | t in reached + Tokens(e, c)
      ensures exists x :: (x in given || x in consumers + [c]) && t in Tokens(e, x)
    {
      if t in reached {
        var x :| (x in given || x in consumers) && t in Tokens(e, x);
        assert x in given || x in consumers + [c];
      } else {
        assert c in consumers + [c];
      }
    }
  }

  lemma AllFound(e: Declared, reached: set<string>, order: seq<string>, given: seq<string>, consumers: seq<string>)
    requires Enumerates(order, e.read) && Found(e, reached, given, consumers)
    requires NothingMore(e, order, given, consumers, reached)
    ensures ClosedUnderUse(e, given, consumers)
    ensures forall c :: c in consumers <==> c in e.read && c !in given && Reaches(e, c, given)
  {
    forall c, m | Consumes(e, c, m) && (m in given || m in consumers)
      ensures c in given || c in consumers
    {
      UsesMeansConsumes(e, c, reached, given, consumers);
    }
    forall c | c in e.read && c !in given && Reaches(e, c, given)
      ensures c in consumers
    {
      var p :| Path(e, p) && p[0] == c && p[|p| - 1] in given;
      ClosedHoldsReachers(e, given, consumers, p);
    }
  }

  /** The tokens of the given modules. */
  method ReachGiven(e: Declared, given: seq<string>) returns (reached: set<string>)
    ensures ReachedAre(e, reached, given, [])
  {
    reached := {};
    for i := 0 to |given|
      invariant ReachedAre(e, reached, given[..i], [])
    {
      assert given[..i + 1] == given[..i] + [given[i]];
      ghost var before := reached;
      reached := reached + {PathToken(given[i])};
      if given[i] in e.read && e.read[given[i]].package != "" {
        reached := reached + {e.read[given[i]].package};
      }
      assert reached == before + Tokens(e, given[i]);
      ReachedOneMore(e, before, reached, given[..i], given[i]);
    }
    assert given[..|given|] == given;
  }

  /** One pass over the declared modules, adding each that uses something reached by then. */
  method Pass(e: Declared, order: seq<string>, given: seq<string>, was: seq<string>, had: set<string>)
    returns (consumers: seq<string>, reached: set<string>, grew: bool)
    requires Enumerates(order, e.read) && Found(e, had, given, was)
    ensures Found(e, reached, given, consumers)
    ensures was <= consumers && (grew <==> |was| < |consumers|)
    ensures !grew ==> NothingMore(e, order, given, consumers, reached)
  {
    consumers, reached, grew := was, had, false;
    for i := 0 to |order|
      invariant Found(e, reached, given, consumers)
      invariant was <= consumers && (grew <==> |was| < |consumers|)
      invariant !grew ==> NothingMore(e, order[..i], given, consumers, reached)
    {
      var name := order[i];
      assert order[..i + 1] == order[..i] + [name];
      if name in given || name in consumers {
        continue;
      }
      var entry := e.read[name];
      var owners := OwnersOf(e, entry.references);
      UsesByOwners(e, entry, owners, reached);
      if (exists n :: n in entry.needs && n in reached) || (exists o :: o in owners && o in reached) {
        FoundOneMore(e, reached, given, consumers, name);
        ghost var before := reached;
        consumers := consumers + [name];
        reached := reached + {PathToken(name)};
        if entry.package != "" {
          reached := reached + {entry.package};
        }
        assert reached == before + Tokens(e, name);
        grew := true;
      }
    }
    assert order[..|order|] == order;
  }

  /** Get-XmipModuleConsumer. */
  method Consumers(e: Declared, order: seq<string>, given: seq<string>) returns (consumers: seq<string>)
    requires Enumerates(order, e.read)
    ensures NoDuplicates(consumers)
    ensures forall c :: c in consumers <==> c in e.read && c !in given && Reaches(e, c, given)
    ensures ClosedUnderUse(e, given, consumers)
  {
    var reached := ReachGiven(e, given);
    consumers := [];
    var grew := true;
    while grew
      invariant Found(e, reached, given, consumers)
      invariant !grew ==> NothingMore(e, order, given, consumers, reached)
      decreases e.read.Keys - (set c | c in consumers), grew
    {
      ghost var was := consumers;
      consumers, reached, grew := Pass(e, order, given, consumers, reached);
      assert forall c :: c in was ==> c in consumers;
      if grew {
        var first := consumers[|was|];
        assert first in e.read.Keys - (set c | c in was) && first !in e.read.Keys - (set c | c in consumers);
      } else {
        assert consumers == was;
      }
    }
    AllFound(e, reached, order, given, consumers);
  }

  // ---------------------------------------------------------------- what an edge means

  lemma ConsumesByScan(e: Declared, c: string, m: string)
    requires c in e.read
    requires forall x :: x in e.read ==> !("path:" <= e.read[x].package)
    requires forall x :: x in e.read[c].needs ==> !("path:" <= x)
    ensures Consumes(e, c, m) <==>
      || (m in e.read && e.read[m].package != "" && e.read[m].package in e.read[c].needs)
      || (exists r :: r in e.read[c].references && Scan(e.names, e.root, r) == Some(m))
  {
    assert forall a, b :: PathToken(a) == PathToken(b) ==> a == b by {
      assert forall a :: PathToken(a)[5..] == a;
    }
    assert forall r :: r in e.read[c].references && Scan(e.names, e.root, r) == Some(m) ==> OwnerIn(e, r, Tokens(e, m));
    if r :| r in e.read[c].references && OwnerIn(e, r, Tokens(e, m)) {
      var owner := Scan(e.names, e.root, r).value;
      assert PathToken(owner)[..5] == "path:";
      assert owner == m;
    }
    assert PathToken(m)[..5] == "path:";
  }

  /** The names are the declared modules', longest first, as the script sorts them. */
  ghost predicate WellSorted(e: Declared) {
    LongestFirst(e.names) && forall n :: n in e.names <==> n in e.read
  }

  /**
   A package name never begins with "path:" (Cargo allows no colon), and then one module consumes
   another exactly when it needs the other's package or references a path whose innermost declared
   module is the other.
   */
  lemma ConsumesByPackageOrFolder(e: Declared, c: string, m: string)
    requires c in e.read && WellSorted(e)
    requires forall x :: x in e.read ==> !("path:" <= e.read[x].package)
    requires forall x :: x in e.read[c].needs ==> !("path:" <= x)
    ensures Consumes(e, c, m) <==>
      || (m in e.read && e.read[m].package != "" && e.read[m].package in e.read[c].needs)
      || (exists r :: r in e.read[c].references && IsInnermost(e.names, e.root, r, Some(m)))
  {
    hide IsInnermost;
    forall r
      ensures Scan(e.names, e.root, r) == Some(m) <==> IsInnermost(e.names, e.root, r, Some(m))
    {
      ScanFinds(e.names, e.root, r);
      if IsInnermost(e.names, e.root, r, Some(m)) {
        InnermostIsUnique(e.names, e.root, r, Some(m), Scan(e.names, e.root, r));
      }
    }
    ConsumesByScan(e, c, m);
  }
}
