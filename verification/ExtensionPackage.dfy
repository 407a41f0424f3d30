/**
 The packages of the extension's lock its build needs (Get-XmipExtensionPackage,
 Xmip/Build-XmipExtension.ps1): a worklist closure under "depends on", where a copy nested under
 a package wins over the one at the top.
 */
module ExtensionPackage {
  import opened Wrappers

  /** One entry of package-lock.json's packages, by the tables it states. */
  datatype Entry = Entry(dependencies: Option<seq<string>>, devDependencies: Option<seq<string>>)

  type Lock = map<string, Entry>

  /** What makes the script stop: a table it reads without asking whether it is there, or a lost package. */
  datatype Fault = NoTop | NoDependencies | NoDevDependencies | Missing(at: string)

  function TypesOf(names: seq<string>): (types: seq<string>)
    ensures forall n :: n in types <==> n in names && "@types/" <= n
  {
    if names == [] then []
    else if "@types/" <= names[0] then [names[0]] + TypesOf(names[1..])
    else TypesOf(names[1..])
  }

  /** The packages asked for: the runtime dependencies and, unless Runtime, the type declarations. */
  function Wanted(lock: Lock, runtime: bool): (r: Result<seq<string>, Fault>)
    ensures r == Err(NoTop) <==> "" !in lock
    ensures r == Err(NoDependencies) <==> "" in lock && lock[""].dependencies.None?
    ensures r == Err(NoDevDependencies) <==>
      "" in lock && lock[""].dependencies.Some? && !runtime && lock[""].devDependencies.None?
    ensures r.Err? ==> !r.error.Missing?
    ensures r.Ok? ==> forall n :: n in r.value <==>
      n in lock[""].dependencies.value || (!runtime && n in lock[""].devDependencies.value && "@types/" <= n)
  {
    if "" !in lock then Err(NoTop)
    else
      var top := lock[""];
      if top.dependencies.None? then Err(NoDependencies)
      else if runtime then Ok(top.dependencies.value)
      else if top.devDependencies.None? then Err(NoDevDependencies)
      else Ok(top.dependencies.value + TypesOf(top.devDependencies.value))
  }

  function Top(name: string): string {
    "node_modules/" + name
  }

  /** Where a package of that name is, for the package at `at`. */
  function Resolve(lock: Lock, at: string, name: string): string {
    var nested := at + "/node_modules/" + name;
    if nested in lock then nested else Top(name)
  }

  function Needs(lock: Lock, at: string): seq<string>
    requires at in lock
  {
    if lock[at].dependencies.Some? then lock[at].dependencies.value else []
  }

  /** A package depends on the copy nested under it where the lock has one, else on the one at the top. */
  predicate DependsOn(lock: Lock, at: string, next: string) {
    && at in lock && lock[at].dependencies.Some?
    && exists n :: n in lock[at].dependencies.value && next ==
         if at + "/node_modules/" + n in lock then at + "/node_modules/" + n else "node_modules/" + n
  }

  ghost predicate Path(lock: Lock, wanted: seq<string>, p: seq<string>) {
    && p != []
    && (exists w :: w in wanted && p[0] == "node_modules/" + w)
    && (forall i :: 0 <= i < |p| - 1 ==> DependsOn(lock, p[i], p[i + 1]))
  }

  /** The build needs the package at `at`, directly or through others. */
  ghost predicate Needed(lock: Lock, wanted: seq<string>, at: string) {
    exists p :: Path(lock, wanted, p) && p[|p| - 1] == at
  }

  lemma NeededOn(lock: Lock, wanted: seq<string>, at: string, next: string)
    requires Needed(lock, wanted, at) && DependsOn(lock, at, next)
    ensures Needed(lock, wanted, next)
  {
    var p :| Path(lock, wanted, p) && p[|p| - 1] == at;
    var q := p + [next];
    assert forall i :: 0 <= i < |q| - 1 ==> q[i] == p[i];
    assert Path(lock, wanted, q);
  }

  /** A set that holds the wanted packages and whatever its members depend on holds all that is needed. */
  lemma {:induction false} ClosedHoldsNeeded(lock: Lock, wanted: seq<string>, found: set<string>, p: seq<string>)
    requires Path(lock, wanted, p)
    requires forall w :: w in wanted ==> Top(w) in found
    requires forall at, next :: at in found && DependsOn(lock, at, next) ==> next in found
    ensures p[|p| - 1] in found
    decreases |p|
  {
    if |p| > 1 {
      ClosedHoldsNeeded(lock, wanted, found, p[..|p| - 1]);
      assert DependsOn(lock, p[|p| - 2], p[|p| - 1]);
    }
  }

  ghost predicate Pending(queue: seq<string>, found: set<string>, at: string) {
    at in queue || at in found
  }

  /** Everything met is needed, and all that a visited package depends on is met. */
  ghost predicate Progress(lock: Lock, wanted: seq<string>, found: set<string>, queue: seq<string>) {
    && (forall at :: Pending(queue, found, at) ==> Needed(lock, wanted, at))
    && (forall w :: w in wanted ==> Pending(queue, found, Top(w)))
    && (forall at :: at in found ==> at in lock)
    && (forall at, next :: at in found && DependsOn(lock, at, next) ==> Pending(queue, found, next))
  }

  /** The next packages of one package, in the order its dependencies are listed. */
  method NextOf(lock: Lock, at: string) returns (next: seq<string>)
    requires at in lock
    ensures forall n :: n in next <==> DependsOn(lock, at, n)
  {
    next := [];
    var needs := Needs(lock, at);
    for i := 0 to |needs|
      invariant forall n :: n in next ==> DependsOn(lock, at, n)
      invariant forall j :: 0 <= j < i ==> Resolve(lock, at, needs[j]) in next
    {
      assert needs[i] in needs;
      next := next + [Resolve(lock, at, needs[i])];
    }
  }

  lemma Skip(lock: Lock, wanted: seq<string>, found: set<string>, queue: seq<string>)
    requires Progress(lock, wanted, found, queue) && queue != [] && queue[0] in found
    ensures Progress(lock, wanted, found, queue[1..])
  {
    assert queue == [queue[0]] + queue[1..];
    assert forall at :: Pending(queue, found, at) <==> Pending(queue[1..], found, at);
  }

  lemma PendingAfter(found: set<string>, queue: seq<string>, next: seq<string>, x: string)
    requires queue != []
    ensures Pending(queue, found, x) ==> Pending(queue[1..] + next, found + {queue[0]}, x)
    ensures Pending(queue[1..] + next, found + {queue[0]}, x) ==> Pending(queue, found, x) || x in next
    ensures x in next ==> Pending(queue[1..] + next, found + {queue[0]}, x)
  {
    assert queue == [queue[0]] + queue[1..];
  }

  lemma Visit(lock: Lock, wanted: seq<string>, found: set<string>, queue: seq<string>, next: seq<string>)
    requires Progress(lock, wanted, found, queue) && queue != [] && queue[0] in lock
    requires forall n :: n in next <==> DependsOn(lock, queue[0], n)
    ensures Progress(lock, wanted, found + {queue[0]}, queue[1..] + next)
  {
    hide Needed, DependsOn;
    var at := queue[0];
    assert Pending(queue, found, at);
    forall n | n in next
      ensures Needed(lock, wanted, n)
    {
      NeededOn(lock, wanted, at, n);
    }
    forall x
      ensures Pending(queue, found, x) ==> Pending(queue[1..] + next, found + {at}, x)
      ensures Pending(queue[1..] + next, found + {at}, x) ==> Pending(queue, found, x) || x in next
      ensures x in next ==> Pending(queue[1..] + next, found + {at}, x)
    {
      PendingAfter(found, queue, next, x);
    }
    hide Pending;
  }

  /** Get-XmipExtensionPackage: what is needed, or the first needed package found missing. */
  method Packages(lock: Lock, runtime: bool) returns (result: Result<set<string>, Fault>)
    ensures result.Ok? <==>
      Wanted(lock, runtime).Ok? && forall at :: Needed(lock, Wanted(lock, runtime).value, at) ==> at in lock
    ensures result.Ok? ==>
      forall at :: at in result.value <==> Needed(lock, Wanted(lock, runtime).value, at)
    ensures Wanted(lock, runtime).Err? ==> result == Err(Wanted(lock, runtime).error)
    ensures result.Err? && result.error.Missing? ==> Wanted(lock, runtime).Ok?
    ensures result.Err? && Wanted(lock, runtime).Ok? ==> result.error.Missing?
    ensures result.Err? && result.error.Missing? ==>
      result.error.at !in lock && Needed(lock, Wanted(lock, runtime).value, result.error.at)
  {
    if Wanted(lock, runtime).Err? {
      return Err(Wanted(lock, runtime).error);
    }
    var wanted := Wanted(lock, runtime).value;
    var found: set<string> := {};
    var queue: seq<string> := [];
    for i := 0 to |wanted|
      invariant forall q :: q in queue ==> exists j :: 0 <= j < i && q == Top(wanted[j])
      invariant forall j :: 0 <= j < i ==> Top(wanted[j]) in queue
    {
      queue := queue + [Top(wanted[i])];
    }
    forall q | q in queue
      ensures Needed(lock, wanted, q)
    {
      assert Path(lock, wanted, [q]);
    }
    while |queue| > 0
      invariant Progress(lock, wanted, found, queue)
      decreases lock.Keys - found, |queue|
    {
      var at := queue[0];
      assert queue == [at] + queue[1..];
      assert Pending(queue, found, at);
      if at in found {
        Skip(lock, wanted, found, queue);
        queue := queue[1..];
        continue;
      }
      if at !in lock {
        return Err(Missing(at));
      }
      var next := NextOf(lock, at);
      Visit(lock, wanted, found, queue, next);
      found := found + {at};
      queue := queue[1..] + next;
    }
    forall at | Needed(lock, wanted, at)
      ensures at in found
    {
      var p :| Path(lock, wanted, p) && p[|p| - 1] == at;
      assert forall x :: Pending(queue, found, x) ==> x in found;
      ClosedHoldsNeeded(lock, wanted, found, p);
    }
    assert forall at :: at in found ==> Pending(queue, found, at);
    return Ok(found);
  }

  /** Asking for more packages needs more packages. */
  lemma NeededGrows(lock: Lock, some: seq<string>, more: seq<string>, at: string)
    requires forall w :: w in some ==> w in more
    requires Needed(lock, some, at)
    ensures Needed(lock, more, at)
  {
    var p :| Path(lock, some, p) && p[|p| - 1] == at;
    assert Path(lock, more, p);
  }

  /**
   The two callers together: Restore-XmipExtensionPackage visits the full closure and
   New-XmipExtensionPackage copies the runtime one, which is part of it and fails only if it does.
   */
  method RestoreThenCarry(lock: Lock)
    returns (restored: Result<set<string>, Fault>, carried: Result<set<string>, Fault>)
    ensures restored.Ok? ==> carried.Ok? && carried.value <= restored.value
    ensures carried.Err? ==> restored.Err?
  {
    restored := Packages(lock, false);
    carried := Packages(lock, true);
    if restored.Ok? {
      var wanted, full := Wanted(lock, true).value, Wanted(lock, false).value;
      assert forall w :: w in wanted ==> w in full;
      forall at | Needed(lock, wanted, at)
        ensures Needed(lock, full, at)
      {
        NeededGrows(lock, wanted, full, at);
      }
    }
  }
}
