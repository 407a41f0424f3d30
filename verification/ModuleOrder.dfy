/**
 The landing's order (Sort-XmipModuleDependency, Xmip/Get-XmipDeclaredModule.ps1): rounds of
 every module whose dependencies are placed, refused when a round places nothing.

 The rounds are related to chains of dependencies: a module still waits after n rounds exactly
 when a chain of n dependencies starts at it.
 */
module ModuleOrder {
  import opened Wrappers

  /** What Read-XmipModuleManifest says of a module: its package, and the packages its build needs. */
  datatype Manifest = Manifest(package: string, builds: seq<string>)

  type Read = string -> Manifest

  /** `$package`: which given module a package name belongs to, the last one to claim it. */
  function Packages(read: Read, modules: seq<string>): map<string, string> {
    if modules == [] then map[]
    else
      var m := modules[|modules| - 1];
      var before := Packages(read, modules[..|modules| - 1]);
      if read(m).package != "" then before[read(m).package := m] else before
  }

  /** candidate's build needs blocker, a module other than itself. */
  predicate Needs(read: Read, package: map<string, string>, candidate: string, blocker: string) {
    && blocker != "" && blocker != candidate
    && exists b :: b in read(candidate).builds && b in package && package[b] == blocker
  }

  predicate Blocked(read: Read, package: map<string, string>, waiting: seq<string>, candidate: string) {
    exists b :: b in waiting && Needs(read, package, candidate, b)
  }

  function BlockedIn(read: Read, package: map<string, string>, waiting: seq<string>): set<string> {
    set m | m in waiting && Blocked(read, package, waiting, m)
  }

  /** The members of a list that are in a set, in the list's order. */
  function Keep(s: seq<string>, these: set<string>): seq<string> {
    if s == [] then []
    else if s[0] in these then [s[0]] + Keep(s[1..], these)
    else Keep(s[1..], these)
  }

  /** The members of a list that are not. */
  function Leave(s: seq<string>, these: set<string>): seq<string> {
    if s == [] then []
    else if s[0] in these then Leave(s[1..], these)
    else [s[0]] + Leave(s[1..], these)
  }

  function Ready(read: Read, package: map<string, string>, waiting: seq<string>): seq<string> {
    Leave(waiting, BlockedIn(read, package, waiting))
  }

  /** What still waits after n rounds. */
  function After(read: Read, modules: seq<string>, n: nat): seq<string> {
    if n == 0 then modules
    else
      var waiting := After(read, modules, n - 1);
      Keep(waiting, BlockedIn(read, Packages(read, modules), waiting))
  }

  /** What the first n rounds place, round after round. */
  function Placed(read: Read, modules: seq<string>, n: nat): seq<string> {
    if n == 0 then []
    else Placed(read, modules, n - 1) + Ready(read, Packages(read, modules), After(read, modules, n - 1))
  }

  ghost predicate StuckAt(read: Read, modules: seq<string>, n: nat, waiting: seq<string>) {
    After(read, modules, n) == waiting && After(read, modules, n + 1) == waiting
  }

  // ---------------------------------------------------------------- the loop

  function Without(s: seq<string>, m: string): seq<string> {
    if s == [] then [] else if s[0] == m then s[1..] else [s[0]] + Without(s[1..], m)
  }

  lemma {:induction false} WithoutSkips(head: seq<string>, s: seq<string>, m: string)
    requires m !in head
    ensures Without(head + s, m) == head + Without(s, m)
  {
    if head == [] {
      assert [] + s == s && [] + Without(s, m) == Without(s, m);
    } else {
      assert (head + s)[1..] == head[1..] + s;
      WithoutSkips(head[1..], s, m);
    }
  }

  /** List.Remove: the first occurrence, where there is one. */
  method Remove(s: seq<string>, m: string) returns (r: seq<string>)
    ensures r == Without(s, m)
  {
    for i := 0 to |s|
      invariant m !in s[..i]
    {
      if s[i] == m {
        WithoutSkips(s[..i], s[i..], m);
        assert s[..i] + s[i..] == s && s[i..][1..] == s[i + 1..];
        return s[..i] + s[i + 1..];
      }
    }
    r := s;
    WithoutSkips(s, [], m);
    assert s + [] == s;
  }

  function WithoutAll(s: seq<string>, ms: seq<string>): seq<string>
    decreases |ms|
  {
    if ms == [] then s else WithoutAll(Without(s, ms[0]), ms[1..])
  }

  /** Removing the unblocked modules one by one leaves the others, in order, behind what was kept before. */
  lemma {:induction false} WithoutReady(kept: seq<string>, s: seq<string>, blocked: set<string>)
    requires forall m :: m in kept ==> m in blocked
    ensures WithoutAll(kept + s, Leave(s, blocked)) == kept + Keep(s, blocked)
    decreases |s|
  {
    if s == [] {
      assert kept + s == kept;
    } else if s[0] in blocked {
      assert kept + s == (kept + [s[0]]) + s[1..];
      WithoutReady(kept + [s[0]], s[1..], blocked);
      assert Leave(s, blocked) == Leave(s[1..], blocked) && Keep(s, blocked) == [s[0]] + Keep(s[1..], blocked);
      assert kept + Keep(s, blocked) == (kept + [s[0]]) + Keep(s[1..], blocked);
    } else {
      WithoutSkips(kept, s, s[0]);
      assert Without(s, s[0]) == s[1..] && Leave(s, blocked) == [s[0]] + Leave(s[1..], blocked);
      hide Without;
      WithoutReady(kept, s[1..], blocked);
    }
  }

  lemma {:induction false} KeepAndLeave(s: seq<string>, these: set<string>)
    ensures |Keep(s, these)| + |Leave(s, these)| == |s|
    ensures Leave(s, these) == [] ==> Keep(s, these) == s
    ensures multiset(Keep(s, these)) + multiset(Leave(s, these)) == multiset(s)
  {
    if s != [] {
      KeepAndLeave(s[1..], these);
      assert s == [s[0]] + s[1..];
    }
  }

  lemma {:induction false} KeepMembers(s: seq<string>, these: set<string>)
    ensures forall m :: m in Keep(s, these) <==> m in s && m in these
    ensures forall m :: m in Leave(s, these) <==> m in s && m !in these
  {
    if s != [] {
      KeepMembers(s[1..], these);
      assert forall m :: m in s <==> m == s[0] || m in s[1..];
    }
  }

  method IndexPackages(read: Read, modules: seq<string>) returns (package: map<string, string>)
    ensures package == Packages(read, modules)
  {
    package := map[];
    for i := 0 to |modules|
      invariant package == Packages(read, modules[..i])
    {
      assert modules[..i + 1][..i] == modules[..i];
      if read(modules[i]).package != "" {
        package := package[read(modules[i]).package := modules[i]];
      }
    }
    assert modules[..|modules|] == modules;
  }

  /** One round: every ready module is appended to the placed and removed from the waiting. */
  method Place(placed: seq<string>, waiting: seq<string>, ready: seq<string>)
    returns (placed': seq<string>, waiting': seq<string>)
    ensures placed' == placed + ready
    ensures waiting' == WithoutAll(waiting, ready)
  {
    placed', waiting' := placed, waiting;
    for i := 0 to |ready|
      invariant placed' == placed + ready[..i]
      invariant WithoutAll(waiting', ready[i..]) == WithoutAll(waiting, ready)
    {
      assert ready[i..][1..] == ready[i + 1..] && ready[..i + 1] == ready[..i] + [ready[i]];
      placed' := placed' + [ready[i]];
      waiting' := Remove(waiting', ready[i]);
    }
    assert ready[..|ready|] == ready && ready[|ready|..] == [];
  }

  // ---------------------------------------------------------------- what a build needs

  /** The module b is the last of those given to call its package k; no name is no package. */
  ghost predicate Provides(read: Read, modules: seq<string>, k: string, b: string) {
    && k != ""
    && exists i: nat :: i < |modules| && modules[i] == b && read(b).package == k &&
         forall j :: i < j < |modules| ==> read(modules[j]).package != k
  }

  /** a's build names the package of b, another module. */
  ghost predicate BuildsOn(read: Read, modules: seq<string>, a: string, b: string) {
    a != b && b != "" && exists k :: k in read(a).builds && Provides(read, modules, k, b)
  }

  /** The table has exactly the packages some given module provides, each with the last to claim it. */
  lemma {:induction false} PackagesAreProvided(read: Read, modules: seq<string>, k: string, b: string)
    ensures k in Packages(read, modules) && Packages(read, modules)[k] == b <==> Provides(read, modules, k, b)
    ensures k in Packages(read, modules) <==> k != "" && exists m :: m in modules && read(m).package == k
  {
    if modules != [] {
      var last := |modules| - 1;
      var front, m := modules[..last], modules[last];
      assert modules == front + [m];
      PackagesAreProvided(read, front, k, b);
      if read(m).package == k && k != "" {
        assert modules[last] == m && Packages(read, modules)[k] == m;
      } else if Provides(read, front, k, b) {
        var i: nat :| i < |front| && front[i] == b && read(b).package == k &&
                      forall j :: i < j < |front| ==> read(front[j]).package != k;
        assert modules[i] == b;
      }
    }
  }

  /** What the loop looks up in the table is that one module's build names the other's package. */
  lemma NeedsIsBuildsOn(read: Read, modules: seq<string>, a: string, b: string)
    ensures Needs(read, Packages(read, modules), a, b) <==> BuildsOn(read, modules, a, b)
  {
    hide Packages, Provides;
    if k :| k in read(a).builds && k in Packages(read, modules) && Packages(read, modules)[k] == b {
      PackagesAreProvided(read, modules, k, b);
    }
    if k :| k in read(a).builds && Provides(read, modules, k, b) {
      PackagesAreProvided(read, modules, k, b);
    }
  }

  // ---------------------------------------------------------------- chains of dependencies

  /** p is a chain: each module's build needs the next, and all are among the given modules. */
  ghost predicate Chain(read: Read, modules: seq<string>, p: seq<string>) {
    && p != []
    && (forall i :: 0 <= i < |p| ==> p[i] in modules)
    && (forall i :: 0 <= i < |p| - 1 ==> BuildsOn(read, modules, p[i], p[i + 1]))
  }

  ghost predicate HasChain(read: Read, modules: seq<string>, m: string, n: nat) {
    exists p :: Chain(read, modules, p) && p[0] == m && |p| == n + 1
  }

  ghost predicate Cycle(read: Read, modules: seq<string>, p: seq<string>) {
    Chain(read, modules, p) && |p| > 1 && p[0] == p[|p| - 1]
  }

  ghost predicate CycleFrom(read: Read, modules: seq<string>, m: string) {
    exists p, q :: Chain(read, modules, p) && p[0] == m && Cycle(read, modules, q) && p[|p| - 1] == q[0]
  }

  lemma ChainTail(read: Read, modules: seq<string>, p: seq<string>, k: nat)
    requires Chain(read, modules, p) && k < |p|
    ensures Chain(read, modules, p[k..]) && Chain(read, modules, p[..k + 1])
  {
  }

  lemma ChainPrepend(read: Read, modules: seq<string>, m: string, b: string, n: nat)
    requires m in modules && BuildsOn(read, modules, m, b) && HasChain(read, modules, b, n)
    ensures HasChain(read, modules, m, n + 1)
  {
    var p :| Chain(read, modules, p) && p[0] == b && |p| == n + 1;
    var q := [m] + p;
    forall i | 0 <= i < |q| - 1
      ensures BuildsOn(read, modules, q[i], q[i + 1])
    {
      if i > 0 {
        assert q[i] == p[i - 1] && q[i + 1] == p[i];
      }
    }
    assert Chain(read, modules, q);
  }

  lemma ChainOfOne(read: Read, modules: seq<string>, m: string)
    requires m in modules
    ensures HasChain(read, modules, m, 0)
  {
    assert Chain(read, modules, [m]);
  }

  /** One round's waiting: what waited already, and has a blocker that waited too. */
  lemma WaitsOnBlocker(read: Read, modules: seq<string>, n: nat, m: string) returns (b: string)
    requires n > 0 && m in After(read, modules, n)
    ensures m in After(read, modules, n - 1) && b in After(read, modules, n - 1)
    ensures BuildsOn(read, modules, m, b)
  {
    hide Keep, Needs, Packages, BuildsOn;
    var waiting, package := After(read, modules, n - 1), Packages(read, modules);
    KeepMembers(waiting, BlockedIn(read, package, waiting));
    b :| b in waiting && Needs(read, package, m, b);
    NeedsIsBuildsOn(read, modules, m, b);
  }

  lemma {:induction false} WaitingHasChain(read: Read, modules: seq<string>, n: nat, m: string)
    requires m in After(read, modules, n)
    ensures m in modules && HasChain(read, modules, m, n)
  {
    if n == 0 {
      ChainOfOne(read, modules, m);
    } else {
      hide After, BuildsOn, HasChain;
      var b := WaitsOnBlocker(read, modules, n, m);
      WaitingHasChain(read, modules, n - 1, m);
      WaitingHasChain(read, modules, n - 1, b);
      ChainPrepend(read, modules, m, b, n - 1);
    }
  }

  lemma {:induction false} ChainWaits(read: Read, modules: seq<string>, n: nat, p: seq<string>)
    requires Chain(read, modules, p) && |p| == n + 1
    ensures p[0] in After(read, modules, n)
  {
    if n > 0 {
      var waiting, package := After(read, modules, n - 1), Packages(read, modules);
      KeepMembers(waiting, BlockedIn(read, package, waiting));
      ChainTail(read, modules, p, 1);
      ChainTail(read, modules, p, n - 1);
      ChainWaits(read, modules, n - 1, p[1..]);
      ChainWaits(read, modules, n - 1, p[..n]);
      NeedsIsBuildsOn(read, modules, p[0], p[1]);
    }
  }

  /** A module waits after n rounds exactly when a chain of n dependencies starts at it. */
  lemma WaitsByChain(read: Read, modules: seq<string>, n: nat, m: string)
    ensures m in After(read, modules, n) <==> HasChain(read, modules, m, n)
  {
    if m in After(read, modules, n) {
      WaitingHasChain(read, modules, n, m);
    }
    if HasChain(read, modules, m, n) {
      var p :| Chain(read, modules, p) && p[0] == m && |p| == n + 1;
      ChainWaits(read, modules, n, p);
    }
  }

  // ---------------------------------------------------------------- a round that places nothing is a cycle

  lemma {:induction false} Pigeonhole(p: seq<string>, pool: set<string>) returns (i: nat, j: nat)
    requires |p| > |pool| && forall m :: m in p ==> m in pool
    ensures i < j < |p| && p[i] == p[j]
    decreases |p|
  {
    if k :| 1 <= k < |p| && p[k] == p[0] {
      i, j := 0, k;
    } else {
      i, j := Pigeonhole(p[1..], pool - {p[0]});
      i, j := i + 1, j + 1;
    }
  }

  lemma LongChainRepeats(read: Read, modules: seq<string>, m: string)
    requires HasChain(read, modules, m, |set x | x in modules|)
    ensures CycleFrom(read, modules, m)
  {
    var p :| Chain(read, modules, p) && p[0] == m && |p| == |set x | x in modules| + 1;
    var i, j := Pigeonhole(p, set x | x in modules);
    ChainTail(read, modules, p, i);
    ChainTail(read, modules, p, j);
    ChainTail(read, modules, p[..j + 1], i);
    assert Cycle(read, modules, p[..j + 1][i..]);
    assert p[..i + 1][0] == m;
  }

  lemma {:induction false} CycleGoesOn(read: Read, modules: seq<string>, m: string, n: nat)
    requires CycleFrom(read, modules, m)
    ensures HasChain(read, modules, m, n)
    decreases n
  {
    var p, q :| Chain(read, modules, p) && p[0] == m && Cycle(read, modules, q) && p[|p| - 1] == q[0];
    if n == 0 {
      assert Chain(read, modules, [m]);
    } else {
      var rest := if |p| > 1 then p[1..] else q[1..];
      if |p| > 1 {
        ChainTail(read, modules, p, 1);
      } else {
        ChainTail(read, modules, q, 1);
      }
      assert Chain(read, modules, rest) && rest[|rest| - 1] == q[0];
      assert CycleFrom(read, modules, rest[0]);
      CycleGoesOn(read, modules, rest[0], n - 1);
      ChainPrepend(read, modules, m, rest[0], n - 1);
    }
  }

  lemma {:induction false} StuckForEver(read: Read, modules: seq<string>, n: nat, waiting: seq<string>, more: nat)
    requires StuckAt(read, modules, n, waiting)
    ensures After(read, modules, n + more) == waiting
  {
    if more > 0 {
      StuckForEver(read, modules, n, waiting, more - 1);
    }
  }

  /** The modules a stuck round names are exactly those from which a cycle is reached. */
  lemma StuckReachesCycle(read: Read, modules: seq<string>, n: nat, waiting: seq<string>, m: string)
    requires StuckAt(read, modules, n, waiting)
    ensures m in waiting <==> CycleFrom(read, modules, m)
  {
    if m in waiting {
      var size := |set x | x in modules|;
      StuckForEver(read, modules, n, waiting, size);
      WaitsByChain(read, modules, n + size, m);
      var p :| Chain(read, modules, p) && p[0] == m && |p| == n + size + 1;
      ChainTail(read, modules, p, size);
      assert HasChain(read, modules, m, size);
      LongChainRepeats(read, modules, m);
    }
    if CycleFrom(read, modules, m) {
      CycleGoesOn(read, modules, m, n);
      WaitsByChain(read, modules, n, m);
    }
  }

  // ---------------------------------------------------------------- the order

  ghost predicate LongestIs(read: Read, modules: seq<string>, m: string, n: nat) {
    HasChain(read, modules, m, n) && !HasChain(read, modules, m, n + 1)
  }

  /** The modules whose longest chain of dependencies is n, in the order they were given. */
  ghost function Round(read: Read, modules: seq<string>, n: nat): seq<string> {
    Keep(modules, set m | m in modules && LongestIs(read, modules, m, n))
  }

  ghost function Rounds(read: Read, modules: seq<string>, n: nat): seq<string> {
    if n == 0 then [] else Rounds(read, modules, n - 1) + Round(read, modules, n - 1)
  }

  /** Nothing stands before a module its build needs. */
  ghost predicate DependenciesFirst(read: Read, modules: seq<string>, order: seq<string>) {
    forall i, j | 0 <= i < |order| && 0 <= j < |order| ::
      BuildsOn(read, modules, order[i], order[j]) ==> j < i
  }

  lemma {:induction false} KeepOfKeep(s: seq<string>, these: set<string>, those: set<string>)
    ensures Keep(Keep(s, these), those) == Keep(s, these * those)
    ensures Leave(Keep(s, these), those) == Keep(s, these - those)
  {
    if s != [] {
      KeepOfKeep(s[1..], these, those);
    }
  }

  lemma {:induction false} KeepAgrees(s: seq<string>, these: set<string>, those: set<string>)
    requires forall m :: m in s ==> (m in these <==> m in those)
    ensures Keep(s, these) == Keep(s, those)
  {
    if s != [] {
      assert s[0] in s && forall m :: m in s[1..] ==> m in s;
      KeepAgrees(s[1..], these, those);
    }
  }

  lemma {:induction false} KeepAll(s: seq<string>, these: set<string>)
    requires forall m :: m in s ==> m in these
    ensures Keep(s, these) == s
  {
    if s != [] {
      assert s[0] in s && forall m :: m in s[1..] ==> m in s;
      KeepAll(s[1..], these);
    }
  }

  /** The modules that are at the head of a chain of n dependencies. */
  ghost function Chained(read: Read, modules: seq<string>, n: nat): set<string> {
    set m | m in modules && HasChain(read, modules, m, n)
  }

  /** A round blocks exactly those waiting that a longer chain starts at. */
  lemma BlockedAreChained(read: Read, modules: seq<string>, n: nat, m: string)
    requires After(read, modules, n) == Keep(modules, Chained(read, modules, n))
    ensures var blocked := BlockedIn(read, Packages(read, modules), After(read, modules, n));
      m in modules ==> (m in Chained(read, modules, n) * blocked <==> m in Chained(read, modules, n + 1))
  {
    hide Packages, Needs, HasChain, Blocked;
    var blocked := BlockedIn(read, Packages(read, modules), After(read, modules, n));
    KeepMembers(modules, Chained(read, modules, n));
    KeepMembers(After(read, modules, n), blocked);
    WaitsByChain(read, modules, n, m);
    WaitsByChain(read, modules, n + 1, m);
    assert After(read, modules, n + 1) == Keep(After(read, modules, n), blocked);
  }

  lemma AllAreChained(read: Read, modules: seq<string>)
    ensures Keep(modules, Chained(read, modules, 0)) == modules
  {
    hide HasChain;
    forall m | m in modules
      ensures m in Chained(read, modules, 0)
    {
      ChainOfOne(read, modules, m);
    }
    KeepAll(modules, Chained(read, modules, 0));
  }

  lemma LongestIsChained(read: Read, modules: seq<string>, n: nat, m: string)
    requires m in modules
    ensures LongestIs(read, modules, m, n) <==> m in Chained(read, modules, n) && m !in Chained(read, modules, n + 1)
  {
    hide HasChain;
  }

  lemma RoundIsReady(read: Read, modules: seq<string>, n: nat)
    requires After(read, modules, n) == Keep(modules, Chained(read, modules, n))
    ensures Ready(read, Packages(read, modules), After(read, modules, n)) == Round(read, modules, n)
  {
    hide Keep, Leave, Packages, After, BlockedIn, LongestIs, Chained;
    var these, blocked := Chained(read, modules, n), BlockedIn(read, Packages(read, modules), After(read, modules, n));
    var longest := set m | m in modules && LongestIs(read, modules, m, n);
    KeepOfKeep(modules, these, blocked);
    forall m | m in modules
      ensures m in these - blocked <==> m in longest
    {
      BlockedAreChained(read, modules, n, m);
      LongestIsChained(read, modules, n, m);
    }
    KeepAgrees(modules, these - blocked, longest);
  }

  /** What waits, and what a round places, is the given list thinned out and never reordered. */
  lemma {:induction false} AfterKeepsOrder(read: Read, modules: seq<string>, n: nat)
    ensures After(read, modules, n) == Keep(modules, Chained(read, modules, n))
    ensures Ready(read, Packages(read, modules), After(read, modules, n)) == Round(read, modules, n)
  {
    hide Keep, Packages, BlockedIn, HasChain, Chained;
    if n == 0 {
      AllAreChained(read, modules);
    } else {
      AfterKeepsOrder(read, modules, n - 1);
      var before := Chained(read, modules, n - 1);
      var blocked := BlockedIn(read, Packages(read, modules), After(read, modules, n - 1));
      KeepOfKeep(modules, before, blocked);
      forall m | m in modules
        ensures m in before * blocked <==> m in Chained(read, modules, n)
      {
        BlockedAreChained(read, modules, n - 1, m);
      }
      KeepAgrees(modules, before * blocked, Chained(read, modules, n));
    }
    RoundIsReady(read, modules, n);
  }

  lemma {:induction false} PlacedIsRounds(read: Read, modules: seq<string>, n: nat)
    ensures Placed(read, modules, n) == Rounds(read, modules, n)
  {
    hide After, Ready, Round, Packages;
    if n > 0 {
      PlacedIsRounds(read, modules, n - 1);
      AfterKeepsOrder(read, modules, n - 1);
    }
  }

  lemma AddUp(placed: seq<string>, ready: seq<string>, still: multiset<string>, waiting: multiset<string>)
    requires still + multiset(ready) == waiting
    ensures multiset(placed + ready) + still == multiset(placed) + waiting
  {
  }

  lemma {:induction false} PlacedIsPermutation(read: Read, modules: seq<string>, n: nat)
    ensures multiset(Placed(read, modules, n)) + multiset(After(read, modules, n)) == multiset(modules)
  {
    hide Keep, Leave, BlockedIn, Packages;
    if n > 0 {
      PlacedIsPermutation(read, modules, n - 1);
      var waiting := After(read, modules, n - 1);
      var blocked := BlockedIn(read, Packages(read, modules), waiting);
      KeepAndLeave(waiting, blocked);
      AddUp(Placed(read, modules, n - 1), Leave(waiting, blocked), multiset(Keep(waiting, blocked)), multiset(waiting));
    }
  }

  /** Everything a placed module needs stands before it, and waits no more. */
  lemma {:induction false} PlacedAfterNeeds(read: Read, modules: seq<string>, n: nat, i: nat, b: string)
    requires i < |Placed(read, modules, n)| && BuildsOn(read, modules, Placed(read, modules, n)[i], b)
    ensures b !in After(read, modules, n)
    ensures forall j :: 0 <= j < |Placed(read, modules, n)| && Placed(read, modules, n)[j] == b ==> j < i
  {
    var package, waiting, before := Packages(read, modules), After(read, modules, n - 1), Placed(read, modules, n - 1);
    var blocked := BlockedIn(read, package, waiting);
    var ready := Ready(read, package, waiting);
    KeepMembers(waiting, blocked);
    hide Packages, BuildsOn, Needs, Keep, Leave;
    if i < |before| {
      PlacedAfterNeeds(read, modules, n - 1, i, b);
    } else {
      var m := ready[i - |before|];
      assert m == Placed(read, modules, n)[i] && m in ready;
      assert !Blocked(read, package, waiting, m);
      NeedsIsBuildsOn(read, modules, m, b);
    }
    assert forall j :: |before| <= j < |Placed(read, modules, n)| ==>
      Placed(read, modules, n)[j] == ready[j - |before|] && Placed(read, modules, n)[j] in ready;
  }

  lemma StuckIsCycle(read: Read, modules: seq<string>, n: nat, waiting: seq<string>)
    requires StuckAt(read, modules, n, waiting) && waiting != []
    ensures exists p :: Cycle(read, modules, p)
    ensures waiting == Keep(modules, set m | m in modules && CycleFrom(read, modules, m))
  {
    StuckReachesCycle(read, modules, n, waiting, waiting[0]);
    AfterKeepsOrder(read, modules, n);
    forall m | m in modules
      ensures HasChain(read, modules, m, n) <==> CycleFrom(read, modules, m)
    {
      StuckReachesCycle(read, modules, n, waiting, m);
      WaitsByChain(read, modules, n, m);
    }
    KeepAgrees(modules, set m | m in modules && HasChain(read, modules, m, n),
               set m | m in modules && CycleFrom(read, modules, m));
  }

  lemma DoneIsOrdered(read: Read, modules: seq<string>, n: nat)
    requires After(read, modules, n) == []
    ensures !exists p :: Cycle(read, modules, p)
    ensures var order := Placed(read, modules, n);
      && multiset(order) == multiset(modules)
      && order == Rounds(read, modules, n)
      && DependenciesFirst(read, modules, order)
  {
    var order := Placed(read, modules, n);
    if p :| Cycle(read, modules, p) {
      assert CycleFrom(read, modules, p[0]) by {
        ChainTail(read, modules, p, 0);
        assert p[..1][0] == p[0];
      }
      CycleGoesOn(read, modules, p[0], n);
      WaitsByChain(read, modules, n, p[0]);
    }
    PlacedIsPermutation(read, modules, n);
    PlacedIsRounds(read, modules, n);
    forall i, j | 0 <= i < |order| && 0 <= j < |order| && BuildsOn(read, modules, order[i], order[j])
      ensures j < i
    {
      PlacedAfterNeeds(read, modules, n, i, order[j]);
    }
  }

  /** Sort-XmipModuleDependency: the order, or the modules a cycle leaves waiting. */
  method Sort(read: Read, modules: seq<string>) returns (result: Result<seq<string>, seq<string>>)
    // It refuses exactly when there is a cycle, and names exactly the modules that lead to one.
    ensures result.Err? <==> exists p :: Cycle(read, modules, p)
    ensures result.Err? ==>
      result.error == Keep(modules, set m | m in modules && CycleFrom(read, modules, m))
    // Otherwise nothing is lost, nothing comes before what it needs, and the rounds are by longest chain.
    ensures result.Ok? ==> multiset(result.value) == multiset(modules)
    ensures result.Ok? ==> DependenciesFirst(read, modules, result.value)
    ensures result.Ok? ==> exists n: nat :: result.value == Rounds(read, modules, n)
  {
    var package := IndexPackages(read, modules);
    var placed := [];
    var waiting := modules;
    ghost var n: nat := 0;
    while |waiting| > 0
      invariant waiting == After(read, modules, n)
      invariant placed == Placed(read, modules, n)
      decreases |waiting|
    {
      ghost var blocked := BlockedIn(read, package, waiting);
      var ready := Ready(read, package, waiting);
      WithoutReady([], waiting, blocked);
      assert [] + waiting == waiting && [] + Keep(waiting, blocked) == Keep(waiting, blocked);
      KeepAndLeave(waiting, blocked);
      if |ready| == 0 {
        StuckIsCycle(read, modules, n, waiting);
        return Err(waiting);
      }
      placed, waiting := Place(placed, waiting, ready);
      n := n + 1;
    }
    DoneIsOrdered(read, modules, n);
    return Ok(placed);
  }
}
