/**
 The tree of mounts (New-XmipMapNode, Add-XmipMapMount, and New-XmipMapTree's placing): nodes are
 objects reached step by step from the root, made on the way where they are missing.

 `at` is the tree as a map from places to nodes, which the nodes' own child tables are held to.
 What the counts on the nodes add up to is then a sum over that map.
 */
module MountTree {
  import opened Wrappers
  import opened Text
  import opened MapWeight

  /** Where a node is: at the root, or one step below another place. */
  datatype Place = Top | Below(above: Place, step: string)

  /** Where k steps of a mount's path lead. */
  function PlaceOf(step: seq<string>, k: nat): Place
    requires k <= |step|
  {
    if k == 0 then Top else Below(PlaceOf(step, k - 1), step[k - 1])
  }

  function MountPlace(mount: string): Place {
    PlaceOf(Split(mount, '/'), |Split(mount, '/')|)
  }

  /** What one node says of its place. */
  datatype Fact = Fact(code: Option<nat>, language: Option<Spoken>)

  const SILENT := Fact(None, None)

  type Facts = map<Place, Fact>

  /** The levels down to the first k steps are there; one that was not says nothing. */
  ghost function Grown(facts: Facts, step: seq<string>, k: nat): Facts
    requires k <= |step|
  {
    if k == 0 then facts
    else
      var before := Grown(facts, step, k - 1);
      if PlaceOf(step, k) in before then before else before[PlaceOf(step, k) := SILENT]
  }

  /** A mount inserted: its levels there, and its lines on its own node where it has any. */
  ghost function Inserted(facts: Facts, mount: string, spoken: Option<Spoken>): Facts {
    var step := Split(mount, '/');
    var grown := Grown(facts, step, |step|);
    match spoken
    case None => grown
    case Some(lines) => grown[MountPlace(mount) := Fact(Some(Sum(lines)), spoken)]
  }

  class Node {
    const name: string
    var code: Option<nat>
    var language: Option<Spoken>
    var child: map<string, Node>

    constructor (name: string)
      ensures this.name == name && code == None && language == None && child == map[]
    {
      this.name := name;
      code, language, child := None, None, map[];
    }
  }

  type KidMap = map<Node, map<string, Node>>

  /** A node's child table leads to exactly the places below it. */
  ghost predicate LeadsOn(at: map<Place, Node>, p: Place, child: map<string, Node>) {
    && (forall step :: step in child ==> Below(p, step) in at && child[step] == at[Below(p, step)])
    && (forall step :: Below(p, step) in at ==> step in child)
  }

  ghost predicate Distinct(at: map<Place, Node>) {
    forall p, q :: p in at && q in at && at[p] == at[q] ==> p == q
  }

  ghost predicate Rooted(at: map<Place, Node>) {
    forall p :: p in at && p.Below? ==> p.above in at && at[p].name == p.step
  }

  /** The places are exactly what the child tables lead to from the root, one node to a place. */
  ghost predicate Shaped(root: Node, at: map<Place, Node>, kids: KidMap) {
    && Top in at && at[Top] == root
    && Distinct(at) && Rooted(at)
    && (forall p :: p in at ==> at[p] in kids && LeadsOn(at, p, kids[at[p]]))
  }

  lemma ElsewhereLeadsOn(at: map<Place, Node>, q: Place, child: map<string, Node>, p: Place, step: string, made: Node)
    requires LeadsOn(at, q, child) && q != p
    ensures LeadsOn(at[Below(p, step) := made], q, child)
  {
  }

  lemma AboveLeadsOn(at: map<Place, Node>, p: Place, child: map<string, Node>, step: string, made: Node)
    requires LeadsOn(at, p, child)
    ensures LeadsOn(at[Below(p, step) := made], p, child[step := made])
  {
  }

  lemma NewLeadsNowhere(at: map<Place, Node>, p: Place, step: string, made: Node)
    requires Rooted(at) && Below(p, step) !in at
    ensures LeadsOn(at[Below(p, step) := made], Below(p, step), map[])
  {
    var below := Below(p, step);
    forall s
      ensures Below(below, s) !in at[below := made]
    {
      assert Below(below, s).above == below;
    }
  }

  lemma ShapedGrows(root: Node, at: map<Place, Node>, kids: KidMap, p: Place, step: string, made: Node,
                    at': map<Place, Node>, kids': KidMap)
    requires Shaped(root, at, kids) && p in at && Below(p, step) !in at
    requires made !in kids && made.name == step
    requires at' == at[Below(p, step) := made]
    requires kids' == kids[at[p] := kids[at[p]][step := made]][made := map[]]
    ensures Shaped(root, at', kids')
  {
    hide LeadsOn;
    var here, below := at[p], Below(p, step);
    assert forall q :: q in at ==> at[q] != made;
    forall q | q in at'
      ensures at'[q] in kids' && LeadsOn(at', q, kids'[at'[q]])
    {
      if q == below {
        NewLeadsNowhere(at, p, step, made);
      } else if q == p {
        AboveLeadsOn(at, p, kids[here], step, made);
      } else {
        ElsewhereLeadsOn(at, q, kids[at[q]], p, step, made);
        assert at[q] != here;
      }
    }
  }

  lemma MountIsAtItsSteps(mount: string)
    ensures MountPlace(mount) == PlaceOf(Split(mount, '/'), |Split(mount, '/')|)
  {
  }

  // ---------------------------------------------------------------- what the nodes add up to

  ghost function Counts(facts: Facts): map<Place, nat> {
    map p | p in facts && facts[p].code.Some? :: facts[p].code.value
  }

  /** The totals of the mounts placed, as the weights have them. */
  ghost function PlacedTotals(mounts: seq<string>, weight: Weights): map<string, nat> {
    map m | m in weight && m in mounts :: Sum(weight[m])
  }

  function StepsOf(p: Place): seq<string> {
    if p.Top? then [] else StepsOf(p.above) + [p.step]
  }

  /** The mount a place is the place of, if it is one. */
  function MountOf(p: Place): string {
    Join(StepsOf(p), '/')
  }

  lemma {:induction false} StepsOfPlace(step: seq<string>, k: nat)
    requires k <= |step|
    ensures StepsOf(PlaceOf(step, k)) == step[..k]
  {
    if k > 0 {
      StepsOfPlace(step, k - 1);
      assert step[..k] == step[..k - 1] + [step[k - 1]];
    }
  }

  /** Two mounts are never at one place. */
  lemma MountOfPlace(m: string)
    ensures MountOf(MountPlace(m)) == m
  {
    var step := Split(m, '/');
    StepsOfPlace(step, |step|);
    assert step[..|step|] == step;
    JoinOfSplit(m, '/');
  }

  /** Each mount's place carries its total, and no other place carries a count. */
  ghost predicate Matches(counts: map<Place, nat>, totals: map<string, nat>) {
    && (forall m :: m in totals ==> MountPlace(m) in counts && counts[MountPlace(m)] == totals[m])
    && (forall p :: p in counts ==> MountOf(p) in totals && MountPlace(MountOf(p)) == p)
  }

  lemma {:induction false} GrownSaysNoMore(facts: Facts, step: seq<string>, k: nat)
    requires k <= |step|
    ensures Counts(Grown(facts, step, k)) == Counts(facts)
    ensures forall p :: p in facts ==> p in Grown(facts, step, k)
    ensures k > 0 ==> PlaceOf(step, k) in Grown(facts, step, k)
  {
    if k > 0 {
      GrownSaysNoMore(facts, step, k - 1);
    }
  }

  lemma InsertCounts(facts: Facts, m: string, spoken: Option<Spoken>)
    ensures Counts(Inserted(facts, m, spoken)) ==
      match spoken case None => Counts(facts) case Some(lines) => Counts(facts)[MountPlace(m) := Sum(lines)]
    ensures forall p :: p in facts ==> p in Inserted(facts, m, spoken)
    ensures MountPlace(m) in Inserted(facts, m, spoken)
  {
    var step := Split(m, '/');
    GrownSaysNoMore(facts, step, |step|);
  }

  /** Every place is the top, or a step of some mount's path. */
  ghost predicate OnMounts(facts: Facts, mounts: seq<string>) {
    forall p :: p in facts && p.Below? ==> exists m :: m in mounts && p.step in Split(m, '/')
  }

  lemma {:induction false} GrownIsOnSteps(facts: Facts, step: seq<string>, k: nat)
    requires k <= |step|
    ensures forall p :: p in Grown(facts, step, k) ==> p in facts || (p.Below? && p.step in step)
  {
    if k > 0 {
      GrownIsOnSteps(facts, step, k - 1);
    }
  }

  lemma InsertedIsOnMounts(facts: Facts, mounts: seq<string>, m: string, spoken: Option<Spoken>)
    requires OnMounts(facts, mounts)
    ensures OnMounts(Inserted(facts, m, spoken), mounts + [m])
  {
    hide Grown, Split;
    var step := Split(m, '/');
    GrownIsOnSteps(facts, step, |step|);
    GrownSaysNoMore(facts, step, |step|);
    assert m in mounts + [m] && forall x :: x in mounts ==> x in mounts + [m];
  }

  /** What a node says of languages is what its mount weighs, and a node with a count says it. */
  ghost predicate SpeaksOf(facts: Facts, weight: Weights) {
    forall p :: p in facts ==>
      && (facts[p].code.Some? <==> facts[p].language.Some?)
      && (facts[p].language.Some? ==> MountOf(p) in weight && facts[p].language.value == weight[MountOf(p)])
  }

  lemma {:induction false} GrownSpeaks(facts: Facts, step: seq<string>, k: nat, weight: Weights)
    requires k <= |step| && SpeaksOf(facts, weight)
    ensures SpeaksOf(Grown(facts, step, k), weight)
  {
    if k > 0 {
      GrownSpeaks(facts, step, k - 1, weight);
    }
  }

  lemma InsertedSpeaks(facts: Facts, m: string, weight: Weights)
    requires SpeaksOf(facts, weight)
    ensures SpeaksOf(Inserted(facts, m, if m in weight then Some(weight[m]) else None), weight)
  {
    hide MountOf, MountPlace, Split, Grown;
    GrownSpeaks(facts, Split(m, '/'), |Split(m, '/')|, weight);
    MountOfPlace(m);
  }

  lemma NothingPlaced(weight: Weights)
    ensures Matches(Counts(map[Top := SILENT]), PlacedTotals([], weight))
  {
  }

  lemma PlacedOneMore(mounts: seq<string>, weight: Weights, m: string)
    ensures PlacedTotals(mounts + [m], weight) ==
      if m in weight then PlacedTotals(mounts, weight)[m := Sum(weight[m])] else PlacedTotals(mounts, weight)
  {
    hide Sum;
  }

  lemma MatchesPut(counts: map<Place, nat>, totals: map<string, nat>, m: string, n: nat)
    requires Matches(counts, totals)
    ensures Matches(counts[MountPlace(m) := n], totals[m := n])
  {
    hide MountPlace, MountOf;
    MountOfPlace(m);
    forall k | k in totals && MountPlace(k) == MountPlace(m)
      ensures k == m
    {
      MountOfPlace(k);
    }
  }

  lemma MatchesOneMore(counts: map<Place, nat>, mounts: seq<string>, weight: Weights, m: string)
    requires Matches(counts, PlacedTotals(mounts, weight))
    ensures Matches(if m in weight then counts[MountPlace(m) := Sum(weight[m])] else counts,
                    PlacedTotals(mounts + [m], weight))
  {
    hide MountPlace, Sum, Matches, PlacedTotals;
    PlacedOneMore(mounts, weight, m);
    if m in weight {
      MatchesPut(counts, PlacedTotals(mounts, weight), m, Sum(weight[m]));
    }
  }

  lemma MatchesOneLess(counts: map<Place, nat>, totals: map<string, nat>, m: string)
    requires Matches(counts, totals) && m in totals
    ensures Matches(counts - {MountPlace(m)}, totals - {m})
  {
    hide MountPlace, MountOf;
    forall k | k in totals && MountPlace(k) == MountPlace(m)
      ensures k == m
    {
      MountOfPlace(k);
      MountOfPlace(m);
    }
    MountOfPlace(m);
  }

  lemma SumOfNothing()
    ensures Sum<string>(map[]) == 0 && Sum<Place>(map[]) == 0
  {
  }

  lemma {:induction false} MatchingSums(totals: map<string, nat>, counts: map<Place, nat>)
    requires Matches(counts, totals)
    ensures Sum(counts) == Sum(totals)
    decreases |totals|
  {
    hide MountPlace, MountOf, Sum;
    if totals == map[] {
      assert counts == map[];
      SumOfNothing();
    } else {
      var m :| m in totals;
      MatchesOneLess(counts, totals, m);
      SumTakes(totals, m);
      SumTakes(counts, MountPlace(m));
      MatchingSums(totals - {m}, counts - {MountPlace(m)});
    }
  }

  // ---------------------------------------------------------------- the tree of nodes

  class Tree {
    const root: Node
    ghost var at: map<Place, Node>
    ghost var Repr: set<Node>

    ghost function Kids(): KidMap
      reads this, Repr
    {
      map n | n in Repr :: n.child
    }

    ghost predicate Valid()
      reads this, Repr
    {
      Shaped(root, at, Kids())
    }

    /** The whole tree as what its nodes say, place by place. */
    ghost function Says(): Facts
      requires Valid()
      reads this, Repr
    {
      map p | p in at :: Fact(at[p].code, at[p].language)
    }

    constructor ()
      ensures Valid() && fresh(Repr)
      ensures Says() == map[Top := SILENT]
    {
      root := new Node("");
      new;
      at, Repr := map[Top := root], {root};
      assert root.child == map[];
    }

    lemma Held(was: map<Place, Node>, kids: KidMap)
      requires Shaped(root, was, kids)
      ensures forall p :: p in was ==> was[p] in kids
    {
    }

    method Attach(here: Node, ghost p: Place, step: string, made: Node)
      requires Valid() && p in at && at[p] == here && Below(p, step) !in at
      requires made !in Repr && made.name == step && made.child == map[] && made.code == None && made.language == None
      modifies this, here`child
      ensures Valid() && Repr == old(Repr) + {made} && at == old(at)[Below(p, step) := made]
      ensures Says() == old(Says())[Below(p, step) := SILENT]
    {
      hide Shaped;
      ghost var was: map<Place, Node>, kids: KidMap := at, Kids();
      here.child := here.child[step := made];
      at, Repr := was[Below(p, step) := made], Repr + {made};
      Held(was, kids);
      assert Kids() == kids[here := kids[here][step := made]][made := map[]];
      ShapedGrows(root, was, kids, p, step, made, at, Kids());
    }

    lemma ChildIsThere(p: Place, step: string)
      requires Valid() && p in at
      ensures step in at[p].child <==> Below(p, step) in at
      ensures Below(p, step) in at ==> at[Below(p, step)] == at[p].child[step]
    {
      assert LeadsOn(at, p, Kids()[at[p]]);
    }

    /** One level down, made if it is missing. */
    method Descend(here: Node, ghost p: Place, step: string) returns (below: Node)
      requires Valid() && p in at && at[p] == here
      modifies this, here`child
      ensures Valid() && fresh(Repr - old(Repr)) && old(Repr) <= Repr
      ensures Below(p, step) in at && at[Below(p, step)] == below
      ensures Says() == if Below(p, step) in old(at) then old(Says()) else old(Says())[Below(p, step) := SILENT]
    {
      hide Shaped;
      ChildIsThere(p, step);
      if step !in here.child {
        var made := new Node(step);
        Attach(here, p, step, made);
        below := made;
      } else {
        below := here.child[step];
      }
    }

    lemma OneNodeToAPlace(p: Place)
      requires Valid() && p in at
      ensures forall q :: q in at ==> at[q] in Repr && (at[q] == at[p] ==> q == p)
    {
    }

    lemma RootIsOnTop()
      requires Valid()
      ensures Top in at && at[Top] == root
    {
    }

    method State(node: Node, ghost p: Place, sum: nat, spoken: Option<Spoken>)
      requires Valid() && p in at && at[p] == node
      modifies node`code, node`language
      ensures Valid() && Says() == old(Says())[p := Fact(Some(sum), spoken)]
    {
      hide Shaped;
      ghost var kids: KidMap, said := Kids(), Says();
      OneNodeToAPlace(p);
      node.code := Some(sum);
      node.language := spoken;
      assert Kids() == kids;
      assert Valid();
      forall q | q in at && q != p
        ensures Fact(at[q].code, at[q].language) == said[q]
      {
        assert at[q] != node;
      }
    }

    /** Add-XmipMapMount: the mount's levels, made as needed, and its lines where it has any. */
    method AddMount(mount: string, spoken: Option<Spoken>) returns (node: Node)
      requires Valid()
      modifies this, Repr
      ensures Valid() && fresh(Repr - old(Repr)) && old(Repr) <= Repr
      ensures MountPlace(mount) in at && at[MountPlace(mount)] == node
      ensures Says() == Inserted(old(Says()), mount, spoken)
    {
      hide Shaped, Split, MountPlace, Sum;
      MountIsAtItsSteps(mount);
      var step := Split(mount, '/');
      node := root;
      RootIsOnTop();
      for i := 0 to |step|
        invariant Valid() && fresh(Repr - old(Repr)) && old(Repr) <= Repr
        invariant PlaceOf(step, i) in at && at[PlaceOf(step, i)] == node
        invariant Says() == Grown(old(Says()), step, i)
      {
        OneNodeToAPlace(PlaceOf(step, i));
        node := Descend(node, PlaceOf(step, i), step[i]);
      }
      OneNodeToAPlace(MountPlace(mount));
      if spoken.Some? {
        var sum := Total(spoken.value);
        State(node, MountPlace(mount), sum, spoken);
      }
    }

    /** New-XmipMapTree's placing: every mount, with its weight where it has one. */
    method PlaceAll(mounts: seq<string>, weight: Weights)
      requires Valid() && Says() == map[Top := SILENT]
      modifies this, Repr
      ensures Valid() && fresh(Repr - old(Repr))
      ensures Matches(Counts(Says()), PlacedTotals(mounts, weight))
      ensures Sum(Counts(Says())) == Sum(PlacedTotals(mounts, weight))
      ensures forall m :: m in mounts ==> MountPlace(m) in Says()
      ensures OnMounts(Says(), mounts) && SpeaksOf(Says(), weight)
    {
      hide Shaped, MountPlace, Inserted, Sum, Counts, PlacedTotals, Matches;
      assert SpeaksOf(Says(), weight);
      hide SpeaksOf;
      NothingPlaced(weight);
      for i := 0 to |mounts|
        invariant Valid() && fresh(Repr - old(Repr))
        invariant Matches(Counts(Says()), PlacedTotals(mounts[..i], weight))
        invariant forall m :: m in mounts[..i] ==> MountPlace(m) in Says()
        invariant OnMounts(Says(), mounts[..i]) && SpeaksOf(Says(), weight)
      {
        var m := mounts[i];
        assert mounts[..i + 1] == mounts[..i] + [m];
        var spoken := if m in weight then Some(weight[m]) else None;
        InsertCounts(Says(), m, spoken);
        InsertedSpeaks(Says(), m, weight);
        InsertedIsOnMounts(Says(), mounts[..i], m, spoken);
        MatchesOneMore(Counts(Says()), mounts[..i], weight, m);
        var _ := AddMount(m, spoken);
      }
      assert mounts[..|mounts|] == mounts;
      MatchingSums(PlacedTotals(mounts, weight), Counts(Says()));
    }
  }

  // ---------------------------------------------------------------- the whole count

  function Mounts(mounts: seq<string>): set<string> {
    set m | m in mounts
  }

  /**
   A placed mount carries no count exactly when no file of the source is charged to it, and so is
   drawn as a mere directory is.
   */
  lemma MountWithoutFilesIsSilent(facts: Facts, mounts: seq<string>, files: seq<File>, weight: Weights, m: string)
    requires Weighs(Mounts(mounts), files, weight)
    requires Matches(Counts(facts), PlacedTotals(mounts, weight))
    requires m in mounts && MountPlace(m) in facts
    ensures facts[MountPlace(m)].code.None? <==> !exists f :: f in files && ChargedTo(Mounts(mounts), f, m)
  {
    hide Weighs, ChargedTo;
    MountOfPlace(m);
    WeighedWhereCharged(Mounts(mounts), files, weight, m);
    if facts[MountPlace(m)].code.Some? {
      assert MountPlace(m) in Counts(facts);
    }
  }

  /** The total the tree's prose prints: every count of every mount. */
  method GrandTotal(weight: Weights) returns (sum: nat)
    ensures sum == Sum(Totals(weight))
  {
    sum := 0;
    var rest := weight;
    while rest.Keys != {}
      invariant sum + Sum(Totals(rest)) == Sum(Totals(weight))
      decreases |rest|
    {
      var m :| m in rest.Keys;
      SumTakes(Totals(rest), m);
      assert Totals(rest) - {m} == Totals(rest - {m});
      var lines := Total(rest[m]);
      sum := sum + lines;
      rest := rest - {m};
    }
    assert rest == map[] && Totals(rest) == map[];
  }

  /**
   The whole of New-XmipMapTree's counting: the counts on all nodes, the total it prints and the
   lines of all files under any mount are one number.
   */
  method WeighTree(mounts: seq<string>, files: seq<File>) returns (tree: Tree, weight: Weights, sum: nat)
    ensures fresh(tree) && fresh(tree.Repr) && tree.Valid()
    ensures Weighs(Mounts(mounts), files, weight)
    ensures Matches(Counts(tree.Says()), Totals(weight))
    ensures sum == Sum(Counts(tree.Says())) == LinesUnder(Mounts(mounts), files)
    ensures forall m :: m in mounts ==> MountPlace(m) in tree.Says()
    ensures OnMounts(tree.Says(), mounts) && SpeaksOf(tree.Says(), weight)
    ensures forall m :: m in mounts ==>
      (tree.Says()[MountPlace(m)].code.None? <==> !exists f :: f in files && ChargedTo(Mounts(mounts), f, m))
  {
    hide Weighs, LinesUnder, MountPlace, Sum, Counts, Matches, Shaped, ChargedTo, OnMounts, SpeaksOf;
    weight := Weigh(Mounts(mounts), files);
    tree := new Tree();
    tree.PlaceAll(mounts, weight);
    assert PlacedTotals(mounts, weight) == Totals(weight);
    sum := GrandTotal(weight);
    forall m | m in mounts
      ensures tree.Says()[MountPlace(m)].code.None? <==> !exists f :: f in files && ChargedTo(Mounts(mounts), f, m)
    {
      MountWithoutFilesIsSilent(tree.Says(), mounts, files, weight, m);
    }
  }
}
