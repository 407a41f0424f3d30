/**
 New-XmipMapTree from the source files to the drawn lines: the tree of mounts that is weighed is the
 tree that is drawn, so the counts read off the drawing add up to the total printed above it.
 */
module MapDrawing {
  import opened Wrappers
  import opened Sorting
  import opened Text
  import opened MapWeight
  import opened MountTree
  import MapTree

  type Absent = map<Place, seq<string>>   // the names declared and not built, by their parent's place

  function AbsentAt(absent: Absent, p: Place): seq<string> {
    if p in absent then absent[p] else []
  }

  // ---------------------------------------------------------------- a picture of the tree of mounts

  ghost predicate NamesDiffer(ts: seq<MapTree.Node>) {
    forall i, j :: 0 <= i < j < |ts| ==> ts[i].name != ts[j].name
  }

  /** Every language with its lines, each once, the largest first. */
  ghost predicate Tells(list: seq<(string, nat)>, spoken: Option<Spoken>) {
    && (forall i, j :: 0 <= i < j < |list| ==> list[i].1 >= list[j].1)
    && (forall e :: e in list <==> spoken.Some? && e.0 in spoken.value && spoken.value[e.0] == e.1)
    && |list| == if spoken.None? then 0 else |spoken.value|
  }

  /**
   The node shows what is at the place: its count, its languages, the names declared there and not
   built, and a child for every place just below, each once.
   */
  ghost predicate Depicts(node: MapTree.Node, facts: Facts, absent: Absent, p: Place)
    decreases node
  {
    && p in facts && node.code == facts[p].code && Tells(node.spoken, facts[p].language)
    && (p in absent ==> node.absent == absent[p]) && (p !in absent ==> node.absent == [])
    && NamesDiffer(node.child)
    && (forall t :: t in node.child ==> Below(p, t.name) in facts && Depicts(t, facts, absent, Below(p, t.name)))
    && (forall step :: Below(p, step) in facts ==> exists t :: t in node.child && t.name == step)
  }

  predicate IsUnder(q: Place, p: Place) {
    q == p || (q.Below? && IsUnder(q.above, p))
  }

  function PlacesUnder(all: set<Place>, p: Place): set<Place> {
    set q | q in all && IsUnder(q, p)
  }

  function Deep(p: Place): nat {
    if p.Top? then 0 else 1 + Deep(p.above)
  }

  lemma {:induction false} BelowIsUnder(q: Place, p: Place, step: string)
    requires IsUnder(q, Below(p, step))
    ensures IsUnder(q, p) && q != p && Deep(q) > Deep(p)
    decreases q
  {
    if q != Below(p, step) {
      BelowIsUnder(q.above, p, step);
    }
  }

  lemma FewerBelow(all: set<Place>, p: Place, step: string)
    requires p in all
    ensures PlacesUnder(all, Below(p, step)) < PlacesUnder(all, p)
  {
    forall q | q in PlacesUnder(all, Below(p, step))
      ensures q in PlacesUnder(all, p) && q != p
    {
      BelowIsUnder(q, p, step);
    }
    assert p in PlacesUnder(all, p);
  }

  /** A repository's languages, most lines first. */
  predicate MoreLines(a: (string, nat), b: (string, nat)) {
    a.1 >= b.1
  }

  /** Format-XmipTreeLanguage's list. */
  method ListSpoken(spoken: Option<Spoken>) returns (list: seq<(string, nat)>)
    ensures Tells(list, spoken)
  {
    list := [];
    if spoken.None? {
      return;
    }
    var rest := spoken.value;
    while rest.Keys != {}
      invariant rest.Keys <= spoken.value.Keys && forall k :: k in rest ==> rest[k] == spoken.value[k]
      invariant forall e :: e in list <==> e.0 in spoken.value && e.0 !in rest && spoken.value[e.0] == e.1
      invariant |list| + |rest| == |spoken.value|
      decreases |rest|
    {
      var language :| language in rest.Keys;
      list := list + [(language, rest[language])];
      rest := rest - {language};
    }
    SortedIsInOrder(list, MoreLines);
    list := Sorted(list, MoreLines);
  }

  /** The children drawn are those of `all` not in `rest`, each once. */
  ghost predicate Drawn(child: seq<MapTree.Node>, all: set<string>, rest: set<string>, facts: Facts, absent: Absent,
                        p: Place) {
    && NamesDiffer(child)
    && (forall t :: t in child ==> t.name in all && t.name !in rest && Below(p, t.name) in facts)
    && (forall t :: t in child ==> Depicts(t, facts, absent, Below(p, t.name)))
    && (forall step :: step in all && step !in rest ==> exists t :: t in child && t.name == step)
  }

  lemma OneMoreDrawn(child: seq<MapTree.Node>, all: set<string>, rest: set<string>, facts: Facts, absent: Absent, p: Place,
                     kid: MapTree.Node)
    requires Drawn(child, all, rest, facts, absent, p) && kid.name in rest && kid.name in all
    requires Below(p, kid.name) in facts && Depicts(kid, facts, absent, Below(p, kid.name))
    ensures Drawn(child + [kid], all, rest - {kid.name}, facts, absent, p)
  {
    hide Depicts;
    var now := child + [kid];
    assert kid in now && forall t :: t in child ==> t in now;
    forall i, j | 0 <= i < j < |now|
      ensures now[i].name != now[j].name
    {
      assert now[i] in child;
    }
  }

  lemma AllDrawn(node: MapTree.Node, facts: Facts, absent: Absent, p: Place, all: set<string>)
    requires p in facts && node.code == facts[p].code && node.absent == AbsentAt(absent, p)
    requires Tells(node.spoken, facts[p].language)
    requires Drawn(node.child, all, {}, facts, absent, p) && forall step :: Below(p, step) in facts <==> step in all
    ensures Depicts(node, facts, absent, p)
  {
  }

  lemma ChildIsBelow(tree: Tree, p: Place, step: string)
    requires tree.Valid() && p in tree.at && step in tree.at[p].child
    ensures Below(p, step) in tree.at && tree.at[Below(p, step)] == tree.at[p].child[step]
    ensures tree.at[Below(p, step)].name == step
  {
    assert LeadsOn(tree.at, p, tree.Kids()[tree.at[p]]);
  }

  lemma ChildrenAreBelow(tree: Tree, p: Place)
    requires tree.Valid() && p in tree.at
    ensures forall step :: Below(p, step) in tree.Says() <==> step in tree.at[p].child
    ensures tree.Says()[p].code == tree.at[p].code && tree.Says()[p].language == tree.at[p].language
  {
    assert LeadsOn(tree.at, p, tree.Kids()[tree.at[p]]);
  }

  lemma NothingDrawn(all: set<string>, facts: Facts, absent: Absent, p: Place)
    ensures Drawn([], all, all, facts, absent, p)
  {
  }

  /** The tree of nodes from a node on, as it is given to be drawn. */
  method Picture(tree: Tree, here: Node, p: Place, absent: Absent) returns (node: MapTree.Node)
    requires tree.Valid() && p in tree.at && tree.at[p] == here
    ensures Depicts(node, tree.Says(), absent, p) && node.name == here.name
    decreases PlacesUnder(tree.at.Keys, p)
  {
    hide Shaped, Depicts, Drawn, PlacesUnder, Tells;
    ghost var facts := tree.Says();
    var spoken := ListSpoken(here.language);
    var child: seq<MapTree.Node> := [];
    var rest := here.child;
    NothingDrawn(rest.Keys, facts, absent, p);
    while rest.Keys != {}
      invariant forall step :: step in rest ==> step in here.child && rest[step] == here.child[step]
      invariant Drawn(child, here.child.Keys, rest.Keys, facts, absent, p)
      decreases |rest|
    {
      var step :| step in rest.Keys;
      ChildIsBelow(tree, p, step);
      FewerBelow(tree.at.Keys, p, step);
      var kid := Picture(tree, rest[step], Below(p, step), absent);
      OneMoreDrawn(child, here.child.Keys, rest.Keys, facts, absent, p, kid);
      rest := rest - {step};
      child := child + [kid];
    }
    node := MapTree.Node(here.name, here.code, spoken, child, AbsentAt(absent, p));
    ChildrenAreBelow(tree, p);
    AllDrawn(node, facts, absent, p, here.child.Keys);
  }

  // ---------------------------------------------------------------- what the counts of a picture add up to

  function CodeOf(code: Option<nat>): nat {
    match code case None => 0 case Some(n) => n
  }

  function CodesOf(ts: seq<MapTree.Node>): nat {
    if ts == [] then 0 else CodeOf(ts[0].code) + CodesOf(ts[0].child) + CodesOf(ts[1..])
  }

  /** The places that each have the whole tree below them in the facts. */
  ghost predicate RootedFacts(facts: Facts) {
    forall q :: q in facts && q.Below? ==> q.above in facts
  }

  ghost function CountsUnder(facts: Facts, p: Place): map<Place, nat> {
    map q | q in facts && facts[q].code.Some? && IsUnder(q, p) :: facts[q].code.value
  }

  predicate InAny(q: Place, p: Place, ts: seq<MapTree.Node>) {
    exists t :: t in ts && IsUnder(q, Below(p, t.name))
  }

  ghost function CountsIn(facts: Facts, p: Place, ts: seq<MapTree.Node>): map<Place, nat> {
    map q | q in facts && facts[q].code.Some? && InAny(q, p, ts) :: facts[q].code.value
  }

  lemma UnionTakes(a: map<Place, nat>, b: map<Place, nat>, k: Place)
    requires a.Keys !! b.Keys && k in b
    ensures (a + b)[k] == b[k] && (a + b) - {k} == a + (b - {k})
    ensures a.Keys !! (b - {k}).Keys && |b - {k}| < |b|
  {
  }

  lemma {:induction false} SumOfUnion(a: map<Place, nat>, b: map<Place, nat>)
    requires a.Keys !! b.Keys
    ensures Sum(a + b) == Sum(a) + Sum(b)
    decreases |b|
  {
    hide Sum;
    if b == map[] {
      SumOfNothing();
      assert a + b == a;
    } else {
      var k :| k in b;
      UnionTakes(a, b, k);
      SumTakes(b, k);
      SumTakes(a + b, k);
      SumOfUnion(a, b - {k});
    }
  }

  lemma {:induction false} UnderIsNoHigher(q: Place, p: Place)
    requires IsUnder(q, p)
    ensures Deep(q) >= Deep(p) && (Deep(q) == Deep(p) ==> q == p)
    decreases q
  {
    if q != p {
      UnderIsNoHigher(q.above, p);
    }
  }

  /** Nothing is under two places just below one. */
  lemma {:induction false} OneStepDown(q: Place, p: Place, a: string, b: string)
    requires IsUnder(q, Below(p, a)) && IsUnder(q, Below(p, b))
    ensures a == b
    decreases q
  {
    UnderIsNoHigher(q, Below(p, a));
    UnderIsNoHigher(q, Below(p, b));
    if q != Below(p, a) && q != Below(p, b) {
      OneStepDown(q.above, p, a, b);
    }
  }

  /** What is under a place and not the place itself is under one just below it, which is there. */
  lemma {:induction false} StepDown(facts: Facts, q: Place, p: Place) returns (step: string)
    requires RootedFacts(facts) && q in facts && IsUnder(q, p) && q != p
    ensures Below(p, step) in facts && IsUnder(q, Below(p, step))
    decreases q
  {
    if q.above == p {
      step := q.step;
    } else {
      step := StepDown(facts, q.above, p);
    }
  }

  lemma InAnyFront(q: Place, p: Place, ts: seq<MapTree.Node>)
    requires ts != [] && NamesDiffer(ts)
    ensures InAny(q, p, ts) <==> IsUnder(q, Below(p, ts[0].name)) || InAny(q, p, ts[1..])
    ensures !(IsUnder(q, Below(p, ts[0].name)) && InAny(q, p, ts[1..]))
  {
    hide IsUnder;
    assert ts[0] in ts && forall t :: t in ts <==> t == ts[0] || t in ts[1..];
    if InAny(q, p, ts[1..]) && IsUnder(q, Below(p, ts[0].name)) {
      var t :| t in ts[1..] && IsUnder(q, Below(p, t.name));
      var k :| 0 <= k < |ts[1..]| && ts[1..][k] == t;
      assert ts[k + 1].name != ts[0].name;
      OneStepDown(q, p, t.name, ts[0].name);
    }
  }

  lemma CountsInFront(facts: Facts, p: Place, ts: seq<MapTree.Node>)
    requires ts != [] && NamesDiffer(ts)
    ensures CountsIn(facts, p, ts) == CountsUnder(facts, Below(p, ts[0].name)) + CountsIn(facts, p, ts[1..])
    ensures CountsUnder(facts, Below(p, ts[0].name)).Keys !! CountsIn(facts, p, ts[1..]).Keys
  {
    hide InAny, IsUnder, NamesDiffer;
    forall q | q in facts
      ensures InAny(q, p, ts) <==> IsUnder(q, Below(p, ts[0].name)) || InAny(q, p, ts[1..])
      ensures !(IsUnder(q, Below(p, ts[0].name)) && InAny(q, p, ts[1..]))
    {
      InAnyFront(q, p, ts);
    }
  }

  /** What is under a place is the place itself or under one of the children drawn. */
  lemma UnderIsItselfOrInAny(facts: Facts, absent: Absent, node: MapTree.Node, p: Place, q: Place)
    requires RootedFacts(facts) && Depicts(node, facts, absent, p) && q in facts
    ensures InAny(q, p, node.child) <==> IsUnder(q, p) && q != p
  {
    if IsUnder(q, p) && q != p {
      var step := StepDown(facts, q, p);
      var t :| t in node.child && t.name == step;
    }
    if InAny(q, p, node.child) {
      var t :| t in node.child && IsUnder(q, Below(p, t.name));
      BelowIsUnder(q, p, t.name);
    }
  }

  lemma CountsAreItsOwnAndIn(facts: Facts, absent: Absent, node: MapTree.Node, p: Place)
    requires RootedFacts(facts) && Depicts(node, facts, absent, p)
    ensures p !in CountsIn(facts, p, node.child)
    ensures CountsUnder(facts, p) ==
      match node.code
      case None => CountsIn(facts, p, node.child)
      case Some(n) => CountsIn(facts, p, node.child)[p := n]
  {
    assert p in facts && node.code == facts[p].code && IsUnder(p, p);
    hide Depicts, RootedFacts, InAny, IsUnder, Tells;
    forall q | q in facts
      ensures InAny(q, p, node.child) <==> IsUnder(q, p) && q != p
    {
      UnderIsItselfOrInAny(facts, absent, node, p, q);
    }
  }

  /** A place's counts are its own and those under its children. */
  lemma CountsOfPlace(facts: Facts, absent: Absent, node: MapTree.Node, p: Place)
    requires RootedFacts(facts) && Depicts(node, facts, absent, p)
    ensures Sum(CountsUnder(facts, p)) == CodeOf(node.code) + Sum(CountsIn(facts, p, node.child))
  {
    hide Sum, Depicts, CountsUnder, CountsIn;
    CountsAreItsOwnAndIn(facts, absent, node, p);
    if node.code.Some? {
      SumPuts(CountsIn(facts, p, node.child), p, node.code.value);
    }
  }

  lemma {:induction false} DepictedEach(facts: Facts, absent: Absent, node: MapTree.Node, p: Place, ts: seq<MapTree.Node>)
    requires RootedFacts(facts) && NamesDiffer(ts)
    requires forall t :: t in ts ==> t in node.child && Depicts(t, facts, absent, Below(p, t.name))
    ensures Sum(CountsIn(facts, p, ts)) == CodesOf(ts)
    decreases node, 0, |ts|
  {
    hide Depicts, CountsUnder, Sum;
    if ts == [] {
      SumOfNothing();
      assert CountsIn(facts, p, ts) == map[];
    } else {
      hide CountsIn;
      var t, rest := ts[0], ts[1..];
      assert t in node.child && forall x :: x in rest ==> x in ts;
      assert NamesDiffer(rest);
      CountsInFront(facts, p, ts);
      SumOfUnion(CountsUnder(facts, Below(p, t.name)), CountsIn(facts, p, rest));
      DepictedCodes(facts, absent, t, Below(p, t.name));
      DepictedEach(facts, absent, node, p, rest);
    }
  }

  /** The counts at and under a place are those of its picture. */
  lemma {:induction false} DepictedCodes(facts: Facts, absent: Absent, node: MapTree.Node, p: Place)
    requires RootedFacts(facts) && Depicts(node, facts, absent, p)
    ensures Sum(CountsUnder(facts, p)) == CodeOf(node.code) + CodesOf(node.child)
    decreases node, 1, 0
  {
    CountsOfPlace(facts, absent, node, p);
    DepictedEach(facts, absent, node, p, node.child);
  }

  // ---------------------------------------------------------------- what the counts of a drawing add up to

  /** The counts read back. */
  function CodesRead(forest: seq<MapTree.Shape>): nat {
    if forest == [] then 0 else CodeOf(forest[0].code) + CodesRead(forest[0].child) + CodesRead(forest[1..])
  }

  lemma {:induction false} InsertAdds(t: MapTree.Node, ts: seq<MapTree.Node>)
    ensures CodesOf(Insert(t, ts, MapTree.Precedes)) == CodeOf(t.code) + CodesOf(t.child) + CodesOf(ts)
  {
    if ts == [] || MapTree.Precedes(t, ts[0]) {
      assert ([t] + ts)[1..] == ts;
    } else {
      InsertAdds(t, ts[1..]);
      var more := Insert(t, ts[1..], MapTree.Precedes);
      assert ([ts[0]] + more)[1..] == more;
    }
  }

  lemma {:induction false} SiblingsAdd(ts: seq<MapTree.Node>)
    ensures CodesOf(MapTree.Siblings(ts)) == CodesOf(ts)
  {
    if ts != [] {
      SiblingsAdd(ts[1..]);
      InsertAdds(ts[0], MapTree.Siblings(ts[1..]));
    }
  }

  lemma {:induction false} ShapesAdd(node: MapTree.Node, ts: seq<MapTree.Node>)
    requires forall t :: t in ts ==> t in node.child
    ensures CodesRead(MapTree.Shapes(node, ts)) == CodesOf(ts)
    decreases node, |ts|
  {
    if ts != [] {
      var t := ts[0];
      assert t in node.child;
      ShapesAdd(t, MapTree.Siblings(t.child));
      SiblingsAdd(t.child);
      ShapesAdd(node, ts[1..]);
      assert MapTree.Shapes(node, ts)[1..] == MapTree.Shapes(node, ts[1..]);
    }
  }

  /** The counts read off a drawing add up to the counts of the nodes drawn. */
  lemma DrawingAddsUp(root: MapTree.Node)
    requires MapTree.Readable(root)
    ensures CodesRead(MapTree.ReadDrawing(MapTree.BranchLines(root, ""))) == CodesOf(root.child)
    ensures MapTree.Ranked(MapTree.ReadDrawing(MapTree.BranchLines(root, "")))
  {
    hide MapTree.Readable, MapTree.BranchLines, MapTree.Ranked;
    MapTree.DrawingIsReadBack(root);
    ShapesAdd(root, MapTree.Siblings(root.child));
    SiblingsAdd(root.child);
  }

  // ---------------------------------------------------------------- the whole section

  /** No mount holds a space, and no name that is declared and not built an elbow. */
  ghost predicate Plain(mounts: seq<string>, absent: Absent) {
    && (forall m :: m in mounts ==> ' ' !in m)
    && (forall p, a :: p in absent && a in absent[p] ==> MapTree.NoElbow(a))
  }

  lemma {:induction false} PictureIsReadable(node: MapTree.Node, facts: Facts, absent: Absent, p: Place)
    requires Depicts(node, facts, absent, p)
    requires forall q :: q in facts && q.Below? ==> ' ' !in q.step
    requires forall q, a :: q in absent && a in absent[q] ==> MapTree.NoElbow(a)
    ensures MapTree.Readable(node)
    decreases node
  {
    forall t | t in node.child
      ensures ' ' !in t.name && MapTree.Readable(t)
    {
      PictureIsReadable(t, facts, absent, Below(p, t.name));
    }
  }

  lemma StepsHoldNoSpace(facts: Facts, mounts: seq<string>)
    requires OnMounts(facts, mounts) && forall m :: m in mounts ==> ' ' !in m
    ensures forall q :: q in facts && q.Below? ==> ' ' !in q.step
  {
    hide Split;
    forall q | q in facts && q.Below?
      ensures ' ' !in q.step
    {
      var m :| m in mounts && q.step in Split(m, '/');
      MapTree.PartsHoldNothingNew(m, '/');
    }
  }

  lemma {:induction false} TopIsAbove(q: Place)
    ensures IsUnder(q, Top)
    decreases q
  {
    if q.Below? {
      TopIsAbove(q.above);
    }
  }

  lemma AllIsUnderTop(facts: Facts)
    ensures CountsUnder(facts, Top) == Counts(facts)
  {
    forall q | q in facts
      ensures IsUnder(q, Top)
    {
      TopIsAbove(q);
    }
  }

  lemma TopIsSilent(facts: Facts, totals: map<string, nat>)
    requires Matches(Counts(facts), totals) && Top in facts
    ensures facts[Top].code.None?
  {
    assert MountPlace(MountOf(Top)).Below?;
  }

  /** The counts read off the drawing of a tree of mounts are the counts on all its nodes. */
  lemma DrawnCountsAddUp(root: MapTree.Node, facts: Facts, absent: Absent, mounts: seq<string>)
    requires Depicts(root, facts, absent, Top) && RootedFacts(facts) && facts[Top].code.None?
    requires OnMounts(facts, mounts) && Plain(mounts, absent)
    ensures CodesRead(MapTree.ReadDrawing(MapTree.BranchLines(root, ""))) == Sum(Counts(facts))
    ensures MapTree.Ranked(MapTree.ReadDrawing(MapTree.BranchLines(root, "")))
  {
    StepsHoldNoSpace(facts, mounts);
    PictureIsReadable(root, facts, absent, Top);
    DepictedCodes(facts, absent, root, Top);
    AllIsUnderTop(facts);
    hide OnMounts, Plain, RootedFacts, CountsUnder, Sum, MapTree.Ranked;
    assert root.code.None?;
    hide Depicts;
    DrawingAddsUp(root);
  }

  lemma RootIsAtTop(tree: Tree)
    requires tree.Valid()
    ensures Top in tree.at && tree.at[Top] == tree.root && RootedFacts(tree.Says())
  {
  }

  /**
   The drawing is of a tree that has a place for every mount and none beside their levels, and there what
   the files charged to the mount weigh, language by language.
   */
  ghost predicate Draws(lines: seq<string>, root: MapTree.Node, facts: Facts, weight: Weights, mounts: seq<string>,
                        files: seq<File>, absent: Absent) {
    && lines == MapTree.BranchLines(root, "") && Depicts(root, facts, absent, Top)
    && (forall m :: m in mounts ==> MountPlace(m) in facts) && OnMounts(facts, mounts)
    && Weighs(Mounts(mounts), files, weight)
    && Matches(Counts(facts), Totals(weight)) && SpeaksOf(facts, weight)
  }

  /**
   New-XmipMapTree: from the mounts and the source files the lines drawn and the total printed.  Where
   the names can be read back, the counts read off the lines add up to that total, which is the lines
   of all files under any mount, and at every level the heaviest is read first.
   */
  method DrawMap(mounts: seq<string>, files: seq<File>, absent: Absent) returns (lines: seq<string>, sum: nat)
    ensures sum == LinesUnder(Mounts(mounts), files)
    ensures exists root, facts, weight :: Draws(lines, root, facts, weight, mounts, files, absent)
    ensures Plain(mounts, absent) ==> CodesRead(MapTree.ReadDrawing(lines)) == sum
    ensures Plain(mounts, absent) ==> MapTree.Ranked(MapTree.ReadDrawing(lines))
  {
    hide Weighs, LinesUnder, Matches, Counts, Sum, Shaped, Depicts, OnMounts, Plain, MountPlace, MapTree.Ranked, SpeaksOf;
    var tree, weight, total := WeighTree(mounts, files);
    sum := total;
    RootIsAtTop(tree);
    var root := Picture(tree, tree.root, Top, absent);
    lines := MapTree.DrawBranch(root, "");
    assert Draws(lines, root, tree.Says(), weight, mounts, files, absent);
    TopIsSilent(tree.Says(), Totals(weight));
    if Plain(mounts, absent) {
      DrawnCountsAddUp(root, tree.Says(), absent, mounts);
    }
  }
}
