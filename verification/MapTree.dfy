/**
 The drawing of the tree of mounts (New-XmipMapBranch, Format-XmipTreeName, Format-XmipTreeLanguage
 and New-XmipMapAbsent, Xmip/New-XmipMapTree.ps1), and a reader of it.

 The reader takes the indents, the elbows, the names, the slashes and the counts off the drawn
 lines, and is shown to get the tree back, siblings heaviest first and every node once.
 */
module MapTree {
  import opened Wrappers
  import opened Sorting
  import opened Text
  import MapLine

  /** A node to be drawn; `spoken` is its languages with their lines, largest first. */
  datatype Node = Node(name: string, code: Option<nat>, spoken: seq<(string, nat)>, child: seq<Node>, absent: seq<string>)

  const COLUMN := 52

  // ---------------------------------------------------------------- the order of siblings

  /** Sort-Object by Code, descending, then by Name: what has no count comes last. */
  predicate Precedes(a: Node, b: Node) {
    if a.code == b.code then AtMost(a.name, b.name)
    else a.code.Some? && (b.code.None? || a.code.value > b.code.value)
  }

  /** The children as they are drawn. */
  function Siblings(ts: seq<Node>): seq<Node> {
    Sorted(ts, Precedes)
  }

  lemma PrecedesIsOrder()
    ensures IsOrder(Precedes)
  {
    forall a: Node, b: Node
      ensures Precedes(a, b) || Precedes(b, a)
    {
      AtMostIsTotal(a.name, b.name);
    }
    forall a: Node, b: Node, c: Node | Precedes(a, b) && Precedes(b, c)
      ensures Precedes(a, c)
    {
      if a.code == b.code == c.code {
        AtMostIsTransitive(a.name, b.name, c.name);
      }
    }
  }

  /** No later sibling has more lines, as many are in the order of their names, and none at all comes last. */
  ghost predicate Ranks(name: string, code: Option<nat>, later: string, laterCode: Option<nat>) {
    && (laterCode.Some? ==> code.Some? && code.value >= laterCode.value)
    && (code == laterCode ==> InDictionary(name, later))
  }

  lemma PrecedesRanks(a: Node, b: Node)
    ensures Precedes(a, b) <==> Ranks(a.name, a.code, b.name, b.code)
  {
    AtMostIsDictionary(a.name, b.name);
  }

  /** Every sibling is drawn once, the heaviest first. */
  lemma SiblingsAreHeaviestFirst(ts: seq<Node>)
    ensures var drawn := Siblings(ts);
      && multiset(drawn) == multiset(ts)
      && forall i, j :: 0 <= i < j < |drawn| ==> Ranks(drawn[i].name, drawn[i].code, drawn[j].name, drawn[j].code)
  {
    hide Sorted;
    PrecedesIsOrder();
    SortedIsInOrder(ts, Precedes);
    var drawn := Siblings(ts);
    forall i, j | 0 <= i < j < |drawn|
      ensures Ranks(drawn[i].name, drawn[i].code, drawn[j].name, drawn[j].code)
    {
      PrecedesRanks(drawn[i], drawn[j]);
    }
  }

  // ---------------------------------------------------------------- drawing

  function Spaces(n: nat): string {
    if n == 0 then "" else " " + Spaces(n - 1)
  }

  function Languages(spoken: seq<(string, nat)>): string {
    if spoken == [] then ""
    else spoken[0].0 + " " + Decimal(spoken[0].1) + (if |spoken| == 1 then "" else " · " + Languages(spoken[1..]))
  }

  /** Format-XmipTreeLanguage: nothing for one language, which says nothing about itself. */
  function LanguageText(spoken: seq<(string, nat)>): string {
    if |spoken| < 2 then "" else "  " + Languages(spoken)
  }

  /** Format-XmipTreeName: the count right-aligned into one column, at least a space away. */
  function NameText(drawn: string, code: Option<nat>, spoken: seq<(string, nat)>): string {
    match code
    case None => drawn
    case Some(n) =>
      var digits := Decimal(n);
      var pad := COLUMN - |drawn| - |digits|;
      drawn + Spaces(if pad < 1 then 1 else pad) + digits + LanguageText(spoken)
  }

  function Elbow(last: bool): string {
    if last then "└── " else "├── "
  }

  function Under(last: bool): string {
    if last then "    " else "│   "
  }

  function NodeLine(t: Node, indent: string, last: bool): string {
    NameText(indent + Elbow(last) + t.name + (if t.code.None? then "/" else ""), t.code, t.spoken)
  }

  function JoinByTwo(ns: seq<string>): string {
    if ns == [] then "" else if |ns| == 1 then ns[0] else ns[0] + "  " + JoinByTwo(ns[1..])
  }

  function TrimEach(ls: seq<string>): seq<string> {
    if ls == [] then [] else [TrimEnd(ls[0], WHITE)] + TrimEach(ls[1..])
  }

  const TOLD := "    declared, not built "

  /** New-XmipMapAbsent: how many names are declared here and not built, and the names, wrapped. */
  function AbsentLines(absent: seq<string>, indent: string): seq<string> {
    if absent == [] then []
    else
      var lead := indent + TOLD + Decimal(|absent|);
      [lead] + TrimEach(MapLine.Lines(indent + "    " + JoinByTwo(Sorted(absent, AtMost)), indent + "    "))
  }

  /** New-XmipMapBranch's lines for a node whose children, heaviest first, are still ts. */
  function ForestLines(node: Node, ts: seq<Node>, indent: string): seq<string>
    requires forall t :: t in ts ==> t in node.child
    decreases node, 0, |ts|
  {
    if ts == [] then []
    else
      assert ts[0] in node.child;
      var last := |ts| == 1 && node.absent == [];
      [NodeLine(ts[0], indent, last)] + BranchLines(ts[0], indent + Under(last)) + ForestLines(node, ts[1..], indent)
  }

  function BranchLines(node: Node, indent: string): seq<string>
    decreases node, 1, 0
  {
    ForestLines(node, Siblings(node.child), indent) + AbsentLines(node.absent, indent)
  }

  lemma ForestStep(node: Node, ts: seq<Node>, i: nat, indent: string)
    requires i < |ts| && forall t :: t in ts ==> t in node.child
    ensures var last := i == |ts| - 1 && node.absent == [];
      && (forall t :: t in ts[i..] ==> t in node.child) && (forall t :: t in ts[i + 1..] ==> t in node.child)
      && ForestLines(node, ts[i..], indent) ==
        [NodeLine(ts[i], indent, last)] + BranchLines(ts[i], indent + Under(last)) + ForestLines(node, ts[i + 1..], indent)
  {
    assert ts[i..][0] == ts[i] && ts[i..][1..] == ts[i + 1..];
  }

  lemma BranchIsForest(node: Node, indent: string)
    ensures forall t :: t in Siblings(node.child) ==> t in node.child
    ensures BranchLines(node, indent) == ForestLines(node, Siblings(node.child), indent) + AbsentLines(node.absent, indent)
    ensures ForestLines(node, [], indent) == []
  {
  }

  /** New-XmipMapBranch. */
  method DrawBranch(node: Node, indent: string) returns (line: seq<string>)
    ensures line == BranchLines(node, indent)
    decreases node
  {
    hide NodeLine, AbsentLines, BranchLines, ForestLines, Siblings, Sorted;
    BranchIsForest(node, indent);
    var child := Siblings(node.child);
    line := [];
    assert child[0..] == child;
    for index := 0 to |child|
      invariant line + ForestLines(node, child[index..], indent) == ForestLines(node, child, indent)
    {
      assert child[index] in child;
      ForestStep(node, child, index, indent);
      var last := index == |child| - 1 && |node.absent| == 0;
      var below := DrawBranch(child[index], indent + Under(last));
      line := line + ([NodeLine(child[index], indent, last)] + below);
    }
    assert child[|child|..] == [];
    line := line + AbsentLines(node.absent, indent);
  }

  // ---------------------------------------------------------------- reading

  /** What a line says: how deep, what name, what count. */
  datatype Entry = Entry(depth: nat, name: string, code: Option<nat>)

  function SkipSpaces(s: string): string {
    if s != "" && s[0] == ' ' then SkipSpaces(s[1..]) else s
  }

  function ReadName(s: string, depth: nat): Option<Entry> {
    var w := Before(s, ' ');
    if w == s then
      if w == "" then None else Some(Entry(depth, w[..|w| - 1], None))
    else
      var digits := Before(SkipSpaces(s[|w|..]), ' ');
      if forall c :: c in digits ==> IsDigit(c) then Some(Entry(depth, w, Some(Number(digits)))) else None
  }

  /** One line: four-character indents, then an elbow, then the name; None for a line with no elbow there. */
  function ReadLine(s: string, depth: nat): Option<Entry>
    decreases |s|
  {
    if |s| < 4 then None
    else if s[..4] == "    " || s[..4] == "│   " then ReadLine(s[4..], depth + 1)
    else if s[..4] == "└── " || s[..4] == "├── " then ReadName(s[4..], depth)
    else None
  }

  function ReadLines(ls: seq<string>): seq<Entry> {
    if ls == [] then []
    else
      var e := ReadLine(ls[0], 0);
      (if e.Some? then [e.value] else []) + ReadLines(ls[1..])
  }

  /** A node as the drawing shows it. */
  datatype Shape = Shape(name: string, code: Option<nat>, child: seq<Shape>)

  /** The forest that begins at a depth, and the entries after it. */
  function Rebuild(es: seq<Entry>, depth: nat): (r: (seq<Shape>, seq<Entry>))
    ensures |r.1| <= |es|
    decreases |es|
  {
    if es == [] || es[0].depth != depth then ([], es)
    else
      var (kids, rest) := Rebuild(es[1..], depth + 1);
      var (siblings, after) := Rebuild(rest, depth);
      ([Shape(es[0].name, es[0].code, kids)] + siblings, after)
  }

  /** The drawing read back. */
  function ReadDrawing(ls: seq<string>): seq<Shape> {
    Rebuild(ReadLines(ls), 0).0
  }

  // ---------------------------------------------------------------- lists of entries and forests

  /** The entries of a forest, each node before what is under it. */
  function Entries(forest: seq<Shape>, depth: nat): seq<Entry> {
    if forest == [] then []
    else
      [Entry(depth, forest[0].name, forest[0].code)] + Entries(forest[0].child, depth + 1) + Entries(forest[1..], depth)
  }

  lemma RebuildStep(e: Entry, more: seq<Entry>, depth: nat, kids: seq<Shape>, rest: seq<Entry>,
                    siblings: seq<Shape>, after: seq<Entry>)
    requires e.depth == depth
    requires Rebuild(more, depth + 1) == (kids, rest) && Rebuild(rest, depth) == (siblings, after)
    ensures Rebuild([e] + more, depth) == ([Shape(e.name, e.code, kids)] + siblings, after)
  {
    assert ([e] + more)[0] == e && ([e] + more)[1..] == more;
  }

  lemma EntriesStart(forest: seq<Shape>, depth: nat, tail: seq<Entry>)
    requires tail == [] || tail[0].depth < depth
    ensures var es := Entries(forest, depth) + tail; es == [] || es[0].depth <= depth
    ensures forest == [] ==> Rebuild(Entries(forest, depth) + tail, depth) == ([], tail)
  {
    if forest == [] {
      assert Entries(forest, depth) + tail == tail;
    }
  }

  lemma Regroup<T>(a: seq<T>, b: seq<T>, c: seq<T>, d: seq<T>)
    ensures a + b + c + d == a + (b + (c + d))
  {
  }

  /** A forest is got back from its entries, whatever shallower follows them. */
  lemma {:induction false} RebuildOfEntries(forest: seq<Shape>, depth: nat, tail: seq<Entry>)
    requires tail == [] || tail[0].depth < depth
    ensures Rebuild(Entries(forest, depth) + tail, depth) == (forest, tail)
    decreases forest
  {
    hide Rebuild;
    EntriesStart(forest, depth, tail);
    if forest != [] {
      var t := forest[0];
      var e, kids, rest := Entry(depth, t.name, t.code), Entries(t.child, depth + 1), Entries(forest[1..], depth);
      EntriesStart(forest[1..], depth, tail);
      RebuildOfEntries(t.child, depth + 1, rest + tail);
      RebuildOfEntries(forest[1..], depth, tail);
      RebuildStep(e, kids + (rest + tail), depth, t.child, rest + tail, forest[1..], tail);
      assert Entries(forest, depth) == [e] + kids + rest;
      Regroup([e], kids, rest, tail);
      assert [Shape(t.name, t.code, t.child)] + forest[1..] == forest;
    }
  }

  function Shapes(node: Node, ts: seq<Node>): seq<Shape>
    requires forall t :: t in ts ==> t in node.child
    decreases node, 0, |ts|
  {
    if ts == [] then []
    else
      assert ts[0] in node.child;
      [Shape(ts[0].name, ts[0].code, ShapesUnder(ts[0]))] + Shapes(node, ts[1..])
  }

  /** What is drawn under a node: its children, heaviest first, and theirs. */
  function ShapesUnder(node: Node): seq<Shape>
    decreases node, 1, 0
  {
    Shapes(node, Siblings(node.child))
  }

  lemma {:induction false} ShapeAt(node: Node, ts: seq<Node>, i: nat)
    requires i < |ts| && forall t :: t in ts ==> t in node.child
    ensures |Shapes(node, ts)| == |ts|
    ensures Shapes(node, ts)[i] == Shape(ts[i].name, ts[i].code, ShapesUnder(ts[i]))
    decreases |ts|
  {
    hide ShapesUnder;
    if |ts| > 1 {
      ShapeAt(node, ts[1..], if i > 0 then i - 1 else 0);
    }
  }

  /** At every level the heaviest stands first. */
  ghost predicate Ranked(forest: seq<Shape>) {
    && (forall i, j :: 0 <= i < j < |forest| ==>
          Ranks(forest[i].name, forest[i].code, forest[j].name, forest[j].code))
    && (forall s :: s in forest ==> Ranked(s.child))
  }

  lemma {:induction false} ShapesAreRanked(node: Node)
    ensures Ranked(ShapesUnder(node)) && |ShapesUnder(node)| == |node.child|
  {
    var ts, forest := Siblings(node.child), ShapesUnder(node);
    SiblingsAreHeaviestFirst(node.child);
    forall i | 0 <= i < |ts|
      ensures |forest| == |ts| && forest[i].name == ts[i].name && forest[i].code == ts[i].code && Ranked(forest[i].child)
    {
      ShapeAt(node, ts, i);
      assert ts[i] in ts && ts[i] in node.child;
      ShapesAreRanked(ts[i]);
    }
  }

  lemma {:induction false} ShapesOfInsert(node: Node, t: Node, ts: seq<Node>)
    requires t in node.child && forall x :: x in ts ==> x in node.child
    ensures multiset(Shapes(node, Insert(t, ts, Precedes))) ==
      multiset{Shape(t.name, t.code, ShapesUnder(t))} + multiset(Shapes(node, ts))
  {
    hide ShapesUnder;
    var all := Insert(t, ts, Precedes);
    if ts == [] || Precedes(t, ts[0]) {
      assert all[1..] == ts;
    } else {
      assert all[1..] == Insert(t, ts[1..], Precedes);
      ShapesOfInsert(node, t, ts[1..]);
    }
  }

  lemma {:induction false} ShapesOfSiblings(node: Node, ts: seq<Node>)
    requires forall t :: t in ts ==> t in node.child
    ensures multiset(Shapes(node, Siblings(ts))) == multiset(Shapes(node, ts))
  {
    hide ShapesUnder;
    if ts != [] {
      ShapesOfSiblings(node, ts[1..]);
      ShapesOfInsert(node, ts[0], Siblings(ts[1..]));
    }
  }

  // ---------------------------------------------------------------- reading one line

  lemma {:induction false} WordStops(w: string, rest: string)
    requires ' ' !in w && (rest == "" || rest[0] == ' ')
    ensures Before(w + rest, ' ') == w
  {
    if w == "" {
      assert "" + rest == rest;
    } else {
      assert (w + rest)[1..] == w[1..] + rest;
      WordStops(w[1..], rest);
    }
  }

  lemma {:induction false} SpacesAreSkipped(n: nat, rest: string)
    requires rest != "" && rest[0] != ' '
    ensures SkipSpaces(Spaces(n) + rest) == rest
    ensures n > 0 ==> (Spaces(n) + rest)[0] == ' '
  {
    if n == 0 {
      assert "" + rest == rest;
    } else {
      assert (Spaces(n) + rest)[1..] == Spaces(n - 1) + rest;
      SpacesAreSkipped(n - 1, rest);
    }
  }

  lemma ReadNameOf(name: string, n: nat, digits: string, more: string, depth: nat)
    requires ' ' !in name && n > 0 && digits != "" && (forall c :: c in digits ==> IsDigit(c))
    requires more == "" || more[0] == ' '
    ensures ReadName(name + Spaces(n) + digits + more, depth) == Some(Entry(depth, name, Some(Number(digits))))
  {
    var s, rest := name + Spaces(n) + digits + more, digits + more;
    assert s == name + (Spaces(n) + rest) && s[|name|..] == Spaces(n) + rest;
    assert rest[0] == digits[0] && digits[0] in digits;
    SpacesAreSkipped(n, rest);
    hide Number, Spaces, SkipSpaces, Before;
    WordStops(name, Spaces(n) + rest);
    WordStops(digits, more);
  }

  lemma ReadCount(name: string, n: nat, code: nat, spoken: seq<(string, nat)>, depth: nat)
    requires ' ' !in name && n > 0
    ensures ReadName(name + Spaces(n) + Decimal(code) + LanguageText(spoken), depth) == Some(Entry(depth, name, Some(code)))
  {
    assert LanguageText(spoken) == "" || LanguageText(spoken)[0] == ' ';
    hide ReadName, Decimal, Spaces, LanguageText, Number;
    ReadNameOf(name, n, Decimal(code), LanguageText(spoken), depth);
    NumberOfDecimal(code);
  }

  lemma ReadDirectory(name: string, depth: nat)
    requires ' ' !in name
    ensures ReadName(name + "/", depth) == Some(Entry(depth, name, None))
  {
    WordStops(name + "/", "");
    assert name + "/" + "" == name + "/";
    assert (name + "/")[..|name + "/"| - 1] == name;
  }

  /** An indent: so many groups of four characters. */
  predicate Indents(s: string, depth: nat) {
    if depth == 0 then s == ""
    else |s| >= 4 && (s[..4] == "    " || s[..4] == "│   ") && Indents(s[4..], depth - 1)
  }

  lemma {:induction false} IndentDeepens(s: string, depth: nat, last: bool)
    requires Indents(s, depth)
    ensures Indents(s + Under(last), depth + 1)
  {
    if depth == 0 {
      assert s + Under(last) == Under(last);
      assert Under(last)[..4] == Under(last) && Under(last)[4..] == "";
    } else {
      assert (s + Under(last))[..4] == s[..4] && (s + Under(last))[4..] == s[4..] + Under(last);
      IndentDeepens(s[4..], depth - 1, last);
    }
  }

  lemma {:induction false} IndentIsRead(s: string, depth: nat, rest: string, before: nat)
    requires Indents(s, depth)
    ensures ReadLine(s + rest, before) == ReadLine(rest, before + depth)
  {
    if depth == 0 {
      assert s + rest == rest;
    } else {
      assert (s + rest)[..4] == s[..4] && (s + rest)[4..] == s[4..] + rest;
      IndentIsRead(s[4..], depth - 1, rest, before + 1);
    }
  }

  lemma ElbowIsRead(last: bool, rest: string, depth: nat)
    ensures ReadLine(Elbow(last) + rest, depth) == ReadName(rest, depth)
  {
    var s := Elbow(last) + rest;
    assert s[..4] == Elbow(last) && s[4..] == rest;
    assert Elbow(last)[0] != ' ' && Elbow(last)[0] != '│';
  }

  function Pad(drawn: string, code: nat): nat {
    var pad := COLUMN - |drawn| - |Decimal(code)|;
    if pad < 1 then 1 else pad
  }

  /** What stands behind a node's elbow: its name with a slash, or with its count and languages. */
  function Naming(t: Node, indent: string, last: bool): string {
    match t.code
    case None => t.name + "/"
    case Some(code) =>
      t.name + Spaces(Pad(indent + Elbow(last) + t.name, code)) + Decimal(code) + LanguageText(t.spoken)
  }

  /** A node's line is its indent, its elbow and what names it. */
  lemma NodeLineBehindElbow(t: Node, indent: string, last: bool)
    ensures NodeLine(t, indent, last) == indent + (Elbow(last) + Naming(t, indent, last))
  {
    hide Decimal, LanguageText, Elbow, Spaces;
    if t.code.Some? {
      var drawn := indent + Elbow(last) + t.name;
      assert drawn + "" == drawn;
    }
  }

  /** A node's line says its depth, its name and its count. */
  lemma NodeLineIsRead(t: Node, indent: string, depth: nat, last: bool)
    requires Indents(indent, depth) && ' ' !in t.name
    ensures ReadLine(NodeLine(t, indent, last), 0) == Some(Entry(depth, t.name, t.code))
  {
    hide ReadLine, ReadName, Decimal, LanguageText, Elbow, Indents, Spaces, NodeLine;
    NodeLineBehindElbow(t, indent, last);
    if t.code.None? {
      ReadDirectory(t.name, depth);
    } else {
      ReadCount(t.name, Pad(indent + Elbow(last) + t.name, t.code.value), t.code.value, t.spoken, depth);
    }
    IndentIsRead(indent, depth, Elbow(last) + Naming(t, indent, last), 0);
    ElbowIsRead(last, Naming(t, indent, last), depth);
  }

  // ---------------------------------------------------------------- the declared-not-built lines are set aside

  predicate NoElbow(s: string) {
    '└' !in s && '├' !in s
  }

  lemma {:induction false} NoElbowNoEntry(s: string, depth: nat)
    requires NoElbow(s)
    ensures ReadLine(s, depth) == None
    decreases |s|
  {
    if |s| >= 4 {
      assert s[0] in s && s[..4][0] == s[0];
      if s[..4] == "    " || s[..4] == "│   " {
        assert forall c :: c in s[4..] ==> c in s;
        NoElbowNoEntry(s[4..], depth + 1);
      }
    }
  }

  ghost predicate AllNoElbow(ls: seq<string>) {
    forall l :: l in ls ==> NoElbow(l)
  }

  lemma {:induction false} NoElbowLinesReadAsNothing(ls: seq<string>)
    requires AllNoElbow(ls)
    ensures ReadLines(ls) == []
  {
    if ls != [] {
      assert ls[0] in ls && forall l :: l in ls[1..] ==> l in ls;
      NoElbowNoEntry(ls[0], 0);
      NoElbowLinesReadAsNothing(ls[1..]);
    }
  }

  function EntryIn(line: string): seq<Entry> {
    var e := ReadLine(line, 0);
    if e.Some? then [e.value] else []
  }

  lemma ReadNothing()
    ensures ReadLines([]) == []
  {
  }

  lemma ReadLinesInFront(line: string, ls: seq<string>)
    ensures ReadLines([line] + ls) == EntryIn(line) + ReadLines(ls)
  {
    assert ([line] + ls)[1..] == ls;
  }

  lemma {:induction false} ReadLinesAppend(a: seq<string>, b: seq<string>)
    ensures ReadLines(a + b) == ReadLines(a) + ReadLines(b)
  {
    hide ReadLines, EntryIn;
    if a == [] {
      ReadNothing();
      assert a + b == b;
    } else {
      var line, more := a[0], a[1..];
      assert a == [line] + more && a + b == [line] + (more + b);
      ReadLinesInFront(line, more);
      ReadLinesInFront(line, more + b);
      ReadLinesAppend(more, b);
    }
  }

  lemma {:induction false} IndentHasNoElbow(s: string, depth: nat)
    requires Indents(s, depth)
    ensures NoElbow(s)
  {
    if depth > 0 {
      IndentHasNoElbow(s[4..], depth - 1);
      assert s == s[..4] + s[4..];
      assert NoElbow("    ") && NoElbow("│   ");
    }
  }

  lemma {:induction false} JoinByTwoHasNoElbow(ns: seq<string>)
    requires AllNoElbow(ns)
    ensures NoElbow(JoinByTwo(ns))
  {
    if ns != [] {
      assert ns[0] in ns && forall n :: n in ns[1..] ==> n in ns;
      JoinByTwoHasNoElbow(ns[1..]);
    }
  }

  lemma {:induction false} PartsHoldNothingNew(s: string, c: char)
    ensures forall p, x :: p in Split(s, c) && x in p ==> x in s
  {
    if s != "" {
      PartsHoldNothingNew(s[1..], c);
      var rest := Split(s[1..], c);
      assert s == [s[0]] + s[1..];
      assert rest[0] in rest && forall p :: p in rest[1..] ==> p in rest;
    }
  }

  lemma {:induction false} TrimEachHasNoElbow(ls: seq<string>)
    requires AllNoElbow(ls)
    ensures AllNoElbow(TrimEach(ls))
  {
    if ls != [] {
      assert ls[0] in ls && forall l :: l in ls[1..] ==> l in ls;
      TrimEndGives(ls[0], WHITE);
      TrimEachHasNoElbow(ls[1..]);
    }
  }

  lemma NoElbowAppend(a: string, b: string)
    requires NoElbow(a) && NoElbow(b)
    ensures NoElbow(a + b)
  {
  }

  lemma WordsHaveNoElbow(n: nat)
    ensures NoElbow(TOLD) && NoElbow(Decimal(n)) && NoElbow("    ")
  {
    assert forall c :: c in Decimal(n) ==> IsDigit(c);
    assert forall i :: 0 <= i < |TOLD| ==> TOLD[i] < '├' && TOLD[i] < '└';
  }

  lemma WrapHasNoElbow(text: string, indent: string)
    requires NoElbow(text) && NoElbow(indent)
    ensures AllNoElbow(MapLine.Lines(text, indent))
  {
    var ok := (set c | c in text) + (set c | c in indent) + {' '};
    PartsHoldNothingNew(text, ' ');
    MapLine.RestHoldsNothingNew("", Split(text, ' '), indent, ok);
    assert '└' !in ok && '├' !in ok;
  }

  /** No declared-not-built line is taken for a node, however its names are wrapped. */
  lemma AbsentLinesReadAsNothing(absent: seq<string>, indent: string, depth: nat)
    requires Indents(indent, depth) && AllNoElbow(absent)
    ensures ReadLines(AbsentLines(absent, indent)) == []
  {
    if absent != [] {
      hide NoElbow, Indents, Decimal, MapLine.Lines;
      IndentHasNoElbow(indent, depth);
      var names, under := JoinByTwo(Sorted(absent, AtMost)), indent + "    ";
      JoinByTwoHasNoElbow(Sorted(absent, AtMost));
      WordsHaveNoElbow(|absent|);
      NoElbowAppend(indent, "    ");
      NoElbowAppend(under, names);
      WrapHasNoElbow(under + names, under);
      TrimEachHasNoElbow(MapLine.Lines(under + names, under));
      NoElbowAppend(indent, TOLD);
      NoElbowAppend(indent + TOLD, Decimal(|absent|));
      NoElbowLinesReadAsNothing(AbsentLines(absent, indent));
    }
  }

  // ---------------------------------------------------------------- the drawing read back

  /** No name of a node holds a space, no declared name an elbow. */
  predicate Readable(node: Node) {
    && (forall t :: t in node.child ==> ' ' !in t.name && Readable(t))
    && (forall a :: a in node.absent ==> NoElbow(a))
  }

  lemma {:induction false} ForestIsRead(node: Node, ts: seq<Node>, indent: string, depth: nat)
    requires Indents(indent, depth) && Readable(node) && forall t :: t in ts ==> t in node.child
    ensures ReadLines(ForestLines(node, ts, indent)) == Entries(Shapes(node, ts), depth)
    decreases node, 0, |ts|
  {
    hide NodeLine, ReadLine, Indents, AbsentLines;
    if ts != [] {
      assert ts[0] in node.child;
      var last := |ts| == 1 && node.absent == [];
      var line, below, after :=
        NodeLine(ts[0], indent, last), BranchLines(ts[0], indent + Under(last)), ForestLines(node, ts[1..], indent);
      NodeLineIsRead(ts[0], indent, depth, last);
      IndentDeepens(indent, depth, last);
      BranchIsRead(ts[0], indent + Under(last), depth + 1);
      ForestIsRead(node, ts[1..], indent, depth);
      ReadLinesAppend([line] + below, after);
      ReadLinesAppend([line], below);
      assert ReadLines([line]) == [Entry(depth, ts[0].name, ts[0].code)];
      var forest := Shapes(node, ts);
      assert forest[0] == Shape(ts[0].name, ts[0].code, ShapesUnder(ts[0])) && forest[1..] == Shapes(node, ts[1..]);
    }
  }

  lemma {:induction false} BranchIsRead(node: Node, indent: string, depth: nat)
    requires Indents(indent, depth) && Readable(node)
    ensures ReadLines(BranchLines(node, indent)) == Entries(ShapesUnder(node), depth)
    decreases node, 1, 0
  {
    hide ReadLines, Entries, AbsentLines, Indents;
    var ts := Siblings(node.child);
    ForestIsRead(node, ts, indent, depth);
    AbsentLinesReadAsNothing(node.absent, indent, depth);
    ReadLinesAppend(ForestLines(node, ts, indent), AbsentLines(node.absent, indent));
  }

  /** The drawing read back is the tree: at every level each child once, the heaviest first. */
  lemma DrawingIsReadBack(root: Node)
    requires Readable(root)
    ensures ReadDrawing(BranchLines(root, "")) == ShapesUnder(root)
    ensures multiset(ReadDrawing(BranchLines(root, ""))) == multiset(Shapes(root, root.child))
    ensures Ranked(ReadDrawing(BranchLines(root, "")))
  {
    BranchIsRead(root, "", 0);
    ShapesAreRanked(root);
    ShapesOfSiblings(root, root.child);
    hide ShapesUnder, BranchLines, Ranked, Shapes, Readable;
    var forest := ShapesUnder(root);
    RebuildOfEntries(forest, 0, []);
    assert Entries(forest, 0) + [] == Entries(forest, 0);
  }

  /** Two trees drawn alike are alike. */
  lemma DrawingDeterminesTree(a: Node, b: Node)
    requires Readable(a) && Readable(b)
    requires BranchLines(a, "") == BranchLines(b, "")
    ensures ShapesUnder(a) == ShapesUnder(b)
  {
    DrawingIsReadBack(a);
    DrawingIsReadBack(b);
  }

  // ---------------------------------------------------------------- every node once

  function Nodes(ts: seq<Node>): nat {
    if ts == [] then 0 else 1 + Nodes(ts[0].child) + Nodes(ts[1..])
  }

  lemma {:induction false} InsertNodes(t: Node, ts: seq<Node>)
    ensures Nodes(Insert(t, ts, Precedes)) == 1 + Nodes(t.child) + Nodes(ts)
  {
    if ts == [] || Precedes(t, ts[0]) {
      assert ([t] + ts)[1..] == ts;
    } else {
      InsertNodes(t, ts[1..]);
      assert ([ts[0]] + Insert(t, ts[1..], Precedes))[1..] == Insert(t, ts[1..], Precedes);
    }
  }

  lemma {:induction false} SortedNodes(ts: seq<Node>)
    ensures Nodes(Siblings(ts)) == Nodes(ts)
  {
    if ts != [] {
      SortedNodes(ts[1..]);
      InsertNodes(ts[0], Siblings(ts[1..]));
    }
  }

  lemma {:induction false} OneEntryEach(node: Node, ts: seq<Node>, depth: nat)
    requires forall t :: t in ts ==> t in node.child
    ensures |Entries(Shapes(node, ts), depth)| == Nodes(ts)
    decreases node, |ts|
  {
    if ts != [] {
      var t := ts[0];
      assert t in node.child;
      OneEntryEach(t, Siblings(t.child), depth + 1);
      SortedNodes(t.child);
      OneEntryEach(node, ts[1..], depth);
      var forest := Shapes(node, ts);
      assert forest[1..] == Shapes(node, ts[1..]);
    }
  }

  /** As many lines name a node as there are nodes under the root. */
  lemma EveryNodeIsDrawnOnce(root: Node)
    requires Readable(root)
    ensures |ReadLines(BranchLines(root, ""))| == Nodes(root.child)
  {
    BranchIsRead(root, "", 0);
    OneEntryEach(root, Siblings(root.child), 0);
    SortedNodes(root.child);
  }
}
