/**
 What the reader of a drawing passes over and is there to be read all the same: the corners of the
 branches, the column of the counts, the languages behind them, and the names declared and not built.
 */
module MapWords {
  import opened Wrappers
  import opened Sorting
  import opened Text
  import opened MapTree
  import MapLine

  // ---------------------------------------------------------------- corners and columns

  /** A corner closes a branch exactly where neither a sibling nor a declared-not-built line follows. */
  lemma CornerClosesBranch(node: Node, ts: seq<Node>, i: nat, indent: string)
    requires i < |ts| && forall t :: t in ts ==> t in node.child
    ensures var last := i == |ts| - 1 && node.absent == [];
      && (forall t :: t in ts[i..] ==> t in node.child) && (forall t :: t in ts[i + 1..] ==> t in node.child)
      && ForestLines(node, ts[i..], indent) ==
        [indent + ((if last then "└── " else "├── ") + Naming(ts[i], indent, last))]
        + BranchLines(ts[i], indent + (if last then "    " else "│   ")) + ForestLines(node, ts[i + 1..], indent)
  {
    ForestStep(node, ts, i, indent);
    NodeLineBehindElbow(ts[i], indent, i == |ts| - 1 && node.absent == []);
  }

  lemma {:induction false} SpacesLength(n: nat)
    ensures |Spaces(n)| == n
  {
    if n > 0 {
      SpacesLength(n - 1);
    }
  }

  /** A count ends at column 52, or a space behind a name that leaves it no room; the languages come after. */
  lemma CountEndsAtColumn(t: Node, indent: string, last: bool)
    requires t.code.Some?
    ensures var bare := NodeLine(t.(spoken := []), indent, last); var digits := Decimal(t.code.value);
      && NodeLine(t, indent, last) == bare + LanguageText(t.spoken)
      && |bare| >= |digits| && bare[|bare| - |digits|..] == digits
      && |bare| == if |indent| + 4 + |t.name| + 1 + |digits| <= 52 then 52 else |indent| + 4 + |t.name| + 1 + |digits|
  {
    var drawn, digits := indent + Elbow(last) + t.name + "", Decimal(t.code.value);
    assert |Elbow(last)| == 4;
    SpacesLength(Pad(drawn, t.code.value));
    var bare := NodeLine(t.(spoken := []), indent, last);
    assert bare == drawn + Spaces(Pad(drawn, t.code.value)) + digits;
  }

  // ---------------------------------------------------------------- languages

  /** A reader of the languages: a name, a space, a number, and a dot between spaces before the next. */
  function ReadLanguages(s: string): seq<(string, nat)>
    decreases |s|
  {
    var name := Before(s, ' ');
    if name == s then []
    else
      var behind := s[|name| + 1..];
      var digits := Before(behind, ' ');
      var rest := behind[|digits|..];
      if forall c :: c in digits ==> IsDigit(c) then
        [(name, Number(digits))] + (if " · " <= rest then ReadLanguages(rest[3..]) else [])
      else []
  }

  lemma LanguageInFront(name: string, digits: string, more: string)
    requires ' ' !in name && digits != "" && (forall c :: c in digits ==> IsDigit(c))
    requires more == "" || more[0] == ' '
    ensures ReadLanguages(name + " " + digits + more) ==
      [(name, Number(digits))] + (if " · " <= more then ReadLanguages(more[3..]) else [])
  {
    hide Number, Before;
    var s, behind := name + " " + digits + more, digits + more;
    assert s == name + [' '] + behind && |name| < |s|;
    BeforeFirst(name, ' ', behind);
    WordStops(digits, more);
    assert s[|name| + 1..] == behind && behind[|digits|..] == more;
  }

  lemma {:induction false} LanguagesAreListed(spoken: seq<(string, nat)>)
    requires spoken != [] && forall e :: e in spoken ==> ' ' !in e.0
    ensures ReadLanguages(Languages(spoken)) == spoken
  {
    hide Decimal, Number, ReadLanguages;
    assert spoken[0] in spoken && forall e :: e in spoken[1..] ==> e in spoken;
    NumberOfDecimal(spoken[0].1);
    if |spoken| == 1 {
      LanguageInFront(spoken[0].0, Decimal(spoken[0].1), "");
      assert Languages(spoken) == spoken[0].0 + " " + Decimal(spoken[0].1) + "";
    } else {
      var rest := Languages(spoken[1..]);
      LanguageInFront(spoken[0].0, Decimal(spoken[0].1), " · " + rest);
      assert (" · " + rest)[3..] == rest;
      LanguagesAreListed(spoken[1..]);
    }
  }

  /** Two languages or more stand behind the count, two spaces off, each with its lines; one says nothing. */
  lemma LanguagesAreRead(spoken: seq<(string, nat)>)
    requires forall e :: e in spoken ==> ' ' !in e.0
    ensures |spoken| < 2 ==> LanguageText(spoken) == ""
    ensures |spoken| >= 2 ==> "  " <= LanguageText(spoken) && ReadLanguages(LanguageText(spoken)[2..]) == spoken
  {
    if |spoken| >= 2 {
      LanguagesAreListed(spoken);
      assert LanguageText(spoken)[2..] == Languages(spoken);
    }
  }

  // ---------------------------------------------------------------- names declared and not built

  /** The words that are names: not the empty ones between two spaces, and not an indent's bar. */
  function Named(words: seq<string>): seq<string> {
    if words == [] then []
    else (if words[0] == "" || words[0] == "│" then [] else [words[0]]) + Named(words[1..])
  }

  function NamesIn(s: string): seq<string> {
    Named(Split(s, ' '))
  }

  function NamesOn(lines: seq<string>): seq<string> {
    if lines == [] then [] else NamesIn(lines[0]) + NamesOn(lines[1..])
  }

  lemma {:induction false} NamedAppend(a: seq<string>, b: seq<string>)
    ensures Named(a + b) == Named(a) + Named(b)
  {
    if a == [] {
      assert a + b == b;
    } else {
      assert (a + b)[1..] == a[1..] + b;
      NamedAppend(a[1..], b);
    }
  }

  /** A text holds the names before a space and those behind it. */
  lemma NamesAroundSpace(a: string, b: string)
    ensures NamesIn(a + " " + b) == NamesIn(a) + NamesIn(b)
  {
    SplitOfConcat(a, ' ', b);
    NamedAppend(Split(a, ' '), Split(b, ' '));
  }

  lemma NamesInWord(w: string)
    requires ' ' !in w
    ensures NamesIn(w) == if w == "" || w == "│" then [] else [w]
  {
    hide Split;
    SplitAtFirst(w, ' ', "");
    assert Named([w][1..]) == [];
  }

  lemma NamesBeforeSpace(s: string)
    ensures NamesIn(s + " ") == NamesIn(s)
  {
    hide NamesIn;
    NamesAroundSpace(s, "");
    NamesInWord("");
    assert s + " " + "" == s + " ";
  }

  /** An indent that names nothing, and ends in a space. */
  predicate Bare(indent: string) {
    indent != "" && indent[|indent| - 1] == ' ' && NamesIn(indent) == []
  }

  lemma NamesBehind(indent: string, w: string)
    requires Bare(indent)
    ensures NamesIn(indent + w) == NamesIn(w)
  {
    hide NamesIn;
    var front := indent[..|indent| - 1];
    assert indent == front + " " && indent + w == front + " " + w;
    NamesBeforeSpace(front);
    NamesAroundSpace(front, w);
  }

  lemma NamesInFront(line: string, lines: seq<string>)
    ensures NamesOn([line] + lines) == NamesIn(line) + NamesOn(lines)
    ensures NamesOn([]) == []
  {
    hide NamesIn;
    assert ([line] + lines)[1..] == lines;
  }

  /** The first word and the others: the names in it and the names among them. */
  lemma NamesOfWords(w: string, more: seq<string>)
    requires ' ' !in w
    ensures Named([w] + more) == NamesIn(w) + Named(more) && Named([]) == []
  {
    hide NamesIn;
    NamesInWord(w);
    assert ([w] + more)[1..] == more;
  }

  lemma RestStep(current: string, w: string, more: seq<string>, indent: string)
    ensures MapLine.Rest(current, [], indent) == if current == "" then [] else [current]
    ensures var all := MapLine.Rest(current, [w] + more, indent);
      if current == "" then all == MapLine.Rest(w, more, indent)
      else all == MapLine.Rest(current + " " + w, more, indent) || all == [current] + MapLine.Rest(indent + w, more, indent)
  {
    assert ([w] + more)[1..] == more;
  }

  lemma ThreeTogether(a: seq<string>, b: seq<string>, c: seq<string>)
    ensures a + b + c == a + (b + c) && [] + (b + c) == b + c
  {
  }

  /** Wrapping neither loses a name nor breaks one. */
  lemma {:induction false} NamesOfRest(current: string, words: seq<string>, indent: string)
    requires Bare(indent) && Free(words, ' ')
    ensures NamesOn(MapLine.Rest(current, words, indent)) == NamesIn(current) + Named(words)
    decreases |words|
  {
    hide Bare, NamesIn, NamesOn, Named, MapLine.Rest;
    NamesInWord("");
    NamesInFront(current, []);
    assert [current] + [] == [current];
    if words == [] {
      RestStep(current, "", [], indent);
      NamesOfWords("", []);
    } else {
      var w, more := words[0], words[1..];
      assert words == [w] + more && w in words && forall x :: x in more ==> x in words;
      NamesOfWords(w, more);
      RestStep(current, w, more, indent);
      var all := MapLine.Rest(current, words, indent);
      ThreeTogether(NamesIn(current), NamesIn(w), Named(more));
      if current == "" {
        NamesOfRest(w, more, indent);
      } else if all == MapLine.Rest(current + " " + w, more, indent) {
        NamesAroundSpace(current, w);
        NamesOfRest(current + " " + w, more, indent);
      } else {
        NamesBehind(indent, w);
        NamesOfRest(indent + w, more, indent);
        NamesInFront(current, MapLine.Rest(indent + w, more, indent));
      }
    }
  }

  /** A name as it stands in the list: one word, and no bar. */
  predicate IsName(n: string) {
    n != "" && n != "│" && forall c :: c in n ==> c !in WHITE
  }

  predicate AllNames(ns: seq<string>) {
    forall n :: n in ns ==> IsName(n)
  }

  lemma {:induction false} NamesOfJoin(ns: seq<string>)
    requires AllNames(ns)
    ensures NamesIn(JoinByTwo(ns)) == ns
  {
    hide NamesIn;
    NamesInWord("");
    if ns != [] {
      var n, more := ns[0], ns[1..];
      assert n in ns && ' ' in WHITE && forall x :: x in more ==> x in ns;
      NamesInWord(n);
      NamesOfJoin(more);
      if |ns| > 1 {
        assert JoinByTwo(ns) == (n + " ") + " " + JoinByTwo(more);
        NamesAroundSpace(n + " ", JoinByTwo(more));
        NamesBeforeSpace(n);
      }
    }
  }

  /** No white space but spaces. */
  predicate OnlySpaces(s: string) {
    forall c :: c in s && c in WHITE ==> c == ' '
  }

  lemma {:induction false} TrimmingLosesNoName(s: string)
    requires OnlySpaces(s)
    ensures NamesIn(TrimEnd(s, WHITE)) == NamesIn(s)
  {
    hide NamesIn;
    if s != "" && s[|s| - 1] in WHITE {
      var front := s[..|s| - 1];
      assert s[|s| - 1] in s && s == front + " ";
      NamesBeforeSpace(front);
      TrimmingLosesNoName(front);
    }
  }

  lemma {:induction false} NamesOfTrimmed(ls: seq<string>)
    requires forall l :: l in ls ==> OnlySpaces(l)
    ensures NamesOn(TrimEach(ls)) == NamesOn(ls)
  {
    hide NamesIn, OnlySpaces;
    if ls != [] {
      assert ls[0] in ls && forall l :: l in ls[1..] ==> l in ls;
      TrimmingLosesNoName(ls[0]);
      NamesOfTrimmed(ls[1..]);
      assert TrimEach(ls)[1..] == TrimEach(ls[1..]);
    }
  }

  lemma GroupNamesNothing(bar: string, rest: string)
    requires bar == "│" || bar == " "
    ensures NamesIn(bar + "   " + rest) == NamesIn(rest)
  {
    hide NamesIn;
    NamesInWord("");
    NamesInWord("│");
    NamesBeforeSpace("");
    assert "" + " " == " ";
    NamesBeforeSpace(bar);
    NamesBeforeSpace(bar + " ");
    assert bar + "   " + rest == bar + " " + " " + " " + rest;
    NamesAroundSpace(bar + " " + " ", rest);
  }

  lemma {:induction false} IndentNamesNothing(indent: string, depth: nat)
    requires Indents(indent, depth)
    ensures NamesIn(indent) == [] && OnlySpaces(indent)
  {
    hide NamesIn;
    if depth == 0 {
      NamesInWord("");
    } else {
      var rest := indent[4..];
      IndentNamesNothing(rest, depth - 1);
      GroupNamesNothing(indent[..1], rest);
      assert indent == indent[..4] + rest;
      assert indent[..4] == indent[..1] + "   ";
    }
  }

  lemma {:induction false} JoinHoldsOnlySpaces(ns: seq<string>)
    requires AllNames(ns)
    ensures OnlySpaces(JoinByTwo(ns))
  {
    if ns != [] {
      assert ns[0] in ns && forall x :: x in ns[1..] ==> x in ns;
      JoinHoldsOnlySpaces(ns[1..]);
    }
  }

  lemma WrappedHoldsOnlySpaces(text: string, indent: string)
    requires OnlySpaces(text) && OnlySpaces(indent)
    ensures forall l :: l in MapLine.Lines(text, indent) ==> OnlySpaces(l)
  {
    var ok := (set c | c in text) + (set c | c in indent) + {' '};
    PartsHoldNothingNew(text, ' ');
    MapLine.RestHoldsNothingNew("", Split(text, ' '), indent, ok);
  }

  lemma NamesOfWrapped(under: string, ns: seq<string>)
    requires Bare(under) && OnlySpaces(under) && AllNames(ns)
    ensures NamesOn(TrimEach(MapLine.Lines(under + JoinByTwo(ns), under))) == ns
  {
    hide JoinByTwo, TrimEach, NamesOn, Named, Split, Bare, AllNames;
    var text := under + JoinByTwo(ns);
    JoinHoldsOnlySpaces(ns);
    WrappedHoldsOnlySpaces(text, under);
    NamesOfTrimmed(MapLine.Lines(text, under));
    SplitIsFree(text, ' ');
    NamesOfRest("", Split(text, ' '), under);
    NamesInWord("");
    NamesBehind(under, JoinByTwo(ns));
    NamesOfJoin(ns);
  }

  /** Each name once, in the order of the dictionary. */
  ghost predicate ListsNames(found: seq<string>, absent: seq<string>) {
    && multiset(found) == multiset(absent)
    && forall i, j :: 0 <= i < j < |found| ==> InDictionary(found[i], found[j])
  }

  lemma NamesAreOrdered(absent: seq<string>)
    ensures ListsNames(Sorted(absent, AtMost), absent)
  {
    hide Sorted, InDictionary, AtMost;
    var ns := Sorted(absent, AtMost);
    assert IsOrder(AtMost) by {
      forall a: string, b: string
        ensures AtMost(a, b) || AtMost(b, a)
      {
        AtMostIsTotal(a, b);
      }
      forall a: string, b: string, c: string | AtMost(a, b) && AtMost(b, c)
        ensures AtMost(a, c)
      {
        AtMostIsTransitive(a, b, c);
      }
    }
    SortedIsInOrder(absent, AtMost);
    forall i, j | 0 <= i < j < |ns|
      ensures InDictionary(ns[i], ns[j])
    {
      AtMostIsDictionary(ns[i], ns[j]);
    }
  }

  lemma BareBehind(indent: string)
    requires NamesIn(indent) == [] && OnlySpaces(indent)
    ensures Bare(indent + "    ") && OnlySpaces(indent + "    ")
  {
    hide NamesIn;
    NamesBeforeSpace(indent);
    NamesBeforeSpace(indent + " ");
    NamesBeforeSpace(indent + "  ");
    NamesBeforeSpace(indent + "   ");
    assert indent + " " + " " == indent + "  " && indent + "  " + " " == indent + "   ";
    assert indent + "   " + " " == indent + "    ";
  }

  /**
   Under a node's children stands how many names are declared here and not built, and behind that
   line the names themselves, each once and in the order of the dictionary, however they are wrapped.
   */
  lemma AbsentNamesAreRead(absent: seq<string>, indent: string, depth: nat)
    requires Indents(indent, depth) && AllNames(absent) && absent != []
    ensures var lines := AbsentLines(absent, indent);
      && lines != [] && lines[0] == indent + "    declared, not built " + Decimal(|absent|)
      && ListsNames(NamesOn(lines[1..]), absent)
  {
    hide NamesIn, NamesOn, MapLine.Lines, ListsNames, TrimEach, Indents, Decimal;
    var ns, under := Sorted(absent, AtMost), indent + "    ";
    IndentNamesNothing(indent, depth);
    BareBehind(indent);
    NamesAreOrdered(absent);
    NamesOfWrapped(under, ns);
  }
}
