/**
 The estate map's prose wrapped at one width, greedily (Xmip/New-XmipEstateMap.ps1).

 A layout is the words grouped into lines.  The script's loop is shown to print the greedy
 layout, and the greedy layout to need the fewest lines of all.
 */
module MapLine {
  import opened Text

  const WIDTH := 78

  /** What the loop still adds to its lines, from what it holds and the words it has not seen. */
  function Rest(current: string, words: seq<string>, indent: string): seq<string>
    decreases |words|
  {
    if words == [] then (if current == "" then [] else [current])
    else if current == "" then Rest(words[0], words[1..], indent)
    else if |current| + 1 + |words[0]| <= WIDTH then Rest(current + " " + words[0], words[1..], indent)
    else [current] + Rest(indent + words[0], words[1..], indent)
  }

  /** Format-XmipMapLine. */
  method FormatMapLine(text: string, indent: string) returns (line: seq<string>)
    ensures line == Rest("", Split(text, ' '), indent)
  {
    line := [];
    var current := "";
    var words := Split(text, ' ');
    for i := 0 to |words|
      invariant line + Rest(current, words[i..], indent) == Rest("", words, indent)
    {
      assert words[i..][0] == words[i] && words[i..][1..] == words[i + 1..];
      if current == "" {
        current := words[i];
      } else if |current| + 1 + |words[i]| <= WIDTH {
        current := current + " " + words[i];
      } else {
        line := line + [current];
        current := indent + words[i];
      }
    }
    if current != "" {
      line := line + [current];
    }
  }

  // ---------------------------------------------------------------- layouts

  type Layout = seq<seq<string>>

  function Flatten(layout: Layout): seq<string> {
    if layout == [] then [] else layout[0] + Flatten(layout[1..])
  }

  /** How long the words are on one line. */
  function Width(words: seq<string>): nat {
    if words == [] then 0 else if |words| == 1 then |words[0]| else |words[0]| + 1 + Width(words[1..])
  }

  /** A line of several words is within the width; a word alone has to be taken as it is. */
  predicate Fits(words: seq<string>, lead: nat) {
    |words| == 1 || (|words| > 1 && lead + Width(words) <= WIDTH)
  }

  /** A layout of the words whose first line starts after `lead` characters and the others after `indent`. */
  predicate Lays(layout: Layout, words: seq<string>, lead: nat, indent: nat) {
    && Flatten(layout) == words
    && forall i :: 0 <= i < |layout| ==> Fits(layout[i], if i == 0 then lead else indent)
  }

  /** The lines a layout prints. */
  function Print(layout: Layout, head: string, indent: string): seq<string> {
    if layout == [] then [] else [head + Join(layout[0], ' ')] + Print(layout[1..], indent, indent)
  }

  /** How many words the greedy line takes, having taken k. */
  function Fill(words: seq<string>, lead: nat, k: nat): (f: nat)
    requires 1 <= k <= |words|
    ensures k <= f <= |words|
    decreases |words| - k
  {
    if k < |words| && lead + Width(words[..k + 1]) <= WIDTH then Fill(words, lead, k + 1) else k
  }

  function Greedy(words: seq<string>, lead: nat, indent: nat): Layout
    decreases |words|
  {
    if words == [] then []
    else
      var f := Fill(words, lead, 1);
      [words[..f]] + Greedy(words[f..], indent, indent)
  }

  lemma {:induction false} WidthAppend(a: seq<string>, b: seq<string>)
    ensures a != [] && b != [] ==> Width(a + b) == Width(a) + 1 + Width(b)
    ensures Width(a) <= Width(a + b) && Width(b) <= Width(a + b)
  {
    if a == [] {
      assert a + b == b;
    } else if b == [] {
      assert a + b == a;
    } else if |a| == 1 {
      assert (a + b)[1..] == b;
    } else {
      assert (a + b)[1..] == a[1..] + b;
      WidthAppend(a[1..], b);
    }
  }

  lemma {:induction false} WidthOfJoin(words: seq<string>)
    ensures |Join(words, ' ')| == Width(words)
  {
    if |words| > 1 {
      WidthOfJoin(words[1..]);
    }
  }

  /** The greedy line fits, and no longer beginning of the words does. */
  lemma {:induction false} FillIsLongest(words: seq<string>, lead: nat, k: nat, m: nat)
    requires 1 <= k <= |words| && Fits(words[..k], lead)
    ensures Fits(words[..Fill(words, lead, k)], lead)
    ensures k <= m <= |words| && Fits(words[..m], lead) ==> m <= Fill(words, lead, k)
    decreases |words| - k
  {
    if k < |words| && lead + Width(words[..k + 1]) <= WIDTH {
      FillIsLongest(words, lead, k + 1, m);
    } else if k < m <= |words| {
      assert words[..m] == words[..k + 1] + words[k + 1..m];
      WidthAppend(words[..k + 1], words[k + 1..m]);
    }
  }

  lemma {:induction false} GreedyLays(words: seq<string>, lead: nat, indent: nat)
    ensures Lays(Greedy(words, lead, indent), words, lead, indent)
    decreases |words|
  {
    if words != [] {
      var f := Fill(words, lead, 1);
      FillIsLongest(words, lead, 1, 1);
      GreedyLays(words[f..], indent, indent);
      var g := Greedy(words, lead, indent);
      assert g[1..] == Greedy(words[f..], indent, indent);
      assert words == words[..f] + words[f..];
      forall i | 0 < i < |g|
        ensures Fits(g[i], indent)
      {
        assert g[i] == g[1..][i - 1];
      }
    }
  }

  /** What fits still fits without its first words. */
  lemma EndFits(a: seq<string>, b: seq<string>, lead: nat)
    requires b != [] && Fits(a + b, lead)
    ensures Fits(b, lead)
  {
    WidthAppend(a, b);
  }

  lemma OneWordFits(words: seq<string>, lead: nat)
    requires words != []
    ensures Fits(words[..1], lead)
  {
  }

  /** A line begun later ends no earlier. */
  lemma FillsFurther(words: seq<string>, j: nat, indent: nat)
    requires words != [] && j < Fill(words, indent, 1)
    ensures j + Fill(words[j..], indent, 1) >= Fill(words, indent, 1)
  {
    hide Fill, Fits, Width;
    var f, v := Fill(words, indent, 1), words[j..];
    OneWordFits(words, indent);
    FillIsLongest(words, indent, 1, 1);
    assert words[..f] == words[..j] + v[..f - j];
    EndFits(words[..j], v[..f - j], indent);
    OneWordFits(v, indent);
    FillIsLongest(v, indent, 1, f - j);
  }

  lemma GreedyInFront(words: seq<string>, lead: nat, indent: nat)
    ensures words == [] ==> Greedy(words, lead, indent) == []
    ensures words != [] ==> |Greedy(words, lead, indent)| == 1 + |Greedy(words[Fill(words, lead, 1)..], indent, indent)|
  {
  }

  /** Fewer words never need more lines, on lines that all start alike. */
  lemma {:induction false} GreedyOfSuffix(words: seq<string>, j: nat, indent: nat)
    requires j <= |words|
    ensures |Greedy(words[j..], indent, indent)| <= |Greedy(words, indent, indent)|
    decreases |words|
  {
    hide Fill, Fits, Greedy;
    GreedyInFront(words, indent, indent);
    GreedyInFront(words[j..], indent, indent);
    if j < |words| {
      var f := Fill(words, indent, 1);
      if j >= f {
        assert words[f..][j - f..] == words[j..];
        GreedyOfSuffix(words[f..], j - f, indent);
      } else {
        var h := Fill(words[j..], indent, 1);
        FillsFurther(words, j, indent);
        assert words[f..][j + h - f..] == words[j..][h..];
        GreedyOfSuffix(words[f..], j + h - f, indent);
      }
    }
  }

  /** A layout is its first line, and a layout of the words behind it. */
  lemma LaysOn(other: Layout, words: seq<string>, lead: nat, indent: nat)
    requires Lays(other, words, lead, indent) && words != []
    ensures other != [] && 1 <= |other[0]| <= |words| && words[..|other[0]|] == other[0] && Fits(other[0], lead)
    ensures Lays(other[1..], words[|other[0]|..], indent, indent)
  {
    var g, rest := other[0], other[1..];
    assert words == g + Flatten(rest);
    hide Flatten, Fits;
    assert words[|g|..] == Flatten(rest);
    assert forall i :: 0 <= i < |rest| ==> rest[i] == other[i + 1];
  }

  /** No layout of the words has fewer lines than the greedy one. */
  lemma {:induction false} GreedyIsFewest(words: seq<string>, lead: nat, indent: nat, other: Layout)
    requires Lays(other, words, lead, indent)
    ensures |Greedy(words, lead, indent)| <= |other|
    decreases |words|
  {
    hide Lays, Fits, Fill, Greedy;
    GreedyInFront(words, lead, indent);
    if words != [] {
      LaysOn(other, words, lead, indent);
      var g, f := |other[0]|, Fill(words, lead, 1);
      OneWordFits(words, lead);
      FillIsLongest(words, lead, 1, g);
      GreedyIsFewest(words[g..], indent, indent, other[1..]);
      assert words[g..][f - g..] == words[f..];
      GreedyOfSuffix(words[g..], f - g, indent);
    }
  }

  // ---------------------------------------------------------------- the loop prints the greedy layout

  lemma {:induction false} RestFills(head: string, words: seq<string>, k: nat, indent: string)
    requires 1 <= k <= |words| && head + Join(words[..k], ' ') != ""
    ensures var f := Fill(words, |head|, k);
      Rest(head + Join(words[..k], ' '), words[k..], indent) ==
      [head + Join(words[..f], ' ')] + (if f == |words| then [] else Rest(indent + words[f], words[f + 1..], indent))
    decreases |words| - k
  {
    WidthOfJoin(words[..k]);
    if k < |words| {
      assert words[..k + 1] == words[..k] + [words[k]];
      JoinAppend(words[..k], [words[k]], ' ');
      WidthAppend(words[..k], [words[k]]);
      assert words[k..][0] == words[k] && words[k..][1..] == words[k + 1..];
      assert head + Join(words[..k + 1], ' ') == head + Join(words[..k], ' ') + " " + words[k];
      if |head| + Width(words[..k + 1]) <= WIDTH {
        RestFills(head, words, k + 1, indent);
      }
    }
  }

  lemma {:induction false} RestPrintsGreedy(head: string, words: seq<string>, indent: string)
    requires words != [] && forall w :: w in words ==> w != ""
    ensures Rest(head + words[0], words[1..], indent) == Print(Greedy(words, |head|, |indent|), head, indent)
    decreases |words|
  {
    var f := Fill(words, |head|, 1);
    assert words[..1] == [words[0]] && words[0] in words;
    RestFills(head, words, 1, indent);
    var g := Greedy(words, |head|, |indent|);
    assert g[0] == words[..f] && g[1..] == Greedy(words[f..], |indent|, |indent|);
    if f < |words| {
      assert words[f..][0] == words[f] && words[f..][1..] == words[f + 1..];
      assert forall w :: w in words[f..] ==> w in words;
      RestPrintsGreedy(indent, words[f..], indent);
    }
  }

  predicate WellSpaced(text: string) {
    forall w :: w in Split(text, ' ') ==> w != ""
  }

  /** The lines Format-XmipMapLine gives for a text, as a function. */
  function Lines(text: string, indent: string): seq<string> {
    Rest("", Split(text, ' '), indent)
  }

  lemma {:induction false} PrintLength(layout: Layout, head: string, indent: string)
    ensures |Print(layout, head, indent)| == |layout|
    ensures forall i :: 0 <= i < |layout| ==>
      Print(layout, head, indent)[i] == (if i == 0 then head else indent) + Join(layout[i], ' ')
  {
    if layout != [] {
      PrintLength(layout[1..], indent, indent);
    }
  }

  lemma LinesPrintGreedy(text: string, indent: string)
    requires WellSpaced(text)
    ensures Lines(text, indent) == Print(Greedy(Split(text, ' '), 0, |indent|), "", indent)
  {
    var words := Split(text, ' ');
    assert "" + words[0] == words[0];
    RestPrintsGreedy("", words, indent);
  }

  /** The wrapped text takes the fewest lines any layout of its words can take. */
  lemma FewestLines(text: string, indent: string, other: Layout)
    requires WellSpaced(text)
    requires Lays(other, Split(text, ' '), 0, |indent|)
    ensures |Lines(text, indent)| <= |other|
  {
    var words := Split(text, ' ');
    LinesPrintGreedy(text, indent);
    PrintLength(Greedy(words, 0, |indent|), "", indent);
    GreedyIsFewest(words, 0, |indent|, other);
  }

  lemma {:induction false} RestOnOneLine(current: string, words: seq<string>, indent: string)
    requires current != "" && |Join([current] + words, ' ')| <= 78
    ensures Rest(current, words, indent) == [Join([current] + words, ' ')]
    decreases |words|
  {
    assert ([current] + words)[1..] == words;
    if words != [] {
      var on := current + " " + words[0];
      assert ([on] + words[1..])[1..] == words[1..];
      assert Join([current] + words, ' ') == Join([on] + words[1..], ' ') by {
        assert Join(words, ' ') == if |words| == 1 then words[0] else words[0] + " " + Join(words[1..], ' ');
      }
      RestOnOneLine(on, words[1..], indent);
    }
  }

  /** A text of at most 78 characters is one line, unless it begins with a space. */
  lemma ShortTextIsOneLine(text: string, indent: string)
    requires text != "" && text[0] != ' ' && |text| <= 78
    ensures Lines(text, indent) == [text]
  {
    var words := Split(text, ' ');
    JoinOfSplit(text, ' ');
    assert words == [words[0]] + words[1..] && words[0] != "";
    RestOnOneLine(words[0], words[1..], indent);
  }

  /** A line is this much, or goes on with another word. */
  predicate BeginsWith(line: string, start: string) {
    start <= line && (line == start || line[|start|] == ' ')
  }

  lemma {:induction false} RestBeginsWith(current: string, words: seq<string>, indent: string)
    requires current != ""
    ensures Rest(current, words, indent) != [] && BeginsWith(Rest(current, words, indent)[0], current)
    decreases |words|
  {
    if words != [] && |current| + 1 + |words[0]| <= WIDTH {
      RestBeginsWith(current + " " + words[0], words[1..], indent);
    }
  }

  lemma {:induction false} RestIsFull(current: string, words: seq<string>, indent: string, i: nat)
    requires current != "" && (forall w :: w in words ==> w != "") && i + 1 < |Rest(current, words, indent)|
    ensures exists w :: w in words && BeginsWith(Rest(current, words, indent)[i + 1], indent + w)
                        && |Rest(current, words, indent)[i]| + 1 + |w| > 78
    decreases |words|
  {
    assert words[0] in words && forall w :: w in words[1..] ==> w in words;
    if |current| + 1 + |words[0]| <= WIDTH {
      RestIsFull(current + " " + words[0], words[1..], indent, i);
    } else {
      RestBeginsWith(indent + words[0], words[1..], indent);
      if i > 0 {
        RestIsFull(indent + words[0], words[1..], indent, i - 1);
      }
    }
  }

  /** No line could have taken the first word of the next one: it would have passed 78 characters. */
  lemma LinesAreFull(text: string, indent: string, i: nat)
    requires WellSpaced(text) && i + 1 < |Lines(text, indent)|
    ensures exists w :: w in Split(text, ' ') && BeginsWith(Lines(text, indent)[i + 1], indent + w)
                        && |Lines(text, indent)[i]| + 1 + |w| > 78
  {
    var words := Split(text, ' ');
    assert words[0] in words && forall w :: w in words[1..] ==> w in words;
    RestIsFull(words[0], words[1..], indent, i);
  }

  lemma {:induction false} FlattenHolds(layout: Layout, i: nat)
    requires i < |layout|
    ensures forall w :: w in layout[i] ==> w in Flatten(layout)
  {
    if i > 0 {
      FlattenHolds(layout[1..], i - 1);
    }
  }

  /** A line of more than 78 characters is one word, after its indent. */
  lemma LongLineIsOneWord(text: string, indent: string, i: nat)
    requires WellSpaced(text) && i < |Lines(text, indent)| && |Lines(text, indent)[i]| > 78
    ensures exists w :: w in Split(text, ' ') && Lines(text, indent)[i] == (if i == 0 then "" else indent) + w
  {
    var words := Split(text, ' ');
    var g := Greedy(words, 0, |indent|);
    LinesPrintGreedy(text, indent);
    PrintLength(g, "", indent);
    GreedyLays(words, 0, |indent|);
    WidthOfJoin(g[i]);
    assert g[i] == [g[i][0]];
    FlattenHolds(g, i);
    assert g[i][0] in words;
  }

  /** The lines without their indent, which a line shorter than it has nothing but. */
  function Strip(lines: seq<string>, indent: string): seq<string> {
    if lines == [] then []
    else [if |indent| <= |lines[0]| then lines[0][|indent|..] else ""] + Strip(lines[1..], indent)
  }

  /** A reader of the wrapped text: drop every later line's indent and join what is left. */
  function Unwrap(lines: seq<string>, indent: string): string {
    if lines == [] then "" else Join([lines[0]] + Strip(lines[1..], indent), ' ')
  }

  function JoinEach(layout: Layout): seq<string> {
    if layout == [] then [] else [Join(layout[0], ' ')] + JoinEach(layout[1..])
  }

  lemma {:induction false} JoinOfGroups(layout: Layout)
    requires forall i :: 0 <= i < |layout| ==> layout[i] != []
    ensures Join(JoinEach(layout), ' ') == Join(Flatten(layout), ' ')
  {
    if layout != [] {
      var tail := layout[1..];
      JoinOfGroups(tail);
      if |layout| == 1 {
        assert Flatten(layout) == layout[0];
      } else {
        assert Flatten(tail) == tail[0] + Flatten(tail[1..]);
        JoinAppend(layout[0], Flatten(tail), ' ');
      }
    }
  }

  lemma {:induction false} StripOfPrint(layout: Layout, indent: string)
    ensures Strip(Print(layout, indent, indent), indent) == JoinEach(layout)
  {
    if layout != [] {
      StripOfPrint(layout[1..], indent);
      assert (indent + Join(layout[0], ' '))[|indent|..] == Join(layout[0], ' ');
    }
  }

  /** Wrapping loses nothing: the text can be read back from its lines. */
  lemma UnwrapOfLines(text: string, indent: string)
    requires WellSpaced(text)
    ensures Unwrap(Lines(text, indent), indent) == text
  {
    var words := Split(text, ' ');
    var g := Greedy(words, 0, |indent|);
    LinesPrintGreedy(text, indent);
    GreedyLays(words, 0, |indent|);
    JoinOfGroups(g);
    StripOfPrint(g[1..], indent);
    assert "" + Join(g[0], ' ') == Join(g[0], ' ');
    JoinOfSplit(text, ' ');
  }

  /** The lines hold no character that is not in the words, in the indent or a space. */
  lemma {:induction false} RestHoldsNothingNew(current: string, words: seq<string>, indent: string, ok: set<char>)
    requires ' ' in ok && (forall c :: c in current ==> c in ok) && (forall c :: c in indent ==> c in ok)
    requires forall w, c :: w in words && c in w ==> c in ok
    ensures forall l, c :: l in Rest(current, words, indent) && c in l ==> c in ok
    decreases |words|
  {
    if words != [] {
      assert words[0] in words && forall w :: w in words[1..] ==> w in words;
      if current == "" {
        RestHoldsNothingNew(words[0], words[1..], indent, ok);
      } else if |current| + 1 + |words[0]| <= WIDTH {
        RestHoldsNothingNew(current + " " + words[0], words[1..], indent, ok);
      } else {
        RestHoldsNothingNew(indent + words[0], words[1..], indent, ok);
      }
    }
  }
}
