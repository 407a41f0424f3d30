/**
 Where one repository stands, from the lines of one `git status --porcelain=v2 --branch`
 (Get-XmipRepositoryStatus, Xmip/Get-XmipStatus.ps1): its branch, its distance from the upstream,
 every changed path and how many there are of each kind.
 */
module RepositoryStatus {
  import opened Wrappers
  import opened Text
  import opened StatusLine

  const BRANCH := "# branch."
  const DETACHED := "(detached)"
  const INITIAL := "(initial)"

  /** ^# branch\.(\S+) (.*)$ */
  function HeaderOf(line: string): Option<(string, string)> {
    if !(BRANCH <= line) then None
    else
      var rest := line[|BRANCH|..];
      var key := Before(rest, ' ');
      if key == "" || key == rest || exists c :: c in key && c in WHITE then None
      else Some((key, rest[|key| + 1..]))
  }

  predicate AllDigits(s: string) {
    s != "" && forall c :: c in s ==> IsDigit(c)
  }

  /** ^\+(\d+) -(\d+)$ */
  function Distance(s: string): Option<(nat, nat)> {
    if s == "" || s[0] != '+' then None
    else
      var ahead := Before(s[1..], ' ');
      var rest := s[1 + |ahead|..];
      if AllDigits(ahead) && " -" <= rest && AllDigits(rest[2..]) then Some((Number(ahead), Number(rest[2..]))) else None
  }

  datatype State = State(
    branch: string, detached: bool, hasUpstream: bool, aheadBy: nat, behindBy: nat,
    entry: seq<Parsed>, changed: nat, untracked: nat, clean: bool)

  /** `$branch`: what the headers say, the last of a key winning. */
  function Facts(lines: seq<string>): map<string, string> {
    if lines == [] then map[]
    else
      var before, h := Facts(lines[..|lines| - 1]), HeaderOf(lines[|lines| - 1]);
      if h.Some? then before[h.value.0 := h.value.1] else before
  }

  function Fact(branch: map<string, string>, key: string): string {
    if key in branch then branch[key] else ""
  }

  function CountOf(entry: seq<Parsed>, state: string): nat {
    if entry == [] then 0
    else
      var last := entry[|entry| - 1];
      CountOf(entry[..|entry| - 1], state) + if last.Change? && last.state == state then 1 else 0
  }

  lemma {:induction false} CountIsBounded(entry: seq<Parsed>, state: string)
    ensures CountOf(entry, state) <= |entry|
  {
    if entry != [] {
      CountIsBounded(entry[..|entry| - 1], state);
    }
  }

  /** The two counts: against the upstream, else against origin's main where git knows it. */
  function Distances(branch: map<string, string>, origin: Option<(nat, nat)>): (nat, nat) {
    var d := Distance(Fact(branch, "ab"));
    if d.Some? then d.value
    else if Fact(branch, "oid") != INITIAL && origin.Some? then origin.value
    else (0, 0)
  }

  /**
   The status the headers and the entries make, `origin` being what git answers about origin's main
   when it is asked.  None where the script stops: on a line cut off before its state, or a detached
   HEAD without a commit.
   */
  function Summary(branch: map<string, string>, entry: seq<Parsed>, origin: Option<(nat, nat)>): Option<State> {
    var detached := Fact(branch, "head") == DETACHED;
    if Throws in entry || (detached && |Fact(branch, "oid")| < 7) then None
    else
      var (ahead, behind) := Distances(branch, origin);
      CountIsBounded(entry, "??");
      Some(State(if detached then Fact(branch, "oid")[..7] else Fact(branch, "head"), detached, "upstream" in branch,
                 ahead, behind, entry, |entry| - CountOf(entry, "??"), CountOf(entry, "??"), entry == []))
  }

  function StatusOf(lines: seq<string>, origin: Option<(nat, nat)>): Option<State> {
    Summary(Facts(lines), Changes(lines), origin)
  }

  method CountUntracked(entry: seq<Parsed>) returns (n: nat)
    ensures n == CountOf(entry, "??")
  {
    n := 0;
    for i := 0 to |entry|
      invariant n == CountOf(entry[..i], "??")
    {
      assert entry[..i + 1][..i] == entry[..i];
      if entry[i].Change? && entry[i].state == "??" {
        n := n + 1;
      }
    }
    assert entry[..|entry|] == entry;
  }

  lemma HeaderSaysNoPath(line: string)
    requires HeaderOf(line).Some?
    ensures ReadLine(line).Nothing?
  {
    assert line[0] == BRANCH[0] == '#';
    assert line[..1][0] == '#';
  }

  lemma FactsAppend(lines: seq<string>, line: string)
    ensures Facts(lines + [line]) ==
      match HeaderOf(line) case None => Facts(lines) case Some(h) => Facts(lines)[h.0 := h.1]
  {
    assert (lines + [line])[..|lines|] == lines;
  }

  /** The lines told apart: the headers' facts, and the entries the other lines make. */
  method TellApart(lines: seq<string>) returns (branch: map<string, string>, entry: seq<Parsed>)
    ensures branch == Facts(lines) && entry == Changes(lines)
  {
    hide HeaderOf, ReadLine;
    branch, entry := map[], [];
    for i := 0 to |lines|
      invariant branch == Facts(lines[..i]) && entry == Changes(lines[..i])
    {
      assert lines[..i + 1] == lines[..i] + [lines[i]];
      FactsAppend(lines[..i], lines[i]);
      ChangesAppend(lines[..i], lines[i]);
      var h := HeaderOf(lines[i]);
      if h.Some? {
        HeaderSaysNoPath(lines[i]);
        branch := branch[h.value.0 := h.value.1];
        continue;
      }
      if !ReadLine(lines[i]).Nothing? {
        entry := entry + [ReadLine(lines[i])];
      }
    }
    assert lines[..|lines|] == lines;
  }

  /** Get-XmipRepositoryStatus. */
  method ReadStatus(lines: seq<string>, origin: Option<(nat, nat)>) returns (state: Option<State>)
    ensures state == StatusOf(lines, origin)
  {
    var branch, entry := TellApart(lines);
    hide Facts, Changes, HeaderOf, ReadLine, Distance, CountOf;
    var head := Fact(branch, "head");
    var detached := head == DETACHED;
    if Throws in entry || (detached && |Fact(branch, "oid")| < 7) {
      return None;
    }
    var (ahead, behind) := Distances(branch, origin);
    if detached {
      head := Fact(branch, "oid")[..7];
    }
    var untracked := CountUntracked(entry);
    CountIsBounded(entry, "??");
    state := Some(State(head, detached, "upstream" in branch, ahead, behind,
                        entry, |entry| - untracked, untracked, |entry| == 0));
  }

  // ---------------------------------------------------------------- what git prints

  /** The branch facts git prints before the changes. */
  datatype Branch = Branch(oid: string, head: string, upstream: Option<string>, ab: Option<(nat, nat)>)

  function HeaderLine(key: string, value: string): string {
    "# branch." + key + " " + value
  }

  function PrintBranch(b: Branch): seq<string> {
    [HeaderLine("oid", b.oid), HeaderLine("head", b.head)]
    + (if b.upstream.Some? then [HeaderLine("upstream", b.upstream.value)] else [])
    + (if b.ab.Some? then [HeaderLine("ab", "+" + Decimal(b.ab.value.0) + " -" + Decimal(b.ab.value.1))] else [])
  }

  function FactsOf(b: Branch): map<string, string> {
    var names := map["oid" := b.oid, "head" := b.head];
    var tracked := if b.upstream.Some? then names["upstream" := b.upstream.value] else names;
    if b.ab.Some? then tracked["ab" := "+" + Decimal(b.ab.value.0) + " -" + Decimal(b.ab.value.1)] else tracked
  }

  lemma HeaderIsRead(key: string, value: string)
    requires key != "" && forall c :: c in key ==> c !in WHITE
    ensures HeaderOf(HeaderLine(key, value)) == Some((key, value))
  {
    var line, rest := HeaderLine(key, value), key + [' '] + value;
    assert line == BRANCH + rest && line[|BRANCH|..] == rest;
    BeforeFirst(key, ' ', value);
    assert rest[|key| + 1..] == value;
  }

  /** A header adds its fact, or puts it in the place of an earlier one. */
  lemma LastHeaderWins(lines: seq<string>, key: string, value: string)
    requires key != "" && forall c :: c in key ==> c !in WHITE
    ensures var after := Facts(lines + [HeaderLine(key, value)]);
      && key in after && after[key] == value
      && forall k :: k != key ==> (k in after <==> k in Facts(lines)) && (k in after ==> after[k] == Facts(lines)[k])
  {
    hide HeaderOf, HeaderLine;
    HeaderIsRead(key, value);
    FactsAppend(lines, HeaderLine(key, value));
  }

  lemma DistanceOf(a: string, b: string)
    requires AllDigits(a) && AllDigits(b)
    ensures Distance("+" + a + " -" + b) == Some((Number(a), Number(b)))
  {
    hide Number;
    var s := "+" + a + " -" + b;
    assert s[1..] == a + [' '] + ("-" + b);
    assert ' ' !in a;
    BeforeFirst(a, ' ', "-" + b);
    assert s[1 + |a|..] == " -" + b && (" -" + b)[2..] == b;
  }

  lemma DistanceIsRead(ahead: nat, behind: nat)
    ensures Distance("+" + Decimal(ahead) + " -" + Decimal(behind)) == Some((ahead, behind))
  {
    hide Decimal, Distance;
    DistanceOf(Decimal(ahead), Decimal(behind));
    NumberOfDecimal(ahead);
    NumberOfDecimal(behind);
  }

  lemma NoFacts()
    ensures Facts([]) == map[]
  {
  }

  lemma BranchIsRead(b: Branch)
    ensures Facts(PrintBranch(b)) == FactsOf(b)
  {
    hide HeaderOf, Facts, HeaderLine;
    var oid, head := HeaderLine("oid", b.oid), HeaderLine("head", b.head);
    HeaderIsRead("oid", b.oid);
    HeaderIsRead("head", b.head);
    NoFacts();
    FactsAppend([], oid);
    FactsAppend([oid], head);
    assert [] + [oid] == [oid] && [oid] + [head] == [oid, head];
    var names := [oid, head] + if b.upstream.Some? then [HeaderLine("upstream", b.upstream.value)] else [];
    if b.upstream.Some? {
      HeaderIsRead("upstream", b.upstream.value);
      FactsAppend([oid, head], HeaderLine("upstream", b.upstream.value));
    } else {
      assert names == [oid, head];
    }
    if b.ab.Some? {
      var ab := "+" + Decimal(b.ab.value.0) + " -" + Decimal(b.ab.value.1);
      HeaderIsRead("ab", ab);
      FactsAppend(names, HeaderLine("ab", ab));
    } else {
      assert PrintBranch(b) == names;
    }
  }

  lemma ChangeIsNoHeader(s: Status)
    ensures HeaderOf(Print(s)).None?
  {
    assert Print(s)[0] != BRANCH[0];
  }

  lemma {:induction false} ChangesAreNoHeaders(header: seq<string>, status: seq<Status>)
    ensures Facts(PrintAll(header, status)) == Facts(header)
  {
    hide Facts, Print, HeaderOf;
    if status != [] {
      var front, last := status[..|status| - 1], status[|status| - 1];
      ChangesAreNoHeaders(header, front);
      FactsAppend(PrintAll(header, front), Print(last));
      ChangeIsNoHeader(last);
    }
  }

  /** How many of the printed changes are untracked. */
  function Untracked(status: seq<Status>): nat {
    if status == [] then 0
    else Untracked(status[..|status| - 1]) + if status[|status| - 1].Untracked? then 1 else 0
  }

  lemma {:induction false} UntrackedAreCounted(status: seq<Status>)
    requires forall s :: s in status && StateOf(s) == "??" ==> s.Untracked?
    ensures CountOf(Readings(status), "??") == Untracked(status) && |Readings(status)| == |status|
  {
    if status != [] {
      var front, last := status[..|status| - 1], status[|status| - 1];
      assert last in status && forall s :: s in front ==> s in status;
      UntrackedAreCounted(front);
      assert Readings(status)[..|front|] == Readings(front);
    }
  }

  lemma {:induction false} ReadingsAreChanges(status: seq<Status>)
    ensures forall p :: p in Readings(status) ==> p.Change?
  {
    if status != [] {
      ReadingsAreChanges(status[..|status| - 1]);
    }
  }

  lemma BranchLinesAreHeaders(b: Branch)
    ensures forall h :: h in PrintBranch(b) ==> |h| > 1 && h[0] == '#'
  {
    assert forall key, value :: |HeaderLine(key, value)| > 1 && HeaderLine(key, value)[0] == '#';
  }

  lemma DistancesAreRead(b: Branch, origin: Option<(nat, nat)>)
    ensures Distances(FactsOf(b), origin) ==
      if b.ab.Some? then b.ab.value else if b.oid != "(initial)" && origin.Some? then origin.value else (0, 0)
  {
    hide Decimal;
    if b.ab.Some? {
      DistanceIsRead(b.ab.value.0, b.ab.value.1);
      hide Distance;
    }
  }

  lemma FactsAreFound(b: Branch)
    ensures Fact(FactsOf(b), "head") == b.head && Fact(FactsOf(b), "oid") == b.oid
    ensures "upstream" in FactsOf(b) <==> b.upstream.Some?
  {
    hide Decimal;
  }

  /** What a status is to say of the branch. */
  predicate SaysBranch(s: State, b: Branch, origin: Option<(nat, nat)>) {
    && s.detached == (b.head == "(detached)")
    && (b.head == "(detached)" ==> s.branch <= b.oid && |s.branch| == 7)
    && (b.head != "(detached)" ==> s.branch == b.head)
    && s.hasUpstream == b.upstream.Some?
    && (s.aheadBy, s.behindBy) ==
         (if b.ab.Some? then b.ab.value else if b.oid != "(initial)" && origin.Some? then origin.value else (0, 0))
  }

  /** And of the changes. */
  ghost predicate SaysChanges(s: State, status: seq<Status>) {
    && Lists(s.entry, status)
    && s.untracked == Untracked(status) && s.changed + s.untracked == |status|
    && s.clean == (status == [])
  }

  lemma {:induction false} LineIsAmongChanges(lines: seq<string>, line: string)
    requires line in lines && !ReadLine(line).Nothing?
    ensures ReadLine(line) in Changes(lines)
  {
    hide ReadLine;
    if lines[0] != line {
      assert line in lines[1..];
      LineIsAmongChanges(lines[1..], line);
    }
  }

  /** A line of a tracked change that is cut off before its state stops the script. */
  lemma CutOffLineStops(lines: seq<string>, line: string, origin: Option<(nat, nat)>)
    requires line in lines && |line| > 1 && ' ' !in line
    requires line[0] == '1' || line[0] == '2' || line[0] == 'u'
    ensures StatusOf(lines, origin) == None
  {
    assert line[..1] == [line[0]];
    assert ReadLine(line) == Throws;
    hide ReadLine, Facts, Changes;
    LineIsAmongChanges(lines, line);
  }

  /**
   From what git prints of a branch and its changes the status has the branch, the upstream, both
   distances and every change back, and the untracked and the tracked counted.
   */
  lemma PrintedStatusIsRead(b: Branch, status: seq<Status>, origin: Option<(nat, nat)>)
    requires forall s :: s in status ==> WellFormed(s)
    requires forall s :: s in status && StateOf(s) == "??" ==> s.Untracked?
    ensures var state := StatusOf(PrintAll(PrintBranch(b), status), origin);
      if b.head == "(detached)" && |b.oid| < 7 then state == None
      else state.Some? && SaysBranch(state.value, b, origin) && SaysChanges(state.value, status)
  {
    hide Facts, FactsOf, Changes, PrintAll, PrintBranch, Readings, CountOf, Distances, Fact, Untracked;
    hide WellFormed, Usual, StateOf, Lists;
    ChangesAreNoHeaders(PrintBranch(b), status);
    BranchIsRead(b);
    BranchLinesAreHeaders(b);
    EveryChangeIsListed(PrintBranch(b), status);
    UntrackedAreCounted(status);
    ReadingsAreChanges(status);
    FactsAreFound(b);
    DistancesAreRead(b, origin);
  }
}
