/**
 The operator module's build cache: any number of PowerShell sessions share one
 directory and hold no lock (Xmip/Import-XmipOperatorModule.ps1).

 A session builds into `<key>.build-<id>`, renames that into `<key>`, sweeps the builds of
 other keys by way of `<key>.gone-<id>`, and imports `<key>`.  Every rename, write, test and
 delete is one atomic action here, so a run is any interleaving of any sessions' actions, and
 a session may be killed between any two of them.

 A directory carries `made`, the identity it was created with, which a rename keeps.  That is
 what lets a theorem say "the very directory that was imported", and not "some directory of
 that name".
 */
module BuildCache {
  import opened Wrappers

  type Key = string

  datatype Name =
    | Plain(key: Key)              // <key>
    | Staging(key: Key, id: nat)   // <key>.build-<id>
    | Gone(key: Key, id: nat)      // <key>.gone-<id>

  const BINARY := "Xmip.PowerShell.dll"

  datatype Dir = Dir(made: nat, file: set<string>, pointed: bool)

  /** Where one session is between two actions. */
  datatype Place =
    | Idle
    | Checking(key: Key)
    | Compiling(key: Key, id: nat)
    | Pointing(key: Key, id: nat)
    | Publishing(key: Key, id: nat)
    | Discarding(key: Key, id: nat, compiled: bool)
    | Retesting(key: Key)
    | Listing(key: Key)
    | Sweeping(key: Key, todo: seq<Name>)
    | Probing(key: Key, todo: seq<Name>, victim: Key, made: nat)
    | Renaming(key: Key, todo: seq<Name>, victim: Key)
    | Deleting(key: Key, todo: seq<Name>, gone: Name)
    | Importing(key: Key)
    | Loaded(key: Key, made: nat)
    | Failed

  datatype State = State(entry: map<Name, Dir>, session: map<nat, Place>, next: nat)

  datatype Action =
    | Begin(key: Key)
    | Exit
    | LookForBuild
    | Write(files: set<string>)
    | FinishBuild
    | FailBuild
    | PointAtRoot
    | Publish
    | DropFile(file: string)
    | DropDirectory
    | EndDrop
    | LookAgain
    | ListBuilds(order: seq<Name>)
    | TakeNext
    | CloseProbe
    | Rename
    | RenameRefused
    | Import

  datatype Event = Event(who: nat, act: Action)

  function At(st: State, who: nat): Place {
    if who in st.session then st.session[who] else Idle
  }

  /** The file handle a place holds open, by the identity of the directory the file is in. */
  function Opens(p: Place): Option<nat> {
    match p
    case Probing(_, _, _, made) => Some(made)
    case Loaded(_, made) => Some(made)
    case _ => None
  }

  predicate Open(st: State, made: nat) {
    exists s :: s in st.session && Opens(st.session[s]) == Some(made)
  }

  predicate OpenAlone(st: State, made: nat) {
    exists s :: s in st.session && st.session[s].Probing? && st.session[s].made == made
  }

  /** Test-XmipOperatorModuleBuild: the binary module is in the directory. */
  predicate HasBinary(st: State, n: Name) {
    n in st.entry && BINARY in st.entry[n].file
  }

  /** The directory a place is emptying file by file, if it is. */
  function Dropping(p: Place): Option<Name> {
    match p
    case Discarding(key, id, _) => Some(Staging(key, id))
    case Deleting(_, _, gone) => Some(gone)
    case _ => None
  }

  /** Get-ChildItem's answer: each directory once, in whatever order the file system has it. */
  predicate Lists(order: seq<Name>, entry: map<Name, Dir>) {
    && (forall n :: n in order ==> n in entry)
    && (forall n :: n in entry ==> n in order)
    && (forall i, j :: 0 <= i < j < |order| ==> order[i] != order[j])
  }

  function Move(entry: map<Name, Dir>, from: Name, to: Name): map<Name, Dir>
    requires from in entry
  {
    (entry - {from})[to := entry[from]]
  }

  /** What one action leaves: the directory, the acting session's place, the next new id. */
  datatype Effect = Effect(entry: map<Name, Dir>, place: Place, next: nat)

  function Goto(st: State, p: Place): Option<Effect> {
    Some(Effect(st.entry, p, st.next))
  }

  /** Import-XmipOperatorModule: find the build or make it, then import it. */
  function ImportAction(st: State, p: Place, act: Action): Option<Effect> {
    match act
    case Begin(key) => if p.Idle? || p.Failed? then Goto(st, Checking(key)) else None
    case Exit => Goto(st, Idle)
    case LookForBuild =>
      if !p.Checking? then None
      else if HasBinary(st, Plain(p.key)) then Goto(st, Importing(p.key))
      else Some(Effect(st.entry, Compiling(p.key, st.next), st.next + 1))
    case Import =>
      if !p.Importing? then None
      else if HasBinary(st, Plain(p.key)) && !OpenAlone(st, st.entry[Plain(p.key)].made) then
        Goto(st, Loaded(p.key, st.entry[Plain(p.key)].made))
      else Goto(st, Failed)
    case _ => None
  }

  /** Build-XmipOperatorModule up to its rename into place. */
  function BuildAction(whole: set<string>, st: State, p: Place, act: Action): Option<Effect> {
    match act
    case Write(files) =>
      if !p.Compiling? then None
      else
        var n := Staging(p.key, p.id);
        var held := if n in st.entry then st.entry[n] else Dir(p.id, {}, false);
        Some(Effect(st.entry[n := held.(file := held.file + files)], p, st.next))
    case FinishBuild =>
      if p.Compiling? && Staging(p.key, p.id) in st.entry && whole <= st.entry[Staging(p.key, p.id)].file
      then Goto(st, Pointing(p.key, p.id))
      else None
    case FailBuild => if p.Compiling? then Goto(st, Discarding(p.key, p.id, false)) else None
    case PointAtRoot =>
      if p.Pointing? && Staging(p.key, p.id) in st.entry then
        var n := Staging(p.key, p.id);
        Some(Effect(st.entry[n := st.entry[n].(pointed := true)], Publishing(p.key, p.id), st.next))
      else None
    case Publish =>
      if !p.Publishing? then None
      else
        var n := Staging(p.key, p.id);
        if Plain(p.key) !in st.entry && n in st.entry && !Open(st, st.entry[n].made) then
          Some(Effect(Move(st.entry, n, Plain(p.key)), Listing(p.key), st.next))
        else Goto(st, Discarding(p.key, p.id, true))
    case LookAgain =>
      if !p.Retesting? then None
      else Goto(st, if HasBinary(st, Plain(p.key)) then Listing(p.key) else Failed)
    case _ => None
  }

  /** Remove-Item -Recurse, which goes file by file and may stop anywhere without saying so. */
  function DropAction(st: State, p: Place, act: Action): Option<Effect> {
    match act
    case DropFile(file) =>
      if Dropping(p).Some? && Dropping(p).value in st.entry then
        var n := Dropping(p).value;
        Some(Effect(st.entry[n := st.entry[n].(file := st.entry[n].file - {file})], p, st.next))
      else None
    case DropDirectory =>
      if Dropping(p).Some? && Dropping(p).value in st.entry && st.entry[Dropping(p).value].file == {} then
        Some(Effect(st.entry - {Dropping(p).value}, p, st.next))
      else None
    case EndDrop =>
      if p.Discarding? then Goto(st, if p.compiled then Retesting(p.key) else Failed)
      else if p.Deleting? then Goto(st, Sweeping(p.key, p.todo))
      else None
    case _ => None
  }

  /** Remove-XmipOperatorModuleBuild, with Test-XmipOperatorModuleHeld's open and close apart. */
  function SweepAction(st: State, p: Place, act: Action): Option<Effect> {
    match act
    case ListBuilds(order) =>
      if p.Listing? && Lists(order, st.entry) then Goto(st, Sweeping(p.key, order)) else None
    case TakeNext =>
      if !p.Sweeping? then None
      else if p.todo == [] then Goto(st, Importing(p.key))
      else
        var n, rest := p.todo[0], p.todo[1..];
        if n == Plain(p.key) || n.Staging? then Goto(st, Sweeping(p.key, rest))
        else if n.Gone? then Goto(st, Deleting(p.key, rest, n))
        else if !HasBinary(st, n) then Goto(st, Renaming(p.key, rest, n.key))
        else if Open(st, st.entry[n].made) then Goto(st, Sweeping(p.key, rest))
        else Goto(st, Probing(p.key, rest, n.key, st.entry[n].made))
    case CloseProbe =>
      if p.Probing? then Goto(st, Renaming(p.key, p.todo, p.victim)) else None
    case Rename =>
      if !p.Renaming? then None
      else
        var n, gone := Plain(p.victim), Gone(p.victim, st.next);
        if n in st.entry && !Open(st, st.entry[n].made) then
          Some(Effect(Move(st.entry, n, gone), Deleting(p.key, p.todo, gone), st.next + 1))
        else Goto(st, Sweeping(p.key, p.todo))
    case RenameRefused =>
      if p.Renaming? then Goto(st, Sweeping(p.key, p.todo)) else None
    case _ => None
  }

  /** One action of a session at place p; None where its code is not at that action. */
  function Act(whole: set<string>, st: State, p: Place, act: Action): Option<Effect> {
    match act
    case Begin(_) => ImportAction(st, p, act)
    case Exit => ImportAction(st, p, act)
    case LookForBuild => ImportAction(st, p, act)
    case Import => ImportAction(st, p, act)
    case DropFile(_) => DropAction(st, p, act)
    case DropDirectory => DropAction(st, p, act)
    case EndDrop => DropAction(st, p, act)
    case ListBuilds(_) => SweepAction(st, p, act)
    case TakeNext => SweepAction(st, p, act)
    case CloseProbe => SweepAction(st, p, act)
    case Rename => SweepAction(st, p, act)
    case RenameRefused => SweepAction(st, p, act)
    case _ => BuildAction(whole, st, p, act)
  }

  function Step(whole: set<string>, st: State, ev: Event): Option<State> {
    match Act(whole, st, At(st, ev.who), ev.act)
    case None => None
    case Some(e) => Some(State(e.entry, st.session[ev.who := e.place], e.next))
  }

  /** A whole interleaving: the events in order, None as soon as one is not possible. */
  function Run(whole: set<string>, st: State, run: seq<Event>): Option<State>
    decreases |run|
  {
    if run == [] then Some(st)
    else
      var after := Step(whole, st, run[0]);
      if after.None? then None else Run(whole, after.value, run[1..])
  }

  // ---------------------------------------------------------------- the invariant

  /** A finished build: every file of the build is there and its document points at the root. */
  predicate Complete(whole: set<string>, d: Dir) {
    whole <= d.file && d.pointed
  }

  /** The staging directory a session is responsible for. */
  function Owns(p: Place): Option<nat> {
    match p
    case Compiling(_, id) => Some(id)
    case Pointing(_, id) => Some(id)
    case Publishing(_, id) => Some(id)
    case Discarding(_, id, _) => Some(id)
    case _ => None
  }

  ghost predicate DirOk(whole: set<string>, n: Name, d: Dir, next: nat) {
    && d.made < next
    && (n.Plain? ==> Complete(whole, d))
    && (n.Staging? ==> d.made == n.id)
    && (n.Gone? ==> n.id < next)
  }

  ghost predicate Distinct(entry: map<Name, Dir>) {
    forall n, m :: n in entry && m in entry && entry[n].made == entry[m].made ==> n == m
  }

  ghost predicate DirectoryOk(whole: set<string>, entry: map<Name, Dir>, next: nat) {
    (forall n :: n in entry ==> DirOk(whole, n, entry[n], next)) && Distinct(entry)
  }

  ghost predicate OnlyUnder(entry: map<Name, Dir>, made: nat, name: Name) {
    forall n :: n in entry && entry[n].made == made ==> n == name
  }

  ghost predicate PlaceOk(whole: set<string>, entry: map<Name, Dir>, next: nat, p: Place) {
    && (Owns(p).Some? ==> Owns(p).value < next && OnlyUnder(entry, p.id, Staging(p.key, p.id)))
    && (p.Pointing? || p.Publishing? ==>
          Staging(p.key, p.id) in entry && whole <= entry[Staging(p.key, p.id)].file)
    && (p.Publishing? ==> entry[Staging(p.key, p.id)].pointed)
    && (p.Probing? || p.Renaming? ==> p.victim != p.key)
    && (p.Probing? ==> Plain(p.victim) in entry && entry[Plain(p.victim)].made == p.made)
    && (p.Deleting? ==> p.gone.Gone?)
    && (p.Loaded? ==> Plain(p.key) in entry && entry[Plain(p.key)].made == p.made)
  }

  ghost predicate Inv(whole: set<string>, st: State) {
    && BINARY in whole
    && DirectoryOk(whole, st.entry, st.next)
    && (forall s :: s in st.session ==> PlaceOk(whole, st.entry, st.next, st.session[s]))
    && (forall s, t :: s in st.session && t in st.session && s != t && Owns(st.session[s]).Some?
          ==> Owns(st.session[s]) != Owns(st.session[t]))
  }

  /** Before any session: whatever finished, abandoned and half-removed builds earlier runs left. */
  ghost predicate Start(whole: set<string>, st: State) {
    "Xmip.PowerShell.dll" in whole && st.session == map[] && DirectoryOk(whole, st.entry, st.next)
  }

  ghost predicate SameBut(a: map<Name, Dir>, b: map<Name, Dir>, n: Name, m: Name) {
    forall x :: x != n && x != m ==> (x in a <==> x in b) && (x in a && x in b ==> a[x] == b[x])
  }

  /** One directory is created, refilled or removed under its own name and identity. */
  ghost predicate Refilled(a: map<Name, Dir>, b: map<Name, Dir>, n: Name, made: nat) {
    SameBut(a, b, n, n) && (n in b ==> b[n].made == made)
  }

  ghost predicate Moved(a: map<Name, Dir>, b: map<Name, Dir>, from: Name, to: Name) {
    from in a && from !in b && to in b && b[to] == a[from] && SameBut(a, b, from, to)
  }

  /** How a session at place p can change the directory; nothing else can happen to it. */
  ghost predicate Touches(st: State, p: Place, e: Effect) {
    || e.entry == st.entry
    || (Owns(p).Some? && Refilled(st.entry, e.entry, Staging(p.key, p.id), p.id))
    || (p.Deleting? && p.gone in st.entry && Refilled(st.entry, e.entry, p.gone, st.entry[p.gone].made))
    || (p.Publishing? && Plain(p.key) !in st.entry && Moved(st.entry, e.entry, Staging(p.key, p.id), Plain(p.key)))
    || (p.Renaming? && Plain(p.victim) in st.entry && !Open(st, st.entry[Plain(p.victim)].made)
        && e.next == st.next + 1 && Moved(st.entry, e.entry, Plain(p.victim), Gone(p.victim, st.next)))
  }

  lemma PublishTouches(whole: set<string>, st: State, p: Place)
    requires PlaceOk(whole, st.entry, st.next, p) && DirectoryOk(whole, st.entry, st.next)
    requires BuildAction(whole, st, p, Publish).Some?
    ensures var e := BuildAction(whole, st, p, Publish).value;
      Touches(st, p, e) && st.next == e.next && PlaceOk(whole, e.entry, e.next, e.place) &&
      (Owns(e.place).Some? ==> Owns(e.place) == Owns(p))
  {
  }

  lemma BuildTouches(whole: set<string>, st: State, p: Place, act: Action)
    requires PlaceOk(whole, st.entry, st.next, p) && DirectoryOk(whole, st.entry, st.next)
    requires BuildAction(whole, st, p, act).Some?
    ensures var e := BuildAction(whole, st, p, act).value;
      Touches(st, p, e) && st.next == e.next && PlaceOk(whole, e.entry, e.next, e.place) &&
      (Owns(e.place).Some? ==> Owns(e.place) == Owns(p))
  {
    if act.Publish? {
      PublishTouches(whole, st, p);
    } else {
      hide Distinct, Moved;
    }
  }

  lemma DropTouches(whole: set<string>, st: State, p: Place, act: Action)
    requires PlaceOk(whole, st.entry, st.next, p) && DirectoryOk(whole, st.entry, st.next)
    requires DropAction(st, p, act).Some?
    ensures var e := DropAction(st, p, act).value;
      Touches(st, p, e) && st.next == e.next && PlaceOk(whole, e.entry, e.next, e.place) &&
      (Owns(e.place).Some? ==> Owns(e.place) == Owns(p))
  {
  }

  lemma RenameTouches(whole: set<string>, st: State, p: Place)
    requires PlaceOk(whole, st.entry, st.next, p) && DirectoryOk(whole, st.entry, st.next)
    requires SweepAction(st, p, Rename).Some?
    ensures var e := SweepAction(st, p, Rename).value;
      Touches(st, p, e) && st.next <= e.next && PlaceOk(whole, e.entry, e.next, e.place) &&
      Owns(e.place).None?
  {
  }

  lemma SweepTouches(whole: set<string>, st: State, p: Place, act: Action)
    requires PlaceOk(whole, st.entry, st.next, p) && DirectoryOk(whole, st.entry, st.next)
    requires SweepAction(st, p, act).Some?
    ensures var e := SweepAction(st, p, act).value;
      Touches(st, p, e) && st.next <= e.next && PlaceOk(whole, e.entry, e.next, e.place) &&
      Owns(e.place).None?
  {
    if act.Rename? {
      RenameTouches(whole, st, p);
    } else {
      hide Distinct, DirOk, Complete, OnlyUnder, Refilled, Moved, SameBut;
    }
  }

  lemma ImportTouches(whole: set<string>, st: State, p: Place, act: Action)
    requires PlaceOk(whole, st.entry, st.next, p) && DirectoryOk(whole, st.entry, st.next)
    requires ImportAction(st, p, act).Some?
    ensures var e := ImportAction(st, p, act).value;
      e.entry == st.entry && st.next <= e.next && PlaceOk(whole, e.entry, e.next, e.place) &&
      (Owns(e.place).Some? ==> Owns(e.place) == Some(st.next))
  {
  }

  lemma ActTouches(whole: set<string>, st: State, p: Place, act: Action)
    requires PlaceOk(whole, st.entry, st.next, p) && DirectoryOk(whole, st.entry, st.next)
    requires Act(whole, st, p, act).Some?
    ensures var e := Act(whole, st, p, act).value;
      Touches(st, p, e) && st.next <= e.next && PlaceOk(whole, e.entry, e.next, e.place) &&
      (Owns(e.place).Some? ==> Owns(e.place) == Owns(p) || Owns(e.place) == Some(st.next))
  {
    if ImportAction(st, p, act).Some? {
      ImportTouches(whole, st, p, act);
    }
    if DropAction(st, p, act).Some? {
      DropTouches(whole, st, p, act);
    }
    if SweepAction(st, p, act).Some? {
      SweepTouches(whole, st, p, act);
    }
    if BuildAction(whole, st, p, act).Some? {
      BuildTouches(whole, st, p, act);
    }
  }

  lemma RefillKeeps(whole: set<string>, a: map<Name, Dir>, b: map<Name, Dir>, n: Name, made: nat, next: nat)
    requires DirectoryOk(whole, a, next)
    requires Refilled(a, b, n, made) && made < next && OnlyUnder(a, made, n)
    requires !n.Plain? && (n.Staging? ==> n.id == made) && (n.Gone? ==> n.id < next)
    ensures DirectoryOk(whole, b, next)
  {
    forall x | x in b
      ensures DirOk(whole, x, b[x], next)
    {
      if x != n {
        assert DirOk(whole, x, a[x], next);
      }
    }
  }

  lemma MoveKeeps(whole: set<string>, a: map<Name, Dir>, b: map<Name, Dir>, from: Name, to: Name, next: nat, next': nat)
    requires DirectoryOk(whole, a, next) && next <= next'
    requires Moved(a, b, from, to) && to !in a && DirOk(whole, to, b[to], next')
    ensures DirectoryOk(whole, b, next')
  {
    forall x | x in b
      ensures DirOk(whole, x, b[x], next')
    {
      if x != to {
        assert DirOk(whole, x, a[x], next);
      }
    }
  }

  lemma TouchKeepsDirectory(whole: set<string>, st: State, p: Place, e: Effect)
    requires PlaceOk(whole, st.entry, st.next, p) && DirectoryOk(whole, st.entry, st.next)
    requires Touches(st, p, e) && st.next <= e.next
    ensures DirectoryOk(whole, e.entry, e.next)
  {
    if e.entry == st.entry {
      assert forall x :: x in st.entry ==> DirOk(whole, x, st.entry[x], e.next);
    } else if Owns(p).Some? && Refilled(st.entry, e.entry, Staging(p.key, p.id), p.id) {
      RefillKeeps(whole, st.entry, e.entry, Staging(p.key, p.id), p.id, st.next);
      assert forall x :: x in e.entry ==> DirOk(whole, x, e.entry[x], st.next);
    } else if p.Deleting? {
      assert DirOk(whole, p.gone, st.entry[p.gone], st.next);
      RefillKeeps(whole, st.entry, e.entry, p.gone, st.entry[p.gone].made, st.next);
      assert forall x :: x in e.entry ==> DirOk(whole, x, e.entry[x], st.next);
    } else if p.Publishing? {
      MoveKeeps(whole, st.entry, e.entry, Staging(p.key, p.id), Plain(p.key), st.next, e.next);
    } else {
      assert DirOk(whole, Plain(p.victim), st.entry[Plain(p.victim)], st.next);
      var gone := Gone(p.victim, st.next);
      assert gone in st.entry ==> DirOk(whole, gone, st.entry[gone], st.next);
      MoveKeeps(whole, st.entry, e.entry, Plain(p.victim), Gone(p.victim, st.next), st.next, e.next);
    }
  }

  /** A directory no other session can touch: a rival's staging, or a build held open. */
  lemma TouchLeavesAlone(whole: set<string>, st: State, p: Place, e: Effect, n: Name)
    requires PlaceOk(whole, st.entry, st.next, p) && DirectoryOk(whole, st.entry, st.next)
    requires Touches(st, p, e) && n in st.entry
    requires n.Staging? ==> Owns(p) != Some(n.id)
    requires n.Plain? ==> Open(st, st.entry[n].made)
    requires !n.Gone?
    ensures n in e.entry && e.entry[n] == st.entry[n]
  {
  }

  /** What one session relies on survives any action of another that touches the directory. */
  lemma TouchKeepsOther(whole: set<string>, st: State, p: Place, e: Effect, q: Place)
    requires DirectoryOk(whole, st.entry, st.next)
    requires PlaceOk(whole, st.entry, st.next, p) && PlaceOk(whole, st.entry, st.next, q)
    requires Owns(p).Some? ==> Owns(p) != Owns(q)
    requires Opens(q).Some? ==> Open(st, Opens(q).value)
    requires Touches(st, p, e) && st.next <= e.next
    ensures PlaceOk(whole, e.entry, e.next, q)
  {
    if q.Probing? {
      TouchLeavesAlone(whole, st, p, e, Plain(q.victim));
    } else if q.Loaded? {
      TouchLeavesAlone(whole, st, p, e, Plain(q.key));
    } else if Owns(q).Some? {
      if Staging(q.key, q.id) in st.entry {
        TouchLeavesAlone(whole, st, p, e, Staging(q.key, q.id));
      }
      assert OnlyUnder(e.entry, q.id, Staging(q.key, q.id));
    }
  }

  lemma StepKeepsInv(whole: set<string>, st: State, ev: Event)
    requires Inv(whole, st)
    requires Step(whole, st, ev).Some?
    ensures Inv(whole, Step(whole, st, ev).value)
  {
    var t := Step(whole, st, ev).value;
    var p := At(st, ev.who);
    var e := Act(whole, st, p, ev.act).value;
    ActTouches(whole, st, p, ev.act);
    TouchKeepsDirectory(whole, st, p, e);
    forall s | s in st.session && s != ev.who
      ensures PlaceOk(whole, t.entry, t.next, st.session[s])
    {
      TouchKeepsOther(whole, st, p, e, st.session[s]);
    }
  }

  /** The invariant holds after every run, whoever's actions it interleaves. */
  lemma {:induction false} RunKeepsInv(whole: set<string>, st: State, run: seq<Event>)
    requires Inv(whole, st)
    requires Run(whole, st, run).Some?
    ensures Inv(whole, Run(whole, st, run).value)
    decreases |run|
  {
    if run != [] {
      StepKeepsInv(whole, st, run[0]);
      RunKeepsInv(whole, Step(whole, st, run[0]).value, run[1..]);
    }
  }
}
