/**
 Under one key a session whose compile succeeded goes on to import its key's build, whatever the
 others do in between.

 "Goes on" is said in full: it always has a next action of its own, each of them brings it nearer
 to the import, and its own actions alone lead there.
 */
module BuildCacheProgress {
  import opened Wrappers
  import opened BuildCache
  import opened BuildCacheSafety

  // ---------------------------------------------------------------- the way to the import

  /** What takes a session on: not being killed, not a removal's single files, not a new import. */
  predicate Forward(act: Action) {
    !act.Exit? && !act.DropFile? && !act.DropDirectory? && !act.Begin?
  }

  /** How far from the import a place is: the stages still to come, and the work left in this one. */
  function Stage(p: Place): nat {
    match p
    case Pointing(_, _) => 6
    case Publishing(_, _) => 5
    case Discarding(_, _, _) => 4
    case Retesting(_) => 3
    case Listing(_) => 2
    case Sweeping(_, _) => 1
    case Probing(_, _, _, _) => 1
    case Renaming(_, _, _) => 1
    case Deleting(_, _, _) => 1
    case _ => 0
  }

  function Work(p: Place): nat {
    match p
    case Sweeping(_, todo) => 4 * |todo|
    case Deleting(_, todo, _) => 4 * |todo| + 1
    case Renaming(_, todo, _) => 4 * |todo| + 2
    case Probing(_, todo, _, _) => 4 * |todo| + 3
    case Importing(_) => 1
    case _ => 0
  }

  /** q is nearer to the import than p. */
  predicate Nearer(q: Place, p: Place) {
    Stage(q) < Stage(p) || (Stage(q) == Stage(p) && Work(q) < Work(p))
  }

  lemma ForwardComesNearer(whole: set<string>, st: State, p: Place, act: Action)
    requires Compiled(p) && Forward(act) && Act(whole, st, p, act).Some?
    ensures Nearer(Act(whole, st, p, act).value.place, p)
  {
    hide Open, OpenAlone, HasBinary, Lists, Move;
  }

  lemma {:induction false} Listed(names: set<Name>) returns (order: seq<Name>)
    ensures forall n :: n in order <==> n in names
    ensures forall i, j :: 0 <= i < j < |order| ==> order[i] != order[j]
    decreases |names|
  {
    if names == {} {
      order := [];
    } else {
      var n :| n in names;
      var rest := Listed(names - {n});
      order := [n] + rest;
    }
  }

  /** The next action of a session past its compile, which nothing can keep it from. */
  lemma ForwardIsEnabled(whole: set<string>, st: State, p: Place) returns (act: Action)
    requires PlaceOk(whole, st.entry, st.next, p) && Compiled(p)
    ensures Forward(act) && Act(whole, st, p, act).Some?
  {
    match p
    case Pointing(_, _) => act := PointAtRoot;
    case Publishing(_, _) => act := Publish;
    case Discarding(_, _, _) => act := EndDrop;
    case Retesting(_) => act := LookAgain;
    case Listing(_) =>
      var order := Listed(st.entry.Keys);
      act := ListBuilds(order);
    case Sweeping(_, _) => act := TakeNext;
    case Probing(_, _, _, _) => act := CloseProbe;
    case Renaming(_, _, _) => act := Rename;
    case Deleting(_, _, _) => act := EndDrop;
    case Importing(_) => act := Import;
  }

  /** The session holds its key's finished build, the very directory that is there. */
  ghost predicate HasImported(whole: set<string>, st: State, who: nat, key: Key) {
    && Plain(key) in st.entry && Complete(whole, st.entry[Plain(key)])
    && At(st, who) == Loaded(key, st.entry[Plain(key)].made)
  }

  ghost predicate OwnForward(own: seq<Event>, who: nat) {
    forall ev :: ev in own ==> ev.who == who && Forward(ev.act)
  }

  /** The session's own actions, and nothing else, lead it to its import. */
  ghost predicate CanImport(whole: set<string>, st: State, who: nat, key: Key) {
    exists own :: OwnForward(own, who) && Run(whole, st, own).Some? &&
      HasImported(whole, Run(whole, st, own).value, who, key)
  }

  lemma LoadedHasImported(whole: set<string>, st: State, who: nat, key: Key)
    requires Inv(whole, st) && OneKeyInv(st, key) && At(st, who).Loaded?
    ensures HasImported(whole, st, who, key) && CanImport(whole, st, who, key)
  {
    assert PlaceOk(whole, st.entry, st.next, At(st, who));
    assert DirOk(whole, Plain(key), st.entry[Plain(key)], st.next);
    assert OwnForward([], who) && Run(whole, st, []) == Some(st);
  }

  lemma OneActionMore(whole: set<string>, st: State, act: Action, who: nat, key: Key)
    requires Forward(act) && Step(whole, st, Event(who, act)).Some?
    requires CanImport(whole, Step(whole, st, Event(who, act)).value, who, key)
    ensures CanImport(whole, st, who, key)
  {
    hide Step, HasImported, Forward;
    var t := Step(whole, st, Event(who, act)).value;
    var own :| OwnForward(own, who) && Run(whole, t, own).Some? && HasImported(whole, Run(whole, t, own).value, who, key);
    assert ([Event(who, act)] + own)[1..] == own;
    assert OwnForward([Event(who, act)] + own, who);
  }

  /** Under one key a session past its compile can always get to its import by itself. */
  lemma {:induction false} OneKeyCanImport(whole: set<string>, st: State, who: nat, key: Key)
    requires Inv(whole, st) && OneKeyInv(st, key)
    requires Compiled(At(st, who)) || At(st, who).Loaded?
    ensures CanImport(whole, st, who, key)
    decreases Stage(At(st, who)), Work(At(st, who)), Compiled(At(st, who))
  {
    hide Act, HasImported, CanImport, OneKeyInv;
    var p := At(st, who);
    assert PlaceOk(whole, st.entry, st.next, p);
    if p.Loaded? {
      LoadedHasImported(whole, st, who, key);
    } else {
      var act := ForwardIsEnabled(whole, st, p);
      var ev := Event(who, act);
      var t := Step(whole, st, ev).value;
      ForwardComesNearer(whole, st, p, act);
      OneKeyStep(whole, st, ev, key);
      StepKeepsInv(whole, st, ev);
      OneKeyCanImport(whole, t, who, key);
      OneActionMore(whole, st, act, who, key);
    }
  }

  lemma OwnStep(whole: set<string>, st: State, ev: Event, who: nat)
    requires Compiled(At(st, who)) && Step(whole, st, ev).Some?
    requires ev.who == who ==> ev.act != Exit
    ensures var p, q := At(st, who), At(Step(whole, st, ev).value, who);
      if ev.who == who && Forward(ev.act) then Nearer(q, p) else q == p
  {
    if ev.who == who && Forward(ev.act) {
      ForwardComesNearer(whole, st, At(st, who), ev.act);
    }
  }

  /**
   No interleaving holds a session back: other sessions' actions leave it where it is, each of its
   own forward ones brings it nearer, and it is on its way until it has loaded its build.
   */
  lemma {:induction false} OnItsWay(whole: set<string>, a: State, run: seq<Event>, who: nat, key: Key)
    requires Inv(whole, a) && OneKeyInv(a, key) && OneKey(run, key)
    requires Compiled(At(a, who)) && Run(whole, a, run).Some?
    requires forall ev :: ev in run && ev.who == who ==> ev.act != Exit
    ensures var b := Run(whole, a, run).value;
      || HasImported(whole, b, who, key)
      || (Compiled(At(b, who)) &&
          if exists ev :: ev in run && ev.who == who && Forward(ev.act)
          then Nearer(At(b, who), At(a, who)) else At(b, who) == At(a, who))
    decreases |run|
  {
    if run != [] {
      var ev := run[0];
      var t := Step(whole, a, ev).value;
      assert ev in run;
      OneKeyStep(whole, a, ev, key);
      StepKeepsInv(whole, a, ev);
      OwnStep(whole, a, ev, who);
      if Compiled(At(t, who)) {
        OnItsWay(whole, t, run[1..], who, key);
        assert forall e :: e in run <==> e == ev || e in run[1..];
      } else {
        ImportedBuildStays(whole, t, run[1..], who);
      }
    }
  }

  // ---------------------------------------------------------------- whose keys the sessions have

  ghost predicate KeysFrom(run: seq<Event>, keys: set<Key>) {
    forall ev :: ev in run && ev.act.Begin? ==> ev.act.key in keys
  }

  /** Where all keys are the same, they are all one key. */
  lemma TheOneKey(run: seq<Event>, keys: set<Key>) returns (key: Key)
    requires KeysFrom(run, keys) && forall k, l :: k in keys && l in keys ==> k == l
    ensures OneKey(run, key)
  {
    key := "";
    if k :| k in keys {
      key := k;
    }
  }

  // ---------------------------------------------------------------- a session whose compile succeeded

  /** What a session has done since it last began: nothing of use, compiled, or offered its build to its key. */
  datatype History = NoBuild | Finished | Offered

  function After(had: History, ev: Event, who: nat): History {
    if ev.who != who then had
    else
      match ev.act
      case Begin(_) => NoBuild
      case Exit => NoBuild
      case FinishBuild => Finished
      case Publish => if had.Finished? then Offered else had
      case _ => had
  }

  function HistoryOf(run: seq<Event>, who: nat): History {
    if run == [] then NoBuild else After(HistoryOf(run[..|run| - 1], who), run[|run| - 1], who)
  }

  /** The session's compile succeeded, it has begun no other import since, and was not killed. */
  predicate Built(run: seq<Event>, who: nat) {
    !HistoryOf(run, who).NoBuild?
  }

  lemma HistoryAppend(run: seq<Event>, ev: Event, who: nat)
    ensures HistoryOf(run + [ev], who) == After(HistoryOf(run, who), ev, who)
  {
    assert (run + [ev])[..|run|] == run;
  }

  /** What a history says was done is in the run. */
  lemma {:induction false} HistoryHappened(run: seq<Event>, who: nat)
    ensures Built(run, who) ==> Event(who, FinishBuild) in run
    ensures HistoryOf(run, who).Offered? ==> Event(who, Publish) in run
  {
    if run != [] {
      var front, last := run[..|run| - 1], run[|run| - 1];
      HistoryHappened(front, who);
      assert forall ev :: ev in front ==> ev in run;
      assert last in run && last == Event(last.who, last.act);
    }
  }

  lemma {:induction false} RunFront(whole: set<string>, st: State, run: seq<Event>)
    requires run != [] && Run(whole, st, run).Some?
    ensures Run(whole, st, run[..|run| - 1]).Some?
    ensures Step(whole, Run(whole, st, run[..|run| - 1]).value, run[|run| - 1]) == Run(whole, st, run)
    decreases |run|
  {
    hide Step;
    var front := run[..|run| - 1];
    if front != [] {
      RunFront(whole, Step(whole, st, run[0]).value, run[1..]);
      assert front[1..] == run[1..][..|run[1..]| - 1];
    } else {
      assert run[1..] == [];
    }
  }

  lemma BuiltStep(whole: set<string>, st: State, ev: Event, had: History, who: nat, key: Key)
    requires Inv(whole, st) && OneKeyInv(st, key) && Step(whole, st, ev).Some?
    requires ev.act.Begin? ==> ev.act.key == key
    requires !had.NoBuild? ==> Compiled(At(st, who)) || At(st, who).Loaded?
    requires !After(had, ev, who).NoBuild?
    ensures var p := At(Step(whole, st, ev).value, who); Compiled(p) || p.Loaded?
  {
    OneKeyStep(whole, st, ev, key);
    hide Inv, OneKeyInv, DropAction, SweepAction, Open, OpenAlone;
  }

  /** Under one key a session whose compile succeeded is past it, or has loaded its build. */
  lemma {:induction false} BuiltIsPastCompile(whole: set<string>, st: State, run: seq<Event>, who: nat, key: Key)
    requires Inv(whole, st) && OneKeyInv(st, key) && OneKey(run, key)
    requires Run(whole, st, run).Some? && Built(run, who)
    ensures var p := At(Run(whole, st, run).value, who); Compiled(p) || p.Loaded?
    decreases |run|
  {
    hide Inv, OneKeyInv, Step, After;
    var front, last := run[..|run| - 1], run[|run| - 1];
    assert last in run && forall ev :: ev in front ==> ev in run;
    RunFront(whole, st, run);
    OneKeyRun(whole, st, front, key);
    if Built(front, who) {
      BuiltIsPastCompile(whole, st, front, who, key);
    }
    BuiltStep(whole, Run(whole, st, front).value, last, HistoryOf(front, who), who, key);
  }

  // ---------------------------------------------------------------- a session nothing can stop, and one that is stranded

  /**
   The session is sure to import, if only it lives: its own actions lead there, it always has one,
   and whichever it takes brings it nearer and is no failure.
   */
  ghost predicate WillImport(whole: set<string>, st: State, who: nat) {
    var p := At(st, who);
    && Compiled(p)
    && CanImport(whole, st, who, p.key)
    && (exists act :: Forward(act) && Step(whole, st, Event(who, act)).Some?)
    && (forall act :: Forward(act) && Step(whole, st, Event(who, act)).Some? ==>
          var q := At(Step(whole, st, Event(who, act)).value, who);
          Nearer(q, p) && (Compiled(q) || q.Loaded?))
  }

  /** The session has loaded its key's build. */
  ghost predicate Imported(whole: set<string>, st: State, who: nat) {
    At(st, who).Loaded? && HasImported(whole, st, who, At(st, who).key)
  }

  lemma OneKeyWillImport(whole: set<string>, run: seq<Event>, st: State, t: State, who: nat, key: Key)
    requires OneKey(run, key) && Reaches(whole, st, run, t) && Compiled(At(t, who))
    ensures WillImport(whole, t, who)
  {
    hide ImportAction, BuildAction, DropAction, SweepAction, Act;
    OneKeyRun(whole, st, run, key);
    OneKeyCanImport(whole, t, who, key);
    assert PlaceOk(whole, t.entry, t.next, At(t, who));
    var next := ForwardIsEnabled(whole, t, At(t, who));
    assert Step(whole, t, Event(who, next)).Some?;
    forall act | Forward(act) && Step(whole, t, Event(who, act)).Some?
      ensures var q := At(Step(whole, t, Event(who, act)).value, who); Nearer(q, At(t, who)) && (Compiled(q) || q.Loaded?)
    {
      ForwardComesNearer(whole, t, At(t, who), act);
      OneKeyStep(whole, t, Event(who, act), key);
    }
  }

  /** Under one key a session whose compile succeeded has imported its build, or is sure to. */
  lemma OneKeyBuilderImports(whole: set<string>, run: seq<Event>, st: State, t: State, who: nat, key: Key)
    requires OneKey(run, key) && Reaches(whole, st, run, t) && Built(run, who)
    ensures Imported(whole, t, who) || WillImport(whole, t, who)
  {
    hide WillImport, HistoryOf;
    BuiltIsPastCompile(whole, st, run, who, key);
    if Compiled(At(t, who)) {
      OneKeyWillImport(whole, run, st, t, who, key);
    } else {
      OneKeyRun(whole, st, run, key);
      LoadedHasImported(whole, t, who, key);
    }
  }

  /** About to import a build that is gone, a session's only way on is to fail. */
  lemma StrandedCannotImport(whole: set<string>, st: State, who: nat, own: seq<Event>)
    requires At(st, who).Importing? && !HasBinary(st, Plain(At(st, who).key))
    requires OwnForward(own, who) && Run(whole, st, own).Some?
    ensures !At(Run(whole, st, own).value, who).Loaded?
  {
    if own != [] {
      var t := Step(whole, st, own[0]).value;
      assert own[0] in own;
      assert At(t, who).Failed?;
    }
  }
}
