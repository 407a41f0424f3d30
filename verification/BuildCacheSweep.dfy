/**
 What a sweep removes (Remove-XmipOperatorModuleBuild): every build of another key but those that
 something spares, whether it is left alone or runs among other sessions' actions.
 */
module BuildCacheSweep {
  import opened Wrappers
  import opened BuildCache

  ghost predicate OpenByOther(st: State, who: nat, made: nat) {
    exists s :: s in st.session && s != who && Opens(st.session[s]) == Some(made)
  }

  /** A build of another key that no other session has open: what a sweep is to remove. */
  ghost predicate Free(st: State, who: nat, key: Key, k: Key) {
    k != key && Plain(k) in st.entry && HasBinary(st, Plain(k)) && !OpenByOther(st, who, st.entry[Plain(k)].made)
  }

  /** The sweeper still has the build ahead of it. */
  predicate Ahead(p: Place, k: Key) {
    match p
    case Listing(_) => true
    case Sweeping(_, todo) => Plain(k) in todo
    case Probing(_, todo, victim, _) => k == victim || Plain(k) in todo
    case Renaming(_, todo, victim) => k == victim || Plain(k) in todo
    case Deleting(_, todo, _) => Plain(k) in todo
    case _ => false
  }

  predicate InSweep(p: Place) {
    p.Listing? || p.Sweeping? || p.Probing? || p.Renaming? || p.Deleting? || p.Importing?
  }

  /** Nobody else acting, a build is as free after the sweeper's action as before it. */
  lemma FreeBefore(whole: set<string>, st: State, who: nat, act: Action, k: Key)
    requires Inv(whole, st)
    requires InSweep(At(st, who)) && Step(whole, st, Event(who, act)).Some?
    requires Free(Step(whole, st, Event(who, act)).value, who, At(st, who).key, k)
    ensures Free(st, who, At(st, who).key, k)
    ensures At(st, who).Renaming? && act.Rename? ==> k != At(st, who).victim
  {
    var p := At(st, who);
    var e := Act(whole, st, p, act).value;
    var t := Step(whole, st, Event(who, act)).value;
    ActTouches(whole, st, p, act);
    assert Plain(k) in st.entry && e.entry[Plain(k)] == st.entry[Plain(k)];
    var made := st.entry[Plain(k)].made;
    forall s | s in st.session && s != who
      ensures Opens(st.session[s]) != Some(made)
    {
      assert t.session[s] == st.session[s];
    }
    assert Open(st, made) ==> who in st.session && Opens(p) == Some(made);
  }

  /** The sweeper is done with k: k is its own or no build, is open, or is at its rename. */
  ghost predicate Settles(st: State, p: Place, act: Action, k: Key)
    requires InSweep(p)
  {
    || k == p.key
    || !HasBinary(st, Plain(k))
    || (p.Sweeping? && Open(st, st.entry[Plain(k)].made))
    || (p.Renaming? && (act.Rename? || act.RenameRefused?) && k == p.victim)
  }

  /** The sweeper's own action passes over no build of another key that nobody has open. */
  lemma SweeperKeeps(whole: set<string>, st: State, p: Place, act: Action, k: Key)
    requires InSweep(p) && act != Exit && !act.Import?
    requires Act(whole, st, p, act).Some?
    ensures var q := Act(whole, st, p, act).value.place;
      && InSweep(q) && q.key == p.key
      && (Ahead(p, k) && !Settles(st, p, act, k) ==> Ahead(q, k))
  {
    if p.Sweeping? && p.todo != [] {
      assert p.todo == [p.todo[0]] + p.todo[1..];
    }
  }

  lemma SweepStep(whole: set<string>, st: State, who: nat, act: Action, k: Key)
    requires Inv(whole, st)
    requires InSweep(At(st, who)) && act != Exit && act != RenameRefused && !act.Import?
    requires Step(whole, st, Event(who, act)).Some?
    requires Free(st, who, At(st, who).key, k) ==> Ahead(At(st, who), k)
    ensures var t := Step(whole, st, Event(who, act)).value;
      && InSweep(At(t, who)) && At(t, who).key == At(st, who).key
      && (Free(t, who, At(t, who).key, k) ==> Ahead(At(t, who), k))
  {
    hide Inv, Ahead, ImportAction, BuildAction, DropAction, SweepAction, Act;
    var p := At(st, who);
    var t := Step(whole, st, Event(who, act)).value;
    SweeperKeeps(whole, st, p, act, k);
    if Free(t, who, p.key, k) {
      FreeBefore(whole, st, who, act, k);
    }
  }

  /**
   A sweep nobody interferes with, and whose renames the file system does not refuse, ends with
   no build of another key left but those some other session has open.
   */
  lemma {:induction false} SoloSweepLeavesOnlyHeld(whole: set<string>, st: State, who: nat, run: seq<Event>, k: Key)
    requires Inv(whole, st)
    requires InSweep(At(st, who)) && (Free(st, who, At(st, who).key, k) ==> Ahead(At(st, who), k))
    requires forall ev :: ev in run ==> ev.who == who && ev.act != Exit && ev.act != RenameRefused && !ev.act.Import?
    requires Run(whole, st, run).Some? && At(Run(whole, st, run).value, who).Importing?
    ensures !Free(Run(whole, st, run).value, who, At(st, who).key, k)
    decreases |run|
  {
    if run != [] {
      var t := Step(whole, st, run[0]).value;
      assert run[0] in run && run[0] == Event(who, run[0].act);
      SweepStep(whole, st, who, run[0].act, k);
      StepKeepsInv(whole, st, run[0]);
      SoloSweepLeavesOnlyHeld(whole, t, who, run[1..], k);
    }
  }

  // ---------------------------------------------------------------- a sweep among other sessions' actions

  /** The state after the first i events. */
  ghost function Then(whole: set<string>, a: State, run: seq<Event>, i: nat): Option<State>
    requires i <= |run|
  {
    Run(whole, a, run[..i])
  }

  /** Some other session has the build of k open. */
  ghost predicate HeldByOther(st: State, who: nat, k: Key) {
    Plain(k) in st.entry && OpenByOther(st, who, st.entry[Plain(k)].made)
  }

  /** The event puts a build under k, which had none. */
  ghost predicate Publishes(whole: set<string>, st: State, ev: Event, k: Key) {
    && ev.act.Publish? && At(st, ev.who).Publishing? && At(st, ev.who).key == k
    && Plain(k) !in st.entry && Step(whole, st, ev).Some? && Plain(k) in Step(whole, st, ev).value.entry
  }

  /** The file system refuses the sweeper's rename of k. */
  predicate Refuses(st: State, ev: Event, who: nat, k: Key) {
    ev == Event(who, RenameRefused) && At(st, who).Renaming? && At(st, who).victim == k
  }

  /** What spares a build of k at a moment of the sweep: it is held, or the next event publishes it or is a refusal. */
  ghost predicate Spared(whole: set<string>, st: State, rest: seq<Event>, who: nat, k: Key) {
    HeldByOther(st, who, k) || (rest != [] && (Publishes(whole, st, rest[0], k) || Refuses(st, rest[0], who, k)))
  }

  /** At some moment of the run something spares the build. */
  ghost predicate SparedDuring(whole: set<string>, a: State, run: seq<Event>, who: nat, k: Key) {
    exists i: nat ::
      i <= |run| && Then(whole, a, run, i).Some? && Spared(whole, Then(whole, a, run, i).value, run[i..], who, k)
  }

  lemma SparedNow(whole: set<string>, a: State, run: seq<Event>, who: nat, k: Key)
    requires Spared(whole, a, run, who, k)
    ensures SparedDuring(whole, a, run, who, k)
  {
    assert run[..0] == [] && run[0..] == run && Then(whole, a, run, 0) == Some(a);
  }

  lemma SparedLater(whole: set<string>, a: State, run: seq<Event>, who: nat, k: Key)
    requires run != [] && Step(whole, a, run[0]).Some?
    requires SparedDuring(whole, Step(whole, a, run[0]).value, run[1..], who, k)
    ensures SparedDuring(whole, a, run, who, k)
  {
    hide Step, Spared;
    var t := Step(whole, a, run[0]).value;
    var i: nat :| i <= |run[1..]| && Then(whole, t, run[1..], i).Some? &&
      Spared(whole, Then(whole, t, run[1..], i).value, run[1..][i..], who, k);
    assert run[..i + 1][0] == run[0] && run[..i + 1][1..] == run[1..][..i] && run[i + 1..] == run[1..][i..];
    assert Then(whole, a, run, i + 1) == Then(whole, t, run[1..], i);
  }

  /** Only a publish puts a build under a key. */
  lemma OnlyPublishAdds(whole: set<string>, st: State, ev: Event, k: Key)
    requires Inv(whole, st) && Step(whole, st, ev).Some?
    requires Plain(k) !in st.entry && Plain(k) in Step(whole, st, ev).value.entry
    ensures Publishes(whole, st, ev, k)
  {
    var p := At(st, ev.who);
    ActTouches(whole, st, p, ev.act);
    hide ImportAction, DropAction, SweepAction, Open;
  }

  /** One event of anybody's: the build is spared then, or is still ahead of the sweeper if it is there. */
  lemma SweepGoesOn(whole: set<string>, st: State, ev: Event, rest: seq<Event>, who: nat, k: Key)
    requires Inv(whole, st) && InSweep(At(st, who)) && k != At(st, who).key
    requires Step(whole, st, ev).Some? && (ev.who == who ==> ev.act != Exit && !ev.act.Import?)
    requires Plain(k) in st.entry ==> Ahead(At(st, who), k)
    ensures var t := Step(whole, st, ev).value;
      && InSweep(At(t, who)) && At(t, who).key == At(st, who).key
      && (Spared(whole, st, [ev] + rest, who, k) || (Plain(k) in t.entry ==> Ahead(At(t, who), k)))
  {
    var p, t := At(st, who), Step(whole, st, ev).value;
    if ev.who == who {
      SweeperKeeps(whole, st, p, ev.act, k);
    }
    hide Ahead, InSweep, ImportAction, BuildAction, DropAction;
    if Plain(k) in t.entry && Plain(k) !in st.entry {
      OnlyPublishAdds(whole, st, ev, k);
    } else if Plain(k) in t.entry && ev.who == who && !HeldByOther(st, who, k) {
      assert DirOk(whole, Plain(k), st.entry[Plain(k)], st.next);
      assert !Open(st, st.entry[Plain(k)].made) || p.Probing? || p.Loaded?;
    }
  }

  /**
   A sweep among any other sessions' actions: a build of another key still there when it ends was, at
   some moment of the sweep, open to another session, or published, or refused its rename.
   */
  lemma {:induction false} SweepLeavesOnlySpared(whole: set<string>, a: State, run: seq<Event>, who: nat, k: Key)
    requires Inv(whole, a) && InSweep(At(a, who)) && k != At(a, who).key
    requires Plain(k) in a.entry ==> Ahead(At(a, who), k)
    requires forall ev :: ev in run && ev.who == who ==> ev.act != Exit && !ev.act.Import?
    requires Run(whole, a, run).Some? && At(Run(whole, a, run).value, who).Importing?
    ensures Plain(k) in Run(whole, a, run).value.entry ==> SparedDuring(whole, a, run, who, k)
    decreases |run|
  {
    if run != [] {
      var ev := run[0];
      var t := Step(whole, a, ev).value;
      assert ev in run && [ev] + run[1..] == run;
      SweepGoesOn(whole, a, ev, run[1..], who, k);
      StepKeepsInv(whole, a, ev);
      hide Inv, Step, Spared, SparedDuring, Ahead, InSweep;
      if Spared(whole, a, run, who, k) {
        SparedNow(whole, a, run, who, k);
      } else {
        SweepLeavesOnlySpared(whole, t, run[1..], who, k);
        if SparedDuring(whole, t, run[1..], who, k) {
          SparedLater(whole, a, run, who, k);
        }
      }
    }
  }
}
