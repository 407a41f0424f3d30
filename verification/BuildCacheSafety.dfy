/**
 What every interleaving of the build cache's sessions keeps: finished builds, imported builds,
 private staging directories, and under one key the first build of all.
 */
module BuildCacheSafety {
  import opened Wrappers
  import opened BuildCache

  ghost predicate Reaches(whole: set<string>, st: State, run: seq<Event>, t: State) {
    Start(whole, st) && Run(whole, st, run) == Some(t)
  }

  /**
   A directory under a plain key is a finished, root-pointed build, so finding the binary in it
   and finding the build finished are one test; what is partial is under another kind of name.
   */
  lemma BinaryMeansFinished(whole: set<string>, st: State, run: seq<Event>, t: State, n: Name)
    requires Reaches(whole, st, run, t)
    ensures n.Plain? ==> (HasBinary(t, n) <==> n in t.entry && Complete(whole, t.entry[n]))
    ensures n in t.entry && !Complete(whole, t.entry[n]) ==> n.Staging? || n.Gone?
  {
    RunKeepsInv(whole, st, run);
    if n in t.entry {
      assert DirOk(whole, n, t.entry[n], t.next);
    }
  }

  lemma StepLeavesAlone(whole: set<string>, st: State, ev: Event, n: Name)
    requires Inv(whole, st) && Step(whole, st, ev).Some?
    requires n in st.entry && !n.Gone?
    requires n.Staging? ==> Owns(At(st, ev.who)) != Some(n.id)
    requires n.Plain? ==> Open(st, st.entry[n].made)
    ensures var t := Step(whole, st, ev).value; n in t.entry && t.entry[n] == st.entry[n]
  {
    var p := At(st, ev.who);
    ActTouches(whole, st, p, ev.act);
    TouchLeavesAlone(whole, st, p, Act(whole, st, p, ev.act).value, n);
  }

  /**
   The build a session has imported is never renamed, emptied or replaced while the session
   lives: after any further events of any sessions the same directory, unchanged, is under its key.
   */
  lemma {:induction false} ImportedBuildStays(whole: set<string>, a: State, after: seq<Event>, s: nat)
    requires Inv(whole, a)
    requires At(a, s).Loaded?
    requires forall ev :: ev in after && ev.who == s ==> ev.act != Exit
    requires Run(whole, a, after).Some?
    ensures var b := Run(whole, a, after).value; var n := Plain(At(a, s).key);
      && At(b, s) == At(a, s)
      && n in a.entry && n in b.entry && b.entry[n] == a.entry[n]
      && b.entry[n].made == At(a, s).made && Complete(whole, b.entry[n])
    decreases |after|
  {
    var n := Plain(At(a, s).key);
    assert PlaceOk(whole, a.entry, a.next, a.session[s]);
    assert DirOk(whole, n, a.entry[n], a.next);
    hide Inv, PlaceOk, DirOk, Act;
    if after != [] {
      var ev := after[0];
      var t := Step(whole, a, ev).value;
      assert Opens(a.session[s]) == Some(a.entry[n].made);
      StepLeavesAlone(whole, a, ev, n);
      StepKeepsInv(whole, a, ev);
      assert At(t, s) == At(a, s);
      ImportedBuildStays(whole, t, after[1..], s);
    }
  }

  /** The import that falls between a sweeper's held-check and its rename wins: the rename is refused. */
  lemma LateImportStopsTheRename(whole: set<string>, st: State, s: nat, sweeper: nat)
    requires Inv(whole, st)
    requires At(st, s).Loaded? && At(st, sweeper).Renaming? && At(st, sweeper).victim == At(st, s).key
    ensures var t := Step(whole, st, Event(sweeper, Rename));
      t.Some? && t.value.entry == st.entry && At(t.value, sweeper).Sweeping?
  {
    assert PlaceOk(whole, st.entry, st.next, st.session[s]);
    assert Opens(st.session[s]) == Some(At(st, s).made);
  }

  /** Only a session of another key ever takes a finished build away, and only one nobody has open. */
  lemma OnlyARivalRemoves(whole: set<string>, st: State, ev: Event, k: Key)
    requires Inv(whole, st) && Step(whole, st, ev).Some?
    requires Plain(k) in st.entry
    ensures var t := Step(whole, st, ev).value;
      || (Plain(k) in t.entry && t.entry[Plain(k)] == st.entry[Plain(k)])
      || (Plain(k) !in t.entry && ev.act == Rename && At(st, ev.who).Renaming?
          && At(st, ev.who).key != k && !Open(st, st.entry[Plain(k)].made))
  {
    var p := At(st, ev.who);
    ActTouches(whole, st, p, ev.act);
  }

  /** A staging directory is its own session's: no other session's action changes it. */
  lemma StagingIsPrivate(whole: set<string>, st: State, ev: Event, owner: nat)
    requires Inv(whole, st) && Step(whole, st, ev).Some?
    requires Owns(At(st, owner)).Some? && ev.who != owner
    ensures var t := Step(whole, st, ev).value; var n := Staging(At(st, owner).key, At(st, owner).id);
      (n in t.entry <==> n in st.entry) && (n in st.entry ==> t.entry[n] == st.entry[n])
  {
    var p := At(st, ev.who);
    var q := At(st, owner);
    ActTouches(whole, st, p, ev.act);
    assert ev.who in st.session ==> PlaceOk(whole, st.entry, st.next, st.session[ev.who]);
    assert PlaceOk(whole, st.entry, st.next, st.session[owner]);
  }

  ghost predicate Abandoned(st: State, n: Name) {
    && n.Staging? && n in st.entry && n.id < st.next
    && (forall s :: s in st.session ==> Owns(st.session[s]) != Some(n.id))
  }

  /**
   The other side of leaving `.build-` alone: what a killed session was building stays for ever,
   no later session of any key removing or reusing it.
   */
  lemma {:induction false} AbandonedStagingStays(whole: set<string>, a: State, after: seq<Event>, n: Name)
    requires Inv(whole, a) && Abandoned(a, n)
    requires Run(whole, a, after).Some?
    ensures var b := Run(whole, a, after).value; n in b.entry && b.entry[n] == a.entry[n]
    decreases |after|
  {
    if after != [] {
      var ev := after[0];
      var t := Step(whole, a, ev).value;
      ActTouches(whole, a, At(a, ev.who), ev.act);
      StepLeavesAlone(whole, a, ev, n);
      StepKeepsInv(whole, a, ev);
      assert Abandoned(t, n);
      AbandonedStagingStays(whole, t, after[1..], n);
    }
  }

  // ---------------------------------------------------------------- one key

  /** Past the compile: the build is whole and the session goes on to import it. */
  predicate Compiled(p: Place) {
    || p.Pointing? || p.Publishing? || (p.Discarding? && p.compiled) || p.Retesting? || p.Listing?
    || p.Sweeping? || p.Probing? || p.Renaming? || p.Deleting? || p.Importing?
  }

  /** Past the point where the session knows its key's build to be in place. */
  predicate Settled(p: Place) {
    (Compiled(p) && !p.Pointing? && !p.Publishing?) || p.Loaded?
  }

  predicate KeyedBy(p: Place, key: Key) {
    p.Idle? || p.Failed? || p.key == key
  }

  ghost predicate OneKey(run: seq<Event>, key: Key) {
    forall ev :: ev in run && ev.act.Begin? ==> ev.act.key == key
  }

  ghost predicate OneKeyInv(st: State, key: Key) {
    forall s :: s in st.session ==>
      KeyedBy(st.session[s], key) && (Settled(st.session[s]) ==> Plain(key) in st.entry)
  }

  /** What one session of the one key needs to rely on, and what its action then leaves. */
  ghost predicate OneKeyPlace(st: State, p: Place, key: Key) {
    && KeyedBy(p, key)
    && (Settled(p) ==> Plain(key) in st.entry)
    && (Plain(key) in st.entry ==> HasBinary(st, Plain(key)) && !OpenAlone(st, st.entry[Plain(key)].made))
    && (p.Publishing? ==> Staging(p.key, p.id) in st.entry && !Open(st, st.entry[Staging(p.key, p.id)].made))
  }

  ghost predicate OneKeyEffect(st: State, p: Place, act: Action, e: Effect, key: Key) {
    && KeyedBy(e.place, key)
    && (Settled(e.place) ==> Plain(key) in st.entry || Plain(key) in e.entry)
    && (Compiled(p) && act != Exit ==> Compiled(e.place) || e.place.Loaded?)
  }

  lemma OneKeyBuild(whole: set<string>, st: State, p: Place, act: Action, key: Key)
    requires OneKeyPlace(st, p, key) && BuildAction(whole, st, p, act).Some?
    ensures OneKeyEffect(st, p, act, BuildAction(whole, st, p, act).value, key)
  {
    hide Open, OpenAlone;
  }

  lemma OneKeySweep(st: State, p: Place, act: Action, key: Key)
    requires OneKeyPlace(st, p, key) && SweepAction(st, p, act).Some?
    ensures OneKeyEffect(st, p, act, SweepAction(st, p, act).value, key)
  {
    hide Open, OpenAlone, Lists, Move, HasBinary;
  }

  lemma OneKeyDrop(st: State, p: Place, act: Action, key: Key)
    requires OneKeyPlace(st, p, key) && DropAction(st, p, act).Some?
    ensures OneKeyEffect(st, p, act, DropAction(st, p, act).value, key)
  {
    hide Open, OpenAlone, HasBinary;
  }

  lemma OneKeyImport(st: State, p: Place, act: Action, key: Key)
    requires OneKeyPlace(st, p, key) && ImportAction(st, p, act).Some?
    requires act.Begin? ==> act.key == key
    ensures OneKeyEffect(st, p, act, ImportAction(st, p, act).value, key)
  {
    hide Open, OpenAlone;
  }

  /** The place an action of a session of the one key leads to, by the four parts of the code. */
  lemma OneKeyAct(whole: set<string>, st: State, p: Place, act: Action, key: Key)
    requires OneKeyPlace(st, p, key) && Act(whole, st, p, act).Some?
    requires act.Begin? ==> act.key == key
    ensures OneKeyEffect(st, p, act, Act(whole, st, p, act).value, key)
  {
    hide OneKeyPlace, OneKeyEffect, ImportAction, BuildAction, DropAction, SweepAction;
    if BuildAction(whole, st, p, act).Some? {
      OneKeyBuild(whole, st, p, act, key);
    }
    if SweepAction(st, p, act).Some? {
      OneKeySweep(st, p, act, key);
    }
    if ImportAction(st, p, act).Some? {
      OneKeyImport(st, p, act, key);
    }
    if DropAction(st, p, act).Some? {
      OneKeyDrop(st, p, act, key);
    }
  }

  lemma OneKeyIsPlaced(whole: set<string>, st: State, who: nat, key: Key)
    requires Inv(whole, st) && OneKeyInv(st, key)
    ensures OneKeyPlace(st, At(st, who), key)
  {
    var p := At(st, who);
    if Plain(key) in st.entry {
      assert DirOk(whole, Plain(key), st.entry[Plain(key)], st.next);
      forall s | s in st.session && st.session[s].Probing?
        ensures st.session[s].made != st.entry[Plain(key)].made
      {
        assert PlaceOk(whole, st.entry, st.next, st.session[s]);
      }
    }
    if p.Publishing? {
      assert PlaceOk(whole, st.entry, st.next, p);
      assert DirOk(whole, Staging(p.key, p.id), st.entry[Staging(p.key, p.id)], st.next);
      forall s | s in st.session
        ensures Opens(st.session[s]) != Some(p.id)
      {
        assert PlaceOk(whole, st.entry, st.next, st.session[s]);
      }
    }
  }

  lemma OneKeyStep(whole: set<string>, st: State, ev: Event, key: Key)
    requires Inv(whole, st) && OneKeyInv(st, key)
    requires Step(whole, st, ev).Some?
    requires ev.act.Begin? ==> ev.act.key == key
    ensures var t := Step(whole, st, ev).value;
      && OneKeyInv(t, key)
      && (Plain(key) in st.entry ==> Plain(key) in t.entry && t.entry[Plain(key)] == st.entry[Plain(key)])
      && (Compiled(At(st, ev.who)) && ev.act != Exit ==> Compiled(At(t, ev.who)) || At(t, ev.who).Loaded?)
  {
    var p := At(st, ev.who);
    if Plain(key) in st.entry {
      OnlyARivalRemoves(whole, st, ev, key);
    }
    OneKeyIsPlaced(whole, st, ev.who, key);
    OneKeyAct(whole, st, p, ev.act, key);
  }

  lemma {:induction false} OneKeyRun(whole: set<string>, a: State, run: seq<Event>, key: Key)
    requires Inv(whole, a) && OneKeyInv(a, key) && OneKey(run, key)
    requires Run(whole, a, run).Some?
    ensures var t := Run(whole, a, run).value;
      && Inv(whole, t) && OneKeyInv(t, key)
      && (Plain(key) in a.entry ==> Plain(key) in t.entry && t.entry[Plain(key)] == a.entry[Plain(key)])
    decreases |run|
  {
    if run != [] {
      assert run[0] in run;
      OneKeyStep(whole, a, run[0], key);
      StepKeepsInv(whole, a, run[0]);
      OneKeyRun(whole, Step(whole, a, run[0]).value, run[1..], key);
    }
  }

  lemma {:induction false} RunAppend(whole: set<string>, st: State, run: seq<Event>, more: seq<Event>)
    requires Run(whole, st, run).Some?
    ensures Run(whole, st, run + more) == Run(whole, Run(whole, st, run).value, more)
    decreases |run|
  {
    if run == [] {
      assert run + more == more;
    } else {
      assert (run + more)[1..] == run[1..] + more;
      RunAppend(whole, Step(whole, st, run[0]).value, run[1..], more);
    }
  }

  /**
   All sessions on one key: the first finished build is never replaced, and whoever has it
   loaded, at whatever time, has that one directory, whoever won the rename.
   */
  lemma OneKeyOneBuild(whole: set<string>, st: State, before: seq<Event>, a: State, after: seq<Event>, b: State,
                       key: Key, s: nat, r: nat)
    requires Reaches(whole, st, before, a) && Run(whole, a, after) == Some(b)
    requires OneKey(before, key) && OneKey(after, key)
    ensures Plain(key) in a.entry ==> Plain(key) in b.entry && b.entry[Plain(key)] == a.entry[Plain(key)]
    ensures At(a, s).Loaded? && At(b, r).Loaded? ==> At(a, s).made == At(b, r).made
  {
    OneKeyRun(whole, st, before, key);
    OneKeyRun(whole, a, after, key);
    if At(a, s).Loaded? && At(b, r).Loaded? {
      assert PlaceOk(whole, a.entry, a.next, a.session[s]);
      assert PlaceOk(whole, b.entry, b.next, b.session[r]);
    }
  }
}
