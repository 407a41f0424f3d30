/**
 Two keys in one directory: a session may compile, publish and still never import, for another key's
 sweep takes the finished build in between.  So one key is exactly what a builder's import needs.
 */
module BuildCacheRivals {
  import opened Wrappers
  import opened BuildCache
  import opened BuildCacheSafety
  import opened BuildCacheProgress

  /** Some run whose sessions' keys are all from `keys` leads from a to b, session 0 having the history it has. */
  ghost predicate Leads(whole: set<string>, keys: set<Key>, a: State, b: State, had: History) {
    exists run :: KeysFrom(run, keys) && Run(whole, a, run) == Some(b) && HistoryOf(run, 0) == had
  }

  lemma LeadsNowhere(whole: set<string>, keys: set<Key>, a: State)
    ensures Leads(whole, keys, a, a, NoBuild)
  {
    assert KeysFrom([], keys) && Run(whole, a, []) == Some(a);
  }

  lemma Extend(whole: set<string>, keys: set<Key>, a: State, b: State, had: History, ev: Event, c: State)
    requires Leads(whole, keys, a, b, had)
    requires Step(whole, b, ev) == Some(c)
    requires ev.act.Begin? ==> ev.act.key in keys
    ensures Leads(whole, keys, a, c, After(had, ev, 0))
  {
    hide Step;
    var run :| KeysFrom(run, keys) && Run(whole, a, run) == Some(b) && HistoryOf(run, 0) == had;
    HistoryAppend(run, ev, 0);
    RunAppend(whole, a, run, [ev]);
    assert Run(whole, b, [ev]) == Some(c);
    assert KeysFrom(run + [ev], keys);
  }

  lemma WriteAlone(whole: set<string>, keys: set<Key>, start: State, st: State, who: nat, key: Key, id: nat, t: State,
                   had: History)
    requires Leads(whole, keys, start, st, had)
    requires At(st, who) == Compiling(key, id) && who in st.session && Staging(key, id) !in st.entry
    requires t == State(st.entry[Staging(key, id) := Dir(id, whole, false)], st.session[who := Pointing(key, id)], st.next)
    ensures Leads(whole, keys, start, t, if who == 0 then Finished else had)
  {
    hide Leads, Run;
    var s1 := State(t.entry, st.session, st.next);
    assert {} + whole == whole;
    assert st.session[who := Compiling(key, id)] == st.session;
    Extend(whole, keys, start, st, had, Event(who, Write(whole)), s1);
    Extend(whole, keys, start, s1, had, Event(who, FinishBuild), t);
  }

  /** A session compiles without interruption. */
  lemma CompileAlone(whole: set<string>, keys: set<Key>, start: State, st: State, who: nat, key: Key, t: State, had: History)
    requires Leads(whole, keys, start, st, had) && key in keys
    requires At(st, who) == Idle && Plain(key) !in st.entry && Staging(key, st.next) !in st.entry
    requires t == State(st.entry[Staging(key, st.next) := Dir(st.next, whole, false)],
                        st.session[who := Pointing(key, st.next)], st.next + 1)
    ensures Leads(whole, keys, start, t, if who == 0 then Finished else had)
  {
    hide Leads, Run;
    var s1 := State(st.entry, st.session[who := Checking(key)], st.next);
    var s2 := State(st.entry, st.session[who := Compiling(key, st.next)], st.next + 1);
    assert s1.session[who := Compiling(key, st.next)] == s2.session;
    var begun := if who == 0 then NoBuild else had;
    Extend(whole, keys, start, st, had, Event(who, Begin(key)), s1);
    Extend(whole, keys, start, s1, begun, Event(who, LookForBuild), s2);
    assert s2.session[who := Pointing(key, st.next)] == t.session;
    WriteAlone(whole, keys, start, s2, who, key, st.next, t, begun);
  }

  /** Its build goes under its key, which nobody else has taken. */
  lemma PublishAlone(whole: set<string>, keys: set<Key>, start: State, st: State, who: nat, key: Key, id: nat, t: State,
                     had: History)
    requires Leads(whole, keys, start, st, had)
    requires At(st, who) == Pointing(key, id) && Plain(key) !in st.entry
    requires Staging(key, id) in st.entry && st.entry[Staging(key, id)] == Dir(id, whole, false)
    requires forall s :: s in st.session ==> Opens(st.session[s]).None?
    requires t == State((st.entry - {Staging(key, id)})[Plain(key) := Dir(id, whole, true)],
                        st.session[who := Listing(key)], st.next)
    requires who == 0 ==> had == Finished
    ensures Leads(whole, keys, start, t, if who == 0 then Offered else had)
  {
    hide Leads, Run;
    var n := Staging(key, id);
    var s1 := State(st.entry[n := Dir(id, whole, true)], st.session[who := Publishing(key, id)], st.next);
    assert s1.session[who := Listing(key)] == t.session;
    assert Move(s1.entry, n, Plain(key)) == t.entry;
    Extend(whole, keys, start, st, had, Event(who, PointAtRoot), s1);
    Extend(whole, keys, start, s1, had, Event(who, Publish), t);
  }

  /** A sweep that finds its own build alone goes straight on to import it. */
  lemma SweepAlone(whole: set<string>, keys: set<Key>, start: State, st: State, who: nat, key: Key, t: State, had: History)
    requires Leads(whole, keys, start, st, had)
    requires At(st, who) == Listing(key) && st.entry.Keys == {Plain(key)}
    requires t == st.(session := st.session[who := Importing(key)])
    ensures Leads(whole, keys, start, t, had)
  {
    hide Leads, Run;
    var s1 := st.(session := st.session[who := Sweeping(key, [Plain(key)])]);
    var s2 := st.(session := st.session[who := Sweeping(key, [])]);
    assert Lists([Plain(key)], st.entry) by {
      assert forall n :: n in st.entry <==> n in st.entry.Keys;
    }
    assert [Plain(key)][1..] == [];
    assert s1.session[who := Sweeping(key, [])] == s2.session;
    assert s2.session[who := Importing(key)] == t.session;
    Extend(whole, keys, start, st, had, Event(who, ListBuilds([Plain(key)])), s1);
    Extend(whole, keys, start, s1, had, Event(who, TakeNext), s2);
    Extend(whole, keys, start, s2, had, Event(who, TakeNext), t);
  }

  /** A sweep that finds a rival's build nobody has open ... */
  lemma LookAtRival(whole: set<string>, keys: set<Key>, start: State, st: State, who: nat, key: Key, victim: Key, t: State,
                    had: History)
    requires Leads(whole, keys, start, st, had)
    requires At(st, who) == Listing(key) && victim != key && st.entry.Keys == {Plain(victim), Plain(key)}
    requires BINARY in st.entry[Plain(victim)].file
    requires forall s :: s in st.session ==> Opens(st.session[s]).None?
    requires t == st.(session := st.session[who := Probing(key, [Plain(key)], victim, st.entry[Plain(victim)].made)])
    ensures Leads(whole, keys, start, t, had)
  {
    hide Leads, Run;
    var order := [Plain(victim), Plain(key)];
    var s1 := st.(session := st.session[who := Sweeping(key, order)]);
    assert Lists(order, st.entry) by {
      assert forall n :: n in st.entry <==> n in st.entry.Keys;
    }
    assert order[1..] == [Plain(key)];
    assert s1.session[who := At(t, who)] == t.session;
    Extend(whole, keys, start, st, had, Event(who, ListBuilds(order)), s1);
    Extend(whole, keys, start, s1, had, Event(who, TakeNext), t);
  }

  /** ... renames it out of its key. */
  lemma TakeRival(whole: set<string>, keys: set<Key>, start: State, st: State, who: nat, key: Key,
                  todo: seq<Name>, victim: Key, t: State, had: History)
    requires Leads(whole, keys, start, st, had) && Plain(victim) in st.entry
    requires At(st, who) == Probing(key, todo, victim, st.entry[Plain(victim)].made)
    requires forall s :: s in st.session && s != who ==> Opens(st.session[s]).None?
    requires t == State(Move(st.entry, Plain(victim), Gone(victim, st.next)),
                        st.session[who := Deleting(key, todo, Gone(victim, st.next))], st.next + 1)
    ensures Leads(whole, keys, start, t, had)
  {
    hide Leads, Run;
    var s1 := st.(session := st.session[who := Renaming(key, todo, victim)]);
    assert s1.session[who := At(t, who)] == t.session;
    Extend(whole, keys, start, st, had, Event(who, CloseProbe), s1);
    Extend(whole, keys, start, s1, had, Event(who, Rename), t);
  }

  /** From an empty directory session 0 builds and is about to import. */
  lemma FirstBuilds(whole: set<string>, keys: set<Key>, key: Key, start: State, t: State)
    requires key in keys && start == State(map[], map[], 0)
    requires t == State(map[Plain(key) := Dir(0, whole, true)], map[0 := Importing(key)], 1)
    ensures Leads(whole, keys, start, t, Offered)
  {
    hide Leads, Run, Step;
    var s1 := State(map[Staging(key, 0) := Dir(0, whole, false)], map[0 := Pointing(key, 0)], 1);
    var s2 := t.(session := map[0 := Listing(key)]);
    LeadsNowhere(whole, keys, start);
    CompileAlone(whole, keys, start, start, 0, key, s1, NoBuild);
    assert (s1.entry - {Staging(key, 0)})[Plain(key) := Dir(0, whole, true)] == t.entry;
    PublishAlone(whole, keys, start, s1, 0, key, 0, s2, Finished);
    SweepAlone(whole, keys, start, s2, 0, key, t, Offered);
  }

  /** Then session 1 builds for another key, the first build still there ... */
  lemma SecondBuilds(whole: set<string>, keys: set<Key>, mine: Key, theirs: Key, start: State, st: State, t: State)
    requires mine != theirs && theirs in keys && Leads(whole, keys, start, st, Offered)
    requires st == State(map[Plain(mine) := Dir(0, whole, true)], map[0 := Importing(mine)], 1)
    requires t == State(st.entry[Plain(theirs) := Dir(1, whole, true)], st.session[1 := Listing(theirs)], 2)
    ensures Leads(whole, keys, start, t, Offered)
  {
    hide Leads, Run, Step;
    var s1 := State(st.entry[Staging(theirs, 1) := Dir(1, whole, false)], st.session[1 := Pointing(theirs, 1)], 2);
    CompileAlone(whole, keys, start, st, 1, theirs, s1, Offered);
    assert (s1.entry - {Staging(theirs, 1)})[Plain(theirs) := Dir(1, whole, true)] == t.entry;
    assert s1.session[1 := Listing(theirs)] == t.session;
    PublishAlone(whole, keys, start, s1, 1, theirs, 1, t, Offered);
  }

  /** ... and sweeps the first build away. */
  lemma SecondSweeps(whole: set<string>, keys: set<Key>, mine: Key, theirs: Key, start: State, st: State) returns (t: State)
    requires BINARY in whole && mine != theirs && Leads(whole, keys, start, st, Offered)
    requires st.entry == map[Plain(mine) := Dir(0, whole, true), Plain(theirs) := Dir(1, whole, true)]
    requires st.session == map[0 := Importing(mine), 1 := Listing(theirs)]
    ensures Leads(whole, keys, start, t, Offered)
    ensures At(t, 0) == Importing(mine) && Plain(mine) !in t.entry
  {
    hide Leads, Run, Step;
    var s1 := st.(session := st.session[1 := Probing(theirs, [Plain(theirs)], mine, 0)]);
    LookAtRival(whole, keys, start, st, 1, theirs, mine, s1, Offered);
    t := State(Move(s1.entry, Plain(mine), Gone(mine, st.next)),
               s1.session[1 := Deleting(theirs, [Plain(theirs)], Gone(mine, st.next))], st.next + 1);
    TakeRival(whole, keys, start, s1, 1, theirs, [Plain(theirs)], mine, t, Offered);
  }

  /**
   Two keys are enough: session 0 compiles and publishes, session 1 builds for the other key and
   sweeps 0's build away, and no way of its own leads 0 to an import.
   */
  lemma RivalKeysBuildInVain(whole: set<string>, mine: Key, theirs: Key)
    requires BINARY in whole && mine != theirs
    ensures exists run, st, t ::
      KeysFrom(run, {mine, theirs}) && Reaches(whole, st, run, t) && At(t, 0) == Importing(mine) &&
      Built(run, 0) && Event(0, FinishBuild) in run && Event(0, Publish) in run &&
      !CanImport(whole, t, 0, mine)
  {
    var keys, start := {mine, theirs}, State(map[], map[], 0);
    var mid := State(map[Plain(mine) := Dir(0, whole, true)], map[0 := Importing(mine)], 1);
    var both := State(mid.entry[Plain(theirs) := Dir(1, whole, true)], mid.session[1 := Listing(theirs)], 2);
    FirstBuilds(whole, keys, mine, start, mid);
    SecondBuilds(whole, keys, mine, theirs, start, mid, both);
    var t := SecondSweeps(whole, keys, mine, theirs, start, both);
    var run :| KeysFrom(run, keys) && Run(whole, start, run) == Some(t) && HistoryOf(run, 0) == Offered;
    HistoryHappened(run, 0);
    forall own | OwnForward(own, 0) && Run(whole, t, own).Some?
      ensures !HasImported(whole, Run(whole, t, own).value, 0, mine)
    {
      StrandedCannotImport(whole, t, 0, own);
    }
    assert Reaches(whole, start, run, t);
  }

  /**
   Whatever the interleaving, a session whose compile succeeded has imported its build or is sure to,
   if and only if the sessions' keys are all the same.
   */
  lemma BuildersImportExactlyUnderOneKey(whole: set<string>, keys: set<Key>)
    requires BINARY in whole
    ensures (forall k, l :: k in keys && l in keys ==> k == l) <==>
            (forall run, st, t, who :: KeysFrom(run, keys) && Reaches(whole, st, run, t) && Built(run, who)
               ==> Imported(whole, t, who) || WillImport(whole, t, who))
  {
    hide HistoryOf, CanImport;
    if k, l :| k in keys && l in keys && k != l {
      RivalKeysBuildInVain(whole, k, l);
      var run, st, t :| KeysFrom(run, {k, l}) && Reaches(whole, st, run, t) && At(t, 0) == Importing(k) &&
        Built(run, 0) && !CanImport(whole, t, 0, k);
      assert KeysFrom(run, keys) && !Imported(whole, t, 0) && !WillImport(whole, t, 0);
    } else {
      forall run, st, t, who | KeysFrom(run, keys) && Reaches(whole, st, run, t) && Built(run, who)
        ensures Imported(whole, t, who) || WillImport(whole, t, who)
      {
        var key := TheOneKey(run, keys);
        OneKeyBuilderImports(whole, run, st, t, who, key);
      }
    }
  }
}
