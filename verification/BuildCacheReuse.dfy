/**
 A finished build is used and not made again, a compile that failed is never imported, and what is to be
 removed can be removed: what Import-XmipOperatorModule and its helpers do for one session.
 */
module BuildCacheReuse {
  import opened Wrappers
  import opened BuildCache
  import opened BuildCacheProgress

  /** The finished build of a key is in the directory. */
  ghost predicate IsBuilt(whole: set<string>, st: State, key: Key) {
    Plain(key) in st.entry && Complete(whole, st.entry[Plain(key)])
  }

  /** In a sound state finding the binary is finding the finished build. */
  lemma BinaryIsBuild(whole: set<string>, st: State, key: Key)
    requires Inv(whole, st)
    ensures HasBinary(st, Plain(key)) <==> IsBuilt(whole, st, key)
  {
    if Plain(key) in st.entry {
      assert DirOk(whole, Plain(key), st.entry[Plain(key)], st.next);
    }
  }

  /**
   A session that looks for its build goes to import it exactly where the finished build is there, and
   compiles, under a new identity, exactly where it is not.  Looking changes nothing in the directory.
   */
  lemma LookingFinds(whole: set<string>, st: State, who: nat)
    requires Inv(whole, st) && At(st, who).Checking?
    ensures var t := Step(whole, st, Event(who, LookForBuild));
      && t.Some? && t.value.entry == st.entry
      && (At(t.value, who) == Importing(At(st, who).key) <==> IsBuilt(whole, st, At(st, who).key))
      && (At(t.value, who) == Compiling(At(st, who).key, st.next) <==> !IsBuilt(whole, st, At(st, who).key))
      && t.value.next == if IsBuilt(whole, st, At(st, who).key) then st.next else st.next + 1
  {
    BinaryIsBuild(whole, st, At(st, who).key);
  }

  /** After another session's publish was refused: the winner's build is used, and without one the session fails. */
  lemma LookingAgainFinds(whole: set<string>, st: State, who: nat)
    requires Inv(whole, st) && At(st, who).Retesting?
    ensures var t := Step(whole, st, Event(who, LookAgain));
      && t.Some? && t.value.entry == st.entry && t.value.next == st.next
      && At(t.value, who) == if IsBuilt(whole, st, At(st, who).key) then Listing(At(st, who).key) else Failed
  {
    BinaryIsBuild(whole, st, At(st, who).key);
  }

  /** Some sweeping session has the build of this key open alone, to see whether anyone holds it. */
  ghost predicate IsProbed(st: State, key: Key) {
    exists s :: s in st.session && st.session[s].Probing? && st.session[s].victim == key
  }

  lemma ProbedIsOpenAlone(whole: set<string>, st: State, key: Key)
    requires Inv(whole, st) && Plain(key) in st.entry
    ensures OpenAlone(st, st.entry[Plain(key)].made) <==> IsProbed(st, key)
  {
    hide DirOk;
    forall s | s in st.session && st.session[s].Probing?
      ensures st.session[s].made == st.entry[Plain(key)].made <==> st.session[s].victim == key
    {
      assert PlaceOk(whole, st.entry, st.next, st.session[s]);
    }
  }

  /** The import takes the build that is there, unless another session is probing it or it is gone. */
  lemma ImportingTakes(whole: set<string>, st: State, who: nat)
    requires Inv(whole, st) && At(st, who).Importing?
    ensures var t := Step(whole, st, Event(who, Import)); var key := At(st, who).key;
      && t.Some? && t.value.entry == st.entry && t.value.next == st.next
      && (HasImported(whole, t.value, who, key) <==> IsBuilt(whole, st, key) && !IsProbed(st, key))
      && (HasImported(whole, t.value, who, key) || At(t.value, who) == Failed)
  {
    var key := At(st, who).key;
    BinaryIsBuild(whole, st, key);
    if Plain(key) in st.entry {
      ProbedIsOpenAlone(whole, st, key);
    }
    hide IsProbed;
  }

  /** Begin, look, import: the three actions of a session that finds its build, none of them a compile. */
  function Reuse(who: nat, key: Key): seq<Event> {
    [Event(who, Begin(key)), Event(who, LookForBuild), Event(who, Import)]
  }

  /** Beginning and looking open nothing. */
  lemma NoNewProbe(whole: set<string>, st: State, who: nat, key: Key)
    requires At(st, who).Idle? || At(st, who).Failed?
    requires var s := Step(whole, st, Event(who, Begin(key)));
      s.Some? && Step(whole, s.value, Event(who, LookForBuild)).Some?
    ensures var t := Step(whole, Step(whole, st, Event(who, Begin(key))).value, Event(who, LookForBuild)).value;
      IsProbed(t, key) ==> IsProbed(st, key)
  {
    var s := Step(whole, st, Event(who, Begin(key))).value;
    var t := Step(whole, s, Event(who, LookForBuild)).value;
    if x :| x in t.session && t.session[x].Probing? && t.session[x].victim == key {
      assert x != who && st.session[x] == t.session[x];
    }
  }

  lemma RunOfThree(whole: set<string>, st: State, a: Event, b: Event, c: Event)
    requires Step(whole, st, a).Some? && Step(whole, Step(whole, st, a).value, b).Some?
    requires Step(whole, Step(whole, Step(whole, st, a).value, b).value, c).Some?
    ensures Run(whole, st, [a, b, c]) == Step(whole, Step(whole, Step(whole, st, a).value, b).value, c)
  {
    hide Step;
    var s1 := Step(whole, st, a).value;
    var s2 := Step(whole, s1, b).value;
    assert [c][1..] == [] && Run(whole, s2, [c]) == Step(whole, s2, c) by {
      assert Run(whole, Step(whole, s2, c).value, []) == Step(whole, s2, c);
    }
    assert [b, c][1..] == [c] && Run(whole, s1, [b, c]) == Run(whole, s2, [c]);
    assert [a, b, c][1..] == [b, c];
  }

  /**
   With the finished build there and nobody probing it, a session that begins imports that very build
   by looking and importing alone, and the directory stays as it was.
   */
  lemma BuiltOnceUsedAgain(whole: set<string>, st: State, who: nat, key: Key)
    requires Inv(whole, st) && (At(st, who).Idle? || At(st, who).Failed?)
    requires IsBuilt(whole, st, key) && !IsProbed(st, key)
    ensures Run(whole, st, Reuse(who, key)).Some?
    ensures var t := Run(whole, st, Reuse(who, key)).value;
      HasImported(whole, t, who, key) && t.entry == st.entry && t.next == st.next
  {
    var begin, look := Event(who, Begin(key)), Event(who, LookForBuild);
    var s1 := Step(whole, st, begin).value;
    StepKeepsInv(whole, st, begin);
    LookingFinds(whole, s1, who);
    var s2 := Step(whole, s1, look).value;
    StepKeepsInv(whole, s1, look);
    hide Inv, Step;
    ImportingTakes(whole, s2, who);
    NoNewProbe(whole, st, who, key);
    RunOfThree(whole, st, begin, look, Event(who, Import));
  }

  // ---------------------------------------------------------------- writing and publishing

  /** What is written into a staging directory is added to what is there. */
  lemma WritingAdds(whole: set<string>, st: State, who: nat, files: set<string>)
    requires At(st, who).Compiling?
    ensures var n := Staging(At(st, who).key, At(st, who).id); var t := Step(whole, st, Event(who, Write(files)));
      && t.Some? && At(t.value, who) == At(st, who) && n in t.value.entry
      && t.value.entry[n].file == (if n in st.entry then st.entry[n].file else {}) + files
      && SameBut(st.entry, t.value.entry, n, n)
  {
  }

  /** Nobody has open what a session is about to publish. */
  lemma StagedIsNotOpen(whole: set<string>, st: State, who: nat)
    requires Inv(whole, st) && At(st, who).Publishing?
    ensures !Open(st, st.entry[Staging(At(st, who).key, At(st, who).id)].made)
  {
    var n := Staging(At(st, who).key, At(st, who).id);
    assert PlaceOk(whole, st.entry, st.next, st.session[who]);
    forall s | s in st.session
      ensures Opens(st.session[s]) != Some(st.entry[n].made)
    {
      assert PlaceOk(whole, st.entry, st.next, st.session[s]);
    }
  }

  /** Where no build of the key is there the finished one is put there whole; where one is, it stays. */
  lemma FirstToPublishWins(whole: set<string>, st: State, who: nat)
    requires Inv(whole, st) && At(st, who).Publishing?
    ensures var p := At(st, who); var t := Step(whole, st, Event(who, Publish));
      && t.Some? && t.value.next == st.next
      && if IsBuilt(whole, st, p.key) then t.value.entry == st.entry && At(t.value, who) == Discarding(p.key, p.id, true)
         else At(t.value, who) == Listing(p.key) && Moved(st.entry, t.value.entry, Staging(p.key, p.id), Plain(p.key))
              && IsBuilt(whole, t.value, p.key)
  {
    StagedIsNotOpen(whole, st, who);
    var p := At(st, who);
    assert PlaceOk(whole, st.entry, st.next, st.session[who]);
    if Plain(p.key) in st.entry {
      assert DirOk(whole, Plain(p.key), st.entry[Plain(p.key)], st.next);
    }
  }

  /** A session can be killed anywhere, and leaves the directory as it is. */
  lemma AnySessionCanEnd(whole: set<string>, st: State, who: nat)
    ensures Step(whole, st, Event(who, Exit)) == Some(st.(session := st.session[who := Idle]))
  {
  }

  // ---------------------------------------------------------------- a compile that failed

  /** Once its compile failed a session throws: whatever it does next, it never comes near an import. */
  lemma FailedCompileNeverImports(whole: set<string>, st: State, who: nat, act: Action)
    requires At(st, who).Discarding? && !At(st, who).compiled
    requires Step(whole, st, Event(who, act)).Some?
    ensures var q := At(Step(whole, st, Event(who, act)).value, who);
      q == At(st, who) || (q == Failed && act == EndDrop) || (q == Idle && act == Exit)
  {
  }

  lemma FailingDiscards(whole: set<string>, st: State, who: nat)
    requires At(st, who).Compiling?
    ensures var t := Step(whole, st, Event(who, FailBuild));
      t.Some? && t.value.entry == st.entry && At(t.value, who) == Discarding(At(st, who).key, At(st, who).id, false)
  {
  }

  // ---------------------------------------------------------------- removals

  ghost predicate IsThere(entry: map<Name, Dir>, made: nat) {
    exists m :: m in entry && entry[m].made == made
  }

  lemma DropKeepsFull(st: State, p: Place, act: Action, n: Name)
    requires DropAction(st, p, act).Some? && n in st.entry && st.entry[n].file != {}
    ensures IsThere(DropAction(st, p, act).value.entry, st.entry[n].made)
  {
    assert n in DropAction(st, p, act).value.entry;
  }

  lemma BuildKeeps(whole: set<string>, st: State, p: Place, act: Action, n: Name)
    requires BuildAction(whole, st, p, act).Some? && n in st.entry
    requires Owns(p).Some? && Staging(p.key, p.id) in st.entry ==> st.entry[Staging(p.key, p.id)].made == p.id
    ensures IsThere(BuildAction(whole, st, p, act).value.entry, st.entry[n].made)
  {
    hide Open, HasBinary;
    var e := BuildAction(whole, st, p, act).value;
    var m := if act == Publish && n !in e.entry then Plain(p.key) else n;
    assert m in e.entry && e.entry[m].made == st.entry[n].made;
  }

  lemma SweepKeeps(st: State, p: Place, act: Action, n: Name)
    requires SweepAction(st, p, act).Some? && n in st.entry
    requires n.Gone? ==> n.id < st.next
    ensures IsThere(SweepAction(st, p, act).value.entry, st.entry[n].made)
  {
    hide Open, HasBinary, Lists;
    var e := SweepAction(st, p, act).value;
    var m := if n in e.entry then n else Gone(p.victim, st.next);
    assert m in e.entry && e.entry[m].made == st.entry[n].made;
  }

  lemma ThereItself(entry: map<Name, Dir>, n: Name)
    requires n in entry
    ensures IsThere(entry, entry[n].made)
  {
  }

  /** No action makes a directory vanish that has a file in it: it is where it was, or under a new name. */
  lemma OnlyEmptyVanishes(whole: set<string>, st: State, ev: Event, n: Name)
    requires Inv(whole, st) && Step(whole, st, ev).Some? && n in st.entry && st.entry[n].file != {}
    ensures IsThere(Step(whole, st, ev).value.entry, st.entry[n].made)
  {
    var p := At(st, ev.who);
    assert DirOk(whole, n, st.entry[n], st.next);
    if Owns(p).Some? && Staging(p.key, p.id) in st.entry {
      assert DirOk(whole, Staging(p.key, p.id), st.entry[Staging(p.key, p.id)], st.next);
    }
    hide Inv, IsThere, DirOk, DropAction, BuildAction, SweepAction;
    if DropAction(st, p, ev.act).Some? {
      DropKeepsFull(st, p, ev.act, n);
    }
    if BuildAction(whole, st, p, ev.act).Some? {
      BuildKeeps(whole, st, p, ev.act, n);
    }
    if SweepAction(st, p, ev.act).Some? {
      SweepKeeps(st, p, ev.act, n);
    }
    ThereItself(st.entry, n);
  }

  /** The events by which a session empties the directory it is removing, and removes it. */
  ghost predicate Removes(whole: set<string>, st: State, who: nat, n: Name, run: seq<Event>) {
    && (forall ev :: ev in run ==> ev.who == who && (ev.act.DropFile? || ev.act.DropDirectory?))
    && Run(whole, st, run).Some?
    && Run(whole, st, run).value == st.(entry := st.entry - {n})
  }

  lemma {:induction false} RemovalCanEnd(whole: set<string>, st: State, who: nat, n: Name) returns (run: seq<Event>)
    requires who in st.session && Dropping(At(st, who)) == Some(n) && n in st.entry
    ensures Removes(whole, st, who, n, run)
    decreases |st.entry[n].file|
  {
    assert st.session[who := At(st, who)] == st.session;
    if st.entry[n].file == {} {
      run := [Event(who, DropDirectory)];
      assert run[1..] == [];
    } else {
      var file :| file in st.entry[n].file;
      var ev := Event(who, DropFile(file));
      var t := st.(entry := st.entry[n := st.entry[n].(file := st.entry[n].file - {file})]);
      assert Step(whole, st, ev) == Some(t);
      var more := RemovalCanEnd(whole, t, who, n);
      run := [ev] + more;
      assert run[1..] == more && t.entry - {n} == st.entry - {n};
    }
  }

  /** A sweep that comes to a half-removed build takes its removal up again, and can end it. */
  lemma LeftoversAreRemoved(whole: set<string>, st: State, who: nat, k: Key, id: nat) returns (run: seq<Event>)
    requires At(st, who).Sweeping? && At(st, who).todo != [] && At(st, who).todo[0] == Gone(k, id)
    requires Gone(k, id) in st.entry
    ensures var p := At(st, who); var t := Step(whole, st, Event(who, TakeNext));
      && t.Some? && t.value.entry == st.entry && At(t.value, who) == Deleting(p.key, p.todo[1..], Gone(k, id))
      && Removes(whole, t.value, who, Gone(k, id), run)
  {
    run := RemovalCanEnd(whole, Step(whole, st, Event(who, TakeNext)).value, who, Gone(k, id));
  }

  /** A session whose build was not published, or not made, can take it away whole. */
  lemma DiscardedIsRemoved(whole: set<string>, st: State, who: nat) returns (run: seq<Event>)
    requires who in st.session && At(st, who).Discarding?
    requires Staging(At(st, who).key, At(st, who).id) in st.entry
    ensures Removes(whole, st, who, Staging(At(st, who).key, At(st, who).id), run)
  {
    run := RemovalCanEnd(whole, st, who, Staging(At(st, who).key, At(st, who).id));
  }

  /** A build of another key is passed over exactly where somebody has it open; any other the sweep goes on to rename. */
  lemma OpenBuildIsPassedOver(whole: set<string>, st: State, who: nat, k: Key)
    requires Inv(whole, st) && At(st, who).Sweeping? && At(st, who).todo != []
    requires At(st, who).todo[0] == Plain(k) && k != At(st, who).key
    ensures var p := At(st, who); var t := Step(whole, st, Event(who, TakeNext));
      && t.Some? && t.value.entry == st.entry
      && if Plain(k) in st.entry && Open(st, st.entry[Plain(k)].made) then At(t.value, who) == Sweeping(p.key, p.todo[1..])
         else var q := At(t.value, who);
           (q.Probing? || q.Renaming?) && q.victim == k && q.key == p.key && q.todo == p.todo[1..]
  {
    BinaryIsBuild(whole, st, k);
    if Plain(k) in st.entry {
      assert DirOk(whole, Plain(k), st.entry[Plain(k)], st.next);
    }
  }

  /** A rename may be refused, and then the sweep passes the build over. */
  lemma RefusedIsPassedOver(whole: set<string>, st: State, who: nat)
    requires At(st, who).Renaming?
    ensures var p := At(st, who); var t := Step(whole, st, Event(who, RenameRefused));
      t.Some? && t.value.entry == st.entry && At(t.value, who) == Sweeping(p.key, p.todo)
  {
  }

  /** Renaming a free build takes it out of its key, whole, and leads to its removal. */
  lemma FreeBuildIsTaken(whole: set<string>, st: State, who: nat)
    requires At(st, who).Renaming? && Plain(At(st, who).victim) in st.entry
    requires !Open(st, st.entry[Plain(At(st, who).victim)].made)
    ensures var p := At(st, who); var gone := Gone(p.victim, st.next); var t := Step(whole, st, Event(who, Rename));
      && t.Some? && At(t.value, who) == Deleting(p.key, p.todo, gone)
      && Plain(p.victim) !in t.value.entry && gone in t.value.entry && t.value.entry[gone] == st.entry[Plain(p.victim)]
  {
  }
}
