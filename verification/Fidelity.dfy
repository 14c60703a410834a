/**
 The live store against the file: a namespace is what the file and the declarations say
 until something unrecorded touches it, what shows when one is touched, what mends it, and
 what the numbers in the file can and cannot tell an operator about it.
 */
module Fidelity {
  import opened Flags
  import opened Oplog
  import opened TimeTravel
  import opened Store
  import opened Recovery
  import opened Runs
  import opened Guarantees

  // ---------------------------------------------------------------- what happened since

  /** The event rebuilds the store, or deletes namespace `n`. */
  predicate Clears(w: World, e: Event, n: Name) {
    match e
    case Write(ns, m, wx) => m.Retire? && Render(ns) == n && Transacted(w.store, ns, m, true, wx).1.Done?
    case Wipe => true
    case RestoreTo(to, _) => RestoreRefused(w.store.durable, w.log, 0, to, "why").None?
    case _ => false
  }

  ghost predicate Undisturbed(w: World, es: seq<Event>, n: Name, i: nat) {
    forall j: nat :: i < j < |es| ==> !Clears(Exec(w, es[..j]), es[j], n)
  }

  ghost predicate HappenedAt(w: World, es: seq<Event>, what: (World, Event) -> bool, i: nat)
    requires i < |es|
  {
    what(Exec(w, es[..i]), es[i])
  }

  /** Some event of the run did it, and nothing since has cleared namespace `n`. */
  ghost predicate HappenedSince(w: World, es: seq<Event>, n: Name, what: (World, Event) -> bool) {
    exists i: nat :: i < |es| && HappenedAt(w, es, what, i) && Undisturbed(w, es, n, i)
  }

  lemma HappenedSinceOneMore(w: World, es: seq<Event>, n: Name, what: (World, Event) -> bool)
    requires es != []
    ensures var init, e := es[..|es|-1], es[|es|-1];
            HappenedSince(w, es, n, what) <==>
            what(Exec(w, init), e) || (HappenedSince(w, init, n, what) && !Clears(Exec(w, init), e, n))
  {
    hide Exec, Step, Clears;
    var init, last := es[..|es|-1], |es| - 1;
    assert forall i: nat :: i <= last ==> es[..i] == init[..i];
    if HappenedSince(w, es, n, what) {
      var i: nat :| i < |es| && HappenedAt(w, es, what, i) && Undisturbed(w, es, n, i);
      if i < last {
        assert HappenedAt(w, init, what, i);
        forall j: nat | i < j < |init| ensures !Clears(Exec(w, init[..j]), init[j], n) {
          assert !Clears(Exec(w, es[..j]), es[j], n);
        }
        assert Undisturbed(w, init, n, i);
        assert !Clears(Exec(w, es[..last]), es[last], n);
      }
    }
    if what(Exec(w, init), es[last]) {
      assert HappenedAt(w, es, what, last) && Undisturbed(w, es, n, last);
    }
    if HappenedSince(w, init, n, what) && !Clears(Exec(w, init), es[last], n) {
      var i: nat :| i < |init| && HappenedAt(w, init, what, i) && Undisturbed(w, init, n, i);
      forall j: nat | i < j < |es| ensures !Clears(Exec(w, es[..j]), es[j], n) {
        if j < last {
          assert !Clears(Exec(w, init[..j]), init[j], n);
        }
      }
      assert Undisturbed(w, es, n, i) && HappenedAt(w, es, what, i);
    }
  }

  // ---------------------------------------------------------------- what touches a namespace

  /** The event may leave namespace `n` holding what no record says: a write of it reported
      as unrepaired, a process killed between its commit and its record, or a restore that
      changed it and could not be recorded. */
  predicate Touches(w: World, e: Event, n: Name) {
    match e
    case Write(ns, m, wx) => Render(ns) == n && Unrepaired(Transacted(w.store, ns, Enforced(m), true, wx).1)
    case CrashBeforeRecord(ns, m) =>
      Render(ns) == n && Mutate(BucketOf(w.store.disk, n), Enforced(m)).Changed?
    case RestoreTo(to, recorded) =>
      && !recorded && RestoreRefused(w.store.durable, w.log, 0, to, "why").None?
      && n in Differ(Replay(w.log, to), Run(w.log))
    case _ => false
  }

  ghost predicate TouchedSince(w: World, es: seq<Event>, n: Name) {
    HappenedSince(w, es, n, (v, e) => Touches(v, e, n))
  }

  lemma TouchedSinceOneMore(w: World, es: seq<Event>, n: Name)
    requires es != []
    ensures var v, e := Exec(w, es[..|es|-1]), es[|es|-1];
            TouchedSince(w, es, n) <==> Touches(v, e, n) || (TouchedSince(w, es[..|es|-1], n) && !Clears(v, e, n))
  {
    hide Exec, Touches, Clears, HappenedSince;
    HappenedSinceOneMore(w, es, n, (v, e) => Touches(v, e, n));
  }

  lemma WriteTouches(w: World, ns: NsKey, m: Mutation, wx: Weather, n: Name)
    ensures var e := Write(ns, m, wx);
            n in Step(w, e).astray <==> Touches(w, e, n) || (n in w.astray && !Clears(w, e, n))
  {
    hide Transacted, Wrote;
    HowAWriteGoes(w, ns, Enforced(m), wx);
  }

  lemma AstrayAfter(w: World, e: Event, n: Name)
    ensures n in Step(w, e).astray <==> Touches(w, e, n) || (n in w.astray && !Clears(w, e, n))
  {
    hide Wrote, Transacted, Mutate, RestoreRefused, Rebuilt, Highest, Reopened, Replay, Run, Differ;
    if e.Write? {
      WriteTouches(w, e.ns, e.m, e.w, n);
    }
  }

  lemma {:induction false} AstrayMeansTouched(w: World, es: seq<Event>, n: Name)
    requires w.astray == {}
    ensures n in Exec(w, es).astray <==> TouchedSince(w, es, n)
  {
    hide Step, Touches, Clears;
    if es == [] {
    } else {
      AstrayMeansTouched(w, es[..|es|-1], n);
      TouchedSinceOneMore(w, es, n);
      AstrayAfter(Exec(w, es[..|es|-1]), es[|es|-1], n);
    }
  }

  // ---------------------------------------------------------------- the live store

  /** Over every run, in a namespace nothing unrecorded has touched since the store was
      built or the namespace last deleted: each flag a replay of the file yields is live
      with the same value, each other live flag is as it was declared, nothing else is
      live, and readers see exactly that. */
  lemma TheLiveStoreIsWhatTheFileSays(legacy: seq<Record>, es: seq<Event>, n: Name, k: string)
    requires Legacy(legacy)
    ensures !TouchedSince(Start(legacy), es, n) ==>
              var w := Exec(Start(legacy), es);
              var live, said := At(w.store.disk, n, k), At(Replay(w.log, 0), n, k);
              && Seen(w.store.snap, n) == BucketOf(w.store.disk, n)
              && (said.Some? ==> live.Some? && live.value.value == said.value.value)
              && (said.None? ==> live == At(w.declared, n, k))
              && (n in w.store.disk <==> n in Replay(w.log, 0) || n in w.declared)
  {
    hide *;
    var w := Exec(Start(legacy), es);
    EveryRunIsSound(legacy, es);
    SoundSaysNumbers(w);
    ReplayIsTimeTravel(w.log, 0);
    FirstBooted(legacy);
    AstrayMeansTouched(Start(legacy), es, n);
    SoundSaysNamespace(w, n);
    OwedIs(w, n);
    if n !in w.astray {
      OverlayAt(w.store.disk, w.declared, Run(w.log), n, k);
    }
  }

  lemma FirstBooted(legacy: seq<Record>)
    ensures var w := Start(legacy);
            w.astray == {} && w.declared == map[] && w.store.revision == w.store.durable == 0 && w.log == legacy
  {
    hide Replay, View;
  }

  lemma OverlayAt(live: Disk, d: Disk, o: Disk, n: Name, k: string)
    requires BucketOf(live, n) == BucketOf(Overlay(d, o), n)
    ensures var here, said := At(live, n, k), At(o, n, k);
            && (said.Some? ==> here.Some? && here.value.value == said.value.value)
            && (said.None? ==> here == At(d, n, k))
            && (n in live <==> n in o || n in d)
  {
    OverlayOf(d, o, n);
  }

  // ---------------------------------------------------------------- what a touch leaves

  /** A write, or the commit of one, that leaves its namespace as it found it. */
  predicate ChangesNothing(w: World, e: Event) {
    && (e.Write? || e.CrashBeforeRecord?)
    && var b := BucketOf(w.store.disk, Render(e.ns));
       Mutate(b, Enforced(e.m)) == Changed(b)
  }

  /** A namespace that was as the file says is, once touched, not: its disk or its readers
      hold something else, unless the write touched it and changed nothing. */
  lemma ATouchShows(w: World, e: Event, n: Name)
    requires Sound(w) && AsTheFileSays(w, n) && Touches(w, e, n)
    ensures AsTheFileSays(Step(w, e), n) <==> ChangesNothing(w, e)
  {
    hide Wrote, Crashed, RestoredTo, AsTheFileSays, BucketOf, Mutate, Transacted, Run, Replay, RestoreRefused, InOrder, WellNamed;
    match e
    case Write(ns, m, wx) => AnUnrepairedWriteShows(w, ns, Enforced(m), wx);
    case CrashBeforeRecord(ns, m) => ACrashShows(w, ns, Enforced(m));
    case RestoreTo(to, recorded) => AnUnrecordedRestoreShows(w, to, n);
  }

  lemma AnUnrepairedWriteShows(w: World, ns: NsKey, m: Mutation, wx: Weather)
    requires WellNamed(w.store.snap) && AsTheFileSays(w, Render(ns))
    requires Unrepaired(Transacted(w.store, ns, m, true, wx).1)
    ensures var b := BucketOf(w.store.disk, Render(ns));
            AsTheFileSays(Wrote(w, ns, m, wx), Render(ns)) <==> Mutate(b, m) == Changed(b)
  {
    hide *;
    var n := Render(ns);
    var b, v := BucketOf(w.store.disk, n), Wrote(w, ns, m, wx);
    AsTheFileSaysIs(w, n);
    UnrepairedLeaves(w.store, ns, m, wx);
    UnrepairedIsNotDone(Transacted(w.store, ns, m, true, wx).1);
    UnrecordedLeavesTheOwed(w, ns, m, wx, n);
    HowAWriteGoes(w, ns, m, wx);
    AsTheFileSaysIs(v, n);
  }

  lemma UnrepairedIsNotDone(out: Outcome)
    requires Unrepaired(out)
    ensures !out.Done?
  {
  }

  /** An unrepaired write leaves its change on disk, or in front of readers, or both. */
  lemma UnrepairedLeaves(s: StoreState, ns: NsKey, m: Mutation, wx: Weather)
    requires Unrepaired(Transacted(s, ns, m, true, wx).1)
    requires Seen(s.snap, Render(ns)) == BucketOf(s.disk, Render(ns))
    ensures var t, n := Transacted(s, ns, m, true, wx).0, Render(ns);
            var was := BucketOf(s.disk, n);
            && Mutate(was, m).Changed?
            && var b := Mutate(was, m).bucket;
               || (BucketOf(t.disk, n) == b && (Seen(t.snap, n) == was || Seen(t.snap, n) == b))
               || (BucketOf(t.disk, n) == was && Seen(t.snap, n) == b)
  {
    hide View, PutBucket, BucketOf, Mutate, Seen, Parse;
    var was := BucketOf(s.disk, Render(ns));
    if Mutate(was, m).Changed? {
      SeenInView(PutBucket(s.disk, Render(ns), Mutate(was, m).bucket), Render(ns));
    }
  }

  lemma ACrashShows(w: World, ns: NsKey, m: Mutation)
    requires AsTheFileSays(w, Render(ns)) && Mutate(BucketOf(w.store.disk, Render(ns)), m).Changed?
    ensures var b := BucketOf(w.store.disk, Render(ns));
            AsTheFileSays(Crashed(w, ns, m), Render(ns)) <==> Mutate(b, m) == Changed(b)
  {
    hide View, PutBucket, Mutate, Overlay, Run, Seen, BucketOf;
    SeenInView(Crashed(w, ns, m).store.disk, Render(ns));
  }

  lemma AnUnrecordedRestoreShows(w: World, to: nat, n: Name)
    requires RestoreRefused(w.store.durable, w.log, 0, to, "why").None?
    requires n in Differ(Replay(w.log, to), Run(w.log))
    ensures !AsTheFileSays(RestoredTo(w, to, false), n)
  {
    hide RestoreRefused, Replay, Run, Overlay, View, Seen, BucketOf;
    OverlayNothing(Run(w.log));
  }

  // ---------------------------------------------------------------- what mends one

  /** An unrepaired write is noted, for health to say. The next write that is done, or that
      is rolled back, clears the note. A done one republishes the whole disk; and for the
      rest it mends only what it writes.
      Every other namespace keeps what it holds and what it is owed, and is as the file says
      afterwards iff its disk already was. */
  lemma ADoneWriteMendsOnlyItsOwn(w: World, ns: NsKey, m: Mutation, wx: Weather, n: Name)
    requires Sound(w)
    ensures var v, out := Step(w, Write(ns, m, wx)), Transacted(w.store, ns, Enforced(m), true, wx).1;
            && (Unrepaired(out) ==> v.store.failed)
            && (out == Unlogged(true) ==> !v.store.failed)
            && (out.Done? ==>
                  && !v.store.failed && v.store.snap == View(v.store.disk)
                  && (n != Render(ns) ==>
                        && BucketOf(v.store.disk, n) == BucketOf(w.store.disk, n) && Owed(v, n) == Owed(w, n)
                        && (AsTheFileSays(v, n) <==> BucketOf(w.store.disk, n) == Owed(w, n)))
                  && (n == Render(ns) && m.Retire? ==> BucketOf(v.store.disk, n) == Owed(v, n) == None))
  {
    hide *;
    AWriteIsAWrite(w, ns, m, wx);
    SoundSaysNamespace(w, n);
    HowAWriteGoes(w, ns, Enforced(m), wx);
    if Transacted(w.store, ns, Enforced(m), true, wx).1.Done? {
      OwedAfterAWrite(w, ns, Enforced(m), wx, n);
    }
    TheNoteAfter(w.store, ns, Enforced(m), wx);
    TransactedHere(w.store, ns, Enforced(m), wx);
    if n != Render(ns) {
      TransactedElsewhere(w.store, ns, Enforced(m), wx, n);
    }
    RetiringIsUnconditional(Owed(w, n));
    RetiringIsUnconditional(BucketOf(w.store.disk, n));
    RetiringIsEnforced(m);
    AsTheFileSaysIs(Step(w, Write(ns, m, wx)), n);
    SeenInView(Step(w, Write(ns, m, wx)).store.disk, n);
  }

  /** A flip commits and its reload fails, which health reports; an empty deploy elsewhere
      is done. The note is clear, and the flag the file never heard of is now served. */
  lemma ANoteIsClearedOverAWrongNamespace()
    ensures var es := [Write(NS, TURN_ON, UNSEEN), Write(GLOBAL, Publish([]), FAIR)];
            var early, late, n := Exec(Start([]), es[..1]), Exec(Start([]), es), Render(NS);
            && early.store.failed && !late.store.failed
            && BucketOf(late.store.disk, n) == Some(TURNED_ON) == Seen(late.store.snap, n)
            && Owed(late, n) == None && !AsTheFileSays(late, n)
  {
    hide *;
    var e0, n := Write(NS, TURN_ON, UNSEEN), Render(NS);
    var es := [e0, Write(GLOBAL, Publish([]), FAIR)];
    assert es[..1] == [e0] && [e0][..0] == [];
    NoEvent(Start([]));
    OneMoreEvent(Start([]), [e0]);
    OneMoreEvent(Start([]), es);
    AFirstBootIsEmpty();
    NothingIsLegacy();
    EveryRunIsSound([], [e0]);
    LeftUnseen(Start([]));
    ADoneWriteMendsOnlyItsOwn(Step(Start([]), e0), GLOBAL, Publish([]), FAIR, n);
    AnEmptyPublishIsDone(Step(Start([]), e0).store);
    NotTheGlobalScope();
    SeenInView(Exec(Start([]), es).store.disk, n);
  }

  lemma LeftUnseen(w: World)
    requires w.log == [] && w.declared == map[] && w.store == StoreState(map[], 0, map[], 0, false)
    ensures var v := Step(w, Write(NS, TURN_ON, UNSEEN));
            && v.store.failed && BucketOf(v.store.disk, Render(NS)) == Some(TURNED_ON) && Owed(v, Render(NS)) == None
  {
    FirstFlip(w.store);
    hide View, Mutate;
  }

  lemma AnEmptyPublishIsDone(s: StoreState)
    ensures Enforced(Publish([])) == Publish([])
    ensures Transacted(s, GLOBAL, Publish([]), true, FAIR).1.Done?
  {
    hide View, PutBucket, PublishBucket;
  }

  lemma NotTheGlobalScope()
    ensures Render(NS) != Render(GLOBAL)
  {
    assert Render(NS)[0] == 'g' && Render(GLOBAL)[0] == '_';
  }

  /** Within its own namespace a done flip puts right its one flag, in the store and in the
      file alike, and leaves every other as it was. */
  lemma ADoneFlipMendsOneFlag(w: World, ns: NsKey, key: string, v: Value, wx: Weather, k: string)
    requires Sound(w) && Transacted(w.store, ns, Flip(key, v, true), true, wx).1.Done?
    ensures var u, n := Step(w, Write(ns, Flip(key, v, true), wx)), Render(ns);
            if k == key then
              && At(u.store.disk, n, k).Some? && At(u.store.disk, n, k).value.value == v
              && At(Run(u.log), n, k).Some? && At(Run(u.log), n, k).value.value == v
            else At(u.store.disk, n, k) == At(w.store.disk, n, k) && At(Run(u.log), n, k) == At(Run(w.log), n, k)
  {
    hide *;
    var m, n := Flip(key, v, true), Render(ns);
    AWriteIsAWrite(w, ns, m, wx);
    SoundSaysNamespace(w, n);
    InOrderSaysNumbers(w);
    HowAWriteGoes(w, ns, m, wx);
    TransactedNumbers(w.store, ns, m, wx);
    TransactedHere(w.store, ns, m, wx);
    RecordsFollow(w, ns, m, w.store.revision + 1);
    AFlipChangesOneFlag(w.store.disk, Step(w, Write(ns, m, wx)).store.disk, ns, key, v, k);
    AFlipRecordChangesOneFlag(Run(w.log), ns, key, v, w.store.revision + 1, k);
  }

  lemma AFlipChangesOneFlag(disk: Disk, now: Disk, ns: NsKey, key: string, v: Value, k: string)
    requires Enforced(Flip(key, v, true)) == Flip(key, v, true)
    requires Mutate(BucketOf(disk, Render(ns)), Flip(key, v, true)) == Changed(BucketOf(now, Render(ns)))
    ensures var n := Render(ns);
            if k == key then At(now, n, k).Some? && At(now, n, k).value.value == v
            else At(now, n, k) == At(disk, n, k)
  {
  }

  lemma AFlipRecordChangesOneFlag(disk: Disk, ns: NsKey, key: string, v: Value, revision: nat, k: string)
    ensures var n, now := Render(ns), Apply(disk, RecordFor(ns, Flip(key, v, true), revision));
            if k == key then At(now, n, k).Some? && At(now, n, k).value.value == v
            else At(now, n, k) == At(disk, n, k)
  {
  }

  lemma AWriteIsAWrite(w: World, ns: NsKey, m: Mutation, wx: Weather)
    ensures Step(w, Write(ns, m, wx)) == Wrote(w, ns, Enforced(m), wx)
    ensures m.Flip? && m.enforce ==> Enforced(m) == m
  {
    hide Wrote;
  }

  lemma RetiringIsEnforced(m: Mutation)
    ensures m.Retire? ==> Enforced(m) == Retire
  {
  }

  lemma TheNoteAfter(s: StoreState, ns: NsKey, m: Mutation, wx: Weather)
    ensures var (t, out) := Transacted(s, ns, m, true, wx);
            && (Unrepaired(out) ==> t.failed)
            && (out == Unlogged(true) ==> !t.failed)
            && (out.Done? ==> !t.failed && t.snap == View(t.disk))
  {
    hide View, PutBucket, BucketOf, Mutate;
  }

  // ---------------------------------------------------------------- declared means published since

  /** The event publishes key `k` into namespace `n`, and it lands. */
  predicate Publishes(w: World, e: Event, n: Name, k: string) {
    && e.Write? && e.m.Publish? && Render(e.ns) == n
    && Transacted(w.store, e.ns, e.m, true, e.w).1.Done?
    && exists f :: f in e.m.flags && f.key == k
  }

  ghost predicate PublishedSince(w: World, es: seq<Event>, n: Name, k: string) {
    HappenedSince(w, es, n, (v, e) => Publishes(v, e, n, k))
  }

  lemma PublishedSinceOneMore(w: World, es: seq<Event>, n: Name, k: string)
    requires es != []
    ensures var v, e := Exec(w, es[..|es|-1]), es[|es|-1];
            PublishedSince(w, es, n, k) <==>
            Publishes(v, e, n, k) || (PublishedSince(w, es[..|es|-1], n, k) && !Clears(v, e, n))
  {
    hide Exec, Publishes, Clears, HappenedSince;
    HappenedSinceOneMore(w, es, n, (v, e) => Publishes(v, e, n, k));
  }

  lemma DeclaredAfter(w: World, e: Event, n: Name, k: string)
    ensures At(Step(w, e).declared, n, k).Some? <==>
            Publishes(w, e, n, k) || (At(w.declared, n, k).Some? && !Clears(w, e, n))
  {
    if e.Write? && Render(e.ns) == n && e.m.Publish? {
      PublishMeans(Opened(BucketOf(w.declared, n)), e.m.flags, k);
    }
  }

  /** A live flag no replay yields has been published since the store was last built and
      its namespace last deleted, and every flag so published is live. */
  lemma {:induction false} DeclaredMeansPublishedSince(w: World, es: seq<Event>, n: Name, k: string)
    requires w.declared == map[]
    ensures At(Exec(w, es).declared, n, k).Some? <==> PublishedSince(w, es, n, k)
  {
    if es == [] {
    } else {
      DeclaredMeansPublishedSince(w, es[..|es|-1], n, k);
      PublishedSinceOneMore(w, es, n, k);
      DeclaredAfter(Exec(w, es[..|es|-1]), es[|es|-1], n, k);
    }
  }

  /** A deploy, after a heal or at any other time, changes no value the record holds. */
  lemma ADeployKeepsTheOperatorsValues(w: World, ns: NsKey, flags: seq<Flag>, wx: Weather, n: Name, k: string)
    requires Sound(w) && AsTheFileSays(w, n) && At(Run(w.log), n, k).Some?
    ensures var e := Write(ns, Publish(flags), wx);
            !Touches(w, e, n) ==>
              var v := Step(w, e);
              && AsTheFileSays(v, n)
              && At(v.store.disk, n, k).Some?
              && At(v.store.disk, n, k).value.value == At(Run(w.log), n, k).value.value
  {
    hide *;
    var e := Write(ns, Publish(flags), wx);
    if !Touches(w, e, n) {
      var known := w.(astray := w.astray - {n});
      SoundWithout(w, n);
      AstrayAfter(known, e, n);
      StepKeepsSound(known, e);
      TheNoteDecidesNothing(w, e, n);
      var v := Step(w, e);
      SoundSaysNamespace(Step(known, e), n);
      AsTheFileSaysIs(v, n);
      OwedIs(v, n);
      OverlayAt(v.store.disk, v.declared, Run(v.log), n, k);
      ADeployIsNotReplayed(w, ns, flags, wx);
    }
  }

  lemma SoundWithout(w: World, n: Name)
    requires Sound(w) && AsTheFileSays(w, n)
    ensures Sound(w.(astray := w.astray - {n}))
  {
    hide WellFormed, Highest, WellNamed, Overlay, Run, BucketOf, Seen;
    var v := w.(astray := w.astray - {n});
    forall other: Name | other !in v.astray ensures AsTheFileSays(v, other) {
      assert AsTheFileSays(w, other);
    }
  }

  lemma TheNoteDecidesNothing(w: World, e: Event, n: Name)
    ensures var known := w.(astray := w.astray - {n});
            && Step(known, e) == Step(w, e).(astray := Step(known, e).astray)
            && (Touches(known, e, n) <==> Touches(w, e, n))
            && Owed(Step(known, e), n) == Owed(Step(w, e), n)
  {
    hide Transacted, Mutate, RestoreRefused, Rebuilt, Highest, Replay, Run, Overlay, Reopened, BucketOf, Declare, RecordFor;
  }

  lemma ADeployIsNotReplayed(w: World, ns: NsKey, flags: seq<Flag>, wx: Weather)
    ensures Run(Step(w, Write(ns, Publish(flags), wx)).log) == Run(w.log)
  {
    hide View, PutBucket, PublishBucket, Mutate;
    Snoc(w.log, RecordFor(ns, Publish(flags), w.store.revision + 1));
  }

  // ---------------------------------------------------------------- what the numbers can tell

  predicate Stamps(r: Record, n: nat) { Numbered(r) && r.revision == n }

  ghost predicate Recorded(log: seq<Record>, n: nat) {
    exists r :: r in log && Stamps(r, n)
  }

  /** Every number after `since` and up to `to` is in the file. */
  ghost predicate Gapless(log: seq<Record>, since: nat, to: nat) {
    forall n: nat :: since < n <= to ==> Recorded(log, n)
  }

  /** The event builds the store anew under a number the file holds. */
  predicate Rebuilds(w: World, e: Event) {
    || e.Wipe?
    || (e.RestoreTo? && e.recorded && RestoreRefused(w.store.durable, w.log, 0, e.to, "why").None?)
  }

  /** The number the store was last built at: by a heal, by a recorded restore, or first. */
  function BuiltAt(w: World, es: seq<Event>): nat {
    if es == [] then w.store.revision
    else if Rebuilds(Exec(w, es[..|es|-1]), es[|es|-1]) then Exec(w, es).store.revision
    else BuiltAt(w, es[..|es|-1])
  }

  lemma BuiltAtOneMore(w: World, es: seq<Event>)
    requires es != []
    ensures BuiltAt(w, es) ==
            if Rebuilds(Exec(w, es[..|es|-1]), es[|es|-1]) then Exec(w, es).store.revision else BuiltAt(w, es[..|es|-1])
  {
    hide Exec, Rebuilds;
  }

  lemma NeverBuiltAgain(w: World)
    ensures BuiltAt(w, []) == w.store.revision
  {
  }

  /** Something is astray only after an event that took a number and left it nowhere. */
  lemma AstrayMeansANumberLost(w: World, e: Event)
    requires Step(w, e).astray != {}
    ensures !Rebuilds(w, e) && (Loses(w, e) || w.astray != {})
  {
    var n :| n in Step(w, e).astray;
    AstrayAfter(w, e, n);
    hide Step, Transacted, Mutate, RestoreRefused, Replay, Run, Differ;
  }

  lemma ALossRecordsNothing(w: World, e: Event)
    requires Loses(w, e)
    ensures Appended(w, e) == [] && !Accounts(w, e) && !e.Wipe?
  {
    hide Transacted, Mutate, RestoreRefused;
  }

  lemma AGap(log: seq<Record>, since: nat, n: nat, to: nat)
    requires since < n <= to && !Recorded(log, n)
    ensures !Gapless(log, since, to)
  {
    hide Recorded;
  }

  lemma AGapStays(log: seq<Record>, more: seq<Record>, since: nat, to: nat, upTo: nat)
    requires !Gapless(log, since, to) && to <= upTo
    requires forall r :: r in more && Numbered(r) ==> r.revision > to
    ensures !Gapless(log + more, since, upTo)
  {
    var n: nat :| since < n <= to && !Recorded(log, n);
    assert !Recorded(log + more, n);
    AGap(log + more, since, n, upTo);
  }

  /** A number above everything in the file, lost: that is a gap. */
  lemma ALossIsAGap(w: World, e: Event, since: nat)
    requires Sound(w) && since <= Highest(w.log) && Loses(w, e)
    ensures !Gapless(Step(w, e).log, since, Step(w, e).store.revision)
  {
    hide *;
    SoundSaysNumbers(w);
    ALossRecordsNothing(w, e);
    StepAppends(w, e);
    NumberAfter(w, e);
    assert w.log + [] == w.log;
    NothingAbove(w.log, w.store.revision);
    AGap(w.log, since, w.store.revision + 1, w.store.revision + 1);
  }

  lemma NothingAbove(log: seq<Record>, n: nat)
    requires forall r :: r in log ==> r.revision <= n
    ensures !Recorded(log, n + 1)
  {
  }

  lemma RebuildingLeavesItsNumber(w: World, e: Event)
    requires Sound(w) && Rebuilds(w, e)
    ensures Step(w, e).store.revision == Highest(Step(w, e).log)
  {
    hide *;
    SoundSaysNumbers(w);
    RebuildingAccounts(w, e);
    AlignedAfter(w, e);
    AlignedIs(Step(w, e));
  }

  lemma RebuildingAccounts(w: World, e: Event)
    ensures Rebuilds(w, e) ==> Accounts(w, e)
    ensures e.Wipe? ==> Rebuilds(w, e)
  {
    hide RestoreRefused;
  }

  lemma AlignedIs(w: World)
    ensures Aligned(w) <==> w.store.revision == Highest(w.log)
  {
  }

  lemma StepShows(w: World, e: Event, since: nat)
    requires Sound(w) && since <= Highest(w.log)
    requires w.astray != {} ==> !Gapless(w.log, since, w.store.revision)
    ensures var v := Step(w, e);
            && (if Rebuilds(w, e) then v.store.revision else since) <= Highest(v.log)
            && (v.astray != {} ==> !Rebuilds(w, e) && !Gapless(v.log, since, v.store.revision))
  {
    hide *;
    var v := Step(w, e);
    SoundSaysNumbers(w);
    StepAppends(w, e);
    NumberAfter(w, e);
    HighestOnlyGrows(w.log, Appended(w, e));
    if Rebuilds(w, e) {
      RebuildingLeavesItsNumber(w, e);
    }
    if v.astray != {} {
      AstrayMeansANumberLost(w, e);
      if Loses(w, e) {
        ALossIsAGap(w, e, since);
      } else {
        RebuildingAccounts(w, e);
        AGapStays(w.log, Appended(w, e), since, w.store.revision, v.store.revision);
      }
    }
  }

  lemma {:induction false} ARunShows(w: World, es: seq<Event>)
    requires Sound(w) && w.astray == {} && w.store.revision == Highest(w.log)
    ensures var v := Exec(w, es);
            && BuiltAt(w, es) <= Highest(v.log)
            && (v.astray != {} ==> !Gapless(v.log, BuiltAt(w, es), v.store.revision))
  {
    hide *;
    if es == [] {
      NoEvent(w);
      NeverBuiltAgain(w);
    } else {
      var init, e := es[..|es|-1], es[|es|-1];
      OneMoreEvent(w, es);
      BuiltAtOneMore(w, es);
      ARunShows(w, init);
      ExecKeepsSound(w, init);
      StepShows(Exec(w, init), e, BuiltAt(w, init));
    }
  }

  lemma GaplessFurther(log: seq<Record>, since: nat, from: nat, to: nat)
    requires Gapless(log, since, to) && since <= from
    ensures Gapless(log, from, to)
  {
    hide Recorded;
  }

  lemma GaplessReachesTheTop(log: seq<Record>, since: nat, to: nat)
    requires Gapless(log, since, to) && since <= Highest(log) <= to
    ensures to == Highest(log)
  {
    if since < to {
      assert Recorded(log, to);
    }
  }

  /** When a consistent store is the file's. Over every run, if no number is missing from
      the file since the store was last built, and it is enough that none is missing at
      all, then `assess` passes and the store is what the file and the declarations say,
      every namespace of it, and readers see it. */
  lemma AWholeFileMeansTheStoreIsItsOwn(legacy: seq<Record>, es: seq<Event>, since: nat)
    requires Legacy(legacy) && since <= BuiltAt(Start(legacy), es)
    ensures var w := Exec(Start(legacy), es);
            Gapless(w.log, since, w.store.revision) ==>
              && w.store.revision == Highest(w.log)
              && w.store.disk == Overlay(w.declared, Replay(w.log, 0))
              && w.store.snap == View(w.store.disk)
  {
    hide *;
    var w := Exec(Start(legacy), es);
    FirstBooted(legacy);
    LegacyIsUnstamped(legacy);
    AFirstBootIsSound(legacy);
    EveryRunIsSound(legacy, es);
    SoundSaysNumbers(w);
    ReplayIsTimeTravel(w.log, 0);
    ARunShows(Start(legacy), es);
    if Gapless(w.log, since, w.store.revision) {
      GaplessFurther(w.log, since, BuiltAt(Start(legacy), es), w.store.revision);
      GaplessReachesTheTop(w.log, BuiltAt(Start(legacy), es), w.store.revision);
      NothingAstray(w);
    }
  }

  lemma LegacyIsUnstamped(legacy: seq<Record>)
    requires Legacy(legacy)
    ensures Highest(legacy) == 0
  {
  }

  /** A missing number says only that something was not recorded. A write rolled back and a
      process killed leave the same file, the same number and the same generation; after
      the one the namespace is as the file says, and after the other it is not. So nothing
      an operator can read off the file and the number is both necessary and sufficient. */
  lemma TheFileCannotTell(w: World, ns: NsKey, m: Mutation)
    requires Sound(w) && AsTheFileSays(w, Render(ns))
    requires var b := BucketOf(w.store.disk, Render(ns)); Mutate(b, Enforced(m)).Changed? && Mutate(b, Enforced(m)).bucket != b
    ensures var undone, killed := Step(w, Write(ns, m, ROLLED_BACK)), Step(w, CrashBeforeRecord(ns, m));
            && undone.log == killed.log == w.log
            && undone.store.revision == killed.store.revision == w.store.revision + 1
            && undone.generation == killed.generation
            && AsTheFileSays(undone, Render(ns)) && !AsTheFileSays(killed, Render(ns))
            && !Gapless(w.log, w.store.revision, w.store.revision + 1)
  {
    hide *;
    var n := Render(ns);
    SoundSaysNumbers(w);
    SoundSaysNamespace(w, n);
    AWriteIsAWrite(w, ns, m, ROLLED_BACK);
    RolledBack(w.store, ns, Enforced(m));
    HowAWriteGoes(w, ns, Enforced(m), ROLLED_BACK);
    TransactedHere(w.store, ns, Enforced(m), ROLLED_BACK);
    TransactedNumbers(w.store, ns, Enforced(m), ROLLED_BACK);
    UnrecordedLeavesTheOwed(w, ns, Enforced(m), ROLLED_BACK, n);
    AsTheFileSaysIs(w, n);
    AsTheFileSaysIs(Step(w, Write(ns, m, ROLLED_BACK)), n);
    Killed(w, ns, m);
    ACrashShows(w, ns, Enforced(m));
    NothingAbove(w.log, w.store.revision);
    AGap(w.log, w.store.revision, w.store.revision + 1, w.store.revision + 1);
  }

  lemma RolledBack(s: StoreState, ns: NsKey, m: Mutation)
    requires Mutate(BucketOf(s.disk, Render(ns)), m).Changed?
    ensures Transacted(s, ns, m, true, ROLLED_BACK).1 == Unlogged(true) && !Unrepaired(Unlogged(true))
  {
    hide View, PutBucket, BucketOf, Mutate;
  }

  lemma Killed(w: World, ns: NsKey, m: Mutation)
    requires Mutate(BucketOf(w.store.disk, Render(ns)), Enforced(m)).Changed?
    ensures var v := Step(w, CrashBeforeRecord(ns, m));
            && v == Crashed(w, ns, Enforced(m))
            && v.log == w.log && v.generation == w.generation && v.store.revision == w.store.revision + 1
  {
    hide View, PutBucket, BucketOf, Mutate;
  }

  // ---------------------------------------------------------------- what assess cannot see

  const LOST := CrashBeforeRecord(NS, TURN_ON)
  const NEXT := Write(NS, Flip("cpu", BoolValue(true), true), FAIR)

  /** `assess` compares numbers, and a number says nothing about the ones before it. A
      process killed between a commit and its record, and one more flip: the numbers
      agree, the store serves a flag the file never heard of, and the next heal loses it.
      The number the process died with is missing, and that is all there is to see. */
  lemma AssessPassesAStoreTheFileDoesNotHold()
    ensures var w, n := Exec(Start([]), [LOST, NEXT]), Render(NS);
            && Sound(w) && Aligned(w)
            && At(w.store.disk, n, "gpu").Some?
            && At(Step(w, Wipe).store.disk, n, "gpu").None?
            && !Gapless(w.log, 0, w.store.revision)
  {
    hide *;
    var w0 := Start([]);
    var w1 := Step(w0, LOST);
    NoEvent(w0);
    OneMoreEvent(w0, [LOST]);
    OneMoreEvent(w0, [LOST, NEXT]);
    assert [LOST, NEXT][..1] == [LOST] && [LOST][..0] == [];
    NothingIsLegacy();
    EveryRunIsSound([], [LOST, NEXT]);
    AfterTheCrash();
    AfterTheNextFlip(w1);
    AHealIsTheRecord(Step(w1, NEXT));
    FirstBooted([]);
    AFirstBootIsSound([]);
    LegacyIsUnstamped([]);
    ARunShows(w0, [LOST, NEXT]);
    if Gapless(Step(w1, NEXT).log, 0, Step(w1, NEXT).store.revision) {
      GaplessFurther(Step(w1, NEXT).log, 0, BuiltAt(w0, [LOST, NEXT]), Step(w1, NEXT).store.revision);
    }
  }

  lemma NothingIsLegacy()
    ensures Legacy([])
  {
  }

  lemma AHealIsTheRecord(w: World)
    requires Sound(w)
    ensures Step(w, Wipe).store.disk == Run(w.log)
  {
    hide Run, Replay, Highest, WellFormed, View, Overlay;
    ReplayIsTimeTravel(w.log, 0);
  }

  lemma AfterTheCrash()
    ensures var w := Step(Start([]), LOST);
            && w.log == [] && w.store.revision == 1 && Render(NS) in w.astray
            && BucketOf(w.store.disk, Render(NS)) == Some(map["gpu" := Flag("gpu", BoolValue(true), "", false)])
  {
    assert Start([]).store.disk == map[];
  }

  lemma AfterTheNextFlip(w: World)
    requires w.log == [] && w.store.revision == 1
    requires BucketOf(w.store.disk, Render(NS)) == Some(map["gpu" := Flag("gpu", BoolValue(true), "", false)])
    ensures var v := Step(w, NEXT);
            && Aligned(v) && v.astray == w.astray
            && At(v.store.disk, Render(NS), "gpu").Some? && At(Run(v.log), Render(NS), "gpu").None?
  {
    var b := BucketOf(w.store.disk, Render(NS));
    AllowedBesideIt(b.value);
    FairWriteLands(w.store, NS, NEXT.m, FlipBucket(b, "cpu", BoolValue(true)));
    TheFileKnowsOnly(RecordFor(NS, NEXT.m, 2));
    hide Transacted, Run, Highest, FlipBucket, View, RecordFor;
    assert w.log + [RecordFor(NS, NEXT.m, 2)] == [RecordFor(NS, NEXT.m, 2)];
  }

  lemma AllowedBesideIt(b: Bucket)
    requires b == map["gpu" := Flag("gpu", BoolValue(true), "", false)]
    ensures Enforced(NEXT.m) == NEXT.m
    ensures Mutate(Some(b), NEXT.m) == Changed(Some(FlipBucket(Some(b), "cpu", BoolValue(true))))
    ensures "gpu" in FlipBucket(Some(b), "cpu", BoolValue(true))
  {
  }

  lemma TheFileKnowsOnly(r: Record)
    requires r == RecordFor(NS, NEXT.m, 2)
    ensures At(Run([r]), Render(NS), "gpu").None? && Highest([r]) == 2
  {
    Snoc([], r);
    HighestOfAppended([], r);
    assert [] + [r] == [r] && [r][..0] == [];
    assert Run([r]) == Apply(Run([]), r);
  }
}
