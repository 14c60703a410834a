/**
 What flipr's runs guarantee of their numbers: the file's order, what recovery finds in
 it, checkpoints and the way back, equal numbers and equal snapshots, and what a second
 boot serves.
 */
module Guarantees {
  import opened Flags
  import opened Oplog
  import opened TimeTravel
  import opened Store
  import opened Recovery
  import opened Runs

  // ---------------------------------------------------------------- the file's order

  lemma {:induction false} WellFormedRestoresAscend(log: seq<Record>)
    requires WellFormed(log)
    ensures Ascending(Restores(log))
  {
    if log == [] {
    } else {
      var init, last := log[..|log|-1], log[|log|-1];
      WellFormedRestoresAscend(init);
      if last.op.Restore? {
        forall p | p in Restores(init) ensures p.stamp < last.revision {
          var r := Record(p.stamp, Restore(p.to, p.from));
          assert r in init && Numbered(r) && Precedes(r, last);
        }
      }
    }
  }

  /** Numbers strictly ascend in file order, so a number names one record: no write and
      no restore ever shares one, across heals and restores. */
  lemma {:induction false} ANumberNamesOneRecord(log: seq<Record>, i: nat, j: nat)
    requires WellFormed(log) && i < j < |log| && log[i].op != Op.Notice && log[j].op != Op.Notice
    ensures log[i].revision < log[j].revision || log[j].revision == 0
  {
    var init := log[..|log|-1];
    if j < |log| - 1 {
      assert init[i] == log[i] && init[j] == log[j];
      ANumberNamesOneRecord(init, i, j);
    } else {
      assert log[i] in init;
      assert Precedes(log[i], log[j]);
    }
  }

  // ---------------------------------------------------------------- what recovery finds

  /** On a volume that holds, the file of any run is accepted by a heal and by a restore,
      and the machine's wipe and restore are what the code does. */
  lemma RecoveryAcceptsEveryRun(w: World, to: nat, wx: Forecast, generation: nat)
    requires Sound(w) && forall i :: wx(i) == FAIR
    ensures Accepted(EMPTY, w.log, 0, to, wx)
    ensures Booted(None, w.log, 0, generation, wx, true) == (Step(w, Wipe).store, generation, true)
    ensures Booted(Some(OnVolume(w.store, w.generation)), w.log, 0, generation, wx, true) ==
            (Step(w, Reopen).store, w.generation, true)
    ensures RestoreRefused(w.store.durable, w.log, 0, to, "why").None? ==>
              && RestoreEnds(w.store.durable, w.log, to, wx, true, true).Completed?
              && Step(w, RestoreTo(to, true)).store == Rebuilt(w.log, to, w.store.durable + 1)
  {
    WellFormedRestoresAscend(w.log);
    FairReplaySkipsOnlyUndecodable(EMPTY, w.log, InForce(w.log, to), BoundOf(to), wx);
    FairReplaySkipsOnlyUndecodable(EMPTY, w.log, InForce(w.log, 0), None, wx);
  }

  /** The flag a disk holds. */
  function At(disk: Disk, n: Name, k: string): Option<Flag> {
    var b := Opened(BucketOf(disk, n));
    if k in b then Some(b[k]) else None
  }

  // ---------------------------------------------------------------- numbers

  predicate Aligned(w: World) { w.store.revision == Highest(w.log) }

  /** The event's number, or the file's highest, ends up in the file. */
  predicate Accounts(w: World, e: Event) {
    match e
    case Write(ns, m, wx) => Transacted(w.store, ns, Enforced(m), true, wx).1.Done?
    case Notice(lag) => lag == 0
    case Wipe => true
    case RestoreTo(to, recorded) => recorded && RestoreRefused(w.store.durable, w.log, 0, to, "why").None?
    case _ => false
  }

  /** The event takes a number no record carries. */
  predicate Loses(w: World, e: Event) {
    match e
    case Write(ns, m, wx) =>
      var out := Transacted(w.store, ns, Enforced(m), true, wx).1;
      out.ReloadFailed? || out.Unlogged?
    case CrashBeforeRecord(ns, m) => Mutate(BucketOf(w.store.disk, Render(ns)), Enforced(m)).Changed?
    case RestoreTo(to, recorded) => !recorded && RestoreRefused(w.store.durable, w.log, 0, to, "why").None?
    case _ => false
  }

  /** The records an event appends. */
  function Appended(w: World, e: Event): seq<Record> {
    match e
    case Write(ns, m, wx) =>
      if Transacted(w.store, ns, Enforced(m), true, wx).1.Done?
      then [RecordFor(ns, Enforced(m), w.store.revision + 1)] else []
    case Notice(lag) =>
      [Record(if lag <= w.store.revision then w.store.revision - lag else 0, Oplog.Notice)]
    case RestoreTo(to, recorded) =>
      if recorded && RestoreRefused(w.store.durable, w.log, 0, to, "why").None?
      then [Record(w.store.durable + 1, Oplog.Restore(to, w.store.durable))] else []
    case _ => []
  }

  lemma WriteAppends(w: World, ns: NsKey, m: Mutation, wx: Weather)
    ensures Wrote(w, ns, m, wx).log == w.log + if Transacted(w.store, ns, m, true, wx).1.Done?
                                               then [RecordFor(ns, m, w.store.revision + 1)] else []
  {
    hide Transacted, RecordFor, Declare;
    NumberAfterWrite(w.store, ns, m, wx);
    assert w.log + [] == w.log;
  }

  lemma StepAppends(w: World, e: Event)
    requires w.store.durable == w.store.revision
    ensures Step(w, e).log == w.log + Appended(w, e)
    ensures forall r :: r in Appended(w, e) && Numbered(r) ==> r.revision == w.store.revision + 1
  {
    hide Transacted, Wrote, Mutate, RestoreRefused, Rebuilt, Highest, Reopened;
    assert w.log + [] == w.log;
    if e.Write? {
      WriteAppends(w, e.ns, Enforced(e.m), e.w);
    }
  }

  lemma NumberAfterWrite(s: StoreState, ns: NsKey, m: Mutation, wx: Weather)
    ensures var (t, out) := Transacted(s, ns, m, true, wx);
            t.revision == if out.Done? || out.ReloadFailed? || out.Unlogged? then s.revision + 1 else s.revision
  {
    hide View, PutBucket, BucketOf, Mutate;
  }

  lemma NumberAfter(w: World, e: Event)
    requires w.store.durable == w.store.revision
    ensures Step(w, e).store.revision ==
            if e.Wipe? then Highest(w.log)
            else if Loses(w, e) || (Accounts(w, e) && !e.Notice?) then w.store.revision + 1
            else w.store.revision
  {
    hide View, Highest, Replay, PutBucket, BucketOf, Mutate, RestoreRefused, Declare, RecordFor, Transacted;
    if e.Write? {
      NumberAfterWrite(w.store, e.ns, Enforced(e.m), e.w);
    }
  }

  /** The store's number is the file's highest, which is what `assess` looks for, exactly
      when the last event to take a number left it in the file. */
  lemma AlignedAfter(w: World, e: Event)
    requires w.store.durable == w.store.revision && Highest(w.log) <= w.store.revision
    ensures Aligned(Step(w, e)) <==> Accounts(w, e) || (Aligned(w) && !Loses(w, e))
  {
    hide Step, Transacted, Mutate, RestoreRefused, Highest;
    StepAppends(w, e);
    NumberAfter(w, e);
    if Appended(w, e) == [] {
      assert w.log + [] == w.log;
    } else {
      HighestOfAppended(w.log, Appended(w, e)[0]);
    }
  }

  /** Everything a run appends. */
  function Since(w: World, es: seq<Event>): seq<Record> {
    if es == [] then [] else Since(w, es[..|es|-1]) + Appended(Exec(w, es[..|es|-1]), es[|es|-1])
  }

  lemma {:induction false} HighestOnlyGrows(log: seq<Record>, more: seq<Record>)
    ensures Highest(log) <= Highest(log + more)
  {
    if more == [] {
      assert log + more == log;
    } else {
      HighestOnlyGrows(log, more[..|more|-1]);
      assert log + more == (log + more[..|more|-1]) + [more[|more|-1]];
      HighestOfAppended(log + more[..|more|-1], more[|more|-1]);
    }
  }

  lemma NoEvent(w: World)
    ensures Exec(w, []) == w && Since(w, []) == []
  {
  }

  lemma OneMoreEvent(w: World, es: seq<Event>)
    requires es != []
    ensures Exec(w, es) == Step(Exec(w, es[..|es|-1]), es[|es|-1])
    ensures Since(w, es) == Since(w, es[..|es|-1]) + Appended(Exec(w, es[..|es|-1]), es[|es|-1])
  {
    hide Step, Appended;
  }

  /** What a run appends is numbered above everything there was. */
  lemma {:induction false} LaterRecordsAreNumberedAbove(w: World, es: seq<Event>)
    requires Sound(w)
    ensures Exec(w, es).log == w.log + Since(w, es)
    ensures forall r :: r in Since(w, es) && Numbered(r) ==> r.revision > Highest(w.log)
  {
    hide *;
    if es == [] {
      NoEvent(w);
      assert w.log + [] == w.log;
    } else {
      var init, e := es[..|es|-1], es[|es|-1];
      var mid := Exec(w, init);
      OneMoreEvent(w, es);
      LaterRecordsAreNumberedAbove(w, init);
      ExecKeepsSound(w, init);
      SoundSaysNumbers(mid);
      StepAppends(mid, e);
      HighestOnlyGrows(w.log, Since(w, init));
      assert w.log + (Since(w, init) + Appended(mid, e)) == (w.log + Since(w, init)) + Appended(mid, e);
    }
  }

  /** A number the store shows is never given to a later record. */
  ghost predicate NumberIsSpent(w: World) {
    forall es: seq<Event>, r: Record ::
      r in Since(w, es) && Numbered(r) ==> r.revision > w.store.revision
  }

  /** That holds exactly of the stores `assess` passes: a number taken by a write that was
      rolled back is given again after a wipe, because the heal counts on from the file. */
  lemma ANumberIsSpentIffAligned(w: World)
    requires Sound(w)
    ensures NumberIsSpent(w) <==> Aligned(w)
  {
    hide Since, Sound, Highest, Step, RecordFor;
    if Aligned(w) {
      forall es: seq<Event>, r: Record | r in Since(w, es) && Numbered(r)
        ensures r.revision > w.store.revision
      {
        LaterRecordsAreNumberedAbove(w, es);
      }
    } else {
      SoundSaysNumbers(w);
      ANumberIsGivenAgain(w);
    }
  }

  lemma ANumberIsGivenAgain(w: World)
    ensures var r := RecordFor(GLOBAL, Publish([]), Highest(w.log) + 1);
            && r in Since(w, [Wipe, Write(GLOBAL, Publish([]), FAIR)])
            && Numbered(r) && r.revision == Highest(w.log) + 1
  {
    hide *;
    var healed, e := Step(w, Wipe), Write(GLOBAL, Publish([]), FAIR);
    var es := [Wipe, e];
    assert es[..1] == [Wipe] && [Wipe][..0] == [];
    NoEvent(w);
    OneMoreEvent(w, [Wipe]);
    OneMoreEvent(w, es);
    AHealCountsOnFromTheFile(w);
    AnEmptyPublishLands(healed);
  }

  lemma AHealCountsOnFromTheFile(w: World)
    ensures Step(w, Wipe).store.revision == Highest(w.log)
  {
  }

  lemma AnEmptyPublishLands(w: World)
    ensures var r := RecordFor(GLOBAL, Publish([]), w.store.revision + 1);
            && Appended(w, Write(GLOBAL, Publish([]), FAIR)) == [r]
            && Numbered(r) && r.revision == w.store.revision + 1
  {
    hide View, PutBucket, PublishBucket;
  }

  // ---------------------------------------------------------------- checkpoints

  lemma RestoreFinds(v: World, n: nat, recorded: bool, said: Disk)
    requires n != 0 ==> Replay(v.log, n) == said
    ensures RestoreRefused(v.store.durable, v.log, 0, n, "why").None? ==>
              Step(v, RestoreTo(n, recorded)).store.disk == said
  {
    hide Replay, Highest, Restores, Ascending, View;
  }

  lemma AlignedMeansHighest(w: World)
    requires Sound(w) && Aligned(w)
    ensures w.store.revision == Highest(w.log)
    ensures forall r :: r in w.log ==> r.revision <= w.store.revision
  {
  }

  /** A revision is a checkpoint: at any later time in any run, the state as of the number
      this store shows is the operator state it has now; and once the store stands above
      it, restoring to it goes ahead and brings just that back. */
  lemma ACheckpointIsForever(w: World, es: seq<Event>, recorded: bool)
    requires Sound(w) && Aligned(w)
    ensures var v, n := Exec(w, es), w.store.revision;
            && AsOf(v.log, n) == Run(w.log)
            && (n != 0 && n < v.store.revision ==>
                  && RestoreRefused(v.store.durable, v.log, 0, n, "why").None?
                  && Step(v, RestoreTo(n, recorded)).store.disk == Run(w.log))
  {
    hide *;
    var v, n := Exec(w, es), w.store.revision;
    AlignedMeansHighest(w);
    LaterRecordsAreNumberedAbove(w, es);
    ExecKeepsSound(w, es);
    SoundSaysNumbers(v);
    HighestOnlyGrows(w.log, Since(w, es));
    ARestoreGoesAheadIff(v, n);
    TheStateAt(w.log, Since(w, es), n);
    RestoreFinds(v, n, recorded, Run(w.log));
  }

  lemma ARestoreIsRecorded(w: World, to: nat)
    requires Sound(w) && RestoreRefused(w.store.durable, w.log, 0, to, "why").None?
    ensures var n, u := w.store.durable, Step(w, RestoreTo(to, true));
            && n != 0 && u.log == w.log + [Record(n + 1, Oplog.Restore(to, n))]
            && Highest(u.log) == n + 1
            && forall r :: r in w.log ==> r.revision <= n
  {
    hide *;
    SoundSaysNumbers(w);
    WhatARestoreAppends(w, to);
    HighestOfAppended(w.log, Record(w.store.durable + 1, Oplog.Restore(to, w.store.durable)));
    ANamedRevisionIsBelow(w.store.durable, w.log, to);
  }

  lemma WhatARestoreAppends(w: World, to: nat)
    requires RestoreRefused(w.store.durable, w.log, 0, to, "why").None?
    ensures Step(w, RestoreTo(to, true)).log ==
            w.log + [Record(w.store.durable + 1, Oplog.Restore(to, w.store.durable))]
  {
    hide Rebuilt, RestoreRefused;
  }

  /** In any run a restore goes ahead for exactly the numbers the file reaches, below the
      one the store stands at. */
  lemma ARestoreGoesAheadIff(w: World, to: nat)
    requires Sound(w)
    ensures RestoreRefused(w.store.durable, w.log, 0, to, "why").None? <==>
            0 < to <= Highest(w.log) && to < w.store.revision
  {
    SoundSaysNumbers(w);
    WellFormedRestoresAscend(w.log);
    hide Sound, WellFormed, Restores, Ascending;
    assert w.log == [] ==> Highest(w.log) == 0;
  }

  /** A store lost after a recorded restore heals to just what the restore left, its number
      included, even where the store had run ahead of the file before. */
  lemma AHealAfterARestore(w: World, to: nat)
    requires Sound(w) && RestoreRefused(w.store.durable, w.log, 0, to, "why").None?
    ensures var u := Step(w, RestoreTo(to, true));
            Step(u, Wipe).store == u.store
  {
    hide *;
    var u, was := Step(w, RestoreTo(to, true)), w.store.durable;
    ARestoreIsRecorded(w, to);
    SoundSaysNumbers(w);
    WhatARestoreBuilds(w, to);
    WhatAHealBuilds(u);
    RestoreLeavesWhatReplayFinds(w.log, to, was + 1);
    SameReplaySameStore(w.log, to, u.log, 0, was + 1);
  }

  lemma WhatAHealBuilds(w: World)
    ensures Step(w, Wipe).store == Rebuilt(w.log, 0, Highest(w.log))
  {
    hide Rebuilt, Highest;
  }

  lemma WhatARestoreBuilds(w: World, to: nat)
    requires RestoreRefused(w.store.durable, w.log, 0, to, "why").None?
    ensures to != 0 && Step(w, RestoreTo(to, true)).store == Rebuilt(w.log, to, w.store.durable + 1)
  {
    hide Rebuilt, Highest, Restores, Ascending;
  }

  lemma SameReplaySameStore(a: seq<Record>, to: nat, b: seq<Record>, upTo: nat, revision: nat)
    requires Replay(a, to) == Replay(b, upTo)
    ensures Rebuilt(a, to, revision) == Rebuilt(b, upTo, revision)
  {
    hide Replay, View;
  }

  /** The way back from a recorded restore is the number the store stood at, aligned or
      not, whatever ran in between: more flips, more restores, a wipe. It is never
      refused, and it brings back exactly the operator state there was. */
  lemma TheWayBackFromARestore(w: World, to: nat, es: seq<Event>, recorded: bool)
    requires Sound(w) && RestoreRefused(w.store.durable, w.log, 0, to, "why").None?
    ensures var v, n := Exec(Step(w, RestoreTo(to, true)), es), w.store.durable;
            && AsOf(v.log, n) == Run(w.log)
            && RestoreRefused(v.store.durable, v.log, 0, n, "why").None?
            && Step(v, RestoreTo(n, recorded)).store.disk == Run(w.log)
  {
    hide *;
    var e, n := RestoreTo(to, true), w.store.durable;
    var r, u := Record(n + 1, Oplog.Restore(to, n)), Step(w, e);
    ARestoreIsRecorded(w, to);
    StepKeepsSound(w, e);
    var v := Exec(u, es);
    LaterRecordsAreNumberedAbove(u, es);
    ExecKeepsSound(u, es);
    SoundSaysNumbers(v);
    assert v.log == w.log + ([r] + Since(u, es));
    HighestOnlyGrows(u.log, Since(u, es));
    ARestoreGoesAheadIff(v, n);
    TheStateAt(w.log, [r] + Since(u, es), n);
    RestoreFinds(v, n, recorded, Run(w.log));
  }

  // ---------------------------------------------------------------- equal numbers, equal snapshots

  lemma TransactedWithoutANumber(s: StoreState, ns: NsKey, m: Mutation, wx: Weather)
    ensures var t := Transacted(s, ns, m, true, wx).0;
            && t.revision >= s.revision
            && (s.durable == s.revision ==> t.durable == t.revision)
            && (t.revision == s.revision ==> t.disk == s.disk && t.snap == s.snap)
  {
    hide View, PutBucket, BucketOf, Mutate;
  }

  lemma StepWithinAGeneration(w: World, e: Event)
    requires w.store.durable == w.store.revision
    ensures var v := Step(w, e);
            && v.store.durable == v.store.revision && v.generation >= w.generation
            && (v.generation == w.generation ==>
                  && v.store.revision >= w.store.revision
                  && (v.store.revision == w.store.revision ==>
                        v.store.disk == w.store.disk && (v.store.snap == w.store.snap || v.store.snap == View(w.store.disk))))
  {
    hide View, PutBucket, BucketOf, Mutate, Transacted, Replay, Highest, RestoreRefused, Declare, RecordFor;
    if e.Write? {
      TransactedWithoutANumber(w.store, e.ns, Enforced(e.m), e.w);
    }
  }

  lemma {:induction false} RunWithinAGeneration(w: World, es: seq<Event>)
    requires w.store.durable == w.store.revision
    ensures var v := Exec(w, es);
            && v.store.durable == v.store.revision && v.generation >= w.generation
            && (v.generation == w.generation ==>
                  && v.store.revision >= w.store.revision
                  && (v.store.revision == w.store.revision ==>
                        v.store.disk == w.store.disk && (v.store.snap == w.store.snap || v.store.snap == View(w.store.disk))))
  {
    hide *;
    if es == [] {
      NoEvent(w);
    } else {
      OneMoreEvent(w, es);
      RunWithinAGeneration(w, es[..|es|-1]);
      StepWithinAGeneration(Exec(w, es[..|es|-1]), es[|es|-1]);
    }
  }

  /** A caller that holds this store's number is told `unchanged` only while what it
      holds is what readers are served. */
  ghost predicate UnchangedIsTrue(w: World) {
    forall es: seq<Event> ::
      var v := Exec(w, es);
      v.generation == w.generation && v.store.revision == w.store.revision ==> v.store.snap == w.store.snap
  }

  /** Within one generation equal numbers mean equal snapshots, rolled-back, refused and
      idle writes between them included, exactly when readers are being served the disk.
      After a commit whose reload failed they are not, and a restart changes the answer
      under the same number. */
  lemma UnchangedIsTrueIffReadersSeeTheDisk(w: World)
    requires w.store.durable == w.store.revision
    ensures UnchangedIsTrue(w) <==> w.store.snap == View(w.store.disk)
  {
    if w.store.snap == View(w.store.disk) {
      forall es: seq<Event>
        ensures var v := Exec(w, es);
                v.generation == w.generation && v.store.revision == w.store.revision ==> v.store.snap == w.store.snap
      {
        RunWithinAGeneration(w, es);
      }
    } else {
      NoEvent(w);
      OneMoreEvent(w, [Reopen]);
      var v := Exec(w, [Reopen]);
      assert v == Step(w, Reopen);
      assert v.store.snap == View(w.store.disk) && v.store.revision == w.store.revision;
    }
  }

  // ---------------------------------------------------------------- both failures happen

  const ROLLED_BACK := Weather(true, true, false, true, true)
  const UNSEEN := Weather(true, false, true, true, true)
  const TURN_ON := Flip("gpu", BoolValue(true), true)
  const TURNED_ON: Bucket := map["gpu" := Flag("gpu", BoolValue(true), "", false)]

  /** In fair weather a write that is let through is done. */
  lemma FairWriteLands(s: StoreState, ns: NsKey, m: Mutation, b: Bucket)
    requires Mutate(BucketOf(s.disk, Render(ns)), m) == Changed(Some(b))
    ensures Transacted(s, ns, m, true, FAIR) ==
            (Published(Committed(s, Render(ns), Some(b))).(failed := false), Done)
  {
    hide View, PutBucket, BucketOf, Mutate;
  }

  lemma FirstFlip(s: StoreState)
    requires BucketOf(s.disk, Render(NS)).None?
    ensures Enforced(TURN_ON) == TURN_ON
    ensures Mutate(BucketOf(s.disk, Render(NS)), TURN_ON) == Changed(Some(TURNED_ON))
  {
    assert FlipBucket(None, "gpu", BoolValue(true)) == TURNED_ON;
  }

  lemma AFirstBootIsEmpty()
    ensures var w := Start([]);
            && w.log == [] && w.declared == map[] && w.store == Rebuilt([], 0, 0) == StoreState(map[], 0, map[], 0, false)
            && Step(w, Wipe).store == w.store
  {
    assert Replay([], 0) == map[];
  }

  /** A flip whose record fails is rolled back, and readers are told number 1. The store
      is lost and healed, and the next flip is number 1 too. */
  lemma ANumberIsGivenTwice()
    ensures var es := [Write(NS, TURN_ON, ROLLED_BACK), Wipe, Write(NS, TURN_ON, FAIR)];
            var early, late := Exec(Start([]), es[..1]), Exec(Start([]), es);
            && early.store.revision == late.store.revision == 1
            && NS !in early.store.snap && early.log == []
            && NS in late.store.snap && late.log == [RecordFor(NS, TURN_ON, 1)]
  {
    hide *;
    var e0, e2 := Write(NS, TURN_ON, ROLLED_BACK), Write(NS, TURN_ON, FAIR);
    var es := [e0, Wipe, e2];
    assert es[..1] == [e0] && es[..2] == [e0, Wipe] && [e0, Wipe][..1] == [e0] && [e0][..0] == [];
    NoEvent(Start([]));
    OneMoreEvent(Start([]), [e0]);
    OneMoreEvent(Start([]), [e0, Wipe]);
    OneMoreEvent(Start([]), es);
    AFirstBootIsEmpty();
    TheFlipRolledBack(Start([]));
    AHealOfNothing(Step(Start([]), e0));
    TheFlipDone(Step(Step(Start([]), e0), Wipe));
  }

  lemma TheFlipRolledBack(w: World)
    requires w.log == [] && w.store == StoreState(map[], 0, map[], 0, false)
    ensures var v := Step(w, Write(NS, TURN_ON, ROLLED_BACK));
            v.store.revision == 1 && v.log == [] && NS !in v.store.snap
  {
    var n := Render(NS);
    FirstFlip(w.store);
    UndoIsExact(w.store.disk, n, Some(TURNED_ON));
    assert View(map[]) == map[];
    hide View, PutBucket, BucketOf, Mutate;
  }

  lemma AHealOfNothing(w: World)
    requires w.log == []
    ensures Step(w, Wipe).log == [] && Step(w, Wipe).store == Rebuilt([], 0, 0)
  {
    hide Rebuilt;
  }

  lemma TheFlipDone(w: World)
    requires w.log == [] && w.store == StoreState(map[], 0, map[], 0, false)
    ensures var v := Step(w, Write(NS, TURN_ON, FAIR));
            && v.store.revision == 1 && v.log == [RecordFor(NS, TURN_ON, 1)]
            && NS in v.store.snap && v.store.snap[NS] == TURNED_ON && v.declared == w.declared
  {
    var n := Render(NS);
    FirstFlip(w.store);
    FairWriteLands(w.store, NS, TURN_ON, TURNED_ON);
    ViewServesTheDisk(PutBucket(w.store.disk, n, Some(TURNED_ON)), NS);
    hide View, Mutate, Transacted, RecordFor;
  }

  /** A flip of a flag no deploy ever declared is done, recorded and served. */
  lemma AnUndeclaredFlagIsCreated()
    ensures var v := Step(Start([]), Write(NS, TURN_ON, FAIR));
            && v.declared == map[] && v.log == [RecordFor(NS, TURN_ON, 1)]
            && NS in v.store.snap && v.store.snap[NS] == TURNED_ON
  {
    hide *;
    AFirstBootIsEmpty();
    TheFlipDone(Start([]));
  }

  /** A flip commits and its reload fails; a restart reads the disk. The number is 1 before
      and after, in one generation, and the snapshots differ. */
  lemma OneNumberTwoSnapshots()
    ensures var es := [Write(NS, TURN_ON, UNSEEN), Reopen];
            var early, late := Exec(Start([]), es[..1]), Exec(Start([]), es);
            && early.store.revision == late.store.revision == 1 && early.generation == late.generation
            && NS !in early.store.snap
            && NS in late.store.snap && late.store.snap[NS] == TURNED_ON
  {
    hide *;
    var e0 := Write(NS, TURN_ON, UNSEEN);
    var es := [e0, Reopen];
    assert es[..1] == [e0] && [e0][..0] == [];
    NoEvent(Start([]));
    OneMoreEvent(Start([]), [e0]);
    OneMoreEvent(Start([]), es);
    AFirstBootIsEmpty();
    TheFlipUnseen(Start([]));
  }

  lemma TheFlipUnseen(w: World)
    requires w.log == [] && w.store == StoreState(map[], 0, map[], 0, false)
    ensures var early, late := Step(w, Write(NS, TURN_ON, UNSEEN)), Step(Step(w, Write(NS, TURN_ON, UNSEEN)), Reopen);
            && early.store.revision == late.store.revision == 1 && early.generation == late.generation
            && NS !in early.store.snap
            && NS in late.store.snap && late.store.snap[NS] == TURNED_ON
  {
    FirstFlip(w.store);
    ViewServesTheDisk(PutBucket(w.store.disk, Render(NS), Some(TURNED_ON)), NS);
    hide View, Mutate;
  }

  // ---------------------------------------------------------------- kinds

  /** The event neither rebuilds the store nor deletes the namespace. */
  predicate Keeps(e: Event, n: Name) {
    match e
    case Write(ns, m, _) => !(m.Retire? && Render(ns) == n)
    case CrashBeforeRecord(ns, m) => !(m.Retire? && Render(ns) == n)
    case Wipe => false
    case RestoreTo(_, _) => false
    case _ => true
  }

  predicate HoldsKind(disk: Disk, n: Name, k: string, v: Value) {
    !v.Unset? && At(disk, n, k).Some? && SameKind(At(disk, n, k).value.value, v)
  }

  lemma TransactedDisk(s: StoreState, ns: NsKey, m: Mutation, wx: Weather)
    ensures var t, was := Transacted(s, ns, m, true, wx).0, BucketOf(s.disk, Render(ns));
            || t.disk == s.disk
            || (Mutate(was, m).Changed? && t.disk == PutBucket(s.disk, Render(ns), Mutate(was, m).bucket))
  {
    hide View, PutBucket, BucketOf, Mutate;
    var was := BucketOf(s.disk, Render(ns));
    if Mutate(was, m).Changed? {
      UndoIsExact(s.disk, Render(ns), Mutate(was, m).bucket);
    }
  }

  lemma MutationKeepsKind(disk: Disk, ns: NsKey, m: Mutation, n: Name, k: string, v: Value)
    requires HoldsKind(disk, n, k, v) && (m.Flip? ==> m.enforce) && !(m.Retire? && Render(ns) == n)
    requires Mutate(BucketOf(disk, Render(ns)), m).Changed?
    ensures HoldsKind(PutBucket(disk, Render(ns), Mutate(BucketOf(disk, Render(ns)), m).bucket), n, k, v)
  {
    var b := BucketOf(disk, Render(ns));
    if m.Publish? && Render(ns) == n {
      PublishMeans(Opened(b), m.flags, k);
    }
    if m.Flip? && Render(ns) == n {
      FlipIsLetThroughIffItObeys(b, m.key, m.value);
    }
  }

  lemma StepKeepsKind(w: World, e: Event, n: Name, k: string, v: Value)
    requires HoldsKind(w.store.disk, n, k, v) && Keeps(e, n)
    ensures HoldsKind(Step(w, e).store.disk, n, k, v)
  {
    hide View, PutBucket, BucketOf, Mutate, Transacted, HoldsKind, Declare, RecordFor;
    if e.Write? || e.CrashBeforeRecord? {
      if e.Write? {
        TransactedDisk(w.store, e.ns, Enforced(e.m), e.w);
      }
      if Mutate(BucketOf(w.store.disk, Render(e.ns)), Enforced(e.m)).Changed? {
        MutationKeepsKind(w.store.disk, e.ns, Enforced(e.m), n, k, v);
      }
    }
  }

  /** A flag that has a value keeps it, or another of its kind, through every flip, deploy,
      failure and crash, until its namespace is deleted or the store is rebuilt. */
  lemma {:induction false} AKindIsKept(w: World, es: seq<Event>, n: Name, k: string, v: Value)
    requires HoldsKind(w.store.disk, n, k, v)
    requires forall e :: e in es ==> Keeps(e, n)
    ensures HoldsKind(Exec(w, es).store.disk, n, k, v)
  {
    hide *;
    if es == [] {
      NoEvent(w);
    } else {
      OneMoreEvent(w, es);
      assert es[|es|-1] in es;
      AKindIsKept(w, es[..|es|-1], n, k, v);
      StepKeepsKind(Exec(w, es[..|es|-1]), es[|es|-1], n, k, v);
    }
  }

  // ---------------------------------------------------------------- what a second boot serves

  /** A boot heals only a store it minted, and a heal that fails has minted already. On a
      volume that holds, the first boot serves exactly when the file's restores ascend,
      every line is a record, every record in force decodes and the numbering commits; and
      the boot after it
      serves in any case. What that one lacks is every record in force that does not
      decode, or, when the restores are out of order, all of them; and it counts on from
      the records it did apply, whatever numbers the file holds. */
  lemma ARefusedStoreIsServedByTheNextBoot(log: seq<Record>, bad: nat, generation: nat, next: nat, wx: Forecast,
                                           numbered: bool)
    requires forall i :: wx(i) == FAIR
    ensures var (s, g, serving) := Booted(None, log, bad, generation, wx, numbered);
            var (t, h, again) := Booted(Some(OnVolume(s, g)), log, bad, next, wx, numbered);
            var picked := Pick(log, InForce(log, 0), None);
            && (serving <==> numbered && Ascending(Restores(log)) && bad == 0 && forall r :: r in picked ==> Decodes(r))
            && again && h == g && t.snap == View(t.disk) && t.durable == t.revision
            && t.disk == (if Ascending(Restores(log)) then Replay(log, 0) else map[])
            && t.revision == if serving then Highest(log)
                             else if Ascending(Restores(log)) then |Decodable(picked)| else 0
  {
    FairReplaySkipsOnlyUndecodable(EMPTY, log, InForce(log, 0), None, wx);
    FairReplayAppliesWhatDecodes(EMPTY, log, InForce(log, 0), None, wx);
    hide ReplayFold, Decodable, Pick, InForce, ApplyAll, Highest, Restores, Ascending, View;
  }

  const GOOD := Record(1, SetFlag(NS, "gpu", Typed(Some(BoolValue(true)))))
  const UNREADABLE := Record(2, SetFlag(NS, "cpu", Typed(None)))

  /** One value that does not decode: the first boot refuses, the second serves half the
      record, and counts from the flips it replayed, so its next write takes a number the
      file already holds. */
  lemma AHalfRestoredStoreIsServed(wx: Forecast, generation: nat)
    requires forall i :: wx(i) == FAIR
    ensures var (s, g, serving) := Booted(None, [GOOD, UNREADABLE], 0, generation, wx, true);
            var (t, h, again) := Booted(Some(OnVolume(s, g)), [GOOD, UNREADABLE], 0, generation + 1, wx, true);
            && !serving && again
            && At(t.disk, Render(NS), "cpu").None?
            && t.revision == 1 < Highest([GOOD, UNREADABLE])
  {
    hide View;
    var log := [GOOD, UNREADABLE];
    assert log[..1] == [GOOD] && [GOOD][..0] == [];
    assert log == [GOOD] + [UNREADABLE];
    Snoc([GOOD], UNREADABLE);
    assert Restores([GOOD]) == [];
    assert Restores(log) == Restores([GOOD]) && Below(Restores(log), None) == [];
    assert InForce(log, 0) == [];
    assert wx(0) == FAIR && wx(1) == FAIR;
    var p := ReplayFold(EMPTY, [GOOD], [], None, wx);
    assert p == Counted(ReplayFold(EMPTY, [], [], None, wx), ReplayOne(EMPTY, GOOD, wx(0)));
    assert p.skipped == 0 && p.state.durable == 1;
    assert ReplayFold(EMPTY, log, [], None, wx) == p.(skipped := 1);
    assert Highest([GOOD]) == 1 && Highest(log) == 2;
  }
}
