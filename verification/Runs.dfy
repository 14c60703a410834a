/**
 flipr over whole runs: flips, deploys, retirements, writes the volume or the sink
 refused, crashes, wipes and heals, and the operator's restores, in any order, with
 what every run keeps.
 */
module Runs {
  import opened Flags
  import opened Oplog
  import opened TimeTravel
  import opened Store
  import opened Recovery

  // ---------------------------------------------------------------- the machine

  /** flipr between two events. `declared` and `astray` are bookkeeping no code holds: the
      flags as they would be had only deploys happened since the store was built, and the
      namespaces something unrecorded may have touched since. */
  datatype World = World(store: StoreState, log: seq<Record>, generation: nat, declared: Disk, astray: set<Name>)

  /** `Notice` is a Lock or Unlock record, stamped with a number the store already had.
      `CrashBeforeRecord` is a process killed between a commit and its record.
      `Wipe` is the store file lost and the boot that heals a new one.
      `RestoreTo` is the operator's restore, its record written or not. */
  datatype Event =
    | Write(ns: NsKey, m: Mutation, w: Weather)
    | Notice(lag: nat)
    | Reopen
    | CrashBeforeRecord(ns: NsKey, m: Mutation)
    | Wipe
    | RestoreTo(to: nat, recorded: bool)

  /** New flips always enforce the rules. */
  function Enforced(m: Mutation): Mutation {
    if m.Flip? then m.(enforce := true) else m
  }

  function Declare(declared: Disk, ns: NsKey, m: Mutation): Disk {
    match m
    case Flip(_, _, _) => declared
    case Publish(flags) =>
      PutBucket(declared, Render(ns), Some(PublishBucket(Opened(BucketOf(declared, Render(ns))), flags)))
    case Retire => PutBucket(declared, Render(ns), None)
  }

  function Reopened(s: StoreState): StoreState {
    StoreState(s.disk, s.durable, View(s.disk), s.durable, false)
  }

  function Wrote(w: World, ns: NsKey, m: Mutation, wx: Weather): World {
    var (s, out) := Transacted(w.store, ns, m, true, wx);
    if out.Done? then
      World(s, w.log + [RecordFor(ns, m, s.revision)], w.generation, Declare(w.declared, ns, m),
            if m.Retire? then w.astray - {Render(ns)} else w.astray)
    else w.(store := s, astray := if Unrepaired(out) then w.astray + {Render(ns)} else w.astray)
  }

  function Crashed(w: World, ns: NsKey, m: Mutation): World {
    var changed := Mutate(BucketOf(w.store.disk, Render(ns)), m);
    if changed.Turned? then w.(store := Reopened(w.store))
    else w.(store := Reopened(Committed(w.store, Render(ns), changed.bucket)), astray := w.astray + {Render(ns)})
  }

  /** A restore whose record could not be written leaves its rebuilt store anyway. */
  function AfterRestore(log: seq<Record>, to: nat, was: nat, generation: nat, recorded: bool): World {
    World(Rebuilt(log, to, was + 1),
          if recorded then log + [Record(was + 1, Oplog.Restore(to, was))] else log,
          generation, map[],
          if recorded then {} else Differ(Replay(log, to), Run(log)))
  }

  function RestoredTo(w: World, to: nat, recorded: bool): World {
    if RestoreRefused(w.store.durable, w.log, 0, to, "why").Some? then w.(store := Reopened(w.store))
    else AfterRestore(w.log, to, w.store.durable, w.generation + 1, recorded)
  }

  function Step(w: World, e: Event): World {
    match e
    case Write(ns, m, wx) => Wrote(w, ns, Enforced(m), wx)
    case Notice(lag) =>
      var stamp := if lag <= w.store.revision then w.store.revision - lag else 0;
      w.(log := w.log + [Record(stamp, Oplog.Notice)])
    case Reopen => w.(store := Reopened(w.store))
    case CrashBeforeRecord(ns, m) => Crashed(w, ns, Enforced(m))
    case Wipe => World(Rebuilt(w.log, 0, Highest(w.log)), w.log, w.generation + 1, map[], {})
    case RestoreTo(to, recorded) => RestoredTo(w, to, recorded)
  }

  function Exec(w: World, es: seq<Event>): World {
    if es == [] then w else Step(Exec(w, es[..|es|-1]), es[|es|-1])
  }

  /** Logs from before records were stamped. */
  predicate Legacy(log: seq<Record>) {
    forall r :: r in log ==> r.revision == 0 && !r.op.Restore? && Decodes(r)
  }

  /** A flipr as first booted, on no file or on one from before stamps. */
  function Start(legacy: seq<Record>): World {
    World(Rebuilt(legacy, 0, 0), legacy, 0, map[], {})
  }

  // ---------------------------------------------------------------- the invariant

  function OverlayFlag(d: Bucket, o: Bucket, k: string): Flag
    requires k in d || k in o
  {
    if k !in d then o[k] else if k in o then d[k].(value := o[k].value) else d[k]
  }

  /** Declarations with the operator's values over them. */
  function OverlayBucket(d: Bucket, o: Bucket): Bucket {
    map k | k in d.Keys + o.Keys :: OverlayFlag(d, o, k)
  }

  /** The overlay of one namespace, held by either store, both or neither. */
  function Over(d: Option<Bucket>, o: Option<Bucket>): Option<Bucket> {
    if d.Some? || o.Some? then Some(OverlayBucket(Opened(d), Opened(o))) else None
  }

  function Overlay(d: Disk, o: Disk): Disk {
    map n | n in d.Keys + o.Keys :: OverlayBucket(Opened(BucketOf(d, n)), Opened(BucketOf(o, n)))
  }

  /** What a namespace should hold: its declarations under what the file says. */
  function Owed(w: World, n: Name): Option<Bucket> { BucketOf(Overlay(w.declared, Run(w.log)), n) }

  predicate AsTheFileSays(w: World, n: Name) {
    BucketOf(w.store.disk, n) == Owed(w, n) && Seen(w.store.snap, n) == BucketOf(w.store.disk, n)
  }

  predicate InOrder(w: World) {
    && WellFormed(w.log)
    && (forall r :: r in w.log ==> Decodes(r))
    && Highest(w.log) <= w.store.revision
    && w.store.durable == w.store.revision
  }

  /** What every run keeps: the file's order, the numbers, and every namespace nothing
      unrecorded has touched, on disk and as served. */
  ghost predicate Sound(w: World) {
    && InOrder(w)
    && WellNamed(w.store.snap)
    && forall n: Name :: n !in w.astray ==> AsTheFileSays(w, n)
  }

  // ---------------------------------------------------------------- overlays follow writes

  lemma OverlayFollowsFlip(d: Bucket, o: Option<Bucket>, key: string, v: Value)
    ensures OverlayBucket(d, FlipBucket(o, key, v)) == FlipBucket(Some(OverlayBucket(d, Opened(o))), key, v)
  {
    var x := OverlayBucket(d, FlipBucket(o, key, v));
    var y := FlipBucket(Some(OverlayBucket(d, Opened(o))), key, v);
    assert x.Keys == y.Keys;
  }

  lemma {:induction false} OverlayFollowsPublish(d: Bucket, o: Bucket, flags: seq<Flag>)
    ensures OverlayBucket(PublishBucket(d, flags), o) == PublishBucket(OverlayBucket(d, o), flags)
  {
    if flags == [] {
    } else {
      var init, f := flags[..|flags|-1], flags[|flags|-1];
      OverlayFollowsPublish(d, o, init);
      OverlayFollowsPublishOne(PublishBucket(d, init), o, f);
    }
  }

  lemma OverlayFollowsPublishOne(d: Bucket, o: Bucket, f: Flag)
    ensures OverlayBucket(PublishOne(d, f), o) == PublishOne(OverlayBucket(d, o), f)
  {
    var x, y := OverlayBucket(PublishOne(d, f), o), PublishOne(OverlayBucket(d, o), f);
    assert x.Keys == y.Keys;
  }

  lemma OverlayOf(d: Disk, o: Disk, n: Name)
    ensures BucketOf(Overlay(d, o), n) == Over(BucketOf(d, n), BucketOf(o, n))
  {
  }

  lemma OverlayPut(d: Disk, o: Disk, n: Name, bd: Option<Bucket>, bo: Option<Bucket>)
    ensures Overlay(PutBucket(d, n, bd), PutBucket(o, n, bo)) ==
            PutBucket(Overlay(d, o), n, Over(bd, bo))
  {
    var x := Overlay(PutBucket(d, n, bd), PutBucket(o, n, bo));
    var y := PutBucket(Overlay(d, o), n, Over(bd, bo));
    forall m: Name ensures BucketOf(x, m) == BucketOf(y, m) {
      OverlayOf(PutBucket(d, n, bd), PutBucket(o, n, bo), m);
      OverlayOf(d, o, m);
      if m != n {
        assert BucketOf(PutBucket(d, n, bd), m) == BucketOf(d, m);
        assert BucketOf(PutBucket(o, n, bo), m) == BucketOf(o, m);
      }
    }
    SameBuckets(x, y);
  }

  lemma OverlayNothing(o: Disk)
    ensures Overlay(map[], o) == o
  {
    forall n: Name ensures BucketOf(Overlay(map[], o), n) == BucketOf(o, n) {
      OverlayOf(map[], o, n);
      if n in o {
        assert OverlayBucket(map[], o[n]).Keys == o[n].Keys;
        assert OverlayBucket(map[], o[n]) == o[n];
      }
    }
    SameBuckets(Overlay(map[], o), o);
  }

  /** A recorded write moves the live store, the declarations and the operator's store
      together: each alone knows its part, and their overlay is the write's result. */
  lemma OverlayFollowsWrite(d: Disk, o: Disk, ns: NsKey, m: Mutation, b: Option<Bucket>, revision: nat)
    requires Mutate(BucketOf(Overlay(d, o), Render(ns)), m) == Changed(b)
    ensures Overlay(Declare(d, ns, m), Apply(o, RecordFor(ns, m, revision))) == PutBucket(Overlay(d, o), Render(ns), b)
  {
    var n := Render(ns);
    var bd, bo := BucketOf(d, n), BucketOf(o, n);
    OverlayOf(d, o, n);
    assert OverlayBucket(map[], map[]) == map[];
    match m
    case Flip(key, v, _) =>
      OverlayFollowsFlip(Opened(bd), bo, key, v);
      OverlayPut(d, o, n, bd, Some(FlipBucket(bo, key, v)));
    case Publish(flags) =>
      OverlayFollowsPublish(Opened(bd), Opened(bo), flags);
      OverlayPut(d, o, n, Some(PublishBucket(Opened(bd), flags)), bo);
    case Retire =>
      OverlayPut(d, o, n, None, None);
  }

  // ---------------------------------------------------------------- every event keeps it

  lemma AppendedKeepsWellFormed(log: seq<Record>, r: Record)
    requires WellFormed(log) && Follows(log, r)
    ensures WellFormed(log + [r])
  {
    Snoc(log, r);
  }

  lemma HighestOfAppended(log: seq<Record>, r: Record)
    ensures Highest(log + [r]) == if r.revision > Highest(log) then r.revision else Highest(log)
  {
    Snoc(log, r);
  }

  lemma SoundSaysNumbers(w: World)
    requires Sound(w)
    ensures WellFormed(w.log)
    ensures w.store.durable == w.store.revision && Highest(w.log) <= w.store.revision
    ensures forall r :: r in w.log ==> r.revision <= w.store.revision && Decodes(r)
  {
  }

  lemma InOrderSaysNumbers(w: World)
    requires InOrder(w)
    ensures w.store.durable == w.store.revision && Highest(w.log) <= w.store.revision
  {
  }

  lemma SoundSaysNamespace(w: World, n: Name)
    requires Sound(w)
    ensures InOrder(w) && WellNamed(w.store.snap)
    ensures n !in w.astray ==>
              && BucketOf(w.store.disk, n) == Owed(w, n)
              && Seen(w.store.snap, n) == BucketOf(w.store.disk, n)
  {
    hide InOrder, WellNamed, Seen, BucketOf, Owed;
    assert n !in w.astray ==> AsTheFileSays(w, n);
  }

  lemma NumbersSayInOrder(w: World)
    requires WellFormed(w.log) && (forall r :: r in w.log ==> Decodes(r))
    requires Highest(w.log) <= w.store.revision == w.store.durable
    ensures InOrder(w)
  {
  }

  /** A store with nothing astray is the overlay, and readers see it whole. */
  lemma NothingAstray(w: World)
    requires Sound(w) && w.astray == {}
    ensures w.store.disk == Overlay(w.declared, Run(w.log)) && w.store.snap == View(w.store.disk)
  {
    hide WellFormed, Highest, Run, Overlay, View, WellNamed;
    forall n: Name
      ensures BucketOf(w.store.disk, n) == BucketOf(Overlay(w.declared, Run(w.log)), n)
      ensures Seen(w.store.snap, n) == BucketOf(w.store.disk, n)
    {
      assert AsTheFileSays(w, n);
    }
    SameBuckets(w.store.disk, Overlay(w.declared, Run(w.log)));
    SeenEverywhere(w.store.snap, w.store.disk);
  }

  /** A store built from a log is, in every namespace where the log says the same. */
  lemma BuiltIsAsTheFileSays(w: World, n: Name)
    requires w.declared == map[] && w.store.snap == View(w.store.disk)
    requires BucketOf(w.store.disk, n) == BucketOf(Run(w.log), n)
    ensures AsTheFileSays(w, n) && WellNamed(w.store.snap)
  {
    hide Run, Overlay;
    OverlayNothing(Run(w.log));
    SeenInView(w.store.disk, n);
  }

  // A write, by what it does to its own namespace, to the others, and to the numbers.

  lemma TransactedNumbers(s: StoreState, ns: NsKey, m: Mutation, wx: Weather)
    requires s.durable == s.revision
    ensures var (t, out) := Transacted(s, ns, m, true, wx);
            && t.durable == t.revision
            && t.revision == if out.Done? || out.ReloadFailed? || out.Unlogged? then s.revision + 1 else s.revision
  {
    hide View, PutBucket, BucketOf, Mutate;
  }

  /** Any write leaves every other namespace alone, on disk and for its readers. */
  lemma TransactedElsewhere(s: StoreState, ns: NsKey, m: Mutation, wx: Weather, n: Name)
    requires WellNamed(s.snap) && n != Render(ns)
    ensures var t := Transacted(s, ns, m, true, wx).0;
            && WellNamed(t.snap) && BucketOf(t.disk, n) == BucketOf(s.disk, n)
            && (Seen(s.snap, n) == BucketOf(s.disk, n) ==> Seen(t.snap, n) == BucketOf(t.disk, n))
  {
    hide View, PutBucket, BucketOf, Mutate, WellNamed, Seen, Parse;
    var prior := BucketOf(s.disk, Render(ns));
    if Mutate(prior, m).Changed? {
      var d := PutBucket(s.disk, Render(ns), Mutate(prior, m).bucket);
      SeenInView(d, n);
      SeenInView(PutBucket(d, Render(ns), prior), n);
    }
  }

  /** At its own, a write is done, or reported as unrepaired, or leaves it alone. */
  lemma TransactedHere(s: StoreState, ns: NsKey, m: Mutation, wx: Weather)
    requires WellNamed(s.snap)
    ensures var (t, out), n := Transacted(s, ns, m, true, wx), Render(ns);
            && WellNamed(t.snap)
            && (out.Done? ==> Mutate(BucketOf(s.disk, n), m) == Changed(BucketOf(t.disk, n))
                              && Seen(t.snap, n) == BucketOf(t.disk, n))
            && (!out.Done? && !Unrepaired(out) && Seen(s.snap, n) == BucketOf(s.disk, n) ==>
                  BucketOf(t.disk, n) == BucketOf(s.disk, n) && Seen(t.snap, n) == BucketOf(t.disk, n))
  {
    hide View, PutBucket, BucketOf, Mutate, WellNamed, Seen, Parse;
    var prior := BucketOf(s.disk, Render(ns));
    if Mutate(prior, m).Changed? {
      var d := PutBucket(s.disk, Render(ns), Mutate(prior, m).bucket);
      SeenInView(d, Render(ns));
      SeenInView(PutBucket(d, Render(ns), prior), Render(ns));
    }
  }

  lemma HowAWriteGoes(w: World, ns: NsKey, m: Mutation, wx: Weather)
    ensures var (s, out), v := Transacted(w.store, ns, m, true, wx), Wrote(w, ns, m, wx);
            && v.store == s && v.generation == w.generation
            && (out.Done? ==>
                  && v.log == w.log + [RecordFor(ns, m, s.revision)] && v.declared == Declare(w.declared, ns, m)
                  && v.astray == if m.Retire? then w.astray - {Render(ns)} else w.astray)
            && (!out.Done? ==>
                  && v.log == w.log && v.declared == w.declared
                  && v.astray == if Unrepaired(out) then w.astray + {Render(ns)} else w.astray)
  {
    hide Transacted, RecordFor, Declare;
  }

  lemma RecordsFollow(w: World, ns: NsKey, m: Mutation, revision: nat)
    requires InOrder(w) && revision == w.store.revision + 1
    ensures var r := RecordFor(ns, m, revision);
            Follows(w.log, r) && Decodes(r) && !r.op.Restore? && Run(w.log + [r]) == Apply(Run(w.log), r)
  {
    Snoc(w.log, RecordFor(ns, m, revision));
  }

  lemma WriteKeepsOrder(w: World, ns: NsKey, m: Mutation, wx: Weather)
    requires InOrder(w)
    ensures InOrder(Wrote(w, ns, m, wx))
  {
    var v, r := Wrote(w, ns, m, wx), RecordFor(ns, m, w.store.revision + 1);
    HowAWriteGoes(w, ns, m, wx);
    TransactedNumbers(w.store, ns, m, wx);
    RecordsFollow(w, ns, m, w.store.revision + 1);
    hide Transacted, Wrote, WellFormed, Highest, Decodes, Follows, Run, Apply;
    if Transacted(w.store, ns, m, true, wx).1.Done? {
      AppendedKeepsWellFormed(w.log, r);
      HighestOfAppended(w.log, r);
    }
  }

  /** A recorded write moves no overlay but its own namespace's. */
  lemma OverlayElsewhere(d: Disk, o: Disk, ns: NsKey, m: Mutation, revision: nat, n: Name)
    requires n != Render(ns)
    ensures BucketOf(Overlay(Declare(d, ns, m), Apply(o, RecordFor(ns, m, revision))), n) == BucketOf(Overlay(d, o), n)
  {
    hide Overlay, PublishBucket, FlipBucket;
    OverlayOf(d, o, n);
    OverlayOf(Declare(d, ns, m), Apply(o, RecordFor(ns, m, revision)), n);
  }

  /** A done write carries what its namespace is owed to what it leaves there. */
  lemma OwedAfterAWrite(w: World, ns: NsKey, m: Mutation, wx: Weather, n: Name)
    requires InOrder(w) && Transacted(w.store, ns, m, true, wx).1.Done?
    ensures n != Render(ns) ==> Owed(Wrote(w, ns, m, wx), n) == Owed(w, n)
    ensures n == Render(ns) && Mutate(Owed(w, n), m).Changed? ==>
              Owed(Wrote(w, ns, m, wx), n) == Mutate(Owed(w, n), m).bucket
  {
    hide *;
    InOrderSaysNumbers(w);
    HowAWriteGoes(w, ns, m, wx);
    TransactedNumbers(w.store, ns, m, wx);
    RecordsFollow(w, ns, m, w.store.revision + 1);
    OwedIs(w, n);
    OwedIs(Wrote(w, ns, m, wx), n);
    if n != Render(ns) {
      OverlayElsewhere(w.declared, Run(w.log), ns, m, w.store.revision + 1, n);
    } else if Mutate(Owed(w, n), m).Changed? {
      OverlayFollowsWrite(w.declared, Run(w.log), ns, m, Mutate(Owed(w, n), m).bucket, w.store.revision + 1);
    }
  }

  lemma OwedIs(w: World, n: Name)
    ensures Owed(w, n) == BucketOf(Overlay(w.declared, Run(w.log)), n)
  {
    hide Overlay, Run, BucketOf;
  }

  lemma WriteAt(w: World, ns: NsKey, m: Mutation, wx: Weather, n: Name)
    requires Sound(w) && n !in Wrote(w, ns, m, wx).astray
    ensures AsTheFileSays(Wrote(w, ns, m, wx), n)
  {
    hide *;
    SoundSaysNamespace(w, n);
    HowAWriteGoes(w, ns, m, wx);
    TransactedHere(w.store, ns, m, wx);
    if n != Render(ns) {
      TransactedElsewhere(w.store, ns, m, wx, n);
    }
    if Transacted(w.store, ns, m, true, wx).1.Done? {
      OwedAfterAWrite(w, ns, m, wx, n);
    }
    RetiringIsUnconditional(Owed(w, n));
    RetiringIsUnconditional(BucketOf(w.store.disk, n));
    UnrecordedLeavesTheOwed(w, ns, m, wx, n);
    AsTheFileSaysIs(Wrote(w, ns, m, wx), n);
  }

  lemma UnrecordedLeavesTheOwed(w: World, ns: NsKey, m: Mutation, wx: Weather, n: Name)
    ensures !Transacted(w.store, ns, m, true, wx).1.Done? ==> Owed(Wrote(w, ns, m, wx), n) == Owed(w, n)
  {
    hide Overlay, Run, BucketOf, Transacted;
  }

  lemma AsTheFileSaysIs(w: World, n: Name)
    ensures AsTheFileSays(w, n) <==>
            BucketOf(w.store.disk, n) == Owed(w, n) && Seen(w.store.snap, n) == BucketOf(w.store.disk, n)
  {
    hide Owed, BucketOf, Seen;
  }

  lemma RetiringIsUnconditional(b: Option<Bucket>)
    ensures Mutate(b, Retire) == Changed(None)
  {
  }

  lemma WriteKeepsSound(w: World, ns: NsKey, m: Mutation, wx: Weather)
    requires Sound(w)
    ensures Sound(Wrote(w, ns, m, wx))
  {
    WriteKeepsOrder(w, ns, m, wx);
    TransactedHere(w.store, ns, m, wx);
    HowAWriteGoes(w, ns, m, wx);
    hide Transacted, Wrote, InOrder, WellNamed, AsTheFileSays;
    forall n: Name | n !in Wrote(w, ns, m, wx).astray ensures AsTheFileSays(Wrote(w, ns, m, wx), n) {
      WriteAt(w, ns, m, wx, n);
    }
  }

  lemma HealKeepsSound(w: World)
    requires InOrder(w)
    ensures Sound(Step(w, Wipe))
  {
    var v := Step(w, Wipe);
    ReplayIsTimeTravel(w.log, 0);
    hide WellFormed, Highest, Run, Overlay, Replay, View, AsTheFileSays;
    SeenInView(v.store.disk, Render(GLOBAL));
    forall n: Name ensures AsTheFileSays(v, n) {
      BuiltIsAsTheFileSays(v, n);
    }
  }

  lemma RecordedRestoreIsSound(log: seq<Record>, to: nat, was: nat, generation: nat)
    requires WellFormed(log) && (forall r :: r in log ==> Decodes(r))
    requires to != 0 && Highest(log) <= was
    ensures Sound(AfterRestore(log, to, was, generation, true))
  {
    hide Overlay, View, Run, Replay, WellFormed, Highest, AsTheFileSays;
    var v := AfterRestore(log, to, was, generation, true);
    RestoreLeavesWhatReplayFinds(log, to, was + 1);
    ReplayIsTimeTravel(v.log, 0);
    HighestOfAppended(log, Record(was + 1, Oplog.Restore(to, was)));
    assert InOrder(v);
    SeenInView(v.store.disk, Render(GLOBAL));
    forall n: Name ensures AsTheFileSays(v, n) {
      BuiltIsAsTheFileSays(v, n);
    }
  }

  lemma UnrecordedRestoreIsSound(log: seq<Record>, to: nat, was: nat, generation: nat)
    requires WellFormed(log) && (forall r :: r in log ==> Decodes(r))
    requires Highest(log) <= was
    ensures Sound(AfterRestore(log, to, was, generation, false))
  {
    hide Overlay, View, Run, Replay, WellFormed, Highest, AsTheFileSays;
    var v := AfterRestore(log, to, was, generation, false);
    SeenInView(v.store.disk, Render(GLOBAL));
    forall n: Name | n !in v.astray ensures AsTheFileSays(v, n) {
      BuiltIsAsTheFileSays(v, n);
    }
  }

  lemma ReopenKeepsSound(w: World)
    requires Sound(w)
    ensures Sound(w.(store := Reopened(w.store)))
  {
    hide Overlay, View, Run, WellFormed, Highest, Seen, WellNamed;
    var v := w.(store := Reopened(w.store));
    SeenInView(v.store.disk, Render(GLOBAL));
    forall n: Name | n !in v.astray ensures AsTheFileSays(v, n) {
      SeenInView(v.store.disk, n);
      assert AsTheFileSays(w, n);
    }
  }

  lemma ANamedRevisionIsBelow(was: nat, log: seq<Record>, to: nat)
    requires RestoreRefused(was, log, 0, to, "why").None?
    ensures 0 < to < was
  {
    hide Restores, Ascending, Highest;
  }

  lemma RestoreKeepsSound(w: World, to: nat, recorded: bool)
    requires Sound(w)
    ensures Sound(RestoredTo(w, to, recorded))
  {
    hide *;
    ReopenKeepsSound(w);
    SoundSaysNumbers(w);
    HowARestoreGoes(w, to, recorded);
    if RestoreRefused(w.store.durable, w.log, 0, to, "why").None? {
      ANamedRevisionIsBelow(w.store.durable, w.log, to);
      if recorded {
        RecordedRestoreIsSound(w.log, to, w.store.durable, w.generation + 1);
      } else {
        UnrecordedRestoreIsSound(w.log, to, w.store.durable, w.generation + 1);
      }
    }
  }

  lemma HowARestoreGoes(w: World, to: nat, recorded: bool)
    ensures RestoredTo(w, to, recorded) ==
            if RestoreRefused(w.store.durable, w.log, 0, to, "why").Some? then w.(store := Reopened(w.store))
            else AfterRestore(w.log, to, w.store.durable, w.generation + 1, recorded)
  {
    hide RestoreRefused, AfterRestore, Reopened;
  }

  lemma CommitKeepsSound(w: World, n: Name, b: Option<Bucket>)
    requires Sound(w)
    ensures Sound(w.(store := Committed(w.store, n, b), astray := w.astray + {n}))
  {
    hide Overlay, View, Run, WellFormed, Highest, Seen, WellNamed, BucketOf, PutBucket;
    var v := w.(store := Committed(w.store, n, b), astray := w.astray + {n});
    forall other: Name | other !in v.astray ensures AsTheFileSays(v, other) {
      assert AsTheFileSays(w, other);
    }
  }

  /** A process killed before its record is a commit alone, reopened. */
  lemma CrashKeepsSound(w: World, ns: NsKey, m: Mutation)
    requires Sound(w)
    ensures Sound(Crashed(w, ns, m))
  {
    hide Sound, Reopened, Committed, Mutate, BucketOf;
    var changed := Mutate(BucketOf(w.store.disk, Render(ns)), m);
    ReopenKeepsSound(w);
    if changed.Changed? {
      CommitKeepsSound(w, Render(ns), changed.bucket);
      ReopenKeepsSound(w.(store := Committed(w.store, Render(ns), changed.bucket), astray := w.astray + {Render(ns)}));
    }
  }

  lemma ANoticeIsNothingToReplay(log: seq<Record>, stamp: nat)
    ensures var r := Record(stamp, Oplog.Notice);
            Run(log + [r]) == Run(log) && Follows(log, r) && Decodes(r)
  {
    Snoc(log, Record(stamp, Oplog.Notice));
  }

  lemma NoticeKeepsSound(w: World, stamp: nat)
    requires Sound(w) && stamp <= w.store.revision
    ensures Sound(w.(log := w.log + [Record(stamp, Oplog.Notice)]))
  {
    hide *;
    var r := Record(stamp, Oplog.Notice);
    var v := w.(log := w.log + [r]);
    SoundSaysNumbers(w);
    ANoticeIsNothingToReplay(w.log, stamp);
    AppendedKeepsWellFormed(w.log, r);
    HighestOfAppended(w.log, r);
    NumbersSayInOrder(v);
    SoundSaysNamespace(w, Render(GLOBAL));
    OwedIs(w, Render(GLOBAL));
    forall n: Name | n !in v.astray ensures AsTheFileSays(v, n) {
      SoundSaysNamespace(w, n);
      OwedIs(w, n);
      OwedIs(v, n);
      AsTheFileSaysIs(v, n);
    }
    SoundIs(v);
  }

  lemma SoundIs(w: World)
    requires InOrder(w) && WellNamed(w.store.snap) && forall n: Name :: n !in w.astray ==> AsTheFileSays(w, n)
    ensures Sound(w)
  {
    hide InOrder, WellNamed, AsTheFileSays;
  }

  lemma StepKeepsSound(w: World, e: Event)
    requires Sound(w)
    ensures Sound(Step(w, e))
  {
    hide Sound, Wrote, Crashed, RestoredTo, Reopened, Rebuilt;
    match e
    case Write(ns, m, wx) => WriteKeepsSound(w, ns, Enforced(m), wx);
    case Notice(lag) =>
      SoundSaysNumbers(w);
      NoticeKeepsSound(w, if lag <= w.store.revision then w.store.revision - lag else 0);
    case Reopen => ReopenKeepsSound(w);
    case CrashBeforeRecord(ns, m) => CrashKeepsSound(w, ns, Enforced(m));
    case Wipe =>
      SoundSaysNumbers(w);
      NumbersSayInOrder(w);
      HealKeepsSound(w);
    case RestoreTo(to, recorded) => RestoreKeepsSound(w, to, recorded);
  }

  lemma {:induction false} LegacyIsWellFormed(log: seq<Record>)
    requires Legacy(log)
    ensures WellFormed(log)
  {
    if log == [] {
    } else {
      assert log[|log|-1] in log;
      LegacyIsWellFormed(log[..|log|-1]);
    }
  }

  lemma {:induction false} ExecKeepsSound(w: World, es: seq<Event>)
    requires Sound(w)
    ensures Sound(Exec(w, es))
  {
    if es == [] {
    } else {
      ExecKeepsSound(w, es[..|es|-1]);
      StepKeepsSound(Exec(w, es[..|es|-1]), es[|es|-1]);
    }
  }

  lemma AFirstBootIsSound(legacy: seq<Record>)
    requires Legacy(legacy)
    ensures Sound(Start(legacy))
  {
    LegacyIsWellFormed(legacy);
    ReplayIsTimeTravel(legacy, 0);
    var w := Start(legacy);
    assert Highest(legacy) == 0;
    hide WellFormed, Highest, Run, Overlay, Replay, View, AsTheFileSays, Legacy;
    SeenInView(w.store.disk, Render(GLOBAL));
    forall n: Name ensures AsTheFileSays(w, n) {
      BuiltIsAsTheFileSays(w, n);
    }
  }

  /** Every run keeps the invariant. */
  lemma EveryRunIsSound(legacy: seq<Record>, es: seq<Event>)
    requires Legacy(legacy)
    ensures Sound(Exec(Start(legacy), es))
  {
    hide *;
    AFirstBootIsSound(legacy);
    ExecKeepsSound(Start(legacy), es);
  }
}
