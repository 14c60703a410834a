/**
 The store: flags and a revision on disk, a snapshot readers are served from, and the
 one write path, which commits, publishes, records, and undoes what it could not
 record (store.go).
 */
module Store {
  import opened Flags
  import opened Oplog
  import opened OplogFile

  // ---------------------------------------------------------------- mutations

  /** What a write does to its one namespace. Replay flips without the rules. */
  datatype Mutation =
    | Flip(key: string, value: Value, enforce: bool)
    | Publish(flags: seq<Flag>)
    | Retire

  datatype Mutated = Changed(bucket: Option<Bucket>) | Turned(refusal: Refusal)

  function FlipRefused(b: Option<Bucket>, key: string, v: Value): Option<Refusal> {
    var flags := Opened(b);
    var existing := if key in flags then Some(flags[key]) else None;
    if CheckValue(existing, v).Some? then CheckValue(existing, v)
    else if existing.None? && |flags| >= FLAG_BUDGET then Some(OverBudget)
    else None
  }

  /** A declared flag keeps the value it finds and takes the deploy's metadata. */
  function PublishOne(b: Bucket, f: Flag): Bucket {
    b[f.key := if f.key in b then f.(value := b[f.key].value) else f]
  }

  function PublishBucket(b: Bucket, flags: seq<Flag>): Bucket {
    if flags == [] then b else PublishOne(PublishBucket(b, flags[..|flags|-1]), flags[|flags|-1])
  }

  function Mutate(b: Option<Bucket>, m: Mutation): Mutated {
    match m
    case Flip(key, v, enforce) =>
      if enforce && FlipRefused(b, key, v).Some? then Turned(FlipRefused(b, key, v).value)
      else Changed(Some(FlipBucket(b, key, v)))
    case Publish(flags) => Changed(Some(PublishBucket(Opened(b), flags)))
    case Retire => Changed(None)
  }

  function RecordFor(ns: NsKey, m: Mutation, revision: nat): Record {
    Record(revision,
           match m
           case Flip(key, v, _) => SetFlag(ns, key, Typed(Some(v)))
           case Publish(flags) => PublishNamespace(ns, |flags|)
           case Retire => DeleteNamespace(ns))
  }

  // ---------------------------------------------------------------- publishing

  function First(flags: seq<Flag>, k: string): (f: Option<Flag>)
    ensures f.Some? <==> exists g :: g in flags && g.key == k
    ensures f.Some? ==> exists i :: 0 <= i < |flags| && flags[i] == f.value && f.value.key == k
                                    && forall j :: 0 <= j < i ==> flags[j].key != k
  {
    if flags == [] then None
    else
      assert flags == [flags[0]] + flags[1..];
      if flags[0].key == k then Some(flags[0]) else First(flags[1..], k)
  }

  function Last(flags: seq<Flag>, k: string): (f: Option<Flag>)
    ensures f.Some? <==> exists g :: g in flags && g.key == k
    ensures f.Some? ==> exists i :: 0 <= i < |flags| && flags[i] == f.value && f.value.key == k
                                    && forall j :: i < j < |flags| ==> flags[j].key != k
  {
    if flags == [] then None
    else
      assert flags == flags[..|flags|-1] + [flags[|flags|-1]];
      if flags[|flags|-1].key == k then Some(flags[|flags|-1]) else Last(flags[..|flags|-1], k)
  }

  lemma {:induction false} FirstSnoc(flags: seq<Flag>, g: Flag, k: string)
    ensures First(flags + [g], k) ==
            if First(flags, k).Some? then First(flags, k) else if g.key == k then Some(g) else None
  {
    if flags == [] {
    } else {
      assert (flags + [g])[1..] == flags[1..] + [g];
      FirstSnoc(flags[1..], g, k);
    }
  }

  lemma LastSnoc(flags: seq<Flag>, g: Flag, k: string)
    ensures Last(flags + [g], k) == if g.key == k then Some(g) else Last(flags, k)
  {
    assert (flags + [g])[..|flags|] == flags;
  }

  lemma PublishSnoc(b: Bucket, flags: seq<Flag>, g: Flag)
    ensures PublishBucket(b, flags + [g]) == PublishOne(PublishBucket(b, flags), g)
    ensures PublishBucket(b, []) == b
  {
    assert (flags + [g])[..|flags|] == flags;
    hide PublishOne;
  }

  /** What publishing leaves under each key, duplicates included: a value already held,
      else the first declared; the metadata of the last declaration. */
  lemma {:induction false} PublishMeans(b: Bucket, flags: seq<Flag>, k: string)
    ensures var p := PublishBucket(b, flags);
            if Last(flags, k).None? then (k in p <==> k in b) && (k in b ==> p[k] == b[k])
            else k in p && p[k] == Last(flags, k).value.(value :=
                               if k in b then b[k].value else First(flags, k).value.value)
  {
    if flags == [] {
    } else {
      hide First, Last, PublishBucket;
      var init, f := flags[..|flags|-1], flags[|flags|-1];
      assert flags == init + [f];
      PublishMeans(b, init, k);
      FirstSnoc(init, f, k);
      LastSnoc(init, f, k);
      PublishSnoc(b, init, f);
      SomeDeclared(init, k);
    }
  }

  lemma SomeDeclared(flags: seq<Flag>, k: string)
    ensures First(flags, k).Some? <==> Last(flags, k).Some?
    ensures First(flags, k).Some? ==> First(flags, k).value.key == k && Last(flags, k).value.key == k
  {
  }

  /** Publishing what is published changes nothing. */
  lemma PublishTwiceIsOnce(b: Bucket, flags: seq<Flag>)
    ensures PublishBucket(PublishBucket(b, flags), flags) == PublishBucket(b, flags)
  {
    var once := PublishBucket(b, flags);
    var twice := PublishBucket(once, flags);
    forall k | k in once || k in twice ensures k in once && k in twice && once[k] == twice[k] {
      PublishMeans(b, flags, k);
      PublishMeans(once, flags, k);
    }
    assert once.Keys == twice.Keys;
  }

  /** An emergency flip of a declared flag survives the deploy beside it, whichever
      lands first, and nothing else about the namespace depends on the order. */
  lemma PublishAndFlipCommute(b: Bucket, flags: seq<Flag>, key: string, v: Value)
    requires key in b
    ensures PublishBucket(FlipBucket(Some(b), key, v), flags) == FlipBucket(Some(PublishBucket(b, flags)), key, v)
  {
    var x := PublishBucket(FlipBucket(Some(b), key, v), flags);
    var y := FlipBucket(Some(PublishBucket(b, flags)), key, v);
    PublishMeans(b, flags, key);
    forall k | k in x || k in y ensures k in x && k in y && x[k] == y[k] {
      PublishMeans(b, flags, k);
      PublishMeans(FlipBucket(Some(b), key, v), flags, k);
    }
    assert x.Keys == y.Keys;
  }

  // ---------------------------------------------------------------- the write path, as a function

  /** The store: on disk, in memory, and whether the last write failed unrepaired. */
  datatype StoreState = StoreState(disk: Disk, durable: nat, snap: Snapshot, revision: nat, failed: bool)

  /** What the volume and the sink let happen during one write. */
  datatype Weather = Weather(commit: bool, reload: bool, sink: bool, undo: bool, undoReload: bool)

  const FAIR := Weather(true, true, true, true, true)

  datatype Outcome = Done | Refused(refusal: Refusal) | CommitFailed | ReloadFailed | Unlogged(rolledBack: bool)

  /** The two endings the store itself reports as unrepaired. */
  predicate Unrepaired(out: Outcome) {
    out.ReloadFailed? || (out.Unlogged? && !out.rolledBack)
  }

  function Committed(s: StoreState, n: Name, b: Option<Bucket>): StoreState {
    s.(disk := PutBucket(s.disk, n, b), durable := s.revision + 1, revision := s.revision + 1)
  }

  function Published(s: StoreState): StoreState { s.(snap := View(s.disk)) }

  function Undone(s: StoreState, n: Name, prior: Option<Bucket>): StoreState {
    s.(disk := PutBucket(s.disk, n, prior))
  }

  function Transacted(s: StoreState, ns: NsKey, m: Mutation, logged: bool, w: Weather): (StoreState, Outcome) {
    var n := Render(ns);
    var prior := BucketOf(s.disk, n);
    match Mutate(prior, m)
    case Turned(refusal) => (s, Refused(refusal))
    case Changed(b) =>
      if !w.commit then (s.(failed := true), CommitFailed)
      else
        var committed := Committed(s, n, b);
        if !w.reload then (committed.(failed := true), ReloadFailed)
        else
          var published := Published(committed).(failed := false);
          if !logged || w.sink then (published, Done)
          else if !w.undo then (published.(failed := true), Unlogged(false))
          else if !w.undoReload then (Undone(published, n, prior).(failed := true), Unlogged(false))
          else (Published(Undone(published, n, prior)), Unlogged(true))
  }

  /** Every ending of a write, on every store: when it comes, by what was asked and what the
      volume and the sink let happen, and what it leaves of the disk, the numbers, the
      snapshot and the failure note. */
  lemma EveryEndingOfAWrite(s: StoreState, ns: NsKey, m: Mutation, logged: bool, w: Weather)
    ensures var (t, out), n := Transacted(s, ns, m, logged, w), Render(ns);
            var r, recorded := Mutate(BucketOf(s.disk, n), m), !logged || w.sink;
            && (out.Refused? <==> r.Turned?) && (r.Turned? ==> out.refusal == r.refusal && t == s)
            && (out == CommitFailed <==> r.Changed? && !w.commit)
            && (out == ReloadFailed <==> r.Changed? && w.commit && !w.reload)
            && (out == Done <==> r.Changed? && w.commit && w.reload && recorded)
            && (out == Unlogged(w.undo && w.undoReload) <==> r.Changed? && w.commit && w.reload && !recorded)
            && out != Unlogged(!(w.undo && w.undoReload))
            && (if out.Refused? || out == CommitFailed
                then t.revision == s.revision && t.durable == s.durable
                else t.revision == t.durable == s.revision + 1)
            && (t.failed <==> out == CommitFailed || out == ReloadFailed || out == Unlogged(false)
                              || (out.Refused? && s.failed))
            && (forall other: Name :: other != n ==> BucketOf(t.disk, other) == BucketOf(s.disk, other))
            && (if out == Done || out == ReloadFailed || (out == Unlogged(false) && !w.undo)
                then r == Changed(BucketOf(t.disk, n)) else t.disk == s.disk)
            && (if out.Refused? || out == CommitFailed || out == ReloadFailed then t.snap == s.snap
                else t.snap == View(if out == Unlogged(true) then s.disk else PutBucket(s.disk, n, r.bucket)))
  {
    hide View, PutBucket, BucketOf, Mutate;
    var n := Render(ns);
    var r := Mutate(BucketOf(s.disk, n), m);
    if r.Changed? {
      UndoIsExact(s.disk, n, r.bucket);
    }
  }

  /** A write and its record: the store and the file after it. */
  function Whole(s: StoreState, log: seq<Record>, ns: NsKey, m: Mutation, w: Weather): (StoreState, seq<Record>) {
    var (t, out) := Transacted(s, ns, m, true, w);
    (t, if out.Done? then log + [RecordFor(ns, m, s.revision + 1)] else log)
  }

  /** Every write the store does not report as unrepaired ends one of two ways: done,
      with its one namespace changed, its number taken and its record last in the file
      under that number, or with every namespace, everything readers see and the file as
      they were. Either way readers see the disk. */
  lemma EveryWriteEndsOneOfTwoWays(s: StoreState, log: seq<Record>, ns: NsKey, m: Mutation, w: Weather)
    requires s.snap == View(s.disk)
    ensures var (t, out), (_, l) := Transacted(s, ns, m, true, w), Whole(s, log, ns, m, w);
            !Unrepaired(out) ==>
              && t.snap == View(t.disk)
              && (if out.Done? then
                    && Mutate(BucketOf(s.disk, Render(ns)), m) == Changed(BucketOf(t.disk, Render(ns)))
                    && (forall n: Name :: n != Render(ns) ==> BucketOf(t.disk, n) == BucketOf(s.disk, n))
                    && t.revision == t.durable == s.revision + 1
                    && l == log + [RecordFor(ns, m, t.revision)]
                  else
                    t.disk == s.disk && t.snap == s.snap && t.revision <= s.revision + 1 && l == log)
  {
    hide View, PutBucket, BucketOf, Mutate, RecordFor;
    var n := Render(ns);
    var prior := BucketOf(s.disk, n);
    var changed := Mutate(prior, m);
    if changed.Changed? {
      UndoIsExact(s.disk, n, changed.bucket);
    }
  }

  /** Capturing a namespace, changing it in any way (creating, emptying and deleting it
      included) and putting back what was captured leaves the disk as it was. */
  lemma UndoIsExact(disk: Disk, n: Name, b: Option<Bucket>)
    ensures PutBucket(PutBucket(disk, n, b), n, BucketOf(disk, n)) == disk
  {
    var d := PutBucket(PutBucket(disk, n, b), n, BucketOf(disk, n));
    assert forall m: Name :: BucketOf(d, m) == BucketOf(disk, m);
    SameBuckets(d, disk);
  }

  /** A namespace as a flip may leave it: the flag has a value, of the kind it had if it had
      one, and the namespace is within the budget or no larger than it was. */
  predicate Obeys(was: Bucket, now: Bucket, key: string)
    requires key in now
  {
    && !now[key].value.Unset?
    && (key in was && !was[key].value.Unset? ==> SameKind(now[key].value, was[key].value))
    && |now| <= if |was| > FLAG_BUDGET then |was| else FLAG_BUDGET
  }

  /** A flip is let through exactly when what it leaves obeys the rules, and it touches
      nothing but the value: no description, no expensive mark, no other flag. */
  lemma FlipIsLetThroughIffItObeys(b: Option<Bucket>, key: string, v: Value)
    ensures var was, now := Opened(b), FlipBucket(b, key, v);
            && (FlipRefused(b, key, v).None? <==> Obeys(was, now, key))
            && now.Keys == was.Keys + {key} && now[key].value == v
            && (key in was ==> now[key] == was[key].(value := v))
            && (key !in was ==> now[key] == Flag(key, v, "", false))
            && (forall k :: k in was && k != key ==> now[k] == was[k])
  {
    var was, now := Opened(b), FlipBucket(b, key, v);
    if key in was {
      assert now.Keys == was.Keys;
    } else {
      assert now.Keys == was.Keys + {key};
    }
    assert |now| == |now.Keys| && |was| == |was.Keys|;
  }

  /** What a flip is refused for: carrying no value, making a flag of one kind another, or
      being the twenty-fifth of its namespace. */
  lemma WhatAFlipIsRefusedFor(b: Option<Bucket>, key: string, v: Value)
    ensures var r, flags := FlipRefused(b, key, v), if b.Some? then b.value else map[];
            && (r == Some(NoValue) <==> v == Unset)
            && (r == Some(TypeChange) <==>
                  && v != Unset && key in flags && flags[key].value != Unset
                  && (|| v.BoolValue? != flags[key].value.BoolValue?
                      || v.StringValue? != flags[key].value.StringValue?
                      || v.IntValue? != flags[key].value.IntValue?))
            && (r == Some(OverBudget) <==> v != Unset && key !in flags && |flags| >= 24)
  {
  }

  // ---------------------------------------------------------------- the store, step by step

  /** A namespace's flags put into an empty bucket one by one. */
  method PutFlags(flags: Bucket) returns (out: Bucket)
    ensures out == flags
  {
    out := map[];
    var left := flags.Keys;
    while left != {}
      invariant left <= flags.Keys && out.Keys == flags.Keys - left
      invariant forall k :: k in out ==> out[k] == flags[k]
      decreases |left|
    {
      var k :| k in left;
      out := out[k := flags[k]];
      left := left - {k};
    }
    assert out.Keys == flags.Keys;
  }

  /** captureNamespace: one namespace's flags copied as stored, or that there is none. */
  method CaptureNamespace(tx: Disk, n: Name) returns (prior: Option<Bucket>)
    ensures prior == BucketOf(tx, n)
  {
    if n !in tx {
      return None;
    }
    var out := PutFlags(tx[n]);
    prior := Some(out);
  }

  /** restoreNamespace: the bucket removed, and what was captured put back. */
  method RestoreNamespace(tx: Disk, n: Name, prior: Option<Bucket>) returns (restored: Disk)
    ensures restored == PutBucket(tx, n, prior)
  {
    restored := tx - {n};
    if prior.Some? {
      var ns := PutFlags(prior.value);
      restored := restored[n := ns];
      assert restored == tx[n := ns];
    }
  }

  /** Publish's loop over the declared flags, in the transaction. */
  method PublishFlags(b: Bucket, flags: seq<Flag>) returns (out: Bucket, count: nat)
    ensures out == PublishBucket(b, flags) && count == |flags|
  {
    out, count := b, 0;
    for i := 0 to |flags|
      invariant out == PublishBucket(b, flags[..i]) && count == i
    {
      assert flags[..i+1][..i] == flags[..i];
      var f := flags[i];
      var merged := f;
      if f.key in out {
        merged := merged.(value := out[f.key].value);
      }
      out := out[f.key := merged];
      count := count + 1;
    }
    assert flags[..|flags|] == flags;
  }

  /** What a deploy or a retirement reports: the flags it declared, or those it removed. */
  function Reported(b: Option<Bucket>, m: Mutation): nat {
    match m
    case Flip(_, _, _) => 0
    case Publish(flags) => |flags|
    case Retire => |Opened(b)|
  }

  /** The three mutators, on the namespace as the transaction sees it, and the count the
      last two report. */
  method RunMutation(tx: Disk, n: Name, m: Mutation) returns (r: Mutated, count: nat)
    ensures r == Mutate(BucketOf(tx, n), m)
    ensures r.Changed? ==> count == Reported(BucketOf(tx, n), m)
  {
    count := 0;
    var b := BucketOf(tx, n);
    match m
    case Flip(key, v, enforce) =>
      var flags := Opened(b);
      var existing := if key in flags then Some(flags[key]) else None;
      if enforce {
        var refused := CheckValue(existing, v);
        if refused.Some? {
          return Turned(refused.value), count;
        }
        if existing.None? && |flags| >= FLAG_BUDGET {
          return Turned(OverBudget), count;
        }
      }
      var f := if existing.Some? then existing.value else Flag(key, Unset, "", false);
      r := Changed(Some(flags[key := f.(value := v)]));
    case Publish(flags) =>
      var out, declared := PublishFlags(Opened(b), flags);
      r, count := Changed(Some(out)), declared;
    case Retire =>
      if b.Some? {
        count := |b.value|;
      }
      r := Changed(None);
  }

  class Store {
    var disk: Disk
    var durable: nat
    var snap: Snapshot
    var revision: nat
    var failed: bool
    const generation: nat
    const minted: bool

    function State(): StoreState
      reads this
    {
      StoreState(disk, durable, snap, revision, failed)
    }

    /** OpenStore on a file that is there: its generation and number, and a snapshot. */
    constructor Reopen(disk: Disk, durable: nat, generation: nat)
      ensures State() == StoreState(disk, durable, View(disk), durable, false)
      ensures this.generation == generation && !minted
    {
      this.disk, this.durable, this.revision, this.failed := disk, durable, durable, false;
      this.generation, this.minted := generation, false;
      this.snap := map[];
      new;
      var _ := Reload(true);
    }

    /** OpenStore on no file: empty, at zero, with a generation minted. */
    constructor Mint(generation: nat)
      ensures State() == StoreState(map[], 0, map[], 0, false)
      ensures this.generation == generation && minted
    {
      this.disk, this.durable, this.revision, this.failed := map[], 0, 0, false;
      this.generation, this.minted := generation, true;
      this.snap := map[];
      new;
      var _ := Reload(true);
    }

    /** reload: the whole snapshot rebuilt from disk, or kept when the disk cannot be read. */
    method Reload(readable: bool) returns (ok: bool)
      modifies this`snap
      ensures ok == readable
      ensures snap == if ok then View(disk) else old(snap)
    {
      if !readable {
        return false;
      }
      var next: Snapshot := map[];
      var left := disk.Keys;
      while left != {}
        invariant left <= disk.Keys
        invariant forall ns :: ns in next <==> '@' !in ns.version && Render(ns) in disk.Keys - left
        invariant forall ns :: ns in next ==> next[ns] == disk[Render(ns)]
        decreases |left|
      {
        var n :| n in left;
        var ns := Parse(n);
        forall other: NsKey | '@' !in other.version && Render(other) == n ensures other == ns {
          RenderIsInjective(other, ns);
        }
        next := next[ns := disk[n]];
        left := left - {n};
      }
      forall ns: NsKey ensures ns in View(disk) <==> ns in next {
        if '@' !in ns.version {
          ViewServesTheDisk(disk, ns);
        }
      }
      assert next.Keys == View(disk).Keys;
      snap := next;
      ok := true;
    }

    /** SetRevision: the number moved to where the record says it is, on disk and then in
        memory, or in neither. */
    method SetRevision(r: nat, writable: bool) returns (ok: bool)
      modifies this`durable, this`revision
      ensures ok == writable
      ensures State() == if ok then old(State()).(durable := r, revision := r) else old(State())
    {
      if !writable {
        return false;
      }
      durable := r;
      revision := r;
      ok := true;
    }

    /** transact: the one write path. Under the writer lock, the namespace is captured
        and changed in one commit with the new number; the snapshot is published; the
        record is written; and a write that could not be recorded is put back. */
    method Transact(ns: NsKey, m: Mutation, sink: FileSink?, w: Weather) returns (out: Outcome, count: nat)
      requires sink != null ==> sink.Valid()
      modifies this, sink
      ensures (State(), out) == Transacted(old(State()), ns, m, sink != null, w)
      ensures out.Done? ==> count == Reported(BucketOf(old(disk), Render(ns)), m)
      ensures sink != null ==>
                && sink.Valid()
                && sink.Appends(old(sink.file), old(sink.log), old(sink.bad),
                                if out.Done? then Some(RecordFor(ns, m, old(revision) + 1)) else None)
    {
      hide View, PutBucket, BucketOf, Mutate, RecordFor, Gained, FileRecords, FileBad;
      var n := Render(ns);
      var prior := CaptureNamespace(disk, n);
      var changed;
      changed, count := RunMutation(disk, n, m);
      if changed.Turned? {
        return Refused(changed.refusal), count;
      }
      if !w.commit {
        failed := true;
        return CommitFailed, count;
      }
      var published := CommitAndPublish(n, changed.bucket, w.reload);
      if !published {
        return ReloadFailed, count;
      }
      if sink == null {
        return Done, count;
      }
      out := RecordOrUndo(RecordFor(ns, m, revision), n, prior, sink, w);
    }

    /** Flip: the flag as the store now holds it, or none when the write did not stand. */
    method Flip(ns: NsKey, key: string, v: Value, sink: FileSink, w: Weather) returns (out: Outcome, f: Option<Flag>)
      requires sink.Valid()
      modifies this, sink
      ensures (State(), out) == Transacted(old(State()), ns, Mutation.Flip(key, v, true), true, w)
      ensures sink.Valid()
      ensures sink.Appends(old(sink.file), old(sink.log), old(sink.bad),
                           if out.Done? then Some(Record(old(revision) + 1, SetFlag(ns, key, Typed(Some(v))))) else None)
      ensures forall r :: out == Refused(r) <==> FlipRefused(BucketOf(old(disk), Render(ns)), key, v) == Some(r)
      ensures f.Some? <==> out.Done?
      ensures f.Some? ==> f.value.value == v && key in Opened(BucketOf(disk, Render(ns)))
                          && f.value == Opened(BucketOf(disk, Render(ns)))[key]
    {
      hide View;
      var n := Render(ns);
      var now := FlipBucket(BucketOf(disk, n), key, v);
      var unused;
      out, unused := Transact(ns, Mutation.Flip(key, v, true), sink, w);
      f := if out.Done? then Some(now[key]) else None;
    }

    /** Publish: how many flags were declared, or zero when the write did not stand. */
    method Publish(ns: NsKey, flags: seq<Flag>, sink: FileSink, w: Weather) returns (out: Outcome, count: nat)
      requires sink.Valid()
      modifies this, sink
      ensures (State(), out) == Transacted(old(State()), ns, Mutation.Publish(flags), true, w)
      ensures sink.Valid()
      ensures sink.Appends(old(sink.file), old(sink.log), old(sink.bad),
                           if out.Done? then Some(Record(old(revision) + 1, PublishNamespace(ns, |flags|))) else None)
      ensures !out.Refused? && count == if out.Done? then |flags| else 0
    {
      out, count := Transact(ns, Mutation.Publish(flags), sink, w);
      if !out.Done? {
        count := 0;
      }
    }

    /** Retire: how many flags went with the namespace, or zero when the write did not stand. */
    method Retire(ns: NsKey, sink: FileSink, w: Weather) returns (out: Outcome, removed: nat)
      requires sink.Valid()
      modifies this, sink
      ensures (State(), out) == Transacted(old(State()), ns, Mutation.Retire, true, w)
      ensures sink.Valid()
      ensures sink.Appends(old(sink.file), old(sink.log), old(sink.bad),
                           if out.Done? then Some(Record(old(revision) + 1, DeleteNamespace(ns))) else None)
      ensures !out.Refused? && removed == if out.Done? then |Opened(BucketOf(old(disk), Render(ns)))| else 0
    {
      out, removed := Transact(ns, Mutation.Retire, sink, w);
      if !out.Done? {
        removed := 0;
      }
    }

    /** The record, stamped with the number the commit took, or the write undone. */
    method RecordOrUndo(r: Record, n: Name, prior: Option<Bucket>, sink: FileSink, w: Weather) returns (out: Outcome)
      requires sink.Valid()
      modifies this, sink
      ensures sink.Valid()
      ensures sink.Appends(old(sink.file), old(sink.log), old(sink.bad), if out.Done? then Some(r) else None)
      ensures (State(), out) ==
              if w.sink then (old(State()), Done)
              else if !w.undo then (old(State()).(failed := true), Unlogged(false))
              else if !w.undoReload then (Undone(old(State()), n, prior).(failed := true), Unlogged(false))
              else (Published(Undone(old(State()), n, prior)), Unlogged(true))
    {
      var recorded := sink.Write(r, w.sink);
      if recorded {
        return Done;
      }
      var rolledBack := UndoUnrecorded(n, prior, w);
      out := Unlogged(rolledBack);
    }

    /** The commit carries the next number with it; then readers get a new snapshot. */
    method CommitAndPublish(n: Name, b: Option<Bucket>, readable: bool) returns (ok: bool)
      modifies this
      ensures ok == readable
      ensures State() == if ok then Published(Committed(old(State()), n, b)).(failed := false)
                         else Committed(old(State()), n, b).(failed := true)
    {
      var next := revision + 1;
      disk, durable := PutBucket(disk, n, b), next;
      revision := next;
      ok := Reload(readable);
      failed := !ok;
    }

    /** The write that could not be recorded is put back, and the snapshot with it. The
        number it took is not. */
    method UndoUnrecorded(n: Name, prior: Option<Bucket>, w: Weather) returns (ok: bool)
      modifies this
      ensures ok == (w.undo && w.undoReload)
      ensures State() == if !w.undo then old(State()).(failed := true)
                         else if !ok then Undone(old(State()), n, prior).(failed := true)
                         else Published(Undone(old(State()), n, prior))
    {
      if !w.undo {
        failed := true;
        return false;
      }
      var back := RestoreNamespace(disk, n, prior);
      disk := back;
      ok := Reload(w.undoReload);
      if !ok {
        failed := true;
      }
    }
  }
}
