/**
 The read side: a flag or a namespace resolved over the global scope, in a fixed order,
 and the `unchanged` answer (store.go, sort.go, server.go).
 */
module Reads {
  import opened Flags
  import opened Oplog
  import opened Recovery
  import opened Store
  import opened Runs
  import opened Guarantees

  // ---------------------------------------------------------------- key order

  /** Strings in order, character by character. */
  predicate Less(a: string, b: string) {
    b != "" && (a == "" || a[0] < b[0] || (a[0] == b[0] && Less(a[1..], b[1..])))
  }

  lemma {:induction false} LessIsTotal(a: string, b: string)
    ensures Less(a, b) || a == b || Less(b, a)
    ensures !(Less(a, b) && Less(b, a)) && !Less(a, a)
  {
    if a != "" && b != "" {
      LessIsTotal(a[1..], b[1..]);
      if a[0] == b[0] && a[1..] == b[1..] {
        assert a == [a[0]] + a[1..] && b == [b[0]] + b[1..];
      }
    }
    if a == "" {
    } else {
      LessIsTotal(a[1..], a[1..]);
    }
  }

  /** One string comes before another where they first differ: it ends there, or its
      character is the lower. */
  predicate PartAt(a: string, b: string, i: nat) {
    && i <= |a| && i < |b| && a[..i] == b[..i]
    && (i == |a| || a[i] < b[i])
  }

  lemma {:induction false} LessIsDictionaryOrder(a: string, b: string)
    ensures Less(a, b) <==> exists i: nat :: PartAt(a, b, i)
  {
    if a == "" || b == "" || a[0] != b[0] {
      if Less(a, b) {
        assert PartAt(a, b, 0);
      }
      if i: nat :| PartAt(a, b, i) {
        assert i > 0 ==> a[..i][0] == b[..i][0];
      }
    } else {
      LessIsDictionaryOrder(a[1..], b[1..]);
      if i: nat :| PartAt(a[1..], b[1..], i) {
        assert a[..i+1] == [a[0]] + a[1..][..i] && b[..i+1] == [b[0]] + b[1..][..i];
        assert PartAt(a, b, i + 1);
      }
      if i: nat :| PartAt(a, b, i) {
        assert i > 0;
        assert a[1..][..i-1] == a[..i][1..] && b[1..][..i-1] == b[..i][1..];
        assert PartAt(a[1..], b[1..], i - 1);
      }
    }
  }

  lemma {:induction false} LessIsTransitive(a: string, b: string, c: string)
    requires Less(a, b) && Less(b, c)
    ensures Less(a, c)
  {
    if a != "" && a[0] == b[0] == c[0] {
      LessIsTransitive(a[1..], b[1..], c[1..]);
    }
  }

  // ---------------------------------------------------------------- listings

  predicate InKeyOrder(out: seq<Flag>) {
    forall i, j :: 0 <= i < j < |out| ==> Less(out[i].key, out[j].key)
  }

  /** Each flag of a namespace once, in ascending key order. */
  ghost predicate Lists(flags: Bucket, out: seq<Flag>) {
    && InKeyOrder(out)
    && (forall f :: f in out ==> f.key in flags && flags[f.key] == f)
    && (forall k :: k in flags ==> flags[k] in out)
  }

  lemma RestIsAbove(xs: seq<Flag>, f: Flag)
    requires InKeyOrder(xs) && xs != []
    ensures f in xs[1..] <==> f in xs && f != xs[0]
    ensures f in xs[1..] ==> Less(xs[0].key, f.key)
  {
    if f in xs[1..] {
      var i :| 0 <= i < |xs[1..]| && xs[1..][i] == f;
      assert xs[i+1] == f;
      LessIsTotal(xs[0].key, xs[0].key);
    }
    assert xs == [xs[0]] + xs[1..];
  }

  /** There is one way to list flags in key order, so two answers holding the same flags
      are the same answer. */
  lemma {:induction false} ThereIsOneOrder(xs: seq<Flag>, ys: seq<Flag>)
    requires InKeyOrder(xs) && InKeyOrder(ys)
    requires forall f :: f in xs <==> f in ys
    ensures xs == ys
    decreases |xs|
  {
    assert xs != [] ==> xs[0] in ys;
    assert ys != [] ==> ys[0] in xs;
    if xs == [] {
    } else {
      RestIsAbove(xs, ys[0]);
      RestIsAbove(ys, xs[0]);
      LessIsTotal(xs[0].key, ys[0].key);
      forall f ensures f in xs[1..] <==> f in ys[1..] {
        RestIsAbove(xs, f);
        RestIsAbove(ys, f);
      }
      ThereIsOneOrder(xs[1..], ys[1..]);
      assert xs == [xs[0]] + xs[1..] && ys == [ys[0]] + ys[1..];
    }
  }

  lemma SplicedIsInOrder(out: seq<Flag>, f: Flag, i: nat)
    requires InKeyOrder(out) && i <= |out|
    requires forall j :: 0 <= j < i ==> Less(out[j].key, f.key)
    requires forall j :: i <= j < |out| ==> Less(f.key, out[j].key)
    ensures InKeyOrder(out[..i] + [f] + out[i..])
  {
    hide Less;
    var r := out[..i] + [f] + out[i..];
    forall a, b | 0 <= a < b < |r| ensures Less(r[a].key, r[b].key) {
      assert r[a] == if a < i then out[a] else if a == i then f else out[a-1];
      assert r[b] == if b < i then out[b] else if b == i then f else out[b-1];
    }
  }

  lemma SplicedHolds(out: seq<Flag>, f: Flag, i: nat, g: Flag)
    requires i <= |out|
    ensures g in out[..i] + [f] + out[i..] <==> g == f || g in out
  {
    assert out == out[..i] + out[i..];
  }

  /** Past the first key not below it, every key is above. */
  lemma TheRestIsAbove(out: seq<Flag>, f: Flag, i: nat, j: nat)
    requires InKeyOrder(out) && i <= j < |out|
    requires f.key != out[i].key && !Less(out[i].key, f.key)
    ensures Less(f.key, out[j].key)
  {
    hide Less;
    LessIsTotal(f.key, out[i].key);
    if j > i {
      LessIsTransitive(f.key, out[i].key, out[j].key);
    }
  }

  /** A flag put where its key belongs among flags already in order. */
  method InsertInOrder(out: seq<Flag>, f: Flag) returns (r: seq<Flag>)
    requires InKeyOrder(out) && forall g :: g in out ==> g.key != f.key
    ensures InKeyOrder(r) && forall g :: g in r <==> g == f || g in out
  {
    hide Less, InKeyOrder;
    var i := 0;
    while i < |out| && Less(out[i].key, f.key)
      invariant 0 <= i <= |out|
      invariant forall j :: 0 <= j < i ==> Less(out[j].key, f.key)
    {
      i := i + 1;
    }
    forall j | i <= j < |out| ensures Less(f.key, out[j].key) {
      TheRestIsAbove(out, f, i, j);
    }
    SplicedIsInOrder(out, f, i);
    forall g ensures g in out[..i] + [f] + out[i..] <==> g == f || g in out {
      SplicedHolds(out, f, i, g);
    }
    r := out[..i] + [f] + out[i..];
  }

  /** sorted: a namespace's flags in key order, whatever order the map gives them in. */
  method Sorted(flags: Bucket) returns (out: seq<Flag>)
    requires FiledByKey(flags)
    ensures Lists(flags, out)
  {
    out := [];
    var left := flags.Keys;
    while left != {}
      invariant left <= flags.Keys && InKeyOrder(out)
      invariant forall f :: f in out ==> f.key in flags.Keys - left && flags[f.key] == f
      invariant forall k :: k in flags.Keys - left ==> flags[k] in out
      decreases |left|
    {
      var k :| k in left;
      out := InsertInOrder(out, flags[k]);
      left := left - {k};
    }
  }

  // ---------------------------------------------------------------- resolution

  /** GetFlag: the service's own flag, else the global one; the global scope answers for
      itself alone. */
  function GetFlag(snap: Snapshot, ns: NsKey, key: string): Option<Flag> {
    if ns in snap && key in snap[ns] then Some(snap[ns][key])
    else if ns.service == GLOBAL.service then None
    else if GLOBAL in snap && key in snap[GLOBAL] then Some(snap[GLOBAL][key])
    else None
  }

  ghost predicate SnapshotFiled(snap: Snapshot) {
    forall ns :: ns in snap ==> FiledByKey(snap[ns])
  }

  /** The service's flags over the global ones; the global scope's alone. */
  function Laid(snap: Snapshot, ns: NsKey): Bucket
    requires ns in snap
  {
    if ns.service == GLOBAL.service || GLOBAL !in snap then snap[ns] else snap[GLOBAL] + snap[ns]
  }

  /** The service's own flags as held, and under its other keys the global scope's as held;
      the global scope has only its own. */
  predicate Resolves(snap: Snapshot, ns: NsKey, f: Flag)
    requires ns in snap
  {
    var global := NsKey("_global", "_");
    if f.key in snap[ns] then f == snap[ns][f.key]
    else ns.service != "_global" && global in snap && f.key in snap[global] && f == snap[global][f.key]
  }

  /** What GetNamespace answers: nothing for a namespace not held, and otherwise each flag
      that resolves, once, in key order, and nothing else. */
  ghost predicate Answers(snap: Snapshot, ns: NsKey, flags: Option<seq<Flag>>) {
    && (flags.Some? <==> ns in snap)
    && (flags.Some? ==> InKeyOrder(flags.value) && forall f: Flag :: f in flags.value <==> Resolves(snap, ns, f))
  }

  method GetNamespace(snap: Snapshot, ns: NsKey) returns (flags: Option<seq<Flag>>)
    requires SnapshotFiled(snap)
    ensures Answers(snap, ns, flags)
  {
    if ns !in snap {
      return None;
    }
    var laid := Laid(snap, ns);
    var out := Sorted(laid);
    LaidResolves(snap, ns);
    flags := Some(out);
  }

  lemma LaidResolves(snap: Snapshot, ns: NsKey)
    requires SnapshotFiled(snap) && ns in snap
    ensures FiledByKey(Laid(snap, ns))
    ensures forall f: Flag :: f.key in Laid(snap, ns) && Laid(snap, ns)[f.key] == f <==> Resolves(snap, ns, f)
  {
  }

  /** One flag read by itself is the flag a listing of its namespace holds under the key, or
      none where it holds none. A namespace not held reads as the global scope does. */
  lemma AReadIsItsListing(snap: Snapshot, ns: NsKey, key: string, flags: Option<seq<Flag>>)
    requires SnapshotFiled(snap)
    requires Answers(snap, if ns in snap || ns.service == "_global" then ns else NsKey("_global", "_"), flags)
    ensures forall f: Flag :: GetFlag(snap, ns, key) == Some(f) <==> flags.Some? && f in flags.value && f.key == key
  {
    var from := if ns in snap || ns.service == "_global" then ns else NsKey("_global", "_");
    if from in snap {
      forall f: Flag ensures GetFlag(snap, ns, key) == Some(f) <==> f in flags.value && f.key == key {
        assert f in flags.value <==> Resolves(snap, from, f);
      }
    }
  }

  /** One snapshot, one answer. */
  lemma OneAnswer(snap: Snapshot, ns: NsKey, xs: Option<seq<Flag>>, ys: Option<seq<Flag>>)
    requires Answers(snap, ns, xs) && Answers(snap, ns, ys)
    ensures xs == ys
  {
    hide Resolves, InKeyOrder;
    if ns in snap {
      ThereIsOneOrder(xs.value, ys.value);
    }
  }

  /** Where a write of key `key` into `ns` is read: by the service itself, and, in the global
      scope, by every service that holds no flag of its own under the key. */
  predicate ReadsFrom(snap: Snapshot, reader: NsKey, ns: NsKey, key: string) {
    || reader == ns
    || (ns == NsKey("_global", "_") && reader.service != "_global" && (reader in snap ==> key !in snap[reader]))
  }

  function FlagsOf(snap: Snapshot, ns: NsKey): Bucket { if ns in snap then snap[ns] else map[] }

  /** A flip that is done is what its readers read, the whole flag: the value asked for, and
      the description and expensive mark it had, or none. No other read changes. */
  lemma AFlipIsWhatIsRead(s: StoreState, ns: NsKey, key: string, v: Value, w: Weather, reader: NsKey, k: string)
    requires s.snap == View(s.disk) && '@' !in ns.version && '@' !in reader.version
    requires Transacted(s, ns, Flip(key, v, true), true, w).1.Done?
    ensures var t := Transacted(s, ns, Flip(key, v, true), true, w).0;
            GetFlag(t.snap, reader, k) ==
            if k == key && ReadsFrom(s.snap, reader, ns, k)
            then Some(if key in FlagsOf(s.snap, ns) then FlagsOf(s.snap, ns)[key].(value := v) else Flag(key, v, "", false))
            else GetFlag(s.snap, reader, k)
  {
    hide *;
    var n := Render(ns);
    var b := FlipBucket(BucketOf(s.disk, n), key, v);
    DoneMeansPublished(s, ns, Flip(key, v, true), b, w) by {
      AFlipLetThrough(s, ns, key, v, w);
    }
    var now := View(PutBucket(s.disk, n, Some(b)));
    OneNamespaceChanges(s.disk, ns, b, reader);
    HeldIsOnDisk(s.disk, ns);
    FlippedBucket(FlagsOf(s.snap, ns), key, v, k);
    ReadAfter(s.snap, now, ns, b, reader, k);
  }

  /** A deploy that is done is what its readers read, the whole flag: the description and
      mark last declared under the key, and the value the namespace held, or else the one
      first declared. A flag the deploy does not name reads as it did. */
  lemma ADeployIsWhatIsRead(s: StoreState, ns: NsKey, flags: seq<Flag>, w: Weather, reader: NsKey, k: string)
    requires s.snap == View(s.disk) && '@' !in ns.version && '@' !in reader.version
    requires Transacted(s, ns, Publish(flags), true, w).1.Done?
    ensures var t := Transacted(s, ns, Publish(flags), true, w).0;
            GetFlag(t.snap, reader, k) ==
            if Last(flags, k).Some? && ReadsFrom(s.snap, reader, ns, k)
            then Some(Last(flags, k).value.(value := if k in FlagsOf(s.snap, ns) then FlagsOf(s.snap, ns)[k].value
                                                     else First(flags, k).value.value))
            else GetFlag(s.snap, reader, k)
  {
    hide *;
    var n := Render(ns);
    var b := PublishBucket(Opened(BucketOf(s.disk, n)), flags);
    ADeployIsLetThrough(BucketOf(s.disk, n), flags);
    DoneMeansPublished(s, ns, Publish(flags), b, w);
    var now := View(PutBucket(s.disk, n, Some(b)));
    OneNamespaceChanges(s.disk, ns, b, reader);
    HeldIsOnDisk(s.disk, ns);
    PublishMeans(FlagsOf(s.snap, ns), flags, k);
    SomeDeclared(flags, k);
    ReadAfter(s.snap, now, ns, b, reader, k);
  }

  lemma ADeployIsLetThrough(b: Option<Bucket>, flags: seq<Flag>)
    ensures Mutate(b, Publish(flags)) == Changed(Some(PublishBucket(Opened(b), flags)))
  {
    hide PublishBucket;
  }

  lemma AFlipLetThrough(s: StoreState, ns: NsKey, key: string, v: Value, w: Weather)
    requires Transacted(s, ns, Flip(key, v, true), true, w).1.Done?
    ensures Mutate(BucketOf(s.disk, Render(ns)), Flip(key, v, true)) ==
            Changed(Some(FlipBucket(BucketOf(s.disk, Render(ns)), key, v)))
  {
    hide View, PutBucket, BucketOf, FlipBucket, FlipRefused;
  }

  lemma FlippedBucket(was: Bucket, key: string, v: Value, k: string)
    ensures var b := FlipBucket(Some(was), key, v);
            && key in b
            && b[key] == (if key in was then was[key].(value := v) else Flag(key, v, "", false))
            && (k != key ==> (k in b <==> k in was) && (k in was ==> b[k] == was[k]))
  {
  }

  lemma HeldIsOnDisk(disk: Disk, ns: NsKey)
    requires '@' !in ns.version
    ensures FlagsOf(View(disk), ns) == Opened(BucketOf(disk, Render(ns)))
    ensures forall key, v :: FlipBucket(BucketOf(disk, Render(ns)), key, v) == FlipBucket(Some(FlagsOf(View(disk), ns)), key, v)
  {
    ViewServesTheDisk(disk, ns);
    hide View;
  }

  predicate SameFor(was: Snapshot, now: Snapshot, ns: NsKey) {
    (ns in now <==> ns in was) && (ns in now ==> now[ns] == was[ns])
  }

  /** Setting one namespace on disk changes what is served of it and of no other. */
  lemma OneNamespaceChanges(disk: Disk, ns: NsKey, b: Bucket, reader: NsKey)
    requires '@' !in ns.version && '@' !in reader.version
    ensures var was, now := View(disk), View(PutBucket(disk, Render(ns), Some(b)));
            && ns in now && now[ns] == b
            && (reader != ns ==> SameFor(was, now, reader))
            && (NsKey("_global", "_") != ns ==> SameFor(was, now, NsKey("_global", "_")))
  {
    SeenAfter(disk, ns, b, ns);
    SeenAfter(disk, ns, b, reader);
    SeenAfter(disk, ns, b, NsKey("_global", "_"));
    hide View, PutBucket;
  }

  lemma SeenAfter(disk: Disk, ns: NsKey, b: Bucket, reader: NsKey)
    requires '@' !in ns.version && '@' !in reader.version
    ensures var was, now := View(disk), View(PutBucket(disk, Render(ns), Some(b)));
            if reader == ns then reader in now && now[reader] == b else SameFor(was, now, reader)
  {
    ViewServesTheDisk(disk, reader);
    ViewServesTheDisk(PutBucket(disk, Render(ns), Some(b)), reader);
    if Render(reader) == Render(ns) {
      RenderIsInjective(reader, ns);
    }
    hide View;
  }

  /** What a read answers once one namespace holds `b`: its flag under the key if it has one
      for this reader, and else what it answered before; unless it had one there and lost
      it, which no flip and no deploy makes happen. */
  lemma ReadAfter(was: Snapshot, now: Snapshot, ns: NsKey, b: Bucket, reader: NsKey, k: string)
    requires ns in now && now[ns] == b && (k in FlagsOf(was, ns) ==> k in b)
    requires reader != ns ==> SameFor(was, now, reader)
    requires NsKey("_global", "_") != ns ==> SameFor(was, now, NsKey("_global", "_"))
    ensures GetFlag(now, reader, k) ==
            if ReadsFrom(was, reader, ns, k) && k in b then Some(b[k]) else GetFlag(was, reader, k)
    ensures k in b && k in FlagsOf(was, ns) && b[k] == FlagsOf(was, ns)[k] ==> GetFlag(now, reader, k) == GetFlag(was, reader, k)
  {
  }

  lemma DoneMeansPublished(s: StoreState, ns: NsKey, m: Mutation, b: Bucket, w: Weather)
    requires Transacted(s, ns, m, true, w).1.Done?
    requires Mutate(BucketOf(s.disk, Render(ns)), m) == Changed(Some(b))
    ensures Transacted(s, ns, m, true, w).0.snap == View(PutBucket(s.disk, Render(ns), Some(b)))
  {
    hide View, PutBucket, BucketOf, Mutate;
  }

  // ---------------------------------------------------------------- flags stay under their keys

  /** Every flag, on disk and as served, is filed under its own key. */
  ghost predicate Filed(s: StoreState) { WellKeyed(s.disk) && SnapshotFiled(s.snap) }

  lemma MutationFilesByKey(disk: Disk, n: Name, m: Mutation)
    requires WellKeyed(disk) && Mutate(BucketOf(disk, n), m).Changed?
    ensures WellKeyed(PutBucket(disk, n, Mutate(BucketOf(disk, n), m).bucket))
  {
    var b := Opened(BucketOf(disk, n));
    if m.Publish? {
      forall k | k in PublishBucket(b, m.flags) ensures PublishBucket(b, m.flags)[k].key == k {
        PublishMeans(b, m.flags, k);
      }
    }
  }

  lemma ViewIsFiled(disk: Disk)
    requires WellKeyed(disk)
    ensures SnapshotFiled(View(disk))
  {
  }

  lemma {:induction false} ApplyAllFilesByKey(rs: seq<Record>)
    ensures WellKeyed(ApplyAll(map[], rs))
  {
    if rs == [] {
    } else {
      ApplyAllFilesByKey(rs[..|rs|-1]);
    }
  }

  lemma TransactedIsFiled(s: StoreState, ns: NsKey, m: Mutation, w: Weather)
    requires Filed(s)
    ensures Filed(Transacted(s, ns, m, true, w).0)
  {
    hide View, Mutate, PutBucket, BucketOf, WellKeyed, SnapshotFiled;
    var n := Render(ns);
    var changed := Mutate(BucketOf(s.disk, n), m);
    if changed.Changed? {
      MutationFilesByKey(s.disk, n, m);
      UndoIsExact(s.disk, n, changed.bucket);
      ViewIsFiled(PutBucket(s.disk, n, changed.bucket));
    }
    ViewIsFiled(s.disk);
  }

  lemma StepIsFiled(w: World, e: Event)
    requires Filed(w.store)
    ensures Filed(Step(w, e).store)
  {
    ViewIsFiled(w.store.disk);
    match e
    case Write(ns, m, wx) => TransactedIsFiled(w.store, ns, Enforced(m), wx);
    case Notice(lag) =>
    case Reopen =>
    case CrashBeforeRecord(ns, m) =>
      var n := Render(ns);
      var changed := Mutate(BucketOf(w.store.disk, n), Enforced(m));
      if changed.Changed? {
        MutationFilesByKey(w.store.disk, n, Enforced(m));
        ViewIsFiled(PutBucket(w.store.disk, n, changed.bucket));
      }
    case Wipe => RebuiltIsFiled(w.log, 0, Highest(w.log));
    case RestoreTo(to, recorded) => RebuiltIsFiled(w.log, to, w.store.durable + 1);
  }

  lemma RebuiltIsFiled(log: seq<Record>, to: nat, revision: nat)
    ensures Filed(Rebuilt(log, to, revision))
  {
    ApplyAllFilesByKey(Pick(log, InForce(log, to), BoundOf(to)));
    ViewIsFiled(Replay(log, to));
  }

  /** So every snapshot any run serves can be listed. */
  lemma {:induction false} EveryRunIsFiled(legacy: seq<Record>, es: seq<Event>)
    ensures Filed(Exec(Start(legacy), es).store)
  {
    hide *;
    if es == [] {
      NoEvent(Start(legacy));
      AFirstBootIsRebuilt(legacy);
      RebuiltIsFiled(legacy, 0, 0);
    } else {
      EveryRunIsFiled(legacy, es[..|es|-1]);
      OneMoreEvent(Start(legacy), es);
      StepIsFiled(Exec(Start(legacy), es[..|es|-1]), es[|es|-1]);
    }
  }

  lemma AFirstBootIsRebuilt(legacy: seq<Record>)
    ensures Start(legacy).store == Rebuilt(legacy, 0, 0)
  {
  }

  // ---------------------------------------------------------------- the checkpoint

  datatype Answer = Unchanged(revision: nat) | Held(revision: nat, flags: seq<Flag>) | NotFound

  /** handleGetNamespace: one number against one number before the store is read. */
  method HandleGetNamespace(s: StoreState, ns: NsKey, since: nat) returns (a: Answer)
    requires SnapshotFiled(s.snap)
    ensures a.Unchanged? <==> since != 0 && since == s.revision
    ensures a.Unchanged? ==> a.revision == s.revision
    ensures a.NotFound? ==> ns !in s.snap
    ensures a.Held? ==> a.revision == s.revision && Answers(s.snap, ns, Some(a.flags))
  {
    if since != 0 && since == s.revision {
      return Unchanged(s.revision);
    }
    var flags := GetNamespace(s.snap, ns);
    a := if flags.Some? then Held(s.revision, flags.value) else NotFound;
  }

  /** A caller answered in full, and later told `unchanged` by the same store, holds what it
      would be answered in full. */
  lemma {:induction false} UnchangedHidesNothing(w: World, es: seq<Event>, ns: NsKey, held: Option<seq<Flag>>, now: Option<seq<Flag>>)
    requires w.store.durable == w.store.revision && w.store.snap == View(w.store.disk)
    requires Exec(w, es).generation == w.generation && Exec(w, es).store.revision == w.store.revision
    requires Answers(w.store.snap, ns, held) && Answers(Exec(w, es).store.snap, ns, now)
    ensures held == now
  {
    hide Answers, Exec, View;
    RunWithinAGeneration(w, es);
    OneAnswer(w.store.snap, ns, held, now);
  }
}
