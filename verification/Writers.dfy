/**
 Writers interleaved: each transact taken apart into the steps another goroutine can run
 between, ordered by the writer lock, with readers loading the snapshot at any moment
 (store.go). Whatever the schedule, the store is the one the writes make one after
 another in the order they took the lock.
 */
module Writers {
  import opened Flags
  import opened Oplog
  import opened Recovery
  import opened Runs
  import opened Store
  import opened TimeTravel

  type Writer = nat

  datatype Request = Request(ns: NsKey, m: Mutation, w: Weather)

  /** Where a writer stands in transact, with what it holds on its stack: the namespace it
      captured, and the disk its reload's read transaction saw. */
  datatype Phase =
    | Idle
    | Locked(req: Request)
    | Landed(req: Request, prior: Option<Bucket>)
    | Numbered(req: Request, prior: Option<Bucket>)
    | Viewed(req: Request, prior: Option<Bucket>, seen: Disk, at: nat)
    | Shown(req: Request, prior: Option<Bucket>)
    | Unrecorded(req: Request, prior: Option<Bucket>)
    | PutBack(req: Request, prior: Option<Bucket>)
    | Reviewed(req: Request, prior: Option<Bucket>, seen: Disk, at: nat)
    | Finishing(req: Request, out: Outcome)

  /** The shared store and file, the lock, and every writer's phase. `mutex` says whether
      the lock is honoured. Bookkeeping: the contents every commit left, which of them the
      snapshot shows, and the requests finished, in order. */
  datatype Sys = Sys(store: StoreState, log: seq<Record>, mutex: bool, owner: Option<Writer>,
                     writers: map<Writer, Phase>, history: seq<Disk>, shown: nat, finished: seq<Request>)

  function PhaseOf(s: Sys, t: Writer): Phase {
    if t in s.writers then s.writers[t] else Idle
  }

  function Enter(s: Sys, t: Writer, p: Phase): Sys { s.(writers := s.writers[t := p]) }

  // ---------------------------------------------------------------- the steps

  /** Take the lock with a request in hand; blocked while another writer holds it. */
  function Begin(s: Sys, t: Writer, req: Request): Sys {
    if PhaseOf(s, t).Idle? && (s.mutex ==> s.owner.None?)
    then Enter(s.(owner := Some(t)), t, Locked(req)) else s
  }

  function Commit(s: Sys, t: Writer, req: Request): Sys {
    var n := Render(req.ns);
    var prior := BucketOf(s.store.disk, n);
    match Mutate(prior, req.m)
    case Turned(refusal) => Enter(s, t, Finishing(req, Refused(refusal)))
    case Changed(b) =>
      if !req.w.commit then Enter(s.(store := s.store.(failed := true)), t, Finishing(req, CommitFailed))
      else
        var disk := PutBucket(s.store.disk, n, b);
        Enter(s.(store := s.store.(disk := disk, durable := s.store.revision + 1), history := s.history + [disk]),
              t, Landed(req, prior))
  }

  function Reload(s: Sys, t: Writer, readable: bool, seen: Phase, out: Outcome): Sys
    requires !PhaseOf(s, t).Idle?
  {
    if readable then Enter(s, t, seen)
    else Enter(s.(store := s.store.(failed := true)), t, Finishing(PhaseOf(s, t).req, out))
  }

  function Show(s: Sys, seen: Disk, at: nat): Sys {
    s.(store := s.store.(snap := View(seen)), shown := at)
  }

  /** The writer's next step. Every one is a single access to something shared, but that
      publishing a snapshot clears the failure note in the same step. */
  function Advance(s: Sys, t: Writer): Sys {
    match PhaseOf(s, t)
    case Idle => s
    case Locked(req) => Commit(s, t, req)
    case Landed(req, prior) =>
      Enter(s.(store := s.store.(revision := s.store.revision + 1)), t, Numbered(req, prior))
    case Numbered(req, prior) =>
      Reload(s, t, req.w.reload, Viewed(req, prior, s.store.disk, |s.history|), ReloadFailed)
    case Viewed(req, prior, seen, at) =>
      var shown := Show(s, seen, at);
      Enter(shown.(store := shown.store.(failed := false)), t, Shown(req, prior))
    case Shown(req, prior) =>
      if req.w.sink
      then Enter(s.(log := s.log + [RecordFor(req.ns, req.m, s.store.revision)]), t, Finishing(req, Done))
      else Enter(s, t, Phase.Unrecorded(req, prior))
    case Unrecorded(req, prior) =>
      if !req.w.undo then Enter(s.(store := s.store.(failed := true)), t, Finishing(req, Unlogged(false)))
      else
        var disk := PutBucket(s.store.disk, Render(req.ns), prior);
        Enter(s.(store := s.store.(disk := disk), history := s.history + [disk]), t, PutBack(req, prior))
    case PutBack(req, prior) =>
      Reload(s, t, req.w.undoReload, Reviewed(req, prior, s.store.disk, |s.history|), Unlogged(false))
    case Reviewed(req, prior, seen, at) =>
      Enter(Show(s, seen, at), t, Finishing(req, Unlogged(true)))
    case Finishing(req, out) =>
      Enter(s.(owner := None, finished := s.finished + [req]), t, Idle)
  }

  datatype Move = Take(t: Writer, req: Request) | Go(t: Writer)

  function Moved(s: Sys, mv: Move): Sys {
    match mv
    case Take(t, req) => Begin(s, t, req)
    case Go(t) => Advance(s, t)
  }

  function Schedule(s: Sys, moves: seq<Move>): Sys {
    if moves == [] then s else Moved(Schedule(s, moves[..|moves|-1]), moves[|moves|-1])
  }

  /** A store at rest, readers seeing its disk. */
  function Quiet(store: StoreState, log: seq<Record>, mutex: bool): Sys {
    Sys(store, log, mutex, None, map[], [store.disk], 1, [])
  }

  // ---------------------------------------------------------------- one after another

  /** The requests done one after another, each as a whole. */
  function Serial(store: StoreState, log: seq<Record>, done: seq<Request>): (StoreState, seq<Record>) {
    if done == [] then (store, log)
    else
      var (s, l) := Serial(store, log, done[..|done|-1]);
      InOneGo(s, l, done[|done|-1])
  }

  function InOneGo(s: StoreState, l: seq<Record>, req: Request): (StoreState, seq<Record>) {
    Whole(s, l, req.ns, req.m, req.w)
  }

  // ---------------------------------------------------------------- the invariant

  /** How far a writer in a phase has taken the store from where it took the lock. */
  predicate PartWay(p: Phase, base: StoreState, baseLog: seq<Record>, store: StoreState, log: seq<Record>) {
    match p
    case Idle => false
    case Locked(req) => store == base && log == baseLog
    case Finishing(req, out) => (store, log) == InOneGo(base, baseLog, req)
    case _ =>
      var n := Render(p.req.ns);
      var changed := Mutate(BucketOf(base.disk, n), p.req.m);
      && changed.Changed? && p.req.w.commit && p.prior == BucketOf(base.disk, n) && log == baseLog
      && var committed := Committed(base, n, changed.bucket);
         var published := Published(committed).(failed := false);
         match p
         case Landed(_, _) => store == committed.(revision := base.revision)
         case Numbered(_, _) => store == committed
         case Viewed(_, _, seen, _) => store == committed && seen == store.disk && p.req.w.reload
         case Shown(_, _) => store == published && p.req.w.reload
         case Unrecorded(_, _) => store == published && p.req.w.reload && !p.req.w.sink
         case PutBack(_, _) =>
           store == Undone(published, n, p.prior) && p.req.w.reload && !p.req.w.sink && p.req.w.undo
         case Reviewed(_, _, seen, _) =>
           && store == Undone(published, n, p.prior) && seen == store.disk
           && p.req.w.reload && !p.req.w.sink && p.req.w.undo && p.req.w.undoReload
         case _ => false
  }

  predicate OnlyTheOwnerMoves(s: Sys) {
    forall t :: t in s.writers && Some(t) != s.owner ==> s.writers[t].Idle?
  }

  /** A reload under way saw the last commit, and the snapshot shows one no later. */
  predicate Chronicled(s: Sys) {
    && |s.history| >= 1 && s.history[|s.history|-1] == s.store.disk
    && 1 <= s.shown <= |s.history| && s.store.snap == View(s.history[s.shown-1])
    && (forall t :: t in s.writers && (s.writers[t].Viewed? || s.writers[t].Reviewed?) ==>
                      s.writers[t].at == |s.history| && s.writers[t].seen == s.store.disk)
  }

  predicate Ordered(s: Sys, store: StoreState, log: seq<Record>) {
    && s.mutex && OnlyTheOwnerMoves(s) && Chronicled(s)
    && var (base, baseLog) := Serial(store, log, s.finished);
       match s.owner
       case None => s.store == base && s.log == baseLog
       case Some(t) => t in s.writers && PartWay(s.writers[t], base, baseLog, s.store, s.log)
  }

  // ---------------------------------------------------------------- every step keeps it

  lemma CommitIsPartWay(s: Sys, t: Writer, req: Request)
    ensures var v := Commit(s, t, req);
            PartWay(v.writers[t], s.store, s.log, v.store, v.log)
  {
    hide View, PutBucket, BucketOf, Mutate;
  }

  lemma PublishingIsPartWay(s: Sys, t: Writer, base: StoreState, baseLog: seq<Record>)
    requires t in s.writers && (s.writers[t].Landed? || s.writers[t].Numbered? || s.writers[t].Viewed?)
    requires PartWay(s.writers[t], base, baseLog, s.store, s.log)
    ensures var v := Advance(s, t);
            PartWay(v.writers[t], base, baseLog, v.store, v.log)
  {
    hide View, PutBucket, BucketOf, Mutate, RecordFor, Commit;
  }

  lemma RecordingIsPartWay(s: Sys, t: Writer, base: StoreState, baseLog: seq<Record>)
    requires t in s.writers && (s.writers[t].Shown? || s.writers[t].Unrecorded?)
    requires PartWay(s.writers[t], base, baseLog, s.store, s.log)
    ensures var v := Advance(s, t);
            PartWay(v.writers[t], base, baseLog, v.store, v.log)
  {
    hide View, PutBucket, BucketOf, Mutate, RecordFor, Commit;
  }

  lemma UndoingIsPartWay(s: Sys, t: Writer, base: StoreState, baseLog: seq<Record>)
    requires t in s.writers && (s.writers[t].PutBack? || s.writers[t].Reviewed?)
    requires PartWay(s.writers[t], base, baseLog, s.store, s.log)
    ensures var v := Advance(s, t);
            PartWay(v.writers[t], base, baseLog, v.store, v.log)
  {
    hide View, PutBucket, BucketOf, Mutate, RecordFor, Commit;
  }

  /** A writer's step takes the store one step further through its own transact. */
  lemma AdvanceIsPartWay(s: Sys, t: Writer, base: StoreState, baseLog: seq<Record>)
    requires t in s.writers && !s.writers[t].Finishing?
    requires PartWay(s.writers[t], base, baseLog, s.store, s.log)
    ensures var v := Advance(s, t);
            t in v.writers && PartWay(v.writers[t], base, baseLog, v.store, v.log)
  {
    var p := s.writers[t];
    WhoMoves(s, t);
    LockedMeansUntouched(p, base, baseLog, s.store, s.log);
    hide *;
    if p.Locked? {
      CommitIsPartWay(s, t, p.req);
      LockedCommits(s, t);
    } else if p.Landed? || p.Numbered? || p.Viewed? {
      PublishingIsPartWay(s, t, base, baseLog);
    } else if p.Shown? || p.Unrecorded? {
      RecordingIsPartWay(s, t, base, baseLog);
    } else {
      UndoingIsPartWay(s, t, base, baseLog);
    }
  }

  lemma LockedMeansUntouched(p: Phase, base: StoreState, baseLog: seq<Record>, store: StoreState, log: seq<Record>)
    requires PartWay(p, base, baseLog, store, log)
    ensures !p.Idle? && (p.Locked? ==> store == base && log == baseLog)
  {
  }

  lemma LockedCommits(s: Sys, t: Writer)
    requires t in s.writers && s.writers[t].Locked?
    ensures Advance(s, t) == Commit(s, t, s.writers[t].req)
  {
    hide Commit;
  }

  /** Only the stepping writer's phase changes, and the lock only when it finishes. */
  lemma WhoMoves(s: Sys, t: Writer)
    requires t in s.writers
    ensures var v := Advance(s, t);
            && v.writers.Keys == s.writers.Keys && v.mutex == s.mutex
            && (forall u :: u in s.writers && u != t ==> v.writers[u] == s.writers[u])
            && (s.writers[t].Finishing? ==>
                  && v == Enter(s.(owner := None, finished := s.finished + [s.writers[t].req]), t, Idle))
            && (!s.writers[t].Finishing? ==> v.owner == s.owner && v.finished == s.finished)
  {
    hide View, PutBucket, BucketOf, Mutate, RecordFor, Commit;
    if s.writers[t].Locked? {
      CommitIsOneAccess(s, t, s.writers[t].req);
    }
  }

  lemma CommitIsOneAccess(s: Sys, t: Writer, req: Request)
    requires t in s.writers
    ensures var v := Commit(s, t, req);
            && v.writers == s.writers[t := v.writers[t]] && v.mutex == s.mutex && v.owner == s.owner
            && v.finished == s.finished && v.shown == s.shown && v.store.snap == s.store.snap
            && !v.writers[t].Viewed? && !v.writers[t].Reviewed?
            && ((v.history == s.history && v.store.disk == s.store.disk) || v.history == s.history + [v.store.disk])
  {
    hide View, PutBucket, BucketOf, Mutate;
  }

  /** What a step does to the commits and to what is shown: nothing, one more commit, a
      look at the last commit, or the showing of what was looked at. */
  predicate OneAccess(s: Sys, v: Sys, p: Phase, q: Phase) {
    if p.Viewed? || p.Reviewed? then
      && v.history == s.history && v.store.disk == s.store.disk
      && v.shown == p.at && v.store.snap == View(p.seen) && !q.Viewed? && !q.Reviewed?
    else
      && v.shown == s.shown && v.store.snap == s.store.snap
      && (|| (v.history == s.history && v.store.disk == s.store.disk
              && (q.Viewed? || q.Reviewed? ==> q.at == |s.history| && q.seen == s.store.disk))
          || (v.history == s.history + [v.store.disk] && !q.Viewed? && !q.Reviewed?))
  }

  lemma ShowingIsOneAccess(s: Sys, t: Writer)
    requires t in s.writers && (s.writers[t].Viewed? || s.writers[t].Reviewed?)
    ensures OneAccess(s, Advance(s, t), s.writers[t], Advance(s, t).writers[t])
  {
    hide View, PutBucket, BucketOf, Mutate, RecordFor, Commit;
  }

  lemma LookingIsOneAccess(s: Sys, t: Writer)
    requires t in s.writers && (s.writers[t].Numbered? || s.writers[t].PutBack?)
    ensures OneAccess(s, Advance(s, t), s.writers[t], Advance(s, t).writers[t])
  {
    hide View, PutBucket, BucketOf, Mutate, RecordFor, Commit;
  }

  lemma OtherwiseOneAccess(s: Sys, t: Writer)
    requires t in s.writers && (s.writers[t].Idle? || s.writers[t].Landed? || s.writers[t].Shown?
                                || s.writers[t].Unrecorded? || s.writers[t].Finishing?)
    ensures OneAccess(s, Advance(s, t), s.writers[t], Advance(s, t).writers[t])
  {
    hide View, PutBucket, BucketOf, Mutate, RecordFor, Commit;
  }

  lemma AdvanceIsOneAccess(s: Sys, t: Writer)
    requires t in s.writers
    ensures OneAccess(s, Advance(s, t), s.writers[t], Advance(s, t).writers[t])
  {
    var p := s.writers[t];
    hide Commit, View, Advance;
    if p.Locked? {
      LockedCommits(s, t);
      CommitIsOneAccess(s, t, p.req);
    } else if p.Viewed? || p.Reviewed? {
      ShowingIsOneAccess(s, t);
    } else if p.Numbered? || p.PutBack? {
      LookingIsOneAccess(s, t);
    } else {
      OtherwiseOneAccess(s, t);
    }
  }

  lemma AdvanceKeepsTheChronicle(s: Sys, t: Writer)
    requires Chronicled(s) && OnlyTheOwnerMoves(s) && s.owner == Some(t) && t in s.writers
    ensures var v := Advance(s, t);
            && Chronicled(v) && v.shown >= s.shown
            && (v.store.snap != s.store.snap ==> v.shown == |v.history| && v.store.snap == View(v.store.disk))
            && OnlyTheOwnerMoves(v)
  {
    hide View, Advance;
    WhoMoves(s, t);
    AdvanceIsOneAccess(s, t);
  }

  lemma HistoryOnlyGrows(s: Sys, t: Writer)
    requires t in s.writers
    ensures s.history <= Advance(s, t).history
  {
    hide View, Advance;
    AdvanceIsOneAccess(s, t);
  }

  lemma BeginKeepsOrder(s: Sys, t: Writer, req: Request, store: StoreState, log: seq<Record>)
    requires Ordered(s, store, log)
    ensures Ordered(Begin(s, t, req), store, log)
    ensures Begin(s, t, req).shown == s.shown && Begin(s, t, req).history == s.history
  {
    hide View, Serial;
  }

  lemma GoKeepsOrder(s: Sys, t: Writer, store: StoreState, log: seq<Record>)
    requires Ordered(s, store, log)
    ensures Ordered(Advance(s, t), store, log)
    ensures Advance(s, t).shown >= s.shown && s.history <= Advance(s, t).history
  {
    hide View, Chronicled, Whole, InOneGo, Commit, Reload, Mutate;
    if t in s.writers && !s.writers[t].Idle? {
      var (base, baseLog) := Serial(store, log, s.finished);
      WhoMoves(s, t);
      HistoryOnlyGrows(s, t);
      AdvanceKeepsTheChronicle(s, t);
      if s.writers[t].Finishing? {
        var done := s.finished + [s.writers[t].req];
        assert done[..|done|-1] == s.finished;
        assert Serial(store, log, done) == InOneGo(base, baseLog, s.writers[t].req);
      } else {
        AdvanceIsPartWay(s, t, base, baseLog);
      }
    }
  }

  lemma MoveKeepsOrder(s: Sys, mv: Move, store: StoreState, log: seq<Record>)
    requires Ordered(s, store, log)
    ensures Ordered(Moved(s, mv), store, log)
    ensures Moved(s, mv).shown >= s.shown && s.history <= Moved(s, mv).history
  {
    hide Ordered, Begin, Advance;
    if mv.Take? {
      BeginKeepsOrder(s, mv.t, mv.req, store, log);
    } else {
      GoKeepsOrder(s, mv.t, store, log);
    }
  }

  /** Every schedule of any number of writers keeps to the order of the lock. */
  lemma {:induction false} EveryScheduleIsOrdered(store: StoreState, log: seq<Record>, moves: seq<Move>)
    requires store.snap == View(store.disk)
    ensures Ordered(Schedule(Quiet(store, log, true), moves), store, log)
  {
    if moves == [] {
    } else {
      EveryScheduleIsOrdered(store, log, moves[..|moves|-1]);
      MoveKeepsOrder(Schedule(Quiet(store, log, true), moves[..|moves|-1]), moves[|moves|-1], store, log);
      hide Ordered, Moved, Quiet;
    }
  }

  // ---------------------------------------------------------------- what follows

  function AsEvents(reqs: seq<Request>): seq<Event> {
    if reqs == [] then []
    else
      var r := reqs[|reqs|-1];
      AsEvents(reqs[..|reqs|-1]) + [Event.Write(r.ns, r.m, r.w)]
  }

  lemma {:induction false} SerialIsARun(w: World, reqs: seq<Request>)
    requires forall r :: r in reqs ==> Enforced(r.m) == r.m
    ensures var v := Exec(w, AsEvents(reqs));
            (v.store, v.log) == Serial(w.store, w.log, reqs)
  {
    hide Transacted, RecordFor, View;
    if reqs == [] {
    } else {
      var init, r := reqs[..|reqs|-1], reqs[|reqs|-1];
      SerialIsARun(w, init);
      Snoc(AsEvents(init), Event.Write(r.ns, r.m, r.w));
      NumberTaken(Exec(w, AsEvents(init)).store, r);
    }
  }

  lemma NumberTaken(s: StoreState, r: Request)
    ensures var (t, out) := Transacted(s, r.ns, r.m, true, r.w);
            out.Done? ==> t.revision == s.revision + 1
  {
    hide View, PutBucket, BucketOf, Mutate;
  }

  /** Whenever the lock is free, whatever the schedule, the shared store and file are
      those of a run that does the finished writes one by one; so every guarantee over
      runs is one over schedules. */
  lemma AFreeLockMeansASerialRun(w: World, moves: seq<Move>)
    requires w.store.snap == View(w.store.disk)
    ensures var s := Schedule(Quiet(w.store, w.log, true), moves);
            s.owner.None? && (forall r :: r in s.finished ==> Enforced(r.m) == r.m) ==>
              var v := Exec(w, AsEvents(s.finished));
              s.store == v.store && s.log == v.log
  {
    hide Schedule, Exec, Serial, AsEvents, Chronicled, OnlyTheOwnerMoves, View, PartWay;
    EveryScheduleIsOrdered(w.store, w.log, moves);
    var s := Schedule(Quiet(w.store, w.log, true), moves);
    if forall r :: r in s.finished ==> Enforced(r.m) == r.m {
      SerialIsARun(w, s.finished);
    }
  }

  /** What a kill would make of the write the lock's holder has in hand, as an event of a
      run: nothing yet, a commit without its record, or the write gone through or undone. */
  function InHand(s: Sys): seq<Event> {
    if s.owner.None? then []
    else
      match PhaseOf(s, s.owner.value)
      case Idle => []
      case Locked(_) => []
      case PutBack(req, _) => [Event.Write(req.ns, req.m, req.w)]
      case Reviewed(req, _, _, _) => [Event.Write(req.ns, req.m, req.w)]
      case Finishing(req, _) => [Event.Write(req.ns, req.m, req.w)]
      case p => [CrashBeforeRecord(p.req.ns, p.req.m)]
  }

  predicate Enforces(s: Sys) {
    && (forall r :: r in s.finished ==> Enforced(r.m) == r.m)
    && (s.owner.Some? && !PhaseOf(s, s.owner.value).Idle? ==>
          var m := PhaseOf(s, s.owner.value).req.m; Enforced(m) == m)
  }

  lemma KilledBetween(s: Sys, base: World, t: Writer)
    requires s.owner == Some(t) && t in s.writers && PartWay(s.writers[t], base.store, base.log, s.store, s.log)
    requires s.writers[t].Landed? || s.writers[t].Numbered? || s.writers[t].Viewed?
             || s.writers[t].Shown? || s.writers[t].Unrecorded?
    requires Enforced(s.writers[t].req.m) == s.writers[t].req.m
    ensures var v := Step(base, CrashBeforeRecord(s.writers[t].req.ns, s.writers[t].req.m));
            v.store == Reopened(s.store) && v.log == s.log
  {
    hide View, PutBucket, BucketOf, Mutate;
  }

  lemma KilledPutBack(s: Sys, base: World, t: Writer)
    requires s.owner == Some(t) && t in s.writers && PartWay(s.writers[t], base.store, base.log, s.store, s.log)
    requires s.writers[t].PutBack? || s.writers[t].Reviewed?
    requires Enforced(s.writers[t].req.m) == s.writers[t].req.m
    ensures var v := Step(base, Event.Write(s.writers[t].req.ns, s.writers[t].req.m, s.writers[t].req.w));
            Reopened(v.store) == Reopened(s.store) && v.log == s.log
  {
    hide View, PutBucket, BucketOf, Mutate, RecordFor, Declare;
  }

  lemma KilledFinishing(s: Sys, base: World, t: Writer)
    requires s.owner == Some(t) && t in s.writers && PartWay(s.writers[t], base.store, base.log, s.store, s.log)
    requires s.writers[t].Finishing? && Enforced(s.writers[t].req.m) == s.writers[t].req.m
    ensures var v := Step(base, Event.Write(s.writers[t].req.ns, s.writers[t].req.m, s.writers[t].req.w));
            v.store == s.store && v.log == s.log
  {
    hide Transacted, RecordFor, Declare;
    NumberTaken(base.store, s.writers[t].req);
  }

  lemma ReopenedTwice(s: StoreState)
    ensures Reopened(Reopened(s)) == Reopened(s)
  {
    hide View;
  }

  lemma ReopenIs(w: World)
    ensures Step(w, Reopen).store == Reopened(w.store) && Step(w, Reopen).log == w.log
  {
    hide Reopened;
  }

  lemma OrderedSays(s: Sys, store: StoreState, log: seq<Record>)
    requires Ordered(s, store, log)
    ensures var (base, baseLog) := Serial(store, log, s.finished);
            match s.owner
            case None => s.store == base && s.log == baseLog
            case Some(t) => t in s.writers && PartWay(s.writers[t], base, baseLog, s.store, s.log)
  {
    hide Chronicled, Serial, PartWay;
  }

  /** The process killed at any step of any schedule: what the next one opens, disk, number
      and file, is what a run leaves that does the finished writes one by one, at most one
      event more, and reopens. So a kill is never more than the events of a run, and every
      guarantee over runs covers it. */
  lemma AKillAtAnyMomentIsARun(w: World, moves: seq<Move>)
    requires w.store.snap == View(w.store.disk)
    ensures var s := Schedule(Quiet(w.store, w.log, true), moves);
            Enforces(s) ==>
              var v := Exec(w, AsEvents(s.finished) + InHand(s) + [Reopen]);
              v.store == Reopened(s.store) && v.log == s.log
  {
    hide *;
    var s := Schedule(Quiet(w.store, w.log, true), moves);
    EveryScheduleIsOrdered(w.store, w.log, moves);
    OrderedSays(s, w.store, w.log);
    if Enforces(s) {
      EnforcesSays(s);
      SerialIsARun(w, s.finished);
      var es := AsEvents(s.finished);
      var base := Exec(w, es);
      if s.owner.Some? {
        KilledInHand(s, base, s.owner.value);
      } else {
        NothingInHand(s);
        ReopenIs(base);
      }
      AtMostOneMore(w, es, InHand(s));
    }
  }

  lemma EnforcesSays(s: Sys)
    requires Enforces(s)
    ensures forall r :: r in s.finished ==> Enforced(r.m) == r.m
  {
    hide Enforced;
  }

  lemma NothingInHand(s: Sys)
    requires s.owner.None?
    ensures InHand(s) == []
  {
  }

  /** A run with at most one event more, and reopened. */
  lemma AtMostOneMore(w: World, es: seq<Event>, more: seq<Event>)
    requires |more| <= 1
    ensures Exec(w, es + more + [Reopen]) ==
            Step(if more == [] then Exec(w, es) else Step(Exec(w, es), more[0]), Reopen)
  {
    hide Step;
    Snoc(es + more, Reopen);
    if more == [] {
      assert es + more == es;
    } else {
      assert es + more == es + [more[0]];
      Snoc(es, more[0]);
    }
  }

  lemma KilledInHand(s: Sys, base: World, t: Writer)
    requires s.owner == Some(t) && t in s.writers && Enforces(s)
    requires PartWay(s.writers[t], base.store, base.log, s.store, s.log)
    ensures |InHand(s)| <= 1
    ensures var v := Step(if InHand(s) == [] then base else Step(base, InHand(s)[0]), Reopen);
            v.store == Reopened(s.store) && v.log == s.log
  {
    var p := s.writers[t];
    LockedMeansUntouched(p, base.store, base.log, s.store, s.log);
    hide PartWay, Step, Reopened, Enforced;
    match p
    case Idle =>
    case Locked(_) => ReopenIs(base);
    case Finishing(req, _) =>
      KilledFinishing(s, base, t);
      ReopenIs(Step(base, InHand(s)[0]));
    case PutBack(req, _) =>
      KilledPutBack(s, base, t);
      ReopenIs(Step(base, InHand(s)[0]));
    case Reviewed(req, _, _, _) =>
      KilledPutBack(s, base, t);
      ReopenIs(Step(base, InHand(s)[0]));
    case _ =>
      KilledBetween(s, base, t);
      ReopenIs(Step(base, InHand(s)[0]));
      ReopenedTwice(s.store);
  }

  lemma OrderedMeansChronicled(s: Sys, store: StoreState, log: seq<Record>)
    requires Ordered(s, store, log)
    ensures |s.history| >= s.shown >= 1 && s.store.snap == View(s.history[s.shown-1])
    ensures |s.history| >= 1 && s.history[|s.history|-1] == s.store.disk
  {
    hide View, Serial, PartWay;
  }

  /** A reader at any moment is served the contents some commit left, and of two readers
      the later is served a commit no earlier: no older snapshot ever replaces a newer. */
  lemma {:induction false} ReadersNeverGoBack(store: StoreState, log: seq<Record>, moves: seq<Move>, k: nat)
    requires store.snap == View(store.disk) && k <= |moves|
    ensures var early, late := Schedule(Quiet(store, log, true), moves[..k]), Schedule(Quiet(store, log, true), moves);
            && 1 <= early.shown <= late.shown <= |late.history| && early.history <= late.history
            && early.shown <= |early.history| && early.store.snap == View(early.history[early.shown-1])
            && late.store.snap == View(late.history[late.shown-1])
  {
    hide *;
    var s := Quiet(store, log, true);
    EveryScheduleIsOrdered(store, log, moves);
    EveryScheduleIsOrdered(store, log, moves[..k]);
    OrderedMeansChronicled(Schedule(s, moves), store, log);
    OrderedMeansChronicled(Schedule(s, moves[..k]), store, log);
    if k == |moves| {
      assert moves[..k] == moves;
    } else {
      var init, mv := moves[..|moves|-1], moves[|moves|-1];
      assert init[..k] == moves[..k];
      ReadersNeverGoBack(store, log, init, k);
      EveryScheduleIsOrdered(store, log, init);
      OneMoreMove(s, moves);
      MoveKeepsOrder(Schedule(s, init), mv, store, log);
    }
  }

  lemma OneMoreMove(s: Sys, moves: seq<Move>)
    requires moves != []
    ensures Schedule(s, moves) == Moved(Schedule(s, moves[..|moves|-1]), moves[|moves|-1])
  {
    hide Moved;
  }

  predicate Repaired(store: StoreState, log: seq<Record>, done: seq<Request>) {
    done == [] ||
    (var (s, l) := Serial(store, log, done[..|done|-1]);
     var r := done[|done|-1];
     Repaired(store, log, done[..|done|-1]) && !Unrepaired(Transacted(s, r.ns, r.m, true, r.w).1))
  }

  lemma {:induction false} RepairedMeansSeen(store: StoreState, log: seq<Record>, done: seq<Request>)
    requires store.snap == View(store.disk) && Repaired(store, log, done)
    ensures Serial(store, log, done).0.snap == View(Serial(store, log, done).0.disk)
  {
    hide View, Transacted, Mutate, BucketOf, Unrepaired;
    if done == [] {
    } else {
      RepairedMeansSeen(store, log, done[..|done|-1]);
      var r := done[|done|-1];
      var (s, l) := Serial(store, log, done[..|done|-1]);
      EveryWriteEndsOneOfTwoWays(s, l, r.ns, r.m, r.w);
    }
  }

  /** With the lock free and no finished write left unrepaired, readers see the disk. */
  lemma AFreeLockMeansReadersSeeTheDisk(store: StoreState, log: seq<Record>, moves: seq<Move>)
    requires store.snap == View(store.disk)
    ensures var s := Schedule(Quiet(store, log, true), moves);
            s.owner.None? && Repaired(store, log, s.finished) ==> s.store.snap == View(s.store.disk)
  {
    hide Schedule, Serial, View, Chronicled, PartWay, OnlyTheOwnerMoves, Repaired;
    var s := Schedule(Quiet(store, log, true), moves);
    EveryScheduleIsOrdered(store, log, moves);
    if Repaired(store, log, s.finished) {
      RepairedMeansSeen(store, log, s.finished);
    }
  }

  // ---------------------------------------------------------------- without the lock

  const A: Writer := 1
  const B: Writer := 2
  const SET_ON := Request(NS, Flip("gpu", BoolValue(true), true), FAIR)
  const SET_OFF := Request(NS, Flip("gpu", BoolValue(false), true), FAIR)

  lemma {:induction false} ScheduleConcat(s: Sys, xs: seq<Move>, ys: seq<Move>)
    ensures Schedule(s, xs + ys) == Schedule(Schedule(s, xs), ys)
  {
    hide Moved;
    if ys == [] {
      assert xs + ys == xs;
    } else {
      assert (xs + ys)[..|xs + ys| - 1] == xs + ys[..|ys|-1];
      ScheduleConcat(s, xs, ys[..|ys|-1]);
    }
  }

  lemma {:induction false} ThreeMoves(s: Sys, x: Move, y: Move, z: Move)
    ensures Schedule(s, [x, y, z]) == Moved(Moved(Moved(s, x), y), z)
  {
    hide Moved;
    assert [x, y, z][..2] == [x, y] && [x, y][..1] == [x] && [x][..0] == [];
    assert Schedule(s, [x]) == Moved(Schedule(s, []), x) == Moved(s, x);
    assert Schedule(s, [x, y]) == Moved(Schedule(s, [x]), y);
  }

  /** A writer up to the moment its reload has read the disk and not yet published. */
  lemma UpToTheView(s: Sys, t: Writer, req: Request, b: Bucket)
    requires PhaseOf(s, t).Idle? && !s.mutex && req.w == FAIR
    requires Mutate(BucketOf(s.store.disk, Render(req.ns)), req.m) == Changed(Some(b))
    ensures var v := Schedule(Schedule(s, [Take(t, req)]), [Go(t), Go(t), Go(t)]);
            var disk := s.store.disk[Render(req.ns) := b];
            && v.store.disk == disk && v.store.snap == s.store.snap && !v.mutex
            && PhaseOf(v, t).Viewed? && PhaseOf(v, t).req == req && PhaseOf(v, t).seen == disk
            && (forall u :: u != t ==> PhaseOf(v, u) == PhaseOf(s, u))
  {
    hide View, Mutate, BucketOf;
    assert [Take(t, req)][..0] == [];
    ThreeMoves(Schedule(s, [Take(t, req)]), Go(t), Go(t), Go(t));
  }

  lemma FromTheView(s: Sys, t: Writer)
    requires PhaseOf(s, t).Viewed? && PhaseOf(s, t).req.w == FAIR && !s.mutex
    ensures var v := Schedule(s, [Go(t), Go(t), Go(t)]);
            && v.store.disk == s.store.disk && v.store.snap == View(PhaseOf(s, t).seen) && !v.mutex
            && v.owner.None? && PhaseOf(v, t).Idle?
            && (forall u :: u != t ==> PhaseOf(v, u) == PhaseOf(s, u))
  {
    hide View, RecordFor;
    ThreeMoves(s, Go(t), Go(t), Go(t));
  }

  const HELD_ON: Bucket := map["gpu" := Flag("gpu", BoolValue(true), "", false)]
  const HELD_OFF: Bucket := map["gpu" := Flag("gpu", BoolValue(false), "", false)]

  const FIRST := [Take(A, SET_ON)] + [Go(A), Go(A), Go(A)]
  const THEN := [Take(B, SET_OFF)] + [Go(B), Go(B), Go(B)]
  const FINISH_B := [Go(B), Go(B), Go(B)]
  const FINISH_A := [Go(A), Go(A), Go(A)]

  lemma TheFlips()
    ensures Mutate(None, SET_ON.m) == Changed(Some(HELD_ON))
    ensures Mutate(Some(HELD_ON), SET_OFF.m) == Changed(Some(HELD_OFF))
    ensures SET_ON.w == FAIR && SET_OFF.w == FAIR && SET_ON.ns == NS && SET_OFF.ns == NS && A != B
  {
    assert FlipBucket(Some(HELD_ON), "gpu", BoolValue(false)) == HELD_OFF;
    assert FlipBucket(None, "gpu", BoolValue(true)) == HELD_ON;
  }

  lemma TheMoves()
    ensures FIRST == [Take(A, SET_ON)] + FINISH_A && FINISH_A == [Go(A), Go(A), Go(A)]
    ensures THEN == [Take(B, SET_OFF)] + FINISH_B && FINISH_B == [Go(B), Go(B), Go(B)]
  {
  }

  lemma TheDisks(n: Name, on: Bucket, off: Bucket)
    requires n == Render(NS)
    ensures var disk: Disk := map[];
            && BucketOf(disk[n := on], n) == Some(on)
            && disk[n := on][n := off] == disk[n := off]
            && NS in View(disk[n := on]) && View(disk[n := on])[NS] == on
  {
    ViewServesTheDisk(map[n := on], NS);
  }

  lemma AtRest()
    ensures var s := Quiet(EMPTY, [], false);
            !s.mutex && PhaseOf(s, A).Idle? && PhaseOf(s, B).Idle? && BucketOf(s.store.disk, Render(NS)).None?
            && s.store.disk == map[]
  {
  }

  /** The lock is needed: without it there is a schedule that ends with every writer done
      and readers served a flag at the value it had before the last flip. */
  lemma WithoutTheLockAnOlderSnapshotWins()
    ensures var s := Schedule(Quiet(EMPTY, [], false), FIRST + THEN + FINISH_B + FINISH_A);
            && s.owner.None? && PhaseOf(s, A).Idle? && PhaseOf(s, B).Idle?
            && s.store.disk == map[Render(NS) := HELD_OFF]
            && NS in s.store.snap && s.store.snap[NS] == HELD_ON
  {
    hide *;
    var s0 := Quiet(EMPTY, [], false);
    AtRest();
    TheFlips();
    TheMoves();
    TheDisks(Render(NS), HELD_ON, HELD_OFF);
    ScheduleConcat(s0, [Take(A, SET_ON)], FINISH_A);
    UpToTheView(s0, A, SET_ON, HELD_ON);
    var s1 := Schedule(s0, FIRST);
    ScheduleConcat(s1, [Take(B, SET_OFF)], FINISH_B);
    UpToTheView(s1, B, SET_OFF, HELD_OFF);
    var s2 := Schedule(s1, THEN);
    FromTheView(s2, B);
    var s3 := Schedule(s2, FINISH_B);
    FromTheView(s3, A);
    ScheduleConcat(s0, FIRST, THEN);
    ScheduleConcat(s0, FIRST + THEN, FINISH_B);
    ScheduleConcat(s0, FIRST + THEN + FINISH_B, FINISH_A);
  }
}
