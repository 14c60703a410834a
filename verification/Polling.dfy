/**
 Readers that hold a number: a poller told `unchanged`, the cache of known clients. Each
 reads the store's number and then its snapshot, while a writer moves the one before the
 other (server.go, clients.go, store.go). When is a number read at some moment true of the
 snapshot for as long as it stands?
 */
module Polling {
  import opened Flags
  import opened Oplog
  import opened Store
  import opened Writers

  // ---------------------------------------------------------------- what is left to show

  /** What a writer publishes if its record fails and its undo does not. */
  function Undoing(req: Request, prior: Option<Bucket>, disk: Disk): seq<Snapshot> {
    if req.w.undo && req.w.undoReload then [View(PutBucket(disk, Render(req.ns), prior))] else []
  }

  function PhaseShows(p: Phase, disk: Disk): seq<Snapshot> {
    match p
    case Numbered(req, prior) =>
      if !req.w.reload then [] else [View(disk)] + if req.w.sink then [] else Undoing(req, prior, disk)
    case Viewed(req, prior, seen, _) => [View(seen)] + if req.w.sink then [] else Undoing(req, prior, disk)
    case Shown(req, prior) => if req.w.sink then [] else Undoing(req, prior, disk)
    case Unrecorded(req, prior) => Undoing(req, prior, disk)
    case PutBack(req, _) => if req.w.undoReload then [View(disk)] else []
    case Reviewed(_, _, seen, _) => [View(seen)]
    case _ => []
  }

  /** The snapshots the lock's holder has yet to publish under the number it has taken. */
  function ToShow(s: Sys): seq<Snapshot> {
    if s.owner.None? then [] else PhaseShows(PhaseOf(s, s.owner.value), s.store.disk)
  }

  predicate NothingNewToShow(s: Sys) {
    forall v :: v in ToShow(s) ==> v == s.store.snap
  }

  /** Steps left before the holder has shown all it will. */
  function Ahead(s: Sys): nat {
    if s.owner.None? then 0
    else match PhaseOf(s, s.owner.value)
         case Numbered(_, _) => 6
         case Viewed(_, _, _, _) => 5
         case Shown(_, _) => 4
         case Unrecorded(_, _) => 3
         case PutBack(_, _) => 2
         case Reviewed(_, _, _, _) => 1
         case _ => 0
  }

  /** A step between a writer's number and its end: the number stays, and either the first
      of what was left to show is shown, or nothing is. */
  predicate OneStepOn(s: Sys, t: Writer)
    requires t in s.writers
  {
    var v, p := Advance(s, t), s.writers[t];
    && v.store.revision == s.store.revision && Ahead(v) < Ahead(s)
    && if p.Viewed? || p.Reviewed? then ToShow(s) == [v.store.snap] + ToShow(v)
       else v.store.snap == s.store.snap && ToShow(s) == ToShow(v)
  }

  lemma ANumberedStep(s: Sys, t: Writer)
    requires s.owner == Some(t) && t in s.writers && s.writers[t].Numbered?
    ensures OneStepOn(s, t)
  {
    hide View, PutBucket, BucketOf, RecordFor, Commit;
  }

  lemma AViewedStep(s: Sys, t: Writer)
    requires s.owner == Some(t) && t in s.writers && s.writers[t].Viewed?
    ensures OneStepOn(s, t)
  {
    hide View, PutBucket, BucketOf, RecordFor, Commit;
  }

  lemma AShownStep(s: Sys, t: Writer)
    requires s.owner == Some(t) && t in s.writers && s.writers[t].Shown?
    ensures OneStepOn(s, t)
  {
    hide View, PutBucket, BucketOf, RecordFor, Commit;
  }

  lemma AnUnrecordedStep(s: Sys, t: Writer)
    requires s.owner == Some(t) && t in s.writers && s.writers[t].Unrecorded?
    ensures OneStepOn(s, t)
  {
    hide View, PutBucket, BucketOf, RecordFor, Commit;
  }

  lemma APutBackStep(s: Sys, t: Writer)
    requires s.owner == Some(t) && t in s.writers && s.writers[t].PutBack?
    ensures OneStepOn(s, t)
  {
    hide View, PutBucket, BucketOf, RecordFor, Commit;
  }

  lemma AReviewedStep(s: Sys, t: Writer)
    requires s.owner == Some(t) && t in s.writers && s.writers[t].Reviewed?
    ensures OneStepOn(s, t)
  {
    hide View, PutBucket, BucketOf, RecordFor, Commit;
  }

  lemma AStepBetween(s: Sys, t: Writer)
    requires s.owner == Some(t) && t in s.writers && Ahead(s) > 0
    ensures OneStepOn(s, t)
  {
    hide OneStepOn;
    match s.writers[t]
    case Numbered(_, _) => ANumberedStep(s, t);
    case Viewed(_, _, _, _) => AViewedStep(s, t);
    case Shown(_, _) => AShownStep(s, t);
    case Unrecorded(_, _) => AnUnrecordedStep(s, t);
    case PutBack(_, _) => APutBackStep(s, t);
    case Reviewed(_, _, _, _) => AReviewedStep(s, t);
    case _ =>
  }

  lemma AStepOutside(s: Sys, t: Writer)
    requires s.owner == Some(t) && t in s.writers && Ahead(s) == 0 && !s.writers[t].Idle?
    ensures var v := Advance(s, t);
            && v.store.snap == s.store.snap && ToShow(s) == []
            && (v.store.revision == s.store.revision + 1
                || (v.store.revision == s.store.revision && ToShow(v) == []))
  {
    hide View, PutBucket, BucketOf, Mutate, RecordFor;
  }

  lemma BeginShowsNothing(s: Sys, t: Writer, req: Request)
    requires s.mutex
    ensures var v := Begin(s, t, req);
            v.store == s.store && (v == s || ToShow(v) == [])
  {
  }

  lemma WhoCanMove(s: Sys, t: Writer, store: StoreState, log: seq<Record>)
    requires Ordered(s, store, log)
    ensures s.mutex
    ensures Advance(s, t) == s || (s.owner == Some(t) && t in s.writers && !s.writers[t].Idle?)
    ensures s.owner.Some? ==> s.owner.value in s.writers
  {
    hide Chronicled, Serial, PartWay;
  }

  lemma MoveOnlyGrows(s: Sys, mv: Move, store: StoreState, log: seq<Record>)
    requires Ordered(s, store, log)
    ensures Moved(s, mv).store.revision >= s.store.revision
  {
    hide Ordered, Advance, Begin, ToShow, Ahead;
    WhoCanMove(s, mv.t, store, log);
    if mv.Take? {
      BeginShowsNothing(s, mv.t, mv.req);
    } else if Advance(s, mv.t) != s {
      if Ahead(s) > 0 {
        AStepBetween(s, mv.t);
      } else {
        AStepOutside(s, mv.t);
      }
    }
  }

  lemma StepHolds(s: Sys, t: Writer)
    requires t in s.writers && OneStepOn(s, t) && NothingNewToShow(s)
    ensures Advance(s, t).store.snap == s.store.snap && NothingNewToShow(Advance(s, t))
  {
    hide Advance, ToShow, Ahead;
    var v := Advance(s, t);
    assert v.store.snap in [v.store.snap] + ToShow(v);
    assert forall x :: x in ToShow(v) ==> x in [v.store.snap] + ToShow(v);
  }

  lemma MoveHolds(s: Sys, mv: Move, store: StoreState, log: seq<Record>)
    requires Ordered(s, store, log) && NothingNewToShow(s)
    ensures var v := Moved(s, mv);
            v.store.revision == s.store.revision ==> v.store.snap == s.store.snap && NothingNewToShow(v)
  {
    hide Ordered, Advance, Begin, ToShow, Ahead, OneStepOn;
    WhoCanMove(s, mv.t, store, log);
    if mv.Take? {
      BeginShowsNothing(s, mv.t, mv.req);
    } else if Advance(s, mv.t) != s {
      if Ahead(s) > 0 {
        AStepBetween(s, mv.t);
        StepHolds(s, mv.t);
      } else {
        AStepOutside(s, mv.t);
      }
    }
  }

  lemma {:induction false} ScheduleHolds(s: Sys, moves: seq<Move>, store: StoreState, log: seq<Record>)
    requires Ordered(s, store, log)
    ensures var v := Schedule(s, moves);
            && Ordered(v, store, log) && v.store.revision >= s.store.revision
            && (v.store.revision == s.store.revision && NothingNewToShow(s) ==>
                  v.store.snap == s.store.snap && NothingNewToShow(v))
  {
    hide Ordered, Moved, NothingNewToShow;
    if moves == [] {
    } else {
      var init, mv := moves[..|moves|-1], moves[|moves|-1];
      var mid := Schedule(s, init);
      ScheduleHolds(s, init, store, log);
      MoveKeepsOrder(mid, mv, store, log);
      MoveOnlyGrows(mid, mv, store, log);
      if mid.store.revision == s.store.revision && NothingNewToShow(s) {
        MoveHolds(mid, mv, store, log);
      }
    }
  }

  // ---------------------------------------------------------------- when a number holds

  /** Whatever runs from here, while the number stands so does the snapshot. */
  ghost predicate NumberHolds(s: Sys) {
    forall moves: seq<Move> ::
      var v := Schedule(s, moves);
      v.store.revision == s.store.revision ==> v.store.snap == s.store.snap
  }

  lemma HoldsAfterAStep(s: Sys, t: Writer)
    requires NumberHolds(s) && Advance(s, t).store.revision == s.store.revision
    ensures NumberHolds(Advance(s, t)) && Advance(s, t).store.snap == s.store.snap
  {
    hide Advance;
    var v := Advance(s, t);
    assert [Go(t)][..0] == [];
    assert Schedule(s, [Go(t)]) == Moved(Schedule(s, []), Go(t)) == v;
    forall moves: seq<Move>
      ensures var u := Schedule(v, moves); u.store.revision == v.store.revision ==> u.store.snap == v.store.snap
    {
      ScheduleConcat(s, [Go(t)], moves);
    }
  }

  lemma {:induction false} HoldingShowsNothingNew(s: Sys, store: StoreState, log: seq<Record>)
    requires Ordered(s, store, log) && NumberHolds(s)
    ensures NothingNewToShow(s)
    decreases Ahead(s)
  {
    hide Ordered, NumberHolds, Advance;
    if Ahead(s) == 0 {
    } else {
      var t := s.owner.value;
      WhoCanMove(s, t, store, log);
      AStepBetween(s, t);
      GoKeepsOrder(s, t, store, log);
      HoldsAfterAStep(s, t);
      HoldingShowsNothingNew(Advance(s, t), store, log);
    }
  }

  /** At any moment of any schedule, the number a reader sees is true of the snapshot it
      sees, for as long as that number stands, exactly when the writer holding the lock
      has nothing different left to publish under it. */
  lemma ANumberHoldsIff(s: Sys, store: StoreState, log: seq<Record>)
    requires Ordered(s, store, log)
    ensures NumberHolds(s) <==> NothingNewToShow(s)
  {
    hide Ordered;
    if NumberHolds(s) {
      HoldingShowsNothingNew(s, store, log);
    }
    if NothingNewToShow(s) {
      forall moves: seq<Move>
        ensures var v := Schedule(s, moves); v.store.revision == s.store.revision ==> v.store.snap == s.store.snap
      {
        ScheduleHolds(s, moves, store, log);
      }
    }
  }

  /** A number read while the lock is free: the snapshot read after it, at any later moment,
      is the one the number stands for whenever the number is seen again, however many
      writes are under way by then. */
  lemma ANumberReadAtRestIsExact(store: StoreState, log: seq<Record>, moves: seq<Move>, i: nat, j: nat)
    requires store.snap == View(store.disk) && i <= j <= |moves|
    ensures var s := Quiet(store, log, true);
            var early, mid, late := Schedule(s, moves[..i]), Schedule(s, moves[..j]), Schedule(s, moves);
            early.owner.None? && late.store.revision == early.store.revision ==>
              early.store.snap == mid.store.snap == late.store.snap
  {
    hide *;
    var s := Quiet(store, log, true);
    var first := Schedule(s, moves[..i]);
    if first.owner.None? {
      EveryScheduleIsOrdered(store, log, moves[..i]);
      AtRestNothingIsLeft(first);
      assert moves[..i] + moves[i..j] == moves[..j] && moves[..i] + moves[i..] == moves;
      assert moves[i..j] + moves[j..] == moves[i..];
      ScheduleConcat(s, moves[..i], moves[i..j]);
      ScheduleConcat(s, moves[..i], moves[i..]);
      ScheduleConcat(first, moves[i..j], moves[j..]);
      ScheduleHolds(first, moves[i..j], store, log);
      ScheduleHolds(first, moves[i..], store, log);
      ScheduleHolds(Schedule(first, moves[i..j]), moves[j..], store, log);
    }
  }

  lemma AtRestNothingIsLeft(s: Sys)
    requires s.owner.None?
    ensures NothingNewToShow(s)
  {
  }

  // ---------------------------------------------------------------- the moment between

  lemma OneMove(s: Sys, x: Move)
    ensures Schedule(s, [x]) == Moved(s, x)
  {
    hide Moved;
    assert [x][..0] == [];
    assert Schedule(s, []) == s;
  }

  lemma TwoMoves(s: Sys, x: Move, y: Move)
    ensures Schedule(s, [x, y]) == Moved(Moved(s, x), y)
  {
    hide Moved;
    assert [x, y][..1] == [x];
    OneMove(s, x);
  }

  lemma UpToTheNumber(s: Sys, t: Writer, req: Request, b: Option<Bucket>)
    requires s.owner == Some(t) && t in s.writers && s.writers[t] == Locked(req) && req.w.commit
    requires Mutate(BucketOf(s.store.disk, Render(req.ns)), req.m) == Changed(b)
    ensures var v := Advance(Advance(s, t), t);
            && v.owner == Some(t) && t in v.writers && v.writers[t].Numbered? && v.writers[t].req == req
            && v.store == Committed(s.store, Render(req.ns), b)
  {
    hide View, Mutate, BucketOf, PutBucket;
  }

  lemma FromTheNumber(s: Sys, t: Writer)
    requires s.owner == Some(t) && t in s.writers && s.writers[t].Numbered?
    requires s.writers[t].req.w.reload && s.writers[t].req.w.sink
    ensures var v := Advance(Advance(Advance(Advance(s, t), t), t), t);
            v.owner.None? && v.store.revision == s.store.revision && v.store.snap == View(s.store.disk)
  {
    hide View, RecordFor;
  }

  lemma TakingTheLock(store: StoreState, log: seq<Record>, t: Writer, req: Request)
    ensures var v := Begin(Quiet(store, log, true), t, req);
            v.owner == Some(t) && t in v.writers && v.writers[t] == Locked(req) && v.store == store
  {
    hide View;
  }

  /** Every write that is done has a moment, after its number is out and before its snapshot
      is, at which a reader is given the new number with the old flags; and once the write
      is over the number is the same and the flags are not. A poller that read then is told
      `unchanged`, and a set cached then stays cached, until some other write. */
  lemma EveryWriteHasAMomentBetween(store: StoreState, log: seq<Record>, t: Writer, req: Request, b: Option<Bucket>)
    requires store.snap == View(store.disk) && req.w.commit && req.w.reload && req.w.sink
    requires Mutate(BucketOf(store.disk, Render(req.ns)), req.m) == Changed(b)
    ensures var between := Schedule(Schedule(Quiet(store, log, true), [Take(t, req)]), [Go(t), Go(t)]);
            var over := Schedule(Schedule(between, [Go(t), Go(t), Go(t)]), [Go(t)]);
            && between.store.revision == over.store.revision == store.revision + 1
            && between.store.snap == View(store.disk)
            && over.owner.None? && over.store.snap == View(PutBucket(store.disk, Render(req.ns), b))
  {
    hide Advance, Begin, View, Mutate, BucketOf, PutBucket, Quiet, Schedule;
    var s := Quiet(store, log, true);
    var locked := Begin(s, t, req);
    var between := Advance(Advance(locked, t), t);
    TakingTheLock(store, log, t, req);
    OneMove(s, Take(t, req));
    TwoMoves(locked, Go(t), Go(t));
    UpToTheNumber(locked, t, req, b);
    ThreeMoves(between, Go(t), Go(t), Go(t));
    OneMove(Advance(Advance(Advance(between, t), t), t), Go(t));
    FromTheNumber(between, t);
  }
}
