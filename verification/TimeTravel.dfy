/**
 Two-pass replay is time travel: skipping what standing restores undid gives, for
 every well-formed log and every bound, the interpreter's own state at that bound.
 */
module TimeTravel {
  import opened Flags
  import opened Oplog

  // ---------------------------------------------------------------- small steps

  lemma Snoc<T>(s: seq<T>, x: T)
    ensures (s + [x])[..|s|] == s && (s + [x])[|s|] == x
  {
  }

  lemma {:induction false} BelowSnoc(rs: seq<RestorePoint>, p: RestorePoint, b: Bound)
    ensures Below(rs + [p], b) == if Within(p.stamp, b) then Below(rs, b) + [p] else Below(rs, b)
  {
    if rs == [] {
      assert [p][1..] == [];
    } else {
      assert (rs + [p])[1..] == rs[1..] + [p];
      BelowSnoc(rs[1..], p, b);
    }
  }

  lemma {:induction false} BelowAll(rs: seq<RestorePoint>, b: Bound)
    requires forall p :: p in rs ==> Within(p.stamp, b)
    ensures Below(rs, b) == rs
  {
    if rs == [] {
    } else {
      BelowAll(rs[1..], b);
    }
  }

  lemma {:induction false} BelowNone(rs: seq<RestorePoint>, b: Bound)
    requires forall p :: p in rs ==> !Within(p.stamp, b)
    ensures Below(rs, b) == []
  {
    if rs == [] {
    } else {
      BelowNone(rs[1..], b);
    }
  }

  lemma HeldSnoc(f: seq<RestorePoint>, p: RestorePoint, rev: nat)
    ensures Held([p] + f, rev) <==> Holds(p, rev) || Held(f, rev)
    ensures Held(f + [p], rev) <==> Holds(p, rev) || Held(f, rev)
  {
    assert p in [p] + f && p in f + [p];
    assert forall q :: q in f ==> q in [p] + f && q in f + [p];
  }

  /** A new restore that reaches back over everything stands, and beside it stand
      exactly the restores that stood at the revision it goes back to. */
  lemma {:induction false} StandingAfterRestore(rs: seq<RestorePoint>, p: RestorePoint)
    requires forall a :: a in rs ==> a.stamp <= p.from
    ensures Standing(rs + [p]) == [p] + Standing(Below(rs, Some(p.to)))
  {
    if rs == [] {
      assert [p][1..] == [];
    } else {
      assert (rs + [p])[1..] == rs[1..] + [p];
      StandingAfterRestore(rs[1..], p);
      HeldSnoc(Standing(Below(rs[1..], Some(p.to))), p, rs[0].stamp);
      if rs[0].stamp <= p.to {
        assert Below(rs, Some(p.to))[1..] == Below(rs[1..], Some(p.to));
      }
    }
  }

  lemma {:induction false} PrefixIsWellFormed(log: seq<Record>, c: nat)
    requires WellFormed(log) && c <= |log|
    ensures WellFormed(log[..c])
  {
    if c < |log| {
      assert log[..|log|-1][..c] == log[..c];
      PrefixIsWellFormed(log[..|log|-1], c);
    } else {
      assert log[..c] == log;
    }
  }

  lemma CutOneMore(init: seq<Record>, last: Record, n: nat)
    ensures Cut(init + [last], n) == if Numbered(last) && last.revision <= n then |init| + 1 else Cut(init, n)
  {
    Snoc(init, last);
  }

  lemma WellFormedOneMore(init: seq<Record>, last: Record)
    requires WellFormed(init + [last])
    ensures WellFormed(init)
    ensures Numbered(last) ==> forall x :: x in init && Numbered(x) ==> x.revision <= last.revision
  {
    Snoc(init, last);
    hide Numbered;
  }

  lemma SplitOneMore(init: seq<Record>, last: Record, c: nat)
    requires c <= |init|
    ensures (init + [last])[..c] == init[..c] && (init + [last])[c..] == init[c..] + [last]
  {
  }

  /** The cut at `n` splits a well-formed log by stamp: it keeps the numbered records
      at or below `n` and leaves those above. */
  lemma {:induction false} CutSplits(log: seq<Record>, n: nat)
    requires WellFormed(log)
    ensures forall r :: r in log[..Cut(log, n)] && Numbered(r) ==> r.revision <= n
    ensures forall r :: r in log[Cut(log, n)..] && Numbered(r) ==> r.revision > n
  {
    hide WellFormed, Cut, Numbered;
    if log == [] {
    } else {
      var init, last := log[..|log|-1], log[|log|-1];
      assert log == init + [last];
      CutOneMore(init, last, n);
      WellFormedOneMore(init, last);
      if Numbered(last) && last.revision <= n {
        assert log[..|log|] == log && log[|log|..] == [];
      } else {
        CutSplits(init, n);
        SplitOneMore(init, last, Cut(init, n));
      }
    }
  }

  // ---------------------------------------------------------------- picking

  lemma {:induction false} PickAgrees(log: seq<Record>, f: seq<RestorePoint>, b: Bound,
                                      g: seq<RestorePoint>, c: Bound)
    requires forall r :: r in log ==> (Picked(r, f, b) <==> Picked(r, g, c))
    ensures Pick(log, f, b) == Pick(log, g, c)
  {
    if log == [] {
    } else {
      assert log[|log|-1] in log;
      PickAgrees(log[..|log|-1], f, b, g, c);
    }
  }

  lemma {:induction false} PickNone(log: seq<Record>, f: seq<RestorePoint>, b: Bound)
    requires forall r :: r in log ==> !Picked(r, f, b)
    ensures Pick(log, f, b) == []
  {
    if log == [] {
    } else {
      assert log[|log|-1] in log;
      PickNone(log[..|log|-1], f, b);
    }
  }

  lemma {:induction false} PickConcat(xs: seq<Record>, ys: seq<Record>, f: seq<RestorePoint>, b: Bound)
    ensures Pick(xs + ys, f, b) == Pick(xs, f, b) + Pick(ys, f, b)
  {
    if ys == [] {
      assert xs + ys == xs;
    } else {
      assert (xs + ys)[..|xs + ys| - 1] == xs + ys[..|ys|-1];
      PickConcat(xs, ys[..|ys|-1], f, b);
    }
  }

  /** If picking on the whole log keeps just what is at or below `n` and outside `g`,
      it picks what `g` leaves of the log as it was at `n`. */
  lemma PickIsOnTheCut(log: seq<Record>, n: nat, f: seq<RestorePoint>, b: Bound, g: seq<RestorePoint>)
    requires WellFormed(log)
    requires forall r :: r in log && IsWrite(r) ==>
               (Picked(r, f, b) <==> r.revision <= n && !Held(g, r.revision))
    ensures Pick(log, f, b) == Pick(log[..Cut(log, n)], g, None)
  {
    var c := Cut(log, n);
    CutSplits(log, n);
    assert log == log[..c] + log[c..];
    PickConcat(log[..c], log[c..], f, b);
    PickNone(log[c..], f, b);
    PickAgrees(log[..c], f, b, g, None);
  }

  lemma {:induction false} RestoresConcat(xs: seq<Record>, ys: seq<Record>)
    ensures Restores(xs + ys) == Restores(xs) + Restores(ys)
  {
    if ys == [] {
      assert xs + ys == xs;
    } else {
      assert (xs + ys)[..|xs + ys| - 1] == xs + ys[..|ys|-1];
      RestoresConcat(xs, ys[..|ys|-1]);
    }
  }

  lemma {:induction false} BelowConcat(xs: seq<RestorePoint>, ys: seq<RestorePoint>, b: Bound)
    ensures Below(xs + ys, b) == Below(xs, b) + Below(ys, b)
  {
    if xs == [] {
      assert xs + ys == ys;
    } else {
      assert (xs + ys)[1..] == xs[1..] + ys;
      BelowConcat(xs[1..], ys, b);
    }
  }

  lemma RestoresOfTheCut(log: seq<Record>, n: nat)
    requires WellFormed(log)
    ensures Restores(log[..Cut(log, n)]) == Below(Restores(log), Some(n))
  {
    var c := Cut(log, n);
    CutSplits(log, n);
    assert log == log[..c] + log[c..];
    RestoresConcat(log[..c], log[c..]);
    BelowConcat(Restores(log[..c]), Restores(log[c..]), Some(n));
    BelowAll(Restores(log[..c]), Some(n));
    forall p | p in Restores(log[c..]) ensures !Within(p.stamp, Some(n)) {
      assert Record(p.stamp, Restore(p.to, p.from)) in log[c..];
    }
    BelowNone(Restores(log[c..]), Some(n));
  }

  // ---------------------------------------------------------------- the theorem

  lemma {:induction false} RestoreReachesBelowItself(log: seq<Record>, p: RestorePoint)
    requires WellFormed(log) && p in Restores(log)
    ensures p.from < p.stamp
  {
    if p !in Restores(log[..|log|-1]) {
    } else {
      RestoreReachesBelowItself(log[..|log|-1], p);
    }
  }

  /** No restore before a write undoes it, so replay ends by applying it. */
  lemma ReplayEndsWithTheWrite(init: seq<Record>, last: Record)
    requires WellFormed(init + [last]) && !last.op.Restore?
    ensures Replay(init + [last], 0) == Apply(Replay(init, 0), last)
  {
    var log := init + [last];
    Snoc(init, last);
    var force := InForce(init, 0);
    assert Restores(log) == Restores(init);
    if IsWrite(last) {
      forall p | p in force ensures !Holds(p, last.revision) {
        var r := Record(p.stamp, Restore(p.to, p.from));
        assert r in init && Numbered(r);
        assert Precedes(r, last);
        RestoreReachesBelowItself(init, p);
      }
      assert Picked(last, force, None);
      Snoc(Pick(init, force, None), last);
    }
  }

  /** No write was stamped above both ends of the range. */
  predicate Reaches(log: seq<Record>, p: RestorePoint) {
    forall x :: x in log && IsWrite(x) ==> x.revision <= p.to || x.revision <= p.from
  }

  lemma NothingStandingHolds(log: seq<Record>, to: nat, rev: nat)
    requires WellFormed(log) && rev > to
    ensures !Held(Standing(Below(Restores(log), Some(to))), rev)
  {
    forall q | q in Standing(Below(Restores(log), Some(to))) ensures !Holds(q, rev) {
      RestoreReachesBelowItself(log, q);
    }
  }

  /** How far a range must reach. A restore whose range takes in every restore before it
      makes replay apply just what there was at the revision gone back to exactly when the
      range, or that revision, takes in every write before it. The tool writes the range
      up to the number below its own, which takes in everything. */
  lemma ARestoreGoesBackIff(init: seq<Record>, last: Record)
    requires WellFormed(init) && last.op.Restore?
    requires forall a :: a in Restores(init) ==> a.stamp <= last.op.from
    ensures var log, back := init + [last], init[..Cut(init, last.op.to)];
            Pick(log, InForce(log, 0), None) == Pick(back, InForce(back, 0), None)
            <==> Reaches(init, RestorePoint(last.revision, last.op.to, last.op.from))
  {
    var log, p := init + [last], RestorePoint(last.revision, last.op.to, last.op.from);
    var back := init[..Cut(init, p.to)];
    var force := Standing(Below(Restores(init), Some(p.to)));
    Snoc(init, last);
    BelowAll(Restores(log), None);
    BelowAll(Restores(back), None);
    StandingAfterRestore(Restores(init), p);
    RestoresOfTheCut(init, p.to);
    WhatARangeLeaves(init, p, force);
  }

  lemma WhatARangeLeaves(init: seq<Record>, p: RestorePoint, force: seq<RestorePoint>)
    requires WellFormed(init) && force == Standing(Below(Restores(init), Some(p.to)))
    ensures Pick(init, [p] + force, None) == Pick(init[..Cut(init, p.to)], force, None) <==> Reaches(init, p)
  {
    if Reaches(init, p) {
      forall x | x in init && IsWrite(x)
        ensures Picked(x, [p] + force, None) <==> x.revision <= p.to && !Held(force, x.revision)
      {
        HeldSnoc(force, p, x.revision);
      }
      PickIsOnTheCut(init, p.to, [p] + force, None, force);
    } else {
      var x :| x in init && IsWrite(x) && x.revision > p.to && x.revision > p.from;
      NothingStandingHolds(init, p.to, x.revision);
      HeldSnoc(force, p, x.revision);
      CutSplits(init, p.to);
      assert x in Pick(init, [p] + force, None);
      assert x !in Pick(init[..Cut(init, p.to)], force, None);
    }
  }

  /** After a restore, replay applies just what it would have applied to the log as it
      was at the revision restored to. */
  lemma ReplayStepsBack(init: seq<Record>, last: Record)
    requires WellFormed(init + [last]) && last.op.Restore?
    ensures Replay(init + [last], 0) == Replay(init[..Cut(init, last.op.to)], 0)
  {
    Snoc(init, last);
    forall a | a in Restores(init) ensures a.stamp <= last.op.from {
      assert Precedes(Record(a.stamp, Restore(a.to, a.from)), last);
    }
    forall x | x in init && IsWrite(x) ensures x.revision <= last.op.from {
      assert Precedes(x, last);
    }
    ARestoreGoesBackIff(init, last);
  }

  lemma {:induction false} UnboundedReplayIsRun(log: seq<Record>)
    requires WellFormed(log)
    ensures Replay(log, 0) == Run(log)
    decreases |log|
  {
    if log == [] {
    } else {
      var init, last := log[..|log|-1], log[|log|-1];
      assert log == init + [last];
      if last.op.Restore? {
        ReplayStepsBack(init, last);
        PrefixIsWellFormed(init, Cut(init, last.op.to));
        UnboundedReplayIsRun(init[..Cut(init, last.op.to)]);
      } else {
        ReplayEndsWithTheWrite(init, last);
        UnboundedReplayIsRun(init);
      }
    }
  }

  /** The main theorem: replay, unbounded or bounded at any revision, is the
      interpreter's state, at the end or at that revision. */
  lemma {:induction false} ReplayIsTimeTravel(log: seq<Record>, to: nat)
    requires WellFormed(log)
    ensures Replay(log, to) == if to == 0 then Run(log) else AsOf(log, to)
  {
    if to == 0 {
      UnboundedReplayIsRun(log);
    } else {
      var back := log[..Cut(log, to)];
      RestoresOfTheCut(log, to);
      BelowAll(Restores(back), None);
      PickIsOnTheCut(log, to, InForce(log, to), Some(to), InForce(log, to));
      PrefixIsWellFormed(log, Cut(log, to));
      UnboundedReplayIsRun(back);
    }
  }

  // ---------------------------------------------------------------- what follows

  /** For every log, well-formed or not: bounding a replay is replaying only the
      records at or below the bound. */
  lemma {:induction false} BoundIsATruncation(log: seq<Record>, to: nat)
    requires to != 0
    ensures Replay(log, to) == Replay(UpTo(log, to), 0)
  {
    TruncationLemma(log, to, InForce(log, to));
    BelowAll(Restores(UpTo(log, to)), None);
  }

  function UpTo(log: seq<Record>, n: nat): seq<Record> {
    if log == [] then []
    else if log[|log|-1].revision <= n then UpTo(log[..|log|-1], n) + [log[|log|-1]]
    else UpTo(log[..|log|-1], n)
  }

  lemma {:induction false} TruncationLemma(log: seq<Record>, n: nat, force: seq<RestorePoint>)
    ensures Restores(UpTo(log, n)) == Below(Restores(log), Some(n))
    ensures Pick(log, force, Some(n)) == Pick(UpTo(log, n), force, None)
  {
    if log == [] {
    } else {
      var init, last := log[..|log|-1], log[|log|-1];
      TruncationLemma(init, n, force);
      if last.revision <= n {
        Snoc(UpTo(init, n), last);
      }
      if last.op.Restore? {
        BelowSnoc(Restores(init), RestorePoint(last.revision, last.op.to, last.op.from), Some(n));
      }
    }
  }

  lemma {:induction false} CutOfAppended(log: seq<Record>, more: seq<Record>, n: nat)
    requires forall r :: r in more && Numbered(r) ==> r.revision > n
    ensures Cut(log + more, n) == Cut(log, n)
  {
    if more == [] {
      assert log + more == log;
    } else {
      assert more[|more|-1] in more;
      assert (log + more)[..|log + more| - 1] == log + more[..|more|-1];
      CutOfAppended(log, more[..|more|-1], n);
    }
  }

  /** Once every number up to `n` is taken, the state at `n` never changes again,
      whatever is appended: further writes, restores of restores, anything. */
  lemma AsOfIsForever(log: seq<Record>, more: seq<Record>, n: nat)
    requires forall r :: r in more && Numbered(r) ==> r.revision > n
    ensures AsOf(log + more, n) == AsOf(log, n)
  {
    CutOfAppended(log, more, n);
    assert (log + more)[..Cut(log, n)] == log[..Cut(log, n)];
  }

  lemma {:induction false} AsOfTheTop(log: seq<Record>, n: nat)
    requires forall r :: r in log && Numbered(r) ==> r.revision <= n
    ensures AsOf(log, n) == Run(log)
  {
    if log == [] {
    } else {
      var init, last := log[..|log|-1], log[|log|-1];
      assert last in log;
      if Numbered(last) {
        assert log[..|log|] == log;
      } else {
        AsOfTheTop(init, n);
        assert init[..Cut(init, n)] == log[..Cut(log, n)];
      }
    }
  }

  /** The state a log stood for, found again in any longer log. */
  lemma TheStateAt(log: seq<Record>, more: seq<Record>, n: nat)
    requires WellFormed(log + more)
    requires forall r :: r in log && Numbered(r) ==> r.revision <= n
    requires forall r :: r in more && Numbered(r) ==> r.revision > n
    ensures AsOf(log + more, n) == Run(log)
    ensures n != 0 ==> Replay(log + more, n) == Run(log)
  {
    AsOfIsForever(log, more, n);
    AsOfTheTop(log, n);
    if n != 0 {
      ReplayIsTimeTravel(log + more, n);
    }
  }

  /** A completed restore to `to` builds the store that replaying the file, its own
      record now appended, will build again. */
  lemma RestoreLeavesWhatReplayFinds(log: seq<Record>, to: nat, next: nat)
    requires WellFormed(log) && to != 0 && next >= 1
    requires forall r :: r in log && Numbered(r) ==> r.revision < next
    ensures WellFormed(log + [Record(next, Restore(to, next - 1))])
    ensures Replay(log + [Record(next, Restore(to, next - 1))], 0) == Replay(log, to)
  {
    var r := Record(next, Restore(to, next - 1));
    Snoc(log, r);
    ReplayIsTimeTravel(log + [r], 0);
    ReplayIsTimeTravel(log, to);
  }

  /** The way back is exact: restoring to the `from` a restore left puts back the state
      from just before it, however many restores stand before it or came between. */
  lemma TheWayBack(log: seq<Record>, first: Record, between: seq<Record>, second: Record)
    requires WellFormed(log + [first] + between + [second])
    requires first.op.Restore? && second.op.Restore? && second.op.to == first.op.from
    ensures Run(log + [first] + between + [second]) == Run(log)
  {
    var whole := log + [first] + between;
    var n := first.op.from;
    Snoc(whole, second);
    PrefixIsWellFormed(whole, |log| + 1);
    assert whole[..|log| + 1] == log + [first];
    Snoc(log, first);
    forall r | r in [first] + between && Numbered(r) ensures r.revision > n {
      AppendedIsLater(log, first, between, r);
    }
    assert whole == log + ([first] + between);
    AsOfIsForever(log, [first] + between, n);
    forall r | r in log && Numbered(r) ensures r.revision <= n {
      assert Precedes(r, first);
    }
    AsOfTheTop(log, n);
  }

  lemma {:induction false} AppendedIsLater(log: seq<Record>, first: Record, between: seq<Record>, r: Record)
    requires WellFormed(log + [first] + between) && first.op.Restore?
    requires r in [first] + between && Numbered(r)
    ensures r.revision > first.op.from
  {
    if between == [] {
      assert log + [first] + between == log + [first];
      Snoc(log, first);
    } else {
      var init, last := between[..|between|-1], between[|between|-1];
      assert (log + [first] + between)[..|log + [first] + between| - 1] == log + [first] + init;
      assert between == init + [last];
      if r in [first] + init {
        AppendedIsLater(log, first, init, r);
      } else {
        assert first in log + [first] + init;
        assert Precedes(first, last);
        AppendedIsLater(log, first, init, first);
      }
    }
  }

  // ---------------------------------------------------------------- standing, as a set

  /** Some standing restore later than `p` undid the range `p`'s stamp sits in. */
  ghost predicate UndoneLater(s: set<RestorePoint>, p: RestorePoint) {
    exists q :: q in s && q.stamp > p.stamp && Holds(q, p.stamp)
  }

  /** The meaning of `standing`: a restore stands iff no later one that stands holds
      its stamp. */
  ghost predicate IsStanding(all: seq<RestorePoint>, s: set<RestorePoint>) {
    && (forall p :: p in s ==> p in all)
    && forall p :: p in all ==> (p in s <==> !UndoneLater(s, p))
  }

  predicate Ascending(all: seq<RestorePoint>) {
    forall i, j :: 0 <= i < j < |all| ==> all[i].stamp < all[j].stamp
  }

  ghost function AsSet(rs: seq<RestorePoint>): (s: set<RestorePoint>)
    ensures forall p :: p in s <==> p in rs
  {
    set p | p in rs
  }

  /** On the files the scan accepts, the backward walk finds the one set there is. */
  lemma {:induction false} StandingIsTheOneSet(all: seq<RestorePoint>, s: set<RestorePoint>)
    requires Ascending(all)
    ensures IsStanding(all, s) <==> s == AsSet(Standing(all))
  {
    if all == [] {
    } else {
      var a, rest := all[0], all[1..];
      StandingIsTheOneSet(rest, s - {a}) by { FirstIsEarliest(all); }
      if forall p :: p in s ==> p in all {
        EarliestDecidesNothing(all, s);
        StandingGrowsByTheEarliest(all);
        var t := AsSet(Standing(rest));
        assert a !in t by { FirstIsEarliest(all); }
        assert s == if a in s then (s - {a}) + {a} else s - {a};
        assert s == AsSet(Standing(all)) <==> s - {a} == t && (a in s <==> !UndoneLater(t, a));
      }
    }
  }

  lemma FirstIsEarliest(all: seq<RestorePoint>)
    requires Ascending(all) && all != []
    ensures forall p :: p in all[1..] ==> all[0].stamp < p.stamp
    ensures all[0] !in all[1..] && Ascending(all[1..])
    ensures forall p :: p in all <==> p == all[0] || p in all[1..]
  {
    assert all == [all[0]] + all[1..];
  }

  lemma EarliestDecidesNothing(all: seq<RestorePoint>, s: set<RestorePoint>)
    requires Ascending(all) && all != []
    requires forall p :: p in s ==> p in all
    ensures IsStanding(all, s) <==>
            IsStanding(all[1..], s - {all[0]}) && (all[0] in s <==> !UndoneLater(s - {all[0]}, all[0]))
  {
    FirstIsEarliest(all);
    forall p | p in all ensures UndoneLater(s, p) <==> UndoneLater(s - {all[0]}, p) {
      if UndoneLater(s, p) {
        var q :| q in s && q.stamp > p.stamp && Holds(q, p.stamp);
        assert q in s - {all[0]};
      }
    }
  }

  lemma StandingGrowsByTheEarliest(all: seq<RestorePoint>)
    requires Ascending(all) && all != []
    ensures var t := AsSet(Standing(all[1..]));
            AsSet(Standing(all)) == if UndoneLater(t, all[0]) then t else t + {all[0]}
  {
    FirstIsEarliest(all);
    var later := Standing(all[1..]);
    var t := AsSet(later);
    if Held(later, all[0].stamp) {
      var q :| q in later && Holds(q, all[0].stamp);
      assert q in t && q in all[1..];
    }
  }

  // ---------------------------------------------------------------- why the hypothesis

  const NS := NsKey("gaggle", "v1")
  const ON := Record(1, SetFlag(NS, "gpu", Typed(Some(BoolValue(true)))))
  const OFF := Record(3, SetFlag(NS, "gpu", Typed(Some(BoolValue(false)))))
  const SHORT := Record(4, Restore(1, 2))

  /** Order alone, which is what the scan looks at, does not make replay time travel: here
      a range that stops short of what came before it leaves a write in force that going
      back would have removed. So the theorem's hypothesis, which every run keeps, is
      needed. */
  lemma AShortRangeIsNotTimeTravel()
    ensures Ascending(Restores([ON, OFF, SHORT])) && !WellFormed([ON, OFF, SHORT])
    ensures Replay([ON, OFF, SHORT], 0) != Run([ON, OFF, SHORT])
  {
    ShortRangeKeepsTheWrite();
    GoingBackDropsTheWrite();
    Snoc([ON], OFF);
    var n := Render(NS);
    assert ApplyAll(map[], [ON]) == Apply(map[], ON);
    assert BucketOf(Apply(map[], ON), n).value["gpu"].value == BoolValue(true);
    assert BucketOf(Apply(Apply(map[], ON), OFF), n).value["gpu"].value == BoolValue(false);
  }

  lemma RestoresOneMore(init: seq<Record>, last: Record)
    ensures Restores(init + [last]) ==
            if last.op.Restore? then Restores(init) + [RestorePoint(last.revision, last.op.to, last.op.from)]
            else Restores(init)
  {
    Snoc(init, last);
  }

  lemma TheShortRange()
    ensures Restores([ON, OFF, SHORT]) == [RestorePoint(4, 1, 2)]
    ensures [ON, OFF, SHORT] == [ON] + [OFF] + [SHORT]
  {
    RestoresOneMore([], ON);
    RestoresOneMore([ON], OFF);
    RestoresOneMore([ON] + [OFF], SHORT);
    assert Restores([]) == [];
    assert [] + [ON] == [ON] && [ON, OFF, SHORT] == [ON] + [OFF] + [SHORT];
  }

  lemma TheShortRangeStands()
    ensures var p := RestorePoint(4, 1, 2);
            Standing(Below([p], None)) == [p] && !Held([p], 1) && !Held([p], 3)
  {
    var p := RestorePoint(4, 1, 2);
    assert [p][1..] == [] && Below([p], None) == [p] && Standing([p]) == [p];
  }

  lemma PickOneMore(init: seq<Record>, last: Record, f: seq<RestorePoint>, b: Bound)
    ensures Pick(init + [last], f, b) == if Picked(last, f, b) then Pick(init, f, b) + [last] else Pick(init, f, b)
  {
    Snoc(init, last);
    hide Picked;
  }

  lemma WhatThePassPicks(f: seq<RestorePoint>)
    requires !Held(f, 1) && !Held(f, 3)
    ensures Picked(ON, f, None) && Picked(OFF, f, None) && !Picked(SHORT, f, None)
    ensures Pick([], f, None) == []
  {
  }

  lemma ShortRangeKeepsTheWrite()
    ensures Restores([ON, OFF, SHORT]) == [RestorePoint(4, 1, 2)]
    ensures Replay([ON, OFF, SHORT], 0) == ApplyAll(map[], [ON] + [OFF])
  {
    hide Restores, Pick, Picked, Standing, Below, Held, ApplyAll;
    hide ON, OFF, SHORT;
    var p := RestorePoint(4, 1, 2);
    TheShortRange();
    TheShortRangeStands();
    WhatThePassPicks([p]);
    PickOneMore([], ON, [p], None);
    PickOneMore([ON], OFF, [p], None);
    PickOneMore([ON] + [OFF], SHORT, [p], None);
    assert [] + [ON] == [ON];
  }

  lemma GoingBackDropsTheWrite()
    ensures Run([ON, OFF, SHORT]) == Apply(map[], ON)
    ensures !WellFormed([ON, OFF, SHORT])
  {
    assert [ON, OFF, SHORT] == [ON, OFF] + [SHORT] && [ON, OFF] == [ON] + [OFF];
    Snoc([ON, OFF], SHORT);
    Snoc([ON], OFF);
    assert Cut([ON], 1) == 1 && Cut([ON, OFF], 1) == 1 && [ON, OFF][..1] == [ON];
    assert Run([ON, OFF, SHORT]) == Run([ON]);
    assert [ON][..0] == [] && Run([ON]) == Apply(Run([]), ON);
    assert !Precedes(OFF, SHORT) && OFF in [ON, OFF];
  }
}
