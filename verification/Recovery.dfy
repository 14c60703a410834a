/**
 Bringing a store back from its oplog: replay, the heal after a wipe, the operator's
 restore and assess, and the boot that decides between them (filelog.go, ctl.go, main.go).
 */
module Recovery {
  import opened Flags
  import opened Oplog
  import opened TimeTravel
  import opened OplogFile
  import opened Store

  // ---------------------------------------------------------------- replay, as a function

  /** A replay under way: the store so far, the records applied, and those it could not. */
  datatype Progress = Progress(state: StoreState, applied: nat, skipped: nat)

  /** What the volume lets happen at each record of the file. */
  type Forecast = nat -> Weather

  /** The write a record replays as, or none when its value does not decode. */
  function Replayable(r: Record): Option<(NsKey, Mutation)>
    requires IsWrite(r)
  {
    match r.op
    case SetFlag(ns, key, payload) =>
      var v := DecodePayload(payload);
      if v.None? then None else Some((ns, Flip(key, v.value, false)))
    case DeleteNamespace(ns) => Some((ns, Retire))
  }

  /** One record replayed: the store after it, and whether it was applied. */
  function ReplayOne(s: StoreState, r: Record, w: Weather): (StoreState, bool)
    requires IsWrite(r)
  {
    var m := Replayable(r);
    if m.None? then (s, false)
    else
      var (t, out) := Transacted(s, m.value.0, m.value.1, false, w);
      (t, out.Done?)
  }

  function Counted(p: Progress, next: (StoreState, bool)): Progress {
    if next.1 then Progress(next.0, p.applied + 1, p.skipped) else Progress(next.0, p.applied, p.skipped + 1)
  }

  function ReplayFold(s: StoreState, log: seq<Record>, force: seq<RestorePoint>, b: Bound, wx: Forecast): Progress {
    if log == [] then Progress(s, 0, 0)
    else
      var p := ReplayFold(s, log[..|log|-1], force, b, wx);
      var last := log[|log|-1];
      if Picked(last, force, b) then Counted(p, ReplayOne(p.state, last, wx(|log|-1))) else p
  }

  /** A replay with nothing skipped applied every record in force, once each, in order,
      and each one moved the number. */
  lemma {:induction false} NothingSkippedMeansReplayed(s: StoreState, log: seq<Record>,
                                                       force: seq<RestorePoint>, b: Bound, wx: Forecast)
    ensures var p, picked := ReplayFold(s, log, force, b, wx), Pick(log, force, b);
            && p.applied + p.skipped == |picked|
            && (p.skipped == 0 ==>
                  && (forall r :: r in picked ==> Decodes(r))
                  && p.state.disk == ApplyAll(s.disk, picked)
                  && p.state.revision == s.revision + |picked|
                  && Consistent(s, p.state))
  {
    if log == [] {
    } else {
      var init, last := log[..|log|-1], log[|log|-1];
      NothingSkippedMeansReplayed(s, init, force, b, wx);
      var was, p := Pick(init, force, b), ReplayFold(s, init, force, b, wx);
      if Picked(last, force, b) {
        Snoc(was, last);
        if ReplayOne(p.state, last, wx(|log|-1)).1 {
          AppliedMeansApplied(p.state, last, wx(|log|-1));
        }
      }
    }
  }

  /** What replay keeps of a store in good order. */
  predicate Consistent(s: StoreState, t: StoreState) {
    && (s.snap == View(s.disk) ==> t.snap == View(t.disk))
    && (s.durable == s.revision ==> t.durable == t.revision)
    && (!s.failed ==> !t.failed)
  }

  lemma AppliedMeansApplied(s: StoreState, r: Record, w: Weather)
    requires IsWrite(r) && ReplayOne(s, r, w).1
    ensures var t := ReplayOne(s, r, w).0;
            && Decodes(r) && t.disk == Apply(s.disk, r) && t.snap == View(t.disk)
            && t.revision == t.durable == s.revision + 1 && !t.failed
  {
  }

  /** On a volume that holds, the only thing that can be skipped is a value that does
      not decode. */
  lemma {:induction false} FairReplaySkipsOnlyUndecodable(s: StoreState, log: seq<Record>,
                                                          force: seq<RestorePoint>, b: Bound, wx: Forecast)
    requires forall i :: wx(i) == FAIR
    ensures ReplayFold(s, log, force, b, wx).skipped == 0 <==> forall r :: r in Pick(log, force, b) ==> Decodes(r)
  {
    if log == [] {
    } else {
      var init, last := log[..|log|-1], log[|log|-1];
      FairReplaySkipsOnlyUndecodable(s, init, force, b, wx);
      if Picked(last, force, b) {
        assert Pick(log, force, b) == Pick(init, force, b) + [last];
        assert wx(|log|-1) == FAIR;
        assert last in Pick(log, force, b);
      }
    }
  }

  /** The records that carry something replay can read. */
  function Decodable(rs: seq<Record>): seq<Record> {
    if rs == [] then []
    else
      var was := Decodable(rs[..|rs|-1]);
      if Decodes(rs[|rs|-1]) then was + [rs[|rs|-1]] else was
  }

  /** On a volume that holds, a replay leaves what the records in force say, those that do
      not decode passed over, numbered by the count of the ones that do. */
  lemma {:induction false} FairReplayAppliesWhatDecodes(s: StoreState, log: seq<Record>,
                                                        force: seq<RestorePoint>, b: Bound, wx: Forecast)
    requires forall i :: wx(i) == FAIR
    ensures var p, picked := ReplayFold(s, log, force, b, wx), Pick(log, force, b);
            && p.state.disk == ApplyAll(s.disk, picked)
            && p.state.revision == s.revision + |Decodable(picked)|
            && Consistent(s, p.state)
  {
    if log == [] {
    } else {
      var init, last := log[..|log|-1], log[|log|-1];
      FairReplayAppliesWhatDecodes(s, init, force, b, wx);
      if Picked(last, force, b) {
        Snoc(Pick(init, force, b), last);
        FairRecordReplayed(ReplayFold(s, init, force, b, wx).state, last);
        assert wx(|log|-1) == FAIR;
      }
    }
  }

  lemma FairRecordReplayed(s: StoreState, r: Record)
    requires IsWrite(r)
    ensures var (t, ok) := ReplayOne(s, r, FAIR);
            && (ok <==> Decodes(r))
            && t.disk == Apply(s.disk, r) && t.revision == (if ok then s.revision + 1 else s.revision)
            && Consistent(s, t)
  {
    if ReplayOne(s, r, FAIR).1 {
      AppliedMeansApplied(s, r, FAIR);
    }
  }

  // ---------------------------------------------------------------- replay, step by step

  datatype Replayed = Replayed(applied: nat, highest: nat)

  /** When a replay of a file is accepted: its restores in order, every line a record,
      and nothing in force left out. */
  ghost predicate Accepted(s: StoreState, log: seq<Record>, bad: nat, to: nat, wx: Forecast) {
    && Ascending(Restores(log))
    && bad == 0
    && ReplayFold(s, log, InForce(log, to), BoundOf(to), wx).skipped == 0
  }

  /** The store a replay leaves behind, accepted or not: a file refused at the scan
      leaves it as it was. */
  ghost function LeftBy(s: StoreState, log: seq<Record>, to: nat, wx: Forecast): StoreState {
    if Ascending(Restores(log)) then ReplayFold(s, log, InForce(log, to), BoundOf(to), wx).state else s
  }

  /** ApplyReplayed and DeleteNamespace, as replay calls them. */
  method ReplayRecord(store: Store, r: Record, w: Weather) returns (ok: bool)
    requires IsWrite(r)
    modifies store
    ensures (store.State(), ok) == ReplayOne(old(store.State()), r, w)
  {
    match r.op
    case DeleteNamespace(ns) =>
      var out, _ := store.Transact(ns, Retire, null, w);
      ok := out.Done?;
    case SetFlag(ns, key, payload) =>
      var v := DecodePayload(payload);
      if v.None? {
        return false;
      }
      var out, _ := store.Transact(ns, Flip(key, v.value, false), null, w);
      ok := out.Done?;
  }

  lemma PassOneMore(s: StoreState, lines: seq<string>, i: nat, codec: Codec,
                    force: seq<RestorePoint>, b: Bound, wx: Forecast)
    requires i < |lines|
    ensures var was, op := Parsed(lines[..i], codec.decode), codec.decode(lines[i]);
            var now := Parsed(lines[..i+1], codec.decode);
            && CountBad(lines[..i+1], codec.decode) == CountBad(lines[..i], codec.decode) + (if op.None? then 1 else 0)
            && (op.None? ==> now == was)
            && (op.Some? ==>
                  && |now| == |was| + 1
                  && ReplayFold(s, now, force, b, wx) ==
                     var p := ReplayFold(s, was, force, b, wx);
                     if Picked(op.value, force, b) then Counted(p, ReplayOne(p.state, op.value, wx(|was|))) else p)
  {
    assert lines[..i+1][..i] == lines[..i];
    if codec.decode(lines[i]).Some? {
      Snoc(Parsed(lines[..i], codec.decode), codec.decode(lines[i]).value);
    }
  }

  lemma NothingPassed(s: StoreState, codec: Codec, force: seq<RestorePoint>, b: Bound, wx: Forecast)
    ensures Parsed([], codec.decode) == [] && CountBad([], codec.decode) == 0
    ensures ReplayFold(s, [], force, b, wx) == Progress(s, 0, 0)
  {
  }

  /** The second pass: what the bound and the restores in force leave is applied. */
  method ApplyLines(store: Store, lines: seq<string>, codec: Codec, force: seq<RestorePoint>, to: nat, wx: Forecast)
    returns (applied: nat, skipped: nat)
    modifies store
    ensures var p := ReplayFold(old(store.State()), Parsed(lines, codec.decode), force, BoundOf(to), wx);
            && store.State() == p.state && applied == p.applied
            && skipped == p.skipped + CountBad(lines, codec.decode)
  {
    hide ReplayFold, Parsed, CountBad, ReplayOne, Held;
    NothingPassed(store.State(), codec, force, BoundOf(to), wx);
    ghost var s := store.State();
    applied, skipped := 0, 0;
    assert lines[..0] == [];
    var n: nat := 0;
    for i := 0 to |lines|
      invariant n == |Parsed(lines[..i], codec.decode)|
      invariant var p := ReplayFold(s, Parsed(lines[..i], codec.decode), force, BoundOf(to), wx);
                && store.State() == p.state && applied == p.applied
                && skipped == p.skipped + CountBad(lines[..i], codec.decode)
    {
      PassOneMore(s, lines, i, codec, force, BoundOf(to), wx);
      var op := codec.decode(lines[i]);
      if op.None? {
        skipped := skipped + 1;
        continue;
      }
      var r := op.value;
      n := n + 1;
      if to != 0 && r.revision > to {
        continue;
      }
      var held := UndoneBy(force, r.revision);
      if held.Some? {
        continue;
      }
      if r.op.SetFlag? || r.op.DeleteNamespace? {
        var ok := ReplayRecord(store, r, wx(n - 1));
        if ok {
          applied := applied + 1;
        } else {
          skipped := skipped + 1;
        }
      }
    }
    assert lines[..|lines|] == lines;
  }

  /** ReplayFileTo: one pass for the restores in force, one to apply what they leave. */
  method ReplayFileTo(store: Store, file: string, codec: Codec, to: nat, wx: Forecast)
    returns (ok: bool, out: Replayed)
    modifies store
    ensures ok <==> Accepted(old(store.State()), FileRecords(file, codec), FileBad(file, codec), to, wx)
    ensures store.State() == LeftBy(old(store.State()), FileRecords(file, codec), to, wx)
    ensures ok ==> out == Replayed(|Pick(FileRecords(file, codec), InForce(FileRecords(file, codec), to), BoundOf(to))|,
                                   Highest(FileRecords(file, codec)))
  {
    out := Replayed(0, 0);
    if file == "" {
      return true, out;
    }
    var scanned, scan := ScanOplog(file, codec);
    if !scanned {
      return false, out;
    }
    var force := StandingAt(scan.restores, to);
    var lines := EachRecord(file);
    NothingSkippedMeansReplayed(store.State(), FileRecords(file, codec), force, BoundOf(to), wx);
    var applied, skipped := ApplyLines(store, lines, codec, force, to, wx);
    out := Replayed(applied, scan.highest);
    ok := skipped == 0;
  }

  // ---------------------------------------------------------------- the heal

  /** HealFromFile: the whole file replayed, and the count carried on from the highest
      number in it. */
  method HealFromFile(store: Store, file: string, codec: Codec, wx: Forecast, numbered: bool)
    returns (ok: bool, out: Replayed)
    modifies store
    ensures ok <==> numbered && Accepted(old(store.State()), FileRecords(file, codec), FileBad(file, codec), 0, wx)
    ensures var log := FileRecords(file, codec);
            var left := LeftBy(old(store.State()), log, 0, wx);
            && store.State() == (if ok then left.(durable := Highest(log), revision := Highest(log)) else left)
            && (ok ==> out == Replayed(|Pick(log, InForce(log, 0), None)|, Highest(log)))
  {
    ok, out := ReplayFileTo(store, file, codec, 0, wx);
    if ok {
      ok := store.SetRevision(out.highest, numbered);
    }
  }

  const EMPTY := StoreState(map[], 0, map[], 0, false)

  /** The store a log stands for, at a number. */
  function Rebuilt(log: seq<Record>, to: nat, revision: nat): StoreState {
    StoreState(Replay(log, to), revision, View(Replay(log, to)), revision, false)
  }

  /** An accepted replay on a fresh store is the log's own store, at any number. */
  lemma AcceptedMeansRebuilt(log: seq<Record>, bad: nat, to: nat, wx: Forecast, revision: nat)
    requires Accepted(EMPTY, log, bad, to, wx)
    ensures LeftBy(EMPTY, log, to, wx).(durable := revision, revision := revision) == Rebuilt(log, to, revision)
    ensures forall r :: r in Pick(log, InForce(log, to), BoundOf(to)) ==> Decodes(r)
  {
    NothingSkippedMeansReplayed(EMPTY, log, InForce(log, to), BoundOf(to), wx);
    assert View(map[]) == map[];
  }

  // ---------------------------------------------------------------- the operator's tool

  datatype Restored =
    | BadArguments | NotBelow | Edited | NoRecords | BadLines | NotInTheFile | NotThisFile
    | ReplayFailed | NumberFailed | Unrecorded
    | Completed(next: nat, applied: nat)

  /** The guards of a restore, in the order they speak. */
  function RestoreRefused(was: nat, log: seq<Record>, bad: nat, to: nat, reason: string): Option<Restored> {
    if to == 0 || reason == "" then Some(BadArguments)
    else if to >= was then Some(NotBelow)
    else if !Ascending(Restores(log)) then Some(Edited)
    else if log == [] then Some(NoRecords)
    else if bad > 0 then Some(BadLines)
    else if Highest(log) < to then Some(NotInTheFile)
    else if Highest(log) > was then Some(NotThisFile)
    else None
  }

  /** What a restore is refused for, each refusal with everything that spoke before it
      found in order. */
  lemma WhatARestoreIsRefusedFor(was: nat, log: seq<Record>, bad: nat, to: nat, reason: string)
    ensures var r := RestoreRefused(was, log, bad, to, reason);
            var asked := to > 0 && reason != "";
            var below := asked && to < was;
            var ordered := below && Ascending(Restores(log));
            var held := ordered && log != [];
            var parsed := held && bad == 0;
            var reached := parsed && to <= Highest(log);
            && (r == Some(BadArguments) <==> to == 0 || reason == "")
            && (r == Some(NotBelow) <==> asked && was <= to)
            && (r == Some(Edited) <==> below && !Ascending(Restores(log)))
            && (r == Some(NoRecords) <==> ordered && log == [])
            && (r == Some(BadLines) <==> held && bad > 0)
            && (r == Some(NotInTheFile) <==> parsed && Highest(log) < to)
            && (r == Some(NotThisFile) <==> reached && was < Highest(log))
            && (r == None <==> reached && Highest(log) <= was)
  {
    hide Ascending, Restores, Highest;
  }

  /** The first half of restore: everything it refuses before it touches a file. */
  method RestoreGuards(was: nat, file: string, codec: Codec, to: nat, reason: string)
    returns (refused: Option<Restored>)
    ensures refused == RestoreRefused(was, FileRecords(file, codec), FileBad(file, codec), to, reason)
  {
    if to == 0 || reason == "" {
      return Some(BadArguments);
    }
    if to >= was {
      return Some(NotBelow);
    }
    var scanned, scan := ScanOplog(file, codec);
    if !scanned {
      return Some(Edited);
    }
    if scan.records == 0 {
      return Some(NoRecords);
    }
    if scan.bad > 0 {
      return Some(BadLines);
    }
    if scan.highest < to {
      return Some(NotInTheFile);
    }
    if scan.highest > was {
      return Some(NotThisFile);
    }
    refused := None;
  }

  /** How a restore that was not refused ends. */
  ghost function RestoreEnds(was: nat, log: seq<Record>, to: nat, wx: Forecast,
                             numbered: bool, recorded: bool): Restored {
    if !Accepted(EMPTY, log, 0, to, wx) then ReplayFailed
    else if !numbered then NumberFailed
    else if !recorded then Unrecorded
    else Completed(was + 1, |Pick(log, InForce(log, to), BoundOf(to))|)
  }

  /** A restore that was not refused is done exactly when the replay is accepted and both
      the number and the record land, and otherwise names the first that did not. */
  lemma HowARestoreEnds(was: nat, log: seq<Record>, to: nat, wx: Forecast, numbered: bool, recorded: bool)
    ensures var r, accepted := RestoreEnds(was, log, to, wx, numbered, recorded), Accepted(EMPTY, log, 0, to, wx);
            && (r == ReplayFailed <==> !accepted)
            && (r == NumberFailed <==> accepted && !numbered)
            && (r == Unrecorded <==> accepted && numbered && !recorded)
            && (r.Completed? <==> accepted && numbered && recorded)
            && (r.Completed? ==>
                  r.next == was + 1
                  && r.applied == ReplayFold(EMPTY, log, InForce(log, to), BoundOf(to), wx).applied)
  {
    hide ReplayFold, Pick, InForce, Restores, Ascending;
    NothingSkippedMeansReplayed(EMPTY, log, InForce(log, to), BoundOf(to), wx);
  }

  /** A fresh store with the file replayed on it up to `to`. */
  method Rebuild(file: string, codec: Codec, to: nat, generation: nat, wx: Forecast)
    returns (ok: bool, out: Replayed, rebuilt: Store)
    ensures fresh(rebuilt) && rebuilt.generation == generation
    ensures var log := FileRecords(file, codec);
            && (ok <==> Accepted(EMPTY, log, FileBad(file, codec), to, wx))
            && (ok ==>
                  && out == Replayed(|Pick(log, InForce(log, to), BoundOf(to))|, Highest(log))
                  && rebuilt.disk == Replay(log, to)
                  && rebuilt.snap == View(rebuilt.disk) && !rebuilt.failed)
  {
    rebuilt := new Store.Mint(generation);
    assert rebuilt.State() == EMPTY;
    ok, out := ReplayFileTo(rebuilt, file, codec, to, wx);
    if ok {
      AcceptedMeansRebuilt(FileRecords(file, codec), FileBad(file, codec), to, wx, 0);
    }
  }

  /** The rebuilt store numbered above everything, and the range it undid appended. */
  method NumberAndRecord(rebuilt: Store, was: nat, highest: nat, sink: FileSink, to: nat, numbered: bool, recorded: bool)
    returns (next: nat, failed: Option<Restored>)
    requires sink.Valid()
    modifies rebuilt, sink
    ensures next > was && next > highest && (next == was + 1 || next == highest + 1)
    ensures failed == if !numbered then Some(NumberFailed) else if !recorded then Some(Unrecorded) else None
    ensures rebuilt.State() == if numbered then old(rebuilt.State()).(durable := next, revision := next)
                               else old(rebuilt.State())
    ensures sink.Valid()
    ensures sink.Appends(old(sink.file), old(sink.log), old(sink.bad),
                         if failed.None? then Some(Record(next, Oplog.Restore(to, next - 1))) else None)
  {
    next := was + 1;
    if highest >= next {
      next := highest + 1;
    }
    var from := next - 1;
    var ok := rebuilt.SetRevision(next, numbered);
    if !ok {
      return next, Some(NumberFailed);
    }
    var written := sink.Write(Record(next, Oplog.Restore(to, from)), recorded);
    failed := if written then None else Some(Unrecorded);
  }

  /** The second half of restore, on a file the guards let through. */
  method RestoreOnto(was: nat, sink: FileSink, to: nat, generation: nat, wx: Forecast, numbered: bool, recorded: bool)
    returns (res: Restored, rebuilt: Store)
    requires sink.Valid() && sink.bad == 0 && Highest(sink.log) <= was
    modifies sink
    ensures sink.Valid() && fresh(rebuilt) && rebuilt.generation == generation
    ensures res == RestoreEnds(was, old(sink.log), to, wx, numbered, recorded)
    ensures res.Unrecorded? || res.Completed? ==> rebuilt.State() == Rebuilt(old(sink.log), to, was + 1)
    ensures sink.Appends(old(sink.file), old(sink.log), old(sink.bad),
                         if res.Completed? then Some(Record(was + 1, Oplog.Restore(to, was))) else None)
  {
    hide Accepted, Replay, Pick, InForce, BoundOf, Highest, View, FileRecords, FileBad;
    var ok, r;
    ok, r, rebuilt := Rebuild(sink.file, sink.codec, to, generation, wx);
    if !ok {
      return ReplayFailed, rebuilt;
    }
    var next, failed := NumberAndRecord(rebuilt, was, r.highest, sink, to, numbered, recorded);
    res := if failed.Some? then failed.value else Completed(next, r.applied);
  }

  /** restore: a fresh store rebuilt at `to`, numbered above everything, and the range it
      undid appended to the file as one more record. */
  method Restore(was: nat, sink: FileSink, to: nat, reason: string, generation: nat, wx: Forecast,
                 numbered: bool, recorded: bool)
    returns (res: Restored, rebuilt: Store?)
    requires sink.Valid()
    modifies sink
    ensures sink.Valid()
    ensures rebuilt != null ==> fresh(rebuilt) && rebuilt.generation == generation
    ensures var refused := RestoreRefused(was, old(sink.log), old(sink.bad), to, reason);
            && (rebuilt == null <==> refused.Some?)
            && res == if refused.Some? then refused.value
                      else RestoreEnds(was, old(sink.log), to, wx, numbered, recorded)
    ensures rebuilt != null && (res.Unrecorded? || res.Completed?) ==>
              rebuilt.State() == Rebuilt(old(sink.log), to, was + 1)
    ensures sink.Appends(old(sink.file), old(sink.log), old(sink.bad),
                         if res.Completed? then Some(Record(was + 1, Oplog.Restore(to, was))) else None)
  {
    hide Accepted, Replay, Pick, InForce, BoundOf, View, Restores, Ascending, FileRecords, FileBad;
    var refused := RestoreGuards(was, sink.file, sink.codec, to, reason);
    if refused.Some? {
      return refused.value, null;
    }
    res, rebuilt := RestoreOnto(was, sink, to, generation, wx, numbered, recorded);
  }

  /** assess: the store's number is the highest in a file that parses whole. An absent
      or empty file goes with a store at zero. */
  method Assess(store: Store, file: string, codec: Codec) returns (consistent: bool)
    ensures var log := FileRecords(file, codec);
            consistent <==>
            Ascending(Restores(log)) && FileBad(file, codec) == 0 && store.revision == Highest(log)
  {
    var scanned, scan := ScanOplog(file, codec);
    if !scanned {
      return false;
    }
    if scan.bad > 0 {
      return false;
    }
    if scan.records == 0 {
      return store.revision == 0;
    }
    consistent := scan.highest == store.revision;
  }

  // ---------------------------------------------------------------- a torn tail written over

  /** A heal and a restore read a file with a torn tail as if the tail were not there. But
      the first record appended behind one joins it, and is read back exactly when the two
      together read as that record. Where they read as none, the file every restart will
      find has a line that does not parse, and no heal of it is ever accepted. */
  lemma ARecordBehindATornTail(file: string, codec: Codec, r: Record, s: StoreState, wx: Forecast)
    requires Faithful(codec)
    ensures var now := file + codec.encode(r) + "\n";
            && (FileRecords(now, codec) == FileRecords(file, codec) + [r]
                <==> codec.decode(Torn(file) + codec.encode(r)) == Some(r))
            && (codec.decode(Torn(file) + codec.encode(r)).None? ==>
                  && FileRecords(now, codec) == FileRecords(file, codec)
                  && !Accepted(s, FileRecords(now, codec), FileBad(now, codec), 0, wx))
  {
    hide FileRecords, FileBad, Torn, ReplayFold, Restores;
    AppendedRecordIsLast(file, codec, r);
    var was := FileRecords(file, codec);
    var read := codec.decode(Torn(file) + codec.encode(r));
    if read.Some? {
      assert (was + [read.value])[|was|] == read.value && (was + [r])[|was|] == r;
    } else {
      assert |was + [r]| == |was| + 1;
    }
  }

  // ---------------------------------------------------------------- boot

  /** The store's file between processes. */
  datatype Volume = Volume(disk: Disk, durable: nat, generation: nat)

  function OnVolume(s: StoreState, generation: nat): Volume { Volume(s.disk, s.durable, generation) }

  /** What a boot leaves and whether it serves. Only a boot that minted its generation
      heals, and only a heal can refuse. */
  ghost function Booted(volume: Option<Volume>, log: seq<Record>, bad: nat, generation: nat, wx: Forecast,
                        numbered: bool): (StoreState, nat, bool)
  {
    if volume.Some? then
      var v := volume.value;
      (StoreState(v.disk, v.durable, View(v.disk), v.durable, false), v.generation, true)
    else if numbered && Accepted(EMPTY, log, bad, 0, wx) then (Rebuilt(log, 0, Highest(log)), generation, true)
    else (LeftBy(EMPTY, log, 0, wx), generation, false)
  }

  /** main, up to the listener: open, and heal a store that has just been minted. */
  method Boot(volume: Option<Volume>, file: string, codec: Codec, generation: nat, wx: Forecast, numbered: bool)
    returns (store: Store, serving: bool)
    ensures fresh(store)
    ensures (store.State(), store.generation, serving) ==
            Booted(volume, FileRecords(file, codec), FileBad(file, codec), generation, wx, numbered || file == "")
  {
    if volume.Some? {
      store := new Store.Reopen(volume.value.disk, volume.value.durable, volume.value.generation);
      return store, true;
    }
    store := new Store.Mint(generation);
    assert store.State() == EMPTY;
    assert View(map[]) == map[];
    if file == "" {
      return store, true;
    }
    var ok, r := HealFromFile(store, file, codec, wx, numbered);
    if ok {
      AcceptedMeansRebuilt(FileRecords(file, codec), FileBad(file, codec), 0, wx, r.highest);
    }
    serving := ok;
  }
}
