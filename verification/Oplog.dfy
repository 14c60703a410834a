/**
 The oplog's records, the two-pass replay that skips what a standing Restore undid
 (filelog.go), and the simple interpreter it is meant to agree with: a Restore to N
 puts the state back to what it was at N.
 */
module Oplog {
  import opened Flags

  // ---------------------------------------------------------------- records

  /** A SetFlag's value: `value_json` as decoded (None: it does not decode), or the
      plain text of a record from before values were typed. */
  datatype Payload = Typed(decoded: Option<Value>) | Text(text: string)

  /** `Notice` is every operation that carries nothing to apply and does not number
      itself: Lock, Unlock, and the reads older files hold. */
  datatype Op =
    | SetFlag(ns: NsKey, key: string, payload: Payload)
    | DeleteNamespace(ns: NsKey)
    | PublishNamespace(ns: NsKey, flags: nat)
    | Restore(to: nat, from: nat)
    | Notice

  datatype Record = Record(revision: nat, op: Op)

  datatype RestorePoint = RestorePoint(stamp: nat, to: nat, from: nat)

  /** None bounds nothing; replay spells that as zero. */
  type Bound = Option<nat>

  function BoundOf(to: nat): Bound { if to == 0 then None else Some(to) }

  predicate Within(rev: nat, b: Bound) { b.None? || rev <= b.value }

  /** The records that take a number of their own. */
  predicate Numbered(r: Record) { !r.op.Notice? }

  /** The records replay has something to apply for. */
  predicate IsWrite(r: Record) { r.op.SetFlag? || r.op.DeleteNamespace? }

  function Highest(log: seq<Record>): (h: nat)
    ensures forall r :: r in log ==> r.revision <= h
    ensures h == 0 || exists r :: r in log && r.revision == h
  {
    if log == [] then 0
    else
      var last := log[|log|-1];
      assert log == log[..|log|-1] + [last];
      var h := Highest(log[..|log|-1]);
      if last.revision > h then last.revision else h
  }

  function Restores(log: seq<Record>): (rs: seq<RestorePoint>)
    ensures forall p :: p in rs ==> Record(p.stamp, Restore(p.to, p.from)) in log
  {
    if log == [] then []
    else
      var last := log[|log|-1];
      assert log == log[..|log|-1] + [last];
      var rs := Restores(log[..|log|-1]);
      if last.op.Restore? then rs + [RestorePoint(last.revision, last.op.to, last.op.from)] else rs
  }

  // ---------------------------------------------------------------- values in records

  function DigitsValue(s: string): Option<nat> {
    if s == "" then None
    else if !('0' <= s[|s|-1] <= '9') then None
    else
      var d := (s[|s|-1] - '0') as nat;
      if |s| == 1 then Some(d)
      else
        var rest := DigitsValue(s[..|s|-1]);
        if rest.None? then None else Some(10 * rest.value + d)
  }

  /** A base ten integer that fits 64 bits, with an optional sign. */
  function ParseInt(s: string): Option<int64> {
    var signed := |s| > 0 && (s[0] == '-' || s[0] == '+');
    var digits := DigitsValue(if signed then s[1..] else s);
    if digits.None? then None
    else
      var n: int := if signed && s[0] == '-' then 0 - (digits.value as int) else digits.value as int;
      if -0x8000_0000_0000_0000 <= n < 0x8000_0000_0000_0000 then Some(n as int64) else None
  }

  /** The value replay applies: typed JSON as it decodes, else the text's best reading. */
  function DecodePayload(p: Payload): Option<Value> {
    match p
    case Typed(decoded) => decoded
    case Text(text) =>
      if text == "true" then Some(BoolValue(true))
      else if text == "false" then Some(BoolValue(false))
      else
        var n := ParseInt(text);
        Some(if n.Some? then IntValue(n.value) else StringValue(text))
  }

  predicate Decodes(r: Record) {
    r.op.SetFlag? ==> DecodePayload(r.op.payload).Some?
  }

  // ---------------------------------------------------------------- applying records

  function Apply(disk: Disk, r: Record): Disk {
    match r.op
    case SetFlag(ns, key, payload) =>
      var v := DecodePayload(payload);
      if v.None? then disk
      else PutBucket(disk, Render(ns), Some(FlipBucket(BucketOf(disk, Render(ns)), key, v.value)))
    case DeleteNamespace(ns) => PutBucket(disk, Render(ns), None)
    case _ => disk
  }

  function ApplyAll(disk: Disk, rs: seq<Record>): Disk {
    if rs == [] then disk else Apply(ApplyAll(disk, rs[..|rs|-1]), rs[|rs|-1])
  }

  // ---------------------------------------------------------------- two-pass replay

  predicate Holds(p: RestorePoint, rev: nat) { p.to < rev <= p.from }

  predicate Held(force: seq<RestorePoint>, rev: nat) {
    exists p :: p in force && Holds(p, rev)
  }

  function Below(all: seq<RestorePoint>, b: Bound): (out: seq<RestorePoint>)
    ensures forall p :: p in out <==> p in all && Within(p.stamp, b)
  {
    if all == [] then []
    else if Within(all[0].stamp, b) then [all[0]] + Below(all[1..], b)
    else Below(all[1..], b)
  }

  /** The restores still in force, latest first. */
  function Standing(all: seq<RestorePoint>): (out: seq<RestorePoint>)
    ensures forall p :: p in out ==> p in all
  {
    if all == [] then []
    else
      var later := Standing(all[1..]);
      if Held(later, all[0].stamp) then later else later + [all[0]]
  }

  function InForce(log: seq<Record>, to: nat): seq<RestorePoint> {
    Standing(Below(Restores(log), BoundOf(to)))
  }

  predicate Picked(r: Record, force: seq<RestorePoint>, b: Bound) {
    IsWrite(r) && Within(r.revision, b) && !Held(force, r.revision)
  }

  /** The records a replay applies: within the bound and not undone. */
  function Pick(log: seq<Record>, force: seq<RestorePoint>, b: Bound): (out: seq<Record>)
    ensures forall r :: r in out <==> r in log && Picked(r, force, b)
  {
    if log == [] then []
    else
      var init, last := log[..|log|-1], log[|log|-1];
      assert log == init + [last];
      if Picked(last, force, b) then Pick(init, force, b) + [last] else Pick(init, force, b)
  }

  /** The store a replay up to `to` builds on a fresh disk. */
  function Replay(log: seq<Record>, to: nat): Disk {
    ApplyAll(map[], Pick(log, InForce(log, to), BoundOf(to)))
  }

  // ---------------------------------------------------------------- the interpreter

  /** How much of the log there was at revision `n`: up to and with the last numbered
      record stamped at or below it. */
  function Cut(log: seq<Record>, n: nat): (c: nat)
    ensures c <= |log|
  {
    if log == [] then 0
    else if Numbered(log[|log|-1]) && log[|log|-1].revision <= n then |log|
    else Cut(log[..|log|-1], n)
  }

  /** Writes take effect in order; a Restore goes back to the state as of its number. */
  function Run(log: seq<Record>): Disk
    decreases |log|
  {
    if log == [] then map[]
    else
      var init, last := log[..|log|-1], log[|log|-1];
      if last.op.Restore? then Run(init[..Cut(init, last.op.to)])
      else Apply(Run(init), last)
  }

  function AsOf(log: seq<Record>, n: nat): Disk { Run(log[..Cut(log, n)]) }

  // ---------------------------------------------------------------- well-formed logs

  /** What numbering leaves true of a record and each numbered one before it: it is
      stamped above it (or both predate stamps), and a Restore's range reaches it. */
  predicate Precedes(x: Record, r: Record) {
    && (x.revision < r.revision || x.revision == r.revision == 0)
    && (r.op.Restore? ==> x.revision <= r.op.from)
  }

  predicate Follows(log: seq<Record>, r: Record) {
    Numbered(r) ==>
      && (r.op.Restore? ==> r.op.from < r.revision)
      && forall x :: x in log && Numbered(x) ==> Precedes(x, r)
  }

  /** The logs the write path and the restore tool leave (proved in module Runs). */
  predicate WellFormed(log: seq<Record>) {
    log == [] || (WellFormed(log[..|log|-1]) && Follows(log[..|log|-1], log[|log|-1]))
  }
}
