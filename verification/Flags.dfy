/**
 Namespaces, flags and values: what the store holds on disk, what readers see, and
 the rules a flip must meet (store.go, validate.go).
 */
module Flags {

  datatype Option<+T> = None | Some(value: T)

  // ---------------------------------------------------------------- names

  /** A namespace as callers name it: one service at one version. */
  datatype NsKey = NsKey(service: string, version: string)

  /** A namespace as the store files it. Every stored name came from `Render`. */
  type Name = s: string | '@' in s witness "@"

  const GLOBAL := NsKey("_global", "_")

  function Render(ns: NsKey): Name {
    ns.service + "@" + ns.version
  }

  /** Splits a stored name at its rightmost '@', looking from position `i` down. */
  function ParseFrom(s: string, i: nat): (ns: NsKey)
    requires i <= |s|
    requires '@' in s[..i]
    ensures Render(ns) == s
    ensures '@' !in s[i..] ==> '@' !in ns.version
  {
    if s[i-1] == '@' then
      assert s == s[..i-1] + "@" + s[i..];
      NsKey(s[..i-1], s[i..])
    else
      assert s[..i] == s[..i-1] + [s[i-1]];
      assert s[i-1..] == [s[i-1]] + s[i..];
      ParseFrom(s, i - 1)
  }

  function Parse(n: Name): (ns: NsKey)
    ensures Render(ns) == n
    ensures '@' !in ns.version
  {
    assert n[..|n|] == n;
    ParseFrom(n, |n|)
  }

  /** Rendering is undone by parsing exactly for the versions the handlers admit. */
  lemma ParseUndoesRender(ns: NsKey)
    ensures Parse(Render(ns)) == ns <==> '@' !in ns.version
  {
    if '@' !in ns.version {
      RenderIsInjective(Parse(Render(ns)), ns);
    }
  }

  /** Two texts with one mark in common are the same on both sides of it, if it is the
      first such mark of both. */
  lemma SplitAtTheMark(a: string, x: string, b: string, y: string, mark: char)
    requires mark !in a && mark !in b && a + [mark] + x == b + [mark] + y
    ensures a == b && x == y
  {
    var s := a + [mark] + x;
    assert s[|a|] == mark && s[|b|] == mark;
    assert forall i :: 0 <= i < |a| ==> s[i] == a[i];
    assert forall i :: 0 <= i < |b| ==> s[i] == b[i];
    assert s[..|a|] == a && s[..|b|] == b && s[|a|+1..] == x && s[|b|+1..] == y;
  }

  /** The same, if it is the last of both. */
  lemma SplitAtTheLastMark(a: string, x: string, b: string, y: string, mark: char)
    requires mark !in x && mark !in y && a + [mark] + x == b + [mark] + y
    ensures a == b && x == y
  {
    var s := a + [mark] + x;
    assert s[|a|] == mark && s[|b|] == mark;
    assert forall i :: 0 <= i < |x| ==> s[|a| + 1 + i] == x[i];
    assert forall i :: 0 <= i < |y| ==> s[|b| + 1 + i] == y[i];
    assert s[..|a|] == a && s[..|b|] == b && s[|a|+1..] == x && s[|b|+1..] == y;
  }

  lemma RenderIsInjective(a: NsKey, b: NsKey)
    requires '@' !in a.version && '@' !in b.version
    requires Render(a) == Render(b)
    ensures a == b
  {
    SplitAtTheLastMark(a.service, a.version, b.service, b.version, '@');
  }

  // ---------------------------------------------------------------- values

  newtype int64 = x: int | -0x8000_0000_0000_0000 <= x < 0x8000_0000_0000_0000

  /** `Unset` is a missing value and a value that carries no kind alike. */
  datatype Value = Unset | BoolValue(b: bool) | StringValue(s: string) | IntValue(n: int64)

  predicate SameKind(v: Value, w: Value) {
    (v.Unset? <==> w.Unset?) && (v.BoolValue? <==> w.BoolValue?) && (v.StringValue? <==> w.StringValue?)
  }

  function BoolOf(v: Value): bool { v.BoolValue? && v.b }

  function StringOf(v: Value): string { if v.StringValue? then v.s else "" }

  datatype Flag = Flag(key: string, value: Value, description: string, expensive: bool)

  type Bucket = map<string, Flag>
  type Disk = map<Name, Bucket>
  type Snapshot = map<NsKey, Bucket>

  /** Each flag is filed under its own key, as every write leaves it. */
  predicate FiledByKey(flags: Bucket) {
    forall k :: k in flags ==> flags[k].key == k
  }

  predicate WellKeyed(disk: Disk) {
    forall n :: n in disk ==> FiledByKey(disk[n])
  }

  // ---------------------------------------------------------------- one namespace

  function BucketOf(disk: Disk, n: Name): (b: Option<Bucket>) {
    if n in disk then Some(disk[n]) else None
  }

  /** The disk with one namespace set, or removed. */
  function PutBucket(disk: Disk, n: Name, b: Option<Bucket>): (d: Disk)
    ensures BucketOf(d, n) == b
    ensures forall m :: m != n ==> BucketOf(d, m) == BucketOf(disk, m)
    ensures b == BucketOf(disk, n) ==> d == disk
  {
    if b.Some? then disk[n := b.value] else disk - {n}
  }

  /** Two disks that file the same under every name are one. */
  lemma SameBuckets(d: Disk, e: Disk)
    requires forall n: Name :: BucketOf(d, n) == BucketOf(e, n)
    ensures d == e
  {
    assert forall n: Name :: n in d <==> n in e by {
      forall n: Name ensures n in d <==> n in e {
        assert BucketOf(d, n) == BucketOf(e, n);
      }
    }
    assert d.Keys == e.Keys;
    forall n | n in d ensures d[n] == e[n] {
      assert BucketOf(d, n) == BucketOf(e, n);
    }
  }

  /** The names under which two disks hold different things. */
  function Differ(a: Disk, b: Disk): (names: set<Name>)
    ensures forall n: Name :: n in names <==> BucketOf(a, n) != BucketOf(b, n)
  {
    set n | n in a.Keys + b.Keys && BucketOf(a, n) != BucketOf(b, n)
  }

  /** The flags of a namespace created if absent. */
  function Opened(b: Option<Bucket>): Bucket {
    if b.Some? then b.value else map[]
  }

  /** A flip sets the value and keeps the declared description and expensive mark. */
  function FlipBucket(b: Option<Bucket>, key: string, v: Value): Bucket {
    var flags := Opened(b);
    flags[key := if key in flags then flags[key].(value := v) else Flag(key, v, "", false)]
  }

  // ---------------------------------------------------------------- the snapshot

  /** What a reload builds: every stored namespace under its parsed name. */
  function View(disk: Disk): (s: Snapshot) {
    map ns: NsKey | ns in (set n | n in disk :: Parse(n)) :: disk[Render(ns)]
  }

  /** A snapshot lookup finds exactly what the disk files under the rendered name,
      for the names flipr accepts. */
  lemma ViewServesTheDisk(disk: Disk, ns: NsKey)
    requires '@' !in ns.version
    ensures ns in View(disk) <==> Render(ns) in disk
    ensures ns in View(disk) ==> View(disk)[ns] == disk[Render(ns)]
  {
    ParseUndoesRender(ns);
    if Render(ns) in disk {
      assert Parse(Render(ns)) in View(disk);
    }
  }

  /** What a snapshot serves under a stored name. */
  function Seen(snap: Snapshot, n: Name): Option<Bucket> {
    if Parse(n) in snap then Some(snap[Parse(n)]) else None
  }

  /** No version in the snapshot holds an '@', as every parsed name leaves it. */
  predicate WellNamed(snap: Snapshot) {
    forall ns :: ns in snap ==> '@' !in ns.version
  }

  lemma SeenInView(disk: Disk, n: Name)
    ensures WellNamed(View(disk)) && Seen(View(disk), n) == BucketOf(disk, n)
  {
    ViewServesTheDisk(disk, Parse(n));
  }

  /** A snapshot that serves what the disk files under every name is the disk's view. */
  lemma SeenEverywhere(snap: Snapshot, disk: Disk)
    requires WellNamed(snap) && forall n: Name :: Seen(snap, n) == BucketOf(disk, n)
    ensures snap == View(disk)
  {
    var view := View(disk);
    forall ns: NsKey
      ensures ns in snap <==> ns in view
      ensures ns in snap ==> snap[ns] == view[ns]
    {
      if '@' !in ns.version {
        ParseUndoesRender(ns);
        ViewServesTheDisk(disk, ns);
        assert Seen(snap, Render(ns)) == BucketOf(disk, Render(ns));
      }
    }
    assert snap.Keys == view.Keys;
  }

  // ---------------------------------------------------------------- the rules of a flip

  datatype Refusal = NoValue | TypeChange | OverBudget

  const FLAG_BUDGET := 24

  /** checkValue: a flip carries a value and keeps the kind of a flag that has one. */
  function CheckValue(existing: Option<Flag>, v: Value): Option<Refusal> {
    if v.Unset? then Some(NoValue)
    else if existing.None? || existing.value.value.Unset? then None
    else if !SameKind(v, existing.value.value) then Some(TypeChange)
    else None
  }
}
