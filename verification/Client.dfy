/**
 The Go client (clients/go/flipr.go): every check pings, the cached namespace is an
 optimisation and never a fallback, a lock is remembered, and what nobody answered goes
 by the caller's policy.
 */
module Client {
  import opened Flags
  import opened Backoff

  // ---------------------------------------------------------------- what flipr answers

  /** One answer to one request. `Good` carries a ping's generation or a fetch's flags. */
  datatype Reply =
    | Good(gen: string, flags: seq<Flag>)
    | Status(code: nat, fromFlipr: bool, retryAfter: nat)
    | NoAnswer(cancelled: bool)
    | Remembered

  /** One attempt: its answer, how long it took, and the jitter drawn after it. */
  datatype Attempt = Attempt(reply: Reply, took: nat, draw: nat)

  type Script = nat -> Attempt

  /** What a whole check may meet, call by call. */
  datatype Network = Network(ping: Script, publish: Script, fetch: Script)

  /** retryable: worth another attempt. A lock and any other word of flipr's are not. */
  predicate Retryable(r: Reply) {
    match r
    case Status(code, fromFlipr, _) => code >= 500 || code == 429 || (code == 404 && !fromFlipr)
    case NoAnswer(cancelled) => !cancelled
    case _ => false
  }

  /** What is asked again: a lost or late answer the caller did not cancel, any 5xx, a 429,
      and a 404 that is not flipr's own. Any other 4xx is the answer. */
  lemma WhatIsAskedAgain(r: Reply)
    ensures r == NoAnswer(true) ==> !Retryable(r)
    ensures r == NoAnswer(false) ==> Retryable(r)
    ensures r.Status? && r.code >= 500 ==> Retryable(r)
    ensures r.Status? && r.code == 429 ==> Retryable(r)
    ensures r.Status? && r.code == 404 ==> (Retryable(r) <==> !r.fromFlipr)
    ensures r.Status? && r.code < 500 && r.code !in {404, 429} ==> !Retryable(r)
    ensures r.Good? || r.Remembered? ==> !Retryable(r)
  {
  }

  lemma APingHeardAtOnce(retry: Retry, net: Script)
    requires Settled(retry)
    ensures net(0).reply.Good? ==> Answer(retry, net) == net(0).reply
  {
  }

  lemma ARefusalHeardAtOnce(retry: Retry, net: Script)
    requires Settled(retry)
    ensures net(0).reply == DENIED ==> Answer(retry, net) == DENIED
  {
  }

  predicate AnswersAtOnce(r: Reply) {
    r == NoAnswer(true) || (r.Status? && ((r.code == 404 && r.fromFlipr) || (r.code < 500 && r.code !in {404, 429})))
  }

  predicate WorthAsking(r: Reply) {
    r == NoAnswer(false) || (r.Status? && ((r.code == 404 && !r.fromFlipr) || r.code == 429 || r.code >= 500))
  }

  /** The attempt whose answer a call comes back with: the first that is not to be asked
      again, or the last there is. */
  function Deciding(net: Script, from: nat, attempts: nat): (k: nat)
    requires from < attempts
    ensures from <= k < attempts
    ensures forall j: nat :: from <= j < k ==> Retryable(net(j).reply)
    ensures Retryable(net(k).reply) ==> k == attempts - 1
    decreases attempts - from
  {
    if !Retryable(net(from).reply) || from + 1 == attempts then from else Deciding(net, from + 1, attempts)
  }

  /** What a call comes back with, no lock standing. */
  function Answer(retry: Retry, net: Script): Reply
    requires Settled(retry)
  {
    net(Deciding(net, 0, retry.attempts)).reply
  }

  /** The wait after an attempt: what flipr asked for, up to the ceiling, or the backoff. */
  function PauseAfter(retry: Retry, a: Attempt, failed: nat): (wait: int)
    requires failed >= 1
    ensures a.reply.Status? && 0 < a.reply.retryAfter <= 30_000_000_000 ==> wait == a.reply.retryAfter
    ensures a.reply.Status? && a.reply.retryAfter > 30_000_000_000 ==> wait == 30_000_000_000
    ensures !a.reply.Status? || a.reply.retryAfter == 0 ==> wait == Drawn(Cap(retry, failed), a.draw)
  {
    if a.reply.Status? && a.reply.retryAfter > 0
    then if a.reply.retryAfter > LOCK_CEILING then LOCK_CEILING else a.reply.retryAfter
    else Drawn(Cap(retry, failed), a.draw)
  }

  /** The time slept after the first `n` attempts, and the time they took. */
  function Slept(retry: Retry, net: Script, n: nat): int {
    if n == 0 then 0 else Slept(retry, net, n - 1) + PauseAfter(retry, net(n - 1), n)
  }

  function Took(net: Script, n: nat): nat {
    if n == 0 then 0 else Took(net, n - 1) + net(n - 1).took
  }

  /** The time a whole call takes, no lock standing. */
  function Spent(retry: Retry, net: Script): int
    requires Settled(retry)
  {
    var k := Deciding(net, 0, retry.attempts);
    Took(net, k + 1) + Slept(retry, net, k)
  }

  lemma OneMoreAttempt(retry: Retry, net: Script, made: nat)
    requires made < retry.attempts
    ensures Deciding(net, made, retry.attempts) ==
            if !Retryable(net(made).reply) || made + 1 == retry.attempts then made
            else Deciding(net, made + 1, retry.attempts)
    ensures Slept(retry, net, made + 1) == Slept(retry, net, made) + PauseAfter(retry, net(made), made + 1)
    ensures Took(net, made + 1) == Took(net, made) + net(made).took
    ensures Slept(retry, net, 0) == 0 && Took(net, 0) == 0
  {
    hide Retryable, PauseAfter;
  }

  lemma AskedOnceOrAgain(net: Script, attempts: nat)
    requires attempts >= 1
    ensures AnswersAtOnce(net(0).reply) ==> Deciding(net, 0, attempts) == 0
    ensures attempts >= 2 && WorthAsking(net(0).reply) ==> Deciding(net, 0, attempts) >= 1
  {
    hide Retryable;
    WhatIsAskedAgain(net(0).reply);
  }

  lemma AWholeCall(retry: Retry, net: Script)
    requires Settled(retry)
    ensures var k := Deciding(net, 0, retry.attempts);
            Answer(retry, net) == net(k).reply && Spent(retry, net) == Took(net, k + 1) + Slept(retry, net, k)
  {
    hide Deciding, Slept, Took;
  }

  datatype Policy = Refuse | Hold

  datatype Declared = Declared(key: string, on: bool)

  datatype Config = Config(declared: seq<Declared>, policy: Policy, retry: Retry, ttl: int)

  function DeclaredDefault(declared: seq<Declared>, key: string): (on: bool)
    ensures (forall d :: d in declared ==> d.key != key) ==> !on
    ensures forall i :: (0 <= i < |declared| && declared[i].key == key
                         && forall j :: 0 <= j < i ==> declared[j].key != key) ==> on == declared[i].on
  {
    if declared == [] then false
    else if declared[0].key == key then declared[0].on
    else DeclaredDefault(declared[1..], key)
  }

  /** The first flag under a key, as a read walks them. */
  function Find(flags: seq<Flag>, key: string): (f: Option<Flag>)
    ensures f == None <==> forall g :: g in flags ==> g.key != key
    ensures f.Some? ==> exists i :: 0 <= i < |flags| && flags[i] == f.value && f.value.key == key
                                    && forall j :: 0 <= j < i ==> flags[j].key != key
  {
    if flags == [] then None else if flags[0].key == key then Some(flags[0]) else Find(flags[1..], key)
  }

  // ---------------------------------------------------------------- what happened

  /** What a client went through, as bookkeeping: an answered ping, a generation seen to
      change, its declarations taken, a namespace fetched, a flip of its own that landed, a
      value read as known. */
  datatype Happening =
    | Pinged
    | Changed
    | Announced
    | Fetched(at: int, flags: seq<Flag>)
    | Landed
    | Read(key: string, on: bool)

  /** The namespace fetched at `at` is the last word: no generation change and no flip of
      the client's own has come since. */
  ghost predicate LastWord(trace: seq<Happening>, at: int, flags: seq<Flag>) {
    exists i :: 0 <= i < |trace| && trace[i] == Fetched(at, flags)
                && forall j :: i < j < |trace| ==> !trace[j].Changed? && !trace[j].Landed?
  }

  /** The value last read as known. */
  ghost function LastRead(trace: seq<Happening>, key: string): Option<bool> {
    if trace == [] then None
    else
      var h := trace[|trace|-1];
      if h.Read? && h.key == key then Some(h.on) else LastRead(trace[..|trace|-1], key)
  }

  lemma LastWordStands(trace: seq<Happening>, h: Happening, at: int, flags: seq<Flag>)
    requires LastWord(trace, at, flags) && !h.Changed? && !h.Landed?
    ensures LastWord(trace + [h], at, flags)
  {
    var i :| 0 <= i < |trace| && trace[i] == Fetched(at, flags)
             && forall j :: i < j < |trace| ==> !trace[j].Changed? && !trace[j].Landed?;
    assert (trace + [h])[i] == Fetched(at, flags);
  }

  lemma AFetchIsTheLastWord(trace: seq<Happening>, at: int, flags: seq<Flag>)
    ensures LastWord(trace + [Fetched(at, flags)], at, flags)
  {
    assert (trace + [Fetched(at, flags)])[|trace|] == Fetched(at, flags);
  }

  /** The declarations are taken first behind an answered ping, and from then on only
      straight behind the change of generation that calls for them. */
  ghost predicate Told(trace: seq<Happening>) {
    forall j: nat :: j < |trace| && trace[j].Announced? ==> CalledFor(trace, j)
  }

  ghost predicate CalledFor(trace: seq<Happening>, j: nat)
    requires j < |trace|
  {
    j > 0 && (trace[j-1].Changed? || (trace[j-1].Pinged? && Announced !in trace[..j]))
  }

  lemma NothingTold()
    ensures Told([])
  {
  }

  lemma ToldStill(trace: seq<Happening>, h: Happening)
    requires Told(trace)
    requires h.Announced? ==>
               && trace != []
               && var before := trace[|trace|-1];
                  before.Changed? || (before.Pinged? && Announced !in trace)
    ensures Told(trace + [h])
    ensures Announced in trace + [h] <==> h.Announced? || Announced in trace
  {
    var now := trace + [h];
    assert now[..|trace|] == trace;
    forall j: nat | j < |now| && now[j].Announced? ensures CalledFor(now, j) {
      if j < |trace| {
        assert CalledFor(trace, j);
        assert now[..j] == trace[..j];
      }
    }
  }

  /** Once a client has published, a changed generation is told the declarations at once or
      not at all: until the next change, the publish that came straight behind this one is
      the only one there can be. */
  lemma ToldAtOnceOrNotAtAll(trace: seq<Happening>, i: nat, j: nat)
    requires Told(trace) && i < j <= |trace|
    requires trace[i].Changed? && Announced in trace[..i]
    requires forall k :: i < k < j ==> !trace[k].Changed?
    ensures Announced in trace[i..j] <==> i + 1 < j && trace[i+1].Announced?
  {
    if Announced in trace[i..j] {
      var k :| 0 <= k < j - i && trace[i..j][k] == Announced;
      assert trace[i+k] == Announced && CalledFor(trace, i + k);
      var a :| 0 <= a < i && trace[..i][a] == Announced;
      assert trace[..i+k][a] == Announced;
    }
    if i + 1 < j && trace[i+1].Announced? {
      assert trace[i..j][1] == Announced;
    }
  }

  /** How long a lock is remembered: what flipr asked for, or the default, up to the ceiling. */
  function Remembering(retryAfter: nat): (d: int)
    ensures 0 < d <= 30_000_000_000
    ensures 0 < retryAfter <= 30_000_000_000 ==> d == retryAfter
    ensures retryAfter > 30_000_000_000 ==> d == 30_000_000_000
    ensures retryAfter == 0 ==> d == 5_000_000_000
  {
    if retryAfter == 0 then LOCK_DEFAULT else if retryAfter > LOCK_CEILING then LOCK_CEILING else retryAfter
  }

  /** Whether a generation is news to a client that has heard one before. */
  predicate News(was: string, now: string): (news: bool)
    ensures was == "" || now == was ==> !news
    ensures was != "" && now != was ==> news
  {
    was != "" && now != was
  }

  /** What an answered ping leaves behind. */
  function Heard(changed: bool): seq<Happening> { if changed then [Pinged, Changed] else [Pinged] }

  /** A request flipr answers and will not take, as it does a malformed one. */
  const DENIED := Status(400, true, 0)

  // ---------------------------------------------------------------- the client

  class Client {
    const cfg: Config
    var now: int
    var gen: string
    var published: bool
    var up: bool
    var last: map<string, bool>
    var ns: Option<seq<Flag>>
    var refreshed: int
    var lockUntil: Option<int>
    ghost var trace: seq<Happening>

    /** The cache is always the last word, the remembered values are those read, a
        remembered lock ends within the ceiling, and the declarations went out only when
        they were called for. */
    ghost predicate Valid()
      reads this
    {
      && Settled(cfg.retry)
      && (ns.Some? ==> refreshed <= now && LastWord(trace, refreshed, ns.value))
      && (forall k :: LastRead(trace, k) == if k in last then Some(last[k]) else None)
      && (lockUntil.Some? ==> lockUntil.value <= now + LOCK_CEILING)
      && (published <==> Announced in trace) && Told(trace)
    }

    /** New, on a client that names a flipr: an unanswered first contact leaves every read to
        the policy, and a refused publish leaves the declarations to the next check. */
    constructor (cfg: Config, start: int, net: Network)
      ensures Valid() && this.cfg == cfg.(retry := WithDefaults(cfg.retry))
      ensures ns == None && forall k :: LastRead(trace, k) == None
      ensures up <==> trace != []
      ensures up ==>
                trace == [Pinged] + if published then [Announced] else []
      ensures !up ==> gen == "" && !published
      ensures up <==> Answer(this.cfg.retry, net.ping).Good?
      ensures up ==> gen == Answer(this.cfg.retry, net.ping).gen
      ensures published <==> up && Answer(this.cfg.retry, net.publish).Good?
    {
      hide Told, LastWord, Answer, Spent, Deciding, Slept, Took, AnswersAtOnce, WorthAsking, Remembering;
      this.cfg := cfg.(retry := WithDefaults(cfg.retry));
      now, gen, published, up, last := start, "", false, false, map[];
      ns, refreshed, lockUntil, trace := None, 0, None, [];
      new;
      NothingTold();
      var r, made, _ := Rpc(net.ping);
      if r.Good? {
        gen := r.gen;
        up := true;
        Note(Pinged);
        var ok := Announce(net.publish);
      }
    }

    predicate LockStands()
      reads this
    {
      lockUntil.Some? && now <= lockUntil.value
    }

    /** noteLocked: the lock and its deadline, as long as flipr asked for, up to the ceiling. */
    method NoteLocked(retryAfter: nat)
      modifies this`lockUntil
      ensures lockUntil == Some(now + Remembering(retryAfter))
    {
      var until := if retryAfter <= 0 then LOCK_DEFAULT else retryAfter;
      if until > LOCK_CEILING {
        until := LOCK_CEILING;
      }
      lockUntil := Some(now + until);
    }

    /** The longest a call sleeps between two attempts. */
    function LongestWait(): int {
      if cfg.retry.max > LOCK_CEILING then cfg.retry.max else LOCK_CEILING
    }

    /** The wait before the next attempt: the backoff, or what flipr asked for, capped. */
    method Pause(a: Attempt, failed: nat) returns (wait: int)
      requires Settled(cfg.retry) && failed >= 1
      ensures wait == PauseAfter(cfg.retry, a, failed) && 0 <= wait <= LongestWait()
    {
      wait := Wait(cfg.retry, failed, a.draw);
      CapIsBelowTheCeiling(cfg.retry, failed);
      var r := a.reply;
      if r.Status? && r.retryAfter > 0 {
        wait := if r.retryAfter > LOCK_CEILING then LOCK_CEILING else r.retryAfter;
      }
    }

    /** once: one request and its answer, which sets a remembered lock or clears it. */
    method Once(a: Attempt) returns (r: Reply)
      requires Valid()
      modifies this`now, this`lockUntil
      ensures Valid() && r == a.reply && now == old(now) + a.took
      ensures lockUntil == if r.Good? then None
                           else if r.Status? && r.code == 423 then Some(now + Remembering(r.retryAfter))
                           else old(lockUntil)
    {
      hide LastWord, LastRead, Told, Settled;
      r := a.reply;
      now := now + a.took;
      if r.Status? && r.code == 423 {
        NoteLocked(r.retryAfter);
      }
      if r.Good? {
        lockUntil := None;
      }
    }

    /** rpc: one call, retried within its bounds; or, while a remembered lock stands, its
        answer with no request at all. */
    method Rpc(net: Script) returns (r: Reply, ghost made: nat, ghost slept: int)
      requires Valid()
      modifies this`now, this`lockUntil
      ensures Valid() && now >= old(now)
      ensures made == 0 <==> old(LockStands())
      ensures made == 0 <==> old(lockUntil).Some? && old(now) <= old(lockUntil).value
      ensures made == 0 ==> r.Remembered? && slept == 0 && now == old(now) && lockUntil == old(lockUntil)
      ensures made > 0 ==>
                && made == Deciding(net, 0, cfg.retry.attempts) + 1 && r == Answer(cfg.retry, net)
                && slept == Slept(cfg.retry, net, made - 1) && now == old(now) + Spent(cfg.retry, net)
                && 0 <= slept <= (made - 1) * LongestWait()
      ensures made > 0 && AnswersAtOnce(net(0).reply) ==> made == 1
      ensures made > 0 && cfg.retry.attempts >= 2 && WorthAsking(net(0).reply) ==> made >= 2
      ensures r.Good? ==> lockUntil == None
      ensures r.Status? && r.code == 423 ==> lockUntil == Some(now + Remembering(r.retryAfter))
      ensures !r.Good? && !(r.Status? && r.code == 423) ==> lockUntil == old(lockUntil)
    {
      hide LastWord, LastRead, Told, Retryable, Deciding, Slept, Took, PauseAfter, Answer, Spent, Cap, Drawn;
      hide AnswersAtOnce, WorthAsking, Remembering, Settled;
      AWholeCall(cfg.retry, net);
      OneMoreAttempt(cfg.retry, net, 0);
      AskedOnceOrAgain(net, cfg.retry.attempts);
      made, slept := 0, 0;
      if LockStands() {
        return Remembered, made, slept;
      }
      var attempt: nat := 1;
      while true
        invariant 1 <= attempt <= cfg.retry.attempts && made == attempt - 1
        invariant Valid() && lockUntil == old(lockUntil)
        invariant Deciding(net, 0, cfg.retry.attempts) == Deciding(net, made, cfg.retry.attempts)
        invariant slept == Slept(cfg.retry, net, made) && now == old(now) + Took(net, made) + slept
        invariant 0 <= slept <= made * LongestWait()
        decreases cfg.retry.attempts - attempt
      {
        made := attempt;
        r := Once(net(attempt - 1));
        WhatIsAskedAgain(r);
        OneMoreAttempt(cfg.retry, net, attempt - 1);
        if r.Good? {
          return;
        }
        if !Retryable(r) || attempt == cfg.retry.attempts {
          return;
        }
        var wait := Pause(net(attempt - 1), attempt);
        OneMoreWait(made, LongestWait());
        now := now + wait;
        slept := slept + wait;
        attempt := attempt + 1;
      }
    }

    /** An answered ping, taken in: a changed generation drops the cache. */
    method Hear(g: string) returns (changed: bool)
      requires Valid()
      modifies this`up, this`gen, this`ns, this`trace
      ensures Valid() && up && gen == g && changed == News(old(gen), g)
      ensures ns == (if changed then None else old(ns)) && trace == old(trace) + Heard(changed)
      ensures forall k :: LastRead(trace, k) == old(LastRead(trace, k))
    {
      hide LastWord, LastRead, Told;
      up := true;
      changed := News(gen, g);
      gen := g;
      Note(Pinged);
      if changed {
        ns := None;
        Note(Changed);
      }
    }

    /** The declarations sent, and taken or not. */
    method Announce(net: Script) returns (ok: bool)
      requires Valid() && trace != []
      requires var before := trace[|trace|-1]; before.Changed? || (before.Pinged? && !published)
      modifies this`now, this`lockUntil, this`published, this`trace
      ensures Valid() && now >= old(now)
      ensures published == (ok || old(published)) && trace == old(trace) + if ok then [Announced] else []
      ensures forall k :: LastRead(trace, k) == old(LastRead(trace, k))
      ensures ok <==> !old(LockStands()) && Answer(cfg.retry, net).Good?
      ensures ok ==> lockUntil == None
      ensures !old(LockStands()) ==> now == old(now) + Spent(cfg.retry, net)
      ensures net(0).reply == DENIED && !old(LockStands()) ==> !ok && lockUntil == old(lockUntil)
    {
      hide LastWord, LastRead, Told;
      var p, made, _ := Rpc(net);
      ok := p.Good?;
      if ok {
        published := true;
        Extend(Announced);
      }
    }

    /** Whether a check goes on: the ping answered, and the declarations taken where the
        answer calls for them. */
    predicate GoesOn(net: Network)
      requires Settled(cfg.retry)
      reads this
    {
      && !LockStands()
      && Answer(cfg.retry, net.ping).Good?
      && (CallsForPublish(Answer(cfg.retry, net.ping).gen) ==> Answer(cfg.retry, net.publish).Good?)
    }

    predicate CallsForPublish(g: string)
      reads this
    {
      News(gen, g) || !published
    }

    /** When a check that goes on has heard what it needs. */
    function Verified(net: Network): int
      requires Settled(cfg.retry) && GoesOn(net)
      reads this
    {
      now + Spent(cfg.retry, net.ping)
      + if CallsForPublish(Answer(cfg.retry, net.ping).gen) then Spent(cfg.retry, net.publish) else 0
    }

    /** verify: the ping every check makes. A changed generation drops the cache; the
        declarations go out on a change and on the first answer, and the check goes on only
        once they are taken. */
    method Verify(net: Network) returns (ok: bool)
      requires Valid()
      modifies this
      ensures Valid() && now >= old(now) && old(trace) <= trace
      ensures forall k :: LastRead(trace, k) == old(LastRead(trace, k))
      ensures ok <==> old(GoesOn(net))
      ensures ok ==> !LockStands() && gen == Answer(cfg.retry, net.ping).gen && now == old(Verified(net))
      ensures ok ==> ns == (if News(old(gen), gen) then None else old(ns)) && refreshed == old(refreshed)
      ensures ok ==>
                && up && published
                && old(trace) + [Pinged] <= trace
                && trace == old(trace) + Heard(News(old(gen), gen))
                            + if News(old(gen), gen) || !old(published) then [Announced] else []
      ensures !ok ==>
                && published == old(published)
                && (|| (gen == old(gen) && trace == old(trace))
                    || trace == old(trace) + Heard(News(old(gen), gen)))
      ensures News(old(gen), gen) ==> ns == None
      ensures net.ping(0).reply.Good? && !old(LockStands()) ==>
                && gen == net.ping(0).reply.gen
                && (old(published) && !News(old(gen), gen) ==> ok)
                && (News(old(gen), gen) && net.publish(0).reply == DENIED ==>
                      !ok && lockUntil == None && trace == old(trace) + Heard(true))
    {
      hide LastWord, LastRead, Told, Spent, Answer, AnswersAtOnce, WorthAsking, Remembering;
      APingHeardAtOnce(cfg.retry, net.ping);
      ARefusalHeardAtOnce(cfg.retry, net.publish);
      var r, _, _ := Rpc(net.ping);
      if !r.Good? {
        up := false;
        return false;
      }
      var first := !published;
      var changed := Hear(r.gen);
      if changed || first {
        ok := Announce(net.publish);
        return;
      }
      ok := true;
    }

    /** Something happened; Valid but for the flag a taken publish has just set. */
    ghost method Extend(h: Happening)
      requires Told(trace) && (ns.Some? ==> refreshed <= now && LastWord(trace, refreshed, ns.value))
      requires Settled(cfg.retry) && (lockUntil.Some? ==> lockUntil.value <= now + LOCK_CEILING)
      requires forall k :: LastRead(trace, k) == if k in last then Some(last[k]) else None
      requires !h.Read? && ((h.Changed? || h.Landed?) ==> ns == None)
      requires published == (h.Announced? || Announced in trace)
      requires h.Announced? ==>
                 && trace != []
                 && var before := trace[|trace|-1];
                    before.Changed? || (before.Pinged? && Announced !in trace)
      modifies this`trace
      ensures Valid() && trace == old(trace) + [h]
      ensures forall k :: LastRead(trace, k) == old(LastRead(trace, k))
    {
      hide Told;
      if ns.Some? {
        LastWordStands(trace, h, refreshed, ns.value);
      }
      ToldStill(trace, h);
      assert (trace + [h])[..|trace|] == trace;
      trace := trace + [h];
    }

    ghost method Note(h: Happening)
      requires Valid() && !h.Read? && !h.Announced? && ((h.Changed? || h.Landed?) ==> ns == None)
      modifies this`trace
      ensures Valid() && trace == old(trace) + [h]
      ensures forall k :: LastRead(trace, k) == old(LastRead(trace, k))
    {
      hide Told, LastWord, LastRead;
      Extend(h);
    }

    /** fetch: the whole namespace in one trip. */
    method Fetch(net: Network) returns (ok: bool)
      requires Valid()
      modifies this
      ensures Valid() && now >= old(now) && old(trace) <= trace
      ensures forall k :: LastRead(trace, k) == old(LastRead(trace, k))
      ensures up == old(up) && published == old(published) && gen == old(gen)
      ensures ok <==> !old(LockStands()) && Answer(cfg.retry, net.fetch).Good?
      ensures ok ==> ns == Some(Answer(cfg.retry, net.fetch).flags) && now == old(now) + Spent(cfg.retry, net.fetch)
      ensures ok ==> refreshed == now && trace == old(trace) + [Fetched(now, ns.value)]
      ensures !ok ==> ns == old(ns) && trace == old(trace)
    {
      var r, _, _ := Rpc(net.fetch);
      if !r.Good? {
        return false;
      }
      Note(Fetched(now, r.flags));
      AFetchIsTheLastWord(old(trace), now, r.flags);
      ns := Some(r.flags);
      refreshed := now;
      ok := true;
    }

    /** unknownLocked: what the policy makes of a read nothing authoritative answered. */
    function Unknown(key: string): bool
      reads this
    {
      match cfg.policy
      case Hold => if key in last then last[key] else DeclaredDefault(cfg.declared, key)
      case Refuse => false
    }

    /** A value read as known, remembered. */
    method Remember(key: string, on: bool)
      requires Valid()
      modifies this`last, this`trace
      ensures Valid() && trace == old(trace) + [Read(key, on)] && LastRead(trace, key) == Some(on)
    {
      hide Told;
      if ns.Some? {
        LastWordStands(trace, Read(key, on), refreshed, ns.value);
      }
      ToldStill(trace, Read(key, on));
      assert (trace + [Read(key, on)])[..|trace|] == trace;
      last := last[key := on];
      trace := trace + [Read(key, on)];
    }

    /** The namespace was fetched since the trace stood at `since`, or under the TTL ago. */
    ghost predicate Current(since: nat)
      requires since <= |trace|
      reads this
    {
      && ns.Some?
      && (|| (exists i :: since <= i < |trace| && trace[i] == Fetched(refreshed, ns.value))
          || now - refreshed < cfg.ttl)
    }

    /** Whether the cache will do for a check that has gone on: not dropped for a new
        generation, and under the TTL by then. */
    predicate Fresh(net: Network)
      requires Settled(cfg.retry) && GoesOn(net)
      reads this
    {
      && ns.Some? && !News(gen, Answer(cfg.retry, net.ping).gen)
      && 0 < cfg.ttl && Verified(net) - refreshed < cfg.ttl
    }

    /** The namespace a check reads, if it gets to read one. */
    function ReadFrom(net: Network): Option<seq<Flag>>
      requires Settled(cfg.retry)
      reads this
    {
      if !GoesOn(net) then None
      else if Fresh(net) then ns
      else if Answer(cfg.retry, net.fetch).Good? then Some(Answer(cfg.retry, net.fetch).flags)
      else None
    }

    /** Check: an answer is known exactly when a namespace was there to read, from a cache
        still good after the ping or from the fetch, and holds a flag under the key; and it
        is on exactly when the first such flag is the bool true. That namespace is the last
        word of flipr. Anything else is unknown, and the policy decides: refuse, or hold
        what was last known, or failing that the declared default. */
    method Check(key: string, net: Network) returns (on: bool, known: bool)
      requires Valid()
      modifies this
      ensures Valid() && old(trace) <= trace && now >= old(now)
      ensures known <==> old(ReadFrom(net)).Some? && exists f :: f in old(ReadFrom(net)).value && f.key == key
      ensures known ==>
                && ns == old(ReadFrom(net))
                && (on <==> Find(ns.value, key).value.value == BoolValue(true))
      ensures known ==>
                && up && published && Current(|old(trace)|) && LastWord(trace, refreshed, ns.value)
                && |trace| > |old(trace)| && trace[|old(trace)|] == Pinged
                && LastRead(trace, key) == Some(on)
      ensures !known ==>
                && (cfg.policy == Refuse ==> !on)
                && (cfg.policy == Hold ==> on == if old(LastRead(trace, key)).Some? then old(LastRead(trace, key)).value
                                                 else DeclaredDefault(cfg.declared, key))
                && forall k :: LastRead(trace, k) == old(LastRead(trace, k))
    {
      hide Heard, News, LastRead, LastWord, Told, Answer, Spent, GoesOn, Verified, Settled, DeclaredDefault;
      var ok := Verify(net);
      if !ok {
        return Unknown(key), false;
      }
      var current := ns.Some? && cfg.ttl > 0 && now - refreshed < cfg.ttl;
      if !current {
        ok := Fetch(net);
        if !ok {
          return Unknown(key), false;
        }
      }
      assert !current ==> trace[|trace|-1] == Fetched(refreshed, ns.value);
      ghost var i := |trace| - 1;
      var f := FindFlag(ns.value, key);
      if f.None? {
        return Unknown(key), false;
      }
      on, known := BoolOf(f.value.value), true;
      Remember(key, on);
      assert !current ==> trace[i] == Fetched(refreshed, ns.value);
    }

    /** Set: a flip of the client's own that lands drops the cache, so reading back reads
        flipr. */
    method Set(net: Script) returns (ok: bool)
      requires Valid()
      modifies this
      ensures Valid() && (ok ==> ns == None) && (!ok ==> ns == old(ns))
      ensures ok <==> !old(LockStands()) && Answer(cfg.retry, net).Good?
      ensures trace == if ok then old(trace) + [Landed] else old(trace)
      ensures forall k :: LastRead(trace, k) == old(LastRead(trace, k))
    {
      hide LastWord, LastRead, Told;
      var r, _, _ := Rpc(net);
      ok := r.Good?;
      if ok {
        ns := None;
        refreshed := 0;
        Note(Landed);
      }
    }
  }

  /** Exactly when the declarations are made again after a wipe. Whatever becomes of the
      publish that answers a new generation and of everything in the check after it: when
      that check goes on, the declarations have been taken since the wipe iff the first
      check went on too, or the generation had changed once more. The client remembers the
      generation before it publishes, and that it once published. */
  method AWipedFliprIsToldAtOnceOrNotAtAll(c: Client, wiped: Network, later: Network)
    returns (first: bool, second: bool)
    requires c.Valid() && c.published && c.gen != "" && !c.LockStands()
    requires wiped.ping(0).reply.Good? && wiped.ping(0).reply.gen !in {c.gen, ""}
    modifies c
    ensures c.Valid() && old(c.trace) <= c.trace
    ensures second ==>
              (Announced in c.trace[|old(c.trace)|..] <==> first || c.gen != wiped.ping(0).reply.gen)
  {
    hide LastWord, LastRead, Told, Answer, Spent;
    first := c.Verify(wiped);
    ghost var mid := c.trace;
    second := c.Verify(later);
    ghost var g := wiped.ping(0).reply.gen;
    assert mid == old(c.trace) + if first then [Pinged, Changed, Announced] else [Pinged, Changed];
    if second {
      assert c.trace == mid + if c.gen != g then [Pinged, Changed, Announced] else [Pinged];
      assert c.trace[|old(c.trace)|..] == (if first then [Pinged, Changed, Announced] else [Pinged, Changed])
                                          + if c.gen != g then [Pinged, Changed, Announced] else [Pinged];
    }
  }

  /** So a single refused publish goes unrepeated, and the checks go on without it. */
  method AMissedPublishIsNotMadeAgain(c: Client, wiped: Network, later: Network) returns (first: bool, second: bool)
    requires c.Valid() && c.published && c.gen != "" && !c.LockStands()
    requires wiped.ping(0).reply.Good? && wiped.ping(0).reply.gen != c.gen && wiped.publish(0).reply == DENIED
    requires later.ping(0).reply.Good? && later.ping(0).reply.gen == wiped.ping(0).reply.gen
    modifies c
    ensures !first && second && c.trace == old(c.trace) + [Pinged, Changed, Pinged]
  {
    first := c.Verify(wiped);
    second := c.Verify(later);
  }

  /** The walk of the namespace for one key. */
  method FindFlag(flags: seq<Flag>, key: string) returns (f: Option<Flag>)
    ensures f == Find(flags, key)
  {
    for i := 0 to |flags|
      invariant Find(flags, key) == Find(flags[i..], key)
    {
      if flags[i].key == key {
        return Some(flags[i]);
      }
    }
    f := None;
  }

  lemma OneMoreWait(made: nat, longest: int)
    requires made >= 1
    ensures (made - 1) * longest + longest == made * longest
  {
  }

  lemma CapIsBelowTheCeiling(r: Retry, failed: nat)
    requires Settled(r) && failed >= 1
    ensures 0 <= Cap(r, failed) <= r.max
  {
  }
}
