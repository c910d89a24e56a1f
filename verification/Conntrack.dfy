/**
 The connection table of the oaf module (fwx_conntrack.c): 256 hash buckets, and a sweep that
 looks at six of them per call and drops what has been idle for too long.
 */
module Conntrack {
  import opened Wrappers

  const HASH_SIZE := 256
  const CHECK_COUNT := 5     // MAX_AF_CONN_CHECK_COUNT
  const CALLS := 51          // sweep calls for one round through the table

  datatype Key = Key(srcIp: nat, dstIp: nat, srcPort: nat, dstPort: nat, protocol: nat)

  /** A connection. `last` is the stored jiffies value; `seen` is the same moment on a clock that
      does not wrap; `id` stands for the address of the object. */
  datatype Conn = Conn(id: nat, key: Key, last: nat, seen: nat, appId: nat, drop: nat)

  /** The machine's jiffies wrap at `word`, an even number; the timeout is less than half of it. */
  datatype Clock = Clock(word: nat, timeout: nat) {
    predicate Valid() { word % 2 == 0 && timeout < word / 2 }

    /** time_after(a, b): the difference, read as a signed number, is negative. */
    predicate TimeAfter(a: int, b: int)
      requires Valid()
    {
      (b - a) % word >= word / 2
    }

    predicate Expired(now: nat, last: nat)
      requires Valid()
    {
      TimeAfter(now % word, (last + timeout) % word)
    }

    /** Idle times for which the comparison of wrapped values is right. */
    predicate InRange(idle: int)
      requires Valid()
    {
      0 <= idle <= word / 2 + timeout
    }
  }

  // Quotient and remainder are determined by what they add up to.
  lemma ModUnique(x: int, q: int, r: int, w: int)
    requires 0 <= r < w && x == q * w + r
    ensures x % w == r
  {
    var q', r' := x / w, x % w;
    assert (q - q') * w == r' - r;
    SmallMultiple(r' - r, q - q', w);
  }

  lemma SmallMultiple(d: int, k: int, w: int)
    requires w > 0 && d == k * w && -w < d < w
    ensures d == 0
  {
  }

  lemma Distribute(a: int, b: int, w: int)
    ensures (a + b) * w == a * w + b * w && (a - b) * w == a * w - b * w
  {
  }

  lemma SameRemainder(a: int, b: int, k: int, w: int)
    requires w > 0 && a == b + k * w
    ensures a % w == b % w
  {
    Distribute(b / w, k, w);
    ModUnique(a, b / w + k, b % w, w);
  }

  lemma NegatedRemainder(x: int, w: int)
    requires w > 0
    ensures (-x) % w == if x % w == 0 then 0 else w - x % w
  {
    var q, r := x / w, x % w;
    Distribute(0, q, w);
    Distribute(-q, 1, w);
    if r == 0 {
      ModUnique(-x, -q, 0, w);
    } else {
      ModUnique(-x, -q - 1, w - r, w);
    }
  }

  // Reducing the clock, the stamp and the limit in between does not change the reduced difference.
  lemma ReducedDifference(now: int, seen: int, t: int, w: int)
    requires w > 0
    ensures ((seen % w + t) % w - now % w) % w == (-(now - seen - t)) % w
  {
    var limit := (seen % w + t) % w;
    var qn, qs, ql := now / w, seen / w, (seen % w + t) / w;
    Distribute(qn, qs, w);
    Distribute(qn - qs, ql, w);
    SameRemainder(limit - now % w, -(now - seen - t), qn - qs - ql, w);
  }

  // A reduced difference in the upper half of the word is a negative one.
  lemma ExpiredByHalf(c: Clock, now: nat, seen: nat, past: nat)
    requires c.Valid() && past < c.word
    requires var w := c.word;
             ((seen % w + c.timeout) % w - now % w) % w == if past == 0 then 0 else w - past
    ensures c.Expired(now, seen % c.word) <==> 1 <= past <= c.word / 2
  {
  }

  lemma DifferenceIsNegated(now: int, seen: int, t: int, w: int)
    requires w > 0
    ensures var m := (now - seen - t) % w; ((seen % w + t) % w - now % w) % w == if m == 0 then 0 else w - m
  {
    ReducedDifference(now, seen, t, w);
    NegatedRemainder(now - seen - t, w);
  }

  /** The expiry test looks at the idle time modulo the word: it says expired exactly when the time
      past the timeout, reduced, is between 1 and half the word. */
  lemma ExpiredModulo(c: Clock, now: nat, seen: nat)
    requires c.Valid() && seen <= now
    ensures c.Expired(now, seen % c.word) <==> 1 <= (now - seen - c.timeout) % c.word <= c.word / 2
  {
    DifferenceIsNegated(now, seen, c.timeout, c.word);
    ExpiredByHalf(c, now, seen, (now - seen - c.timeout) % c.word);
  }

  /** So for idle times up to half the word beyond the timeout it is exact. */
  lemma ExpiredExactly(c: Clock, now: nat, seen: nat)
    requires c.Valid() && seen <= now && c.InRange(now - seen)
    ensures c.Expired(now, seen % c.word) <==> now - seen > c.timeout
  {
    ExpiredModulo(c, now, seen);
    var past := now - seen - c.timeout;
    if past < 0 {
      ModUnique(past, -1, past + c.word, c.word);
    } else {
      ModUnique(past, 0, past, c.word);
    }
  }

  // ----- the sweep

  /** The table, the bucket the sweep stopped at, the time, and the next free address. */
  datatype State = State(table: seq<seq<Conn>>, lastBucket: nat, now: nat, nextId: nat)

  predicate WellSized(s: State) { |s.table| == HASH_SIZE && s.lastBucket < HASH_SIZE }

  /** The last bucket that a call looks at: it starts with the one the previous call ended with. */
  function SweptTo(last: nat): nat { if last + CHECK_COUNT < HASH_SIZE - 1 then last + CHECK_COUNT else HASH_SIZE - 1 }

  function NextBucket(last: nat): nat { if SweptTo(last) == HASH_SIZE - 1 then 0 else SweptTo(last) }

  /** The connections of a bucket that are not expired. */
  function Unexpired(c: Clock, now: nat, bucket: seq<Conn>): seq<Conn>
    requires c.Valid()
  {
    if bucket == [] then []
    else (if c.Expired(now, bucket[0].last) then [] else [bucket[0]]) + Unexpired(c, now, bucket[1..])
  }

  datatype Event =
    | Tick(d: nat)
    | Add(key: Key, bucket: nat)  // af_conn_add, with the bucket that the hash gives
    | Touch(id: nat)              // the connection sees a packet
    | Update(id: nat, appId: nat, drop: nat)  // af_conn_update
    | Clean                       // af_conn_clean_timeout

  /** Whether the event refreshes the connection of this address, and what becomes of each one. */
  predicate Refreshes(e: Event, id: nat) { (e.Touch? || e.Update?) && e.id == id }

  function Refreshed(x: Conn, e: Event, now: nat, word: nat): Conn
    requires word > 0
  {
    if !Refreshes(e, x.id) then x
    else if e.Touch? then x.(last := now % word, seen := now)
    else x.(appId := e.appId, drop := e.drop, last := now % word, seen := now)
  }

  function RefreshedAll(bucket: seq<Conn>, e: Event, now: nat, word: nat): seq<Conn>
    requires word > 0
  {
    seq(|bucket|, i requires 0 <= i < |bucket| => Refreshed(bucket[i], e, now, word))
  }

  predicate Enabled(e: Event) { e.Add? ==> e.bucket < HASH_SIZE }

  function NewConn(s: State, key: Key, word: nat): Conn
    requires word > 0
  {
    Conn(s.nextId, key, s.now % word, s.now, 0, 0)
  }

  function RefreshedIn(s: State, e: Event, word: nat): State
    requires word > 0 && WellSized(s)
  {
    s.(table := seq(HASH_SIZE, b requires 0 <= b < HASH_SIZE => RefreshedAll(s.table[b], e, s.now, word)))
  }

  function Step(c: Clock, s: State, e: Event): (s': State)
    requires c.Valid() && c.word > 0 && WellSized(s) && Enabled(e)
    ensures WellSized(s')
  {
    match e
    case Tick(d) => s.(now := s.now + d)
    case Add(key, b) => s.(table := s.table[b := [NewConn(s, key, c.word)] + s.table[b]], nextId := s.nextId + 1)
    case Touch(_) => RefreshedIn(s, e, c.word)
    case Update(_, _, _) => RefreshedIn(s, e, c.word)
    case Clean =>
      s.(table := seq(HASH_SIZE, b requires 0 <= b < HASH_SIZE =>
                    if s.lastBucket <= b <= SweptTo(s.lastBucket) then Unexpired(c, s.now, s.table[b]) else s.table[b]),
         lastBucket := NextBucket(s.lastBucket))
  }

  lemma {:induction false} UnexpiredMembers(c: Clock, now: nat, bucket: seq<Conn>, x: Conn)
    requires c.Valid()
    ensures x in Unexpired(c, now, bucket) <==> x in bucket && !c.Expired(now, x.last)
  {
    if bucket != [] {
      UnexpiredMembers(c, now, bucket[1..], x);
    }
  }

  /** One call removes exactly the connections of the buckets it looks at whose idle time exceeds
      the timeout, and no others. */
  lemma CleanExactly(c: Clock, s: State, b: nat, x: Conn)
    requires c.Valid() && c.word > 0 && WellSized(s) && b < HASH_SIZE && x in s.table[b]
    requires x.last == x.seen % c.word && c.InRange(s.now - x.seen)
    ensures x in Step(c, s, Clean).table[b]
            <==> !(s.lastBucket <= b <= SweptTo(s.lastBucket) && s.now - x.seen > c.timeout)
  {
    UnexpiredMembers(c, s.now, s.table[b], x);
    ExpiredExactly(c, s.now, x.seen);
  }

  // ----- one round of the sweep

  predicate Reachable(last: nat) { last % CHECK_COUNT == 0 && last < HASH_SIZE - 1 }

  lemma ReachableNext(last: nat)
    requires Reachable(last)
    ensures Reachable(NextBucket(last))
  {
  }

  /** Where the sweep stands after n calls. */
  function After(last: nat, n: nat): nat
    decreases n
  {
    if n == 0 then last else After(NextBucket(last), n - 1)
  }

  /** The number of calls before the one that looks at bucket b (as a bucket it has not just left). */
  function Distance(last: nat, b: nat): nat
    requires last < HASH_SIZE && b < HASH_SIZE
  {
    var segment := if b == HASH_SIZE - 1 then CALLS - 1 else b / CHECK_COUNT;
    var current := last / CHECK_COUNT;
    if segment >= current then segment - current else segment - current + CALLS
  }

  lemma DistanceStep(last: nat, b: nat)
    requires Reachable(last) && b < HASH_SIZE
    ensures Distance(last, b) < CALLS
    ensures Distance(last, b) == 0 ==> last <= b <= SweptTo(last)
    ensures Distance(last, b) > 0 ==> Distance(NextBucket(last), b) == Distance(last, b) - 1
  {
  }

  /** Call number n of a sweep looks at bucket b. */
  predicate LooksAt(last: nat, n: nat, b: nat) { After(last, n) <= b <= SweptTo(After(last, n)) }

  /** Any 51 consecutive calls look at all 256 buckets. */
  lemma {:induction false} RoundLooksAtAll(last: nat, b: nat)
    requires Reachable(last) && b < HASH_SIZE
    ensures exists n: nat :: n < CALLS && LooksAt(last, n, b)
    ensures LooksAt(last, Distance(last, b), b) && Distance(last, b) < CALLS
    decreases Distance(last, b)
  {
    DistanceStep(last, b);
    if Distance(last, b) > 0 {
      ReachableNext(last);
      RoundLooksAtAll(NextBucket(last), b);
    }
    var n := Distance(last, b);
    assert n < CALLS && LooksAt(last, n, b);
  }

  lemma NextSegment(last: nat)
    requires Reachable(last)
    ensures var g := last / CHECK_COUNT; NextBucket(last) / CHECK_COUNT == if g == CALLS - 1 then 0 else g + 1
  {
  }

  lemma {:induction false} AfterSegments(last: nat, n: nat)
    requires Reachable(last)
    ensures After(last, n) == CHECK_COUNT * ((last / CHECK_COUNT + n) % CALLS)
    decreases n
  {
    if n > 0 {
      ReachableNext(last);
      NextSegment(last);
      AfterSegments(NextBucket(last), n - 1);
      var g := last / CHECK_COUNT;
      SameRemainder(g + n, NextBucket(last) / CHECK_COUNT + n - 1, if g == CALLS - 1 then 1 else 0, CALLS);
    }
  }

  predicate Missed(last: nat, b: nat) { forall n: nat :: n < CALLS - 1 ==> !LooksAt(last, n, b) }

  /** And 51 is the exact bound: from every reachable position, 50 calls leave out some bucket. */
  lemma FiftyCallsMiss(last: nat)
    requires Reachable(last)
    ensures exists b: nat :: b < HASH_SIZE && Missed(last, b)
  {
    var g := (last / CHECK_COUNT + CALLS - 1) % CALLS;
    var b := CHECK_COUNT * g + 1;
    forall n: nat | n < CALLS - 1 ensures !LooksAt(last, n, b) {
      AfterSegments(last, n);
      var h := (last / CHECK_COUNT + n) % CALLS;
      assert h != g;
      assert h < g || h > g;
    }
    assert Missed(last, b);
  }

  // ----- over whole runs

  function Run(c: Clock, s: State, es: seq<Event>): (s': State)
    requires c.Valid() && c.word > 0 && WellSized(s) && forall e :: e in es ==> Enabled(e)
    ensures WellSized(s')
    decreases |es|
  {
    if es == [] then s else Run(c, Step(c, s, es[0]), es[1..])
  }

  function Cleans(es: seq<Event>): nat {
    if es == [] then 0 else (if es[0].Clean? then 1 else 0) + Cleans(es[1..])
  }

  /** Whatever is in bucket b under this address was last seen then, and new addresses are new. */
  predicate Idle(c: Clock, s: State, b: nat, id: nat, seen: nat)
    requires WellSized(s) && b < HASH_SIZE && c.word > 0
  {
    && (forall x :: x in s.table[b] && x.id == id ==> x.seen == seen && x.last == seen % c.word)
    && id < s.nextId && seen <= s.now
  }

  predicate Gone(s: State, b: nat, id: nat)
    requires WellSized(s) && b < HASH_SIZE
  {
    forall x :: x in s.table[b] ==> x.id != id
  }

  lemma RefreshedMembers(bucket: seq<Conn>, e: Event, now: nat, word: nat, x: Conn)
    requires word > 0 && x in RefreshedAll(bucket, e, now, word)
    ensures exists y :: y in bucket && x == Refreshed(y, e, now, word)
  {
    var i :| 0 <= i < |bucket| && RefreshedAll(bucket, e, now, word)[i] == x;
    assert bucket[i] in bucket;
  }

  // A step that does not refresh the connection leaves it as it was, or removes it.
  lemma IdleStep(c: Clock, s: State, e: Event, b: nat, id: nat, seen: nat)
    requires c.Valid() && c.word > 0 && WellSized(s) && Enabled(e) && b < HASH_SIZE
    requires Idle(c, s, b, id, seen) && !Refreshes(e, id)
    ensures Idle(c, Step(c, s, e), b, id, seen) && Step(c, s, e).now >= s.now
    ensures Gone(s, b, id) ==> Gone(Step(c, s, e), b, id)
  {
    var s' := Step(c, s, e);
    forall x | x in s'.table[b] && x.id == id ensures x in s.table[b] {
      if e.Touch? || e.Update? {
        RefreshedMembers(s.table[b], e, s.now, c.word, x);
      } else if e.Clean? {
        UnexpiredMembers(c, s.now, s.table[b], x);
      }
    }
  }

  // A call that looks at the bucket of an expired connection removes it.
  lemma ExpiredGoes(c: Clock, s: State, b: nat, id: nat, seen: nat)
    requires c.Valid() && c.word > 0 && WellSized(s) && b < HASH_SIZE && Idle(c, s, b, id, seen)
    requires s.lastBucket <= b <= SweptTo(s.lastBucket)
    requires s.now - seen > c.timeout && c.InRange(s.now - seen)
    ensures Gone(Step(c, s, Clean), b, id)
  {
    ExpiredExactly(c, s.now, seen);
    forall x | x in Step(c, s, Clean).table[b] ensures x.id != id {
      UnexpiredMembers(c, s.now, s.table[b], x);
    }
  }

  /** Expiry is complete: a connection that is expired, and is not touched during a run with 51 sweep
      calls, is gone at the end, whatever else happens (while the idle time stays in range). */
  lemma {:induction false} ExpiredIsRemoved(c: Clock, s: State, es: seq<Event>, b: nat, id: nat, seen: nat)
    requires c.Valid() && c.word > 0 && WellSized(s) && b < HASH_SIZE && Reachable(s.lastBucket)
    requires forall e :: e in es ==> Enabled(e) && !Refreshes(e, id)
    requires Idle(c, s, b, id, seen) && s.now - seen > c.timeout && c.InRange(Run(c, s, es).now - seen)
    requires Gone(s, b, id) || Cleans(es) > Distance(s.lastBucket, b)
    ensures Gone(Run(c, s, es), b, id)
    decreases |es|
  {
    if es != [] {
      var e, s' := es[0], Step(c, s, es[0]);
      IdleStep(c, s, e, b, id, seen);
      TimeGoesOn(c, s', es[1..]);
      if e.Clean? {
        DistanceStep(s.lastBucket, b);
        ReachableNext(s.lastBucket);
        if Distance(s.lastBucket, b) == 0 {
          ExpiredGoes(c, s, b, id, seen);
        }
      }
      ExpiredIsRemoved(c, s', es[1..], b, id, seen);
    }
  }

  lemma {:induction false} TimeGoesOn(c: Clock, s: State, es: seq<Event>)
    requires c.Valid() && c.word > 0 && WellSized(s) && forall e :: e in es ==> Enabled(e)
    ensures s.now <= Run(c, s, es).now
    decreases |es|
  {
    if es != [] {
      TimeGoesOn(c, Step(c, s, es[0]), es[1..]);
    }
  }

  // ----- what every reachable table satisfies

  predicate Initial(s: State) {
    |s.table| == HASH_SIZE && s.lastBucket == 0 && forall b :: 0 <= b < HASH_SIZE ==> s.table[b] == []
  }

  /** The stored stamp is the time of the last refresh, and addresses in use were handed out before. */
  predicate Stamped(c: Clock, s: State, x: Conn)
    requires c.word > 0
  {
    x.last == x.seen % c.word && x.seen <= s.now && x.id < s.nextId
  }

  predicate DistinctIds(bucket: seq<Conn>) { forall i, j :: 0 <= i < j < |bucket| ==> bucket[i].id != bucket[j].id }

  predicate NoCommonId(p: seq<Conn>, q: seq<Conn>) {
    forall i, j :: 0 <= i < |p| && 0 <= j < |q| ==> p[i].id != q[j].id
  }

  predicate StampedAll(c: Clock, s: State, bucket: seq<Conn>)
    requires c.word > 0
  {
    forall i :: 0 <= i < |bucket| ==> Stamped(c, s, bucket[i])
  }

  /** Right stamps, and no address twice in the table. */
  predicate Sound(c: Clock, s: State)
    requires c.word > 0
  {
    && WellSized(s) && Reachable(s.lastBucket)
    && (forall b :: 0 <= b < HASH_SIZE ==> StampedAll(c, s, s.table[b]) && DistinctIds(s.table[b]))
    && (forall b1, b2 :: 0 <= b1 < b2 < HASH_SIZE ==> NoCommonId(s.table[b1], s.table[b2]))
  }

  lemma InitialIsSound(c: Clock, s: State)
    requires c.word > 0 && Initial(s)
    ensures Sound(c, s)
  {
  }

  // A connection after a step is new, or was in the same bucket before.
  ghost predicate CameFrom(s: State, e: Event, b: nat, x: Conn, word: nat)
    requires word > 0 && b < |s.table|
  {
    || (e.Add? && e.bucket == b && x == NewConn(s, e.key, word))
    || exists j :: 0 <= j < |s.table[b]| && x == Refreshed(s.table[b][j], e, s.now, word)
  }

  lemma StepMembers(c: Clock, s: State, e: Event, b: nat, i: nat)
    requires c.Valid() && c.word > 0 && WellSized(s) && Enabled(e) && b < HASH_SIZE
    requires i < |Step(c, s, e).table[b]|
    ensures CameFrom(s, e, b, Step(c, s, e).table[b][i], c.word)
  {
    var bucket, x := s.table[b], Step(c, s, e).table[b][i];
    if e.Touch? || e.Update? {
      assert x == Refreshed(bucket[i], e, s.now, c.word);
    } else if e.Add? && e.bucket == b {
      assert i > 0 ==> x == Refreshed(bucket[i - 1], e, s.now, c.word);
    } else {
      if e.Clean? {
        UnexpiredMembers(c, s.now, bucket, x);
      }
      var j :| 0 <= j < |bucket| && bucket[j] == x;
      assert x == Refreshed(bucket[j], e, s.now, c.word);
    }
  }

  lemma {:induction false} UnexpiredIds(c: Clock, now: nat, bucket: seq<Conn>)
    requires c.Valid() && DistinctIds(bucket)
    ensures DistinctIds(Unexpired(c, now, bucket))
  {
    if bucket != [] {
      UnexpiredIds(c, now, bucket[1..]);
      var kept := Unexpired(c, now, bucket[1..]);
      forall i | 0 <= i < |kept| ensures kept[i].id != bucket[0].id {
        UnexpiredMembers(c, now, bucket[1..], kept[i]);
        var j :| 0 <= j < |bucket| - 1 && bucket[1..][j] == kept[i];
      }
    }
  }

  lemma DistinctStep(c: Clock, s: State, e: Event, b: nat)
    requires c.Valid() && c.word > 0 && WellSized(s) && Enabled(e) && b < HASH_SIZE
    requires StampedAll(c, s, s.table[b]) && DistinctIds(s.table[b])
    ensures DistinctIds(Step(c, s, e).table[b]) && StampedAll(c, Step(c, s, e), Step(c, s, e).table[b])
  {
    var s' := Step(c, s, e);
    forall i | 0 <= i < |s'.table[b]| ensures Stamped(c, s', s'.table[b][i]) {
      StepMembers(c, s, e, b, i);
    }
    if e.Clean? {
      UnexpiredIds(c, s.now, s.table[b]);
    }
  }

  lemma ApartStep(c: Clock, s: State, e: Event, b1: nat, b2: nat)
    requires c.Valid() && c.word > 0 && WellSized(s) && Enabled(e) && b1 < b2 < HASH_SIZE
    requires StampedAll(c, s, s.table[b1]) && StampedAll(c, s, s.table[b2]) && NoCommonId(s.table[b1], s.table[b2])
    ensures NoCommonId(Step(c, s, e).table[b1], Step(c, s, e).table[b2])
  {
    var s' := Step(c, s, e);
    forall i, j | 0 <= i < |s'.table[b1]| && 0 <= j < |s'.table[b2]| ensures s'.table[b1][i].id != s'.table[b2][j].id {
      StepMembers(c, s, e, b1, i);
      StepMembers(c, s, e, b2, j);
    }
  }

  /** Every step keeps stamps and addresses right. */
  lemma SoundStep(c: Clock, s: State, e: Event)
    requires c.Valid() && c.word > 0 && Sound(c, s) && Enabled(e)
    ensures Sound(c, Step(c, s, e))
  {
    hide DistinctIds, NoCommonId, StampedAll;
    var s' := Step(c, s, e);
    ReachableNext(s.lastBucket);
    forall b | 0 <= b < HASH_SIZE ensures StampedAll(c, s', s'.table[b]) && DistinctIds(s'.table[b]) {
      DistinctStep(c, s, e, b);
    }
    forall b1, b2 | 0 <= b1 < b2 < HASH_SIZE ensures NoCommonId(s'.table[b1], s'.table[b2]) {
      ApartStep(c, s, e, b1, b2);
    }
  }

  lemma {:induction false} SoundAlways(c: Clock, s: State, es: seq<Event>)
    requires c.Valid() && c.word > 0 && Sound(c, s) && forall e :: e in es ==> Enabled(e)
    ensures Sound(c, Run(c, s, es))
    decreases |es|
  {
    if es != [] {
      SoundStep(c, s, es[0]);
      SoundAlways(c, Step(c, s, es[0]), es[1..]);
    }
  }

  lemma OneOfItsAddress(c: Clock, s: State, b: nat, x: Conn)
    requires c.word > 0 && Sound(c, s) && b < HASH_SIZE && x in s.table[b]
    ensures Idle(c, s, b, x.id, x.seen) && Stamped(c, s, x)
  {
    var bucket := s.table[b];
    assert StampedAll(c, s, bucket) && DistinctIds(bucket);
    var i :| 0 <= i < |bucket| && bucket[i] == x;
    forall y | y in bucket && y.id == x.id ensures y == x {
      var j :| 0 <= j < |bucket| && bucket[j] == y;
    }
  }

  /** Expiry is safe: after any run from an empty table, whatever happens next, a connection leaves the
      table only in a sweep call that looks at its bucket; and, for idle times that the wrapped
      comparison can tell, if and only if it has then been idle for longer than the timeout. */
  lemma OnlyExpiredLeave(c: Clock, s0: State, es: seq<Event>, e: Event, b: nat, x: Conn)
    requires c.Valid() && c.word > 0 && Initial(s0) && (forall f :: f in es ==> Enabled(f)) && Enabled(e)
    requires b < HASH_SIZE && x in Run(c, s0, es).table[b]
    ensures var s := Run(c, s0, es);
            var swept := e.Clean? && s.lastBucket <= b <= SweptTo(s.lastBucket);
            && (Gone(Step(c, s, e), b, x.id) ==> swept)
            && (c.InRange(s.now - x.seen) ==>
                  (Gone(Step(c, s, e), b, x.id) <==> swept && s.now - x.seen > c.timeout))
  {
    InitialIsSound(c, s0);
    SoundAlways(c, s0, es);
    LeavesIff(c, Run(c, s0, es), e, b, x);
  }

  lemma LeavesIff(c: Clock, s: State, e: Event, b: nat, x: Conn)
    requires c.Valid() && c.word > 0 && Sound(c, s) && Enabled(e)
    requires b < HASH_SIZE && x in s.table[b]
    ensures var swept := e.Clean? && s.lastBucket <= b <= SweptTo(s.lastBucket);
            && (Gone(Step(c, s, e), b, x.id) ==> swept)
            && (c.InRange(s.now - x.seen) ==>
                  (Gone(Step(c, s, e), b, x.id) <==> swept && s.now - x.seen > c.timeout))
  {
    OneOfItsAddress(c, s, b, x);
    if e.Clean? {
      if c.InRange(s.now - x.seen) {
        CleanExactly(c, s, b, x);
        if s.lastBucket <= b <= SweptTo(s.lastBucket) && s.now - x.seen > c.timeout {
          ExpiredGoes(c, s, b, x.id, x.seen);
        }
      }
    } else {
      StaysUnswept(c, s, e, b, x);
    }
  }

  lemma StaysUnswept(c: Clock, s: State, e: Event, b: nat, x: Conn)
    requires c.Valid() && c.word > 0 && WellSized(s) && Enabled(e) && !e.Clean?
    requires b < HASH_SIZE && x in s.table[b]
    ensures !Gone(Step(c, s, e), b, x.id)
  {
    var s' := Step(c, s, e);
    var i :| 0 <= i < |s.table[b]| && s.table[b][i] == x;
    var y := Refreshed(x, e, s.now, c.word);
    assert y.id == x.id;
    if e.Touch? || e.Update? {
      assert s'.table[b][i] == y;
    } else if e.Add? && e.bucket == b {
      assert s'.table[b][i + 1] == x;
    }
    assert y in s'.table[b];
  }

  /** Expiry is complete: after any run from an empty table, a connection that is expired, and is not
      refreshed during a further run with 51 sweep calls, is gone at the end, whatever else happens. */
  lemma ExpiredLeave(c: Clock, s0: State, es: seq<Event>, more: seq<Event>, b: nat, x: Conn)
    requires c.Valid() && c.word > 0 && Initial(s0) && forall e :: e in es ==> Enabled(e)
    requires b < HASH_SIZE && x in Run(c, s0, es).table[b]
    requires forall e :: e in more ==> Enabled(e) && !Refreshes(e, x.id)
    requires var s := Run(c, s0, es);
             s.now - x.seen > c.timeout && c.InRange(Run(c, s, more).now - x.seen)
    requires Cleans(more) >= CALLS
    ensures Gone(Run(c, Run(c, s0, es), more), b, x.id)
  {
    InitialIsSound(c, s0);
    SoundAlways(c, s0, es);
    var s := Run(c, s0, es);
    OneOfItsAddress(c, s, b, x);
    DistanceStep(s.lastBucket, b);
    ExpiredIsRemoved(c, s, more, b, x.id, x.seen);
  }

  // ----- the table as it runs

  predicate DistinctKeys(bucket: seq<Conn>) { forall i, j :: 0 <= i < j < |bucket| ==> bucket[i].key != bucket[j].key }

  class ConnTable {
    const clock: Clock
    const hash: Key -> nat               // jhash of the five fields
    var table: seq<seq<Conn>>            // af_conn_table
    var lastBucket: nat
    var now: nat
    var nextId: nat

    ghost function Abs(): State
      reads this
    {
      State(table, lastBucket, now, nextId)
    }

    function BucketOf(key: Key): nat { hash(key) % HASH_SIZE }

    /** Connections are in the bucket of their key, and no two have the same key. */
    ghost predicate Valid()
      reads this
    {
      && clock.Valid() && clock.word > 0 && Sound(clock, Abs())
      && (forall b, x :: 0 <= b < HASH_SIZE && x in table[b] ==> b == BucketOf(x.key))
      && (forall b :: 0 <= b < HASH_SIZE ==> DistinctKeys(table[b]))
    }

    constructor (clock: Clock, hash: Key -> nat)
      requires clock.Valid() && clock.word > 0
      ensures Valid() && Initial(Abs()) && this.clock == clock && this.hash == hash
    {
      this.clock, this.hash := clock, hash;
      table, lastBucket, now, nextId := seq(HASH_SIZE, _ => []), 0, 0, 0;
    }

    predicate Holds(key: Key)
      requires |table| == HASH_SIZE
      reads this
    {
      exists i :: 0 <= i < |table[BucketOf(key)]| && table[BucketOf(key)][i].key == key
    }

    /** af_conn_find: it finds a connection exactly when the table holds one with this key. */
    method Find(key: Key) returns (r: Option<Conn>)
      requires Valid()
      ensures r.Some? <==> Holds(key)
      ensures r.Some? ==> r.value.key == key && r.value in table[BucketOf(key)]
      ensures r.None? ==> forall b, x :: 0 <= b < HASH_SIZE && x in table[b] ==> x.key != key
    {
      var bucket := table[BucketOf(key)];
      for i := 0 to |bucket|
        invariant forall k :: 0 <= k < i ==> bucket[k].key != key
      {
        if bucket[i].key == key {
          return Some(bucket[i]);
        }
      }
      r := None;
    }

    /** af_conn_find_and_add: when the allocation works, exactly one connection has this key afterwards. */
    method FindAndAdd(key: Key, allocOk: bool) returns (r: Option<Conn>)
      requires Valid()
      modifies this
      ensures Valid()
      ensures r.Some? ==> r.value.key == key && r.value in table[BucketOf(key)]
      ensures Abs() == if allocOk && !old(Holds(key)) then Step(clock, old(Abs()), Add(key, BucketOf(key)))
                       else old(Abs())
      ensures r.None? <==> !allocOk && !old(Holds(key))
      ensures allocOk && !old(Holds(key)) ==> r == Some(Conn(old(nextId), key, now % clock.word, now, 0, 0))
    {
      SoundStep(clock, Abs(), Add(key, BucketOf(key)));
      r := Find(key);
      hide Sound;
      if r.None? && allocOk {
        var b := BucketOf(key);
        var conn := Conn(nextId, key, now % clock.word, now, 0, 0);
        table := table[b := [conn] + table[b]];
        nextId := nextId + 1;
        r := Some(conn);
      }
    }

    /** af_conn_update of the connection at a place of the table */
    method Update(bucket: nat, at: nat, appId: nat, drop: nat)
      requires Valid() && bucket < HASH_SIZE && at < |table[bucket]|
      modifies this`table
      ensures Valid() && Abs() == Step(clock, old(Abs()), Event.Update(old(table[bucket][at].id), appId, drop))
      ensures table == old(table)[bucket := old(table[bucket])[at :=
                old(table[bucket][at]).(appId := appId, drop := drop, last := now % clock.word, seen := now)]]
    {
      var conn := table[bucket][at].(appId := appId, drop := drop, last := now % clock.word, seen := now);
      ghost var before, e := Abs(), Event.Update(table[bucket][at].id, appId, drop);
      table := table[bucket := table[bucket][at := conn]];
      OnlyThatOne(before, e, bucket, at);
      RefreshedKeys(before, e);
      SoundStep(clock, before, e);
    }

    // One address is at one place, so the refresh changes that place alone.
    lemma OnlyThatOne(s: State, e: Event, bucket: nat, at: nat)
      requires clock.word > 0 && Sound(clock, s) && bucket < HASH_SIZE && at < |s.table[bucket]|
      requires e.Update? && e.id == s.table[bucket][at].id
      ensures var x := Refreshed(s.table[bucket][at], e, s.now, clock.word);
              RefreshedIn(s, e, clock.word).table == s.table[bucket := s.table[bucket][at := x]]
    {
      var x := Refreshed(s.table[bucket][at], e, s.now, clock.word);
      var after := s.table[bucket := s.table[bucket][at := x]];
      forall b | 0 <= b < HASH_SIZE ensures RefreshedAll(s.table[b], e, s.now, clock.word) == after[b] {
        assert DistinctIds(s.table[b]);
        assert b < bucket ==> NoCommonId(s.table[b], s.table[bucket]);
        assert bucket < b ==> NoCommonId(s.table[bucket], s.table[b]);
        assert forall i :: 0 <= i < |s.table[b]| && (b != bucket || i != at) ==> s.table[b][i].id != e.id;
      }
    }

    lemma RefreshedKeys(s: State, e: Event)
      requires clock.word > 0 && WellSized(s)
      requires forall b, x :: 0 <= b < HASH_SIZE && x in s.table[b] ==> b == BucketOf(x.key)
      requires forall b :: 0 <= b < HASH_SIZE ==> DistinctKeys(s.table[b])
      ensures var t := RefreshedIn(s, e, clock.word).table;
              && (forall b, x :: 0 <= b < HASH_SIZE && x in t[b] ==> b == BucketOf(x.key))
              && (forall b :: 0 <= b < HASH_SIZE ==> DistinctKeys(t[b]))
    {
      var t := RefreshedIn(s, e, clock.word).table;
      forall b, x: Conn | 0 <= b < HASH_SIZE && x in t[b] ensures b == BucketOf(x.key) {
        RefreshedMembers(s.table[b], e, s.now, clock.word, x);
      }
    }

    /** Time passes. */
    method Tick(d: nat)
      requires Valid()
      modifies this`now
      ensures Valid() && Abs() == Step(clock, old(Abs()), Event.Tick(d))
    {
      SoundStep(clock, Abs(), Event.Tick(d));
      now := now + d;
    }

    // The inner loop of the sweep.
    method CleanBucket(bucket: seq<Conn>) returns (kept: seq<Conn>)
      requires clock.Valid()
      ensures kept == Unexpired(clock, now, bucket)
    {
      kept := [];
      for i := 0 to |bucket|
        invariant kept + Unexpired(clock, now, bucket[i..]) == Unexpired(clock, now, bucket)
      {
        assert bucket[i..][1..] == bucket[i + 1..];
        if !clock.Expired(now, bucket[i].last) {
          kept := kept + [bucket[i]];
        }
      }
      assert kept + [] == kept;
    }

    /** af_conn_clean_timeout */
    method CleanTimeout()
      requires Valid()
      modifies this`table, this`lastBucket
      ensures Valid() && Abs() == Step(clock, old(Abs()), Clean)
    {
      hide Unexpired, DistinctKeys, Clock.Valid, Sound;
      SoundStep(clock, Abs(), Clean);
      SoundSize(Abs());
      ghost var before, s0 := table, Abs();
      var i, count, start := lastBucket, 0, lastBucket;
      while i < HASH_SIZE
        invariant start <= i && |table| == HASH_SIZE && count == i - start <= CHECK_COUNT
        invariant lastBucket == if i == start then start else i - 1
        invariant i <= HASH_SIZE
        invariant forall b :: 0 <= b < HASH_SIZE ==>
                    table[b] == if start <= b < i then Unexpired(clock, now, before[b]) else before[b]
      {
        var kept := CleanBucket(table[i]);
        table := table[i := kept];
        lastBucket := i;
        count := count + 1;
        if count > CHECK_COUNT {
          break;
        }
        i := i + 1;
      }
      if lastBucket == HASH_SIZE - 1 {
        lastBucket := 0;
      }
      SweptIsValid(before, table);
      assert table == Step(clock, s0, Clean).table;
    }

    lemma SoundSize(s: State)
      requires clock.word > 0 && Sound(clock, s)
      ensures WellSized(s) && Reachable(s.lastBucket)
    {
    }

    // Removing connections disturbs neither placement nor uniqueness.
    lemma SweptIsValid(before: seq<seq<Conn>>, after: seq<seq<Conn>>)
      requires clock.Valid() && |before| == |after| == HASH_SIZE
      requires forall b, x :: 0 <= b < HASH_SIZE && x in before[b] ==> b == BucketOf(x.key)
      requires forall b :: 0 <= b < HASH_SIZE ==> DistinctKeys(before[b])
      requires forall b :: 0 <= b < HASH_SIZE ==> after[b] == before[b] || after[b] == Unexpired(clock, now, before[b])
      ensures forall b, x :: 0 <= b < HASH_SIZE && x in after[b] ==> b == BucketOf(x.key)
      ensures forall b :: 0 <= b < HASH_SIZE ==> DistinctKeys(after[b])
    {
      forall b, x | 0 <= b < HASH_SIZE && x in after[b] ensures b == BucketOf(x.key) {
        UnexpiredMembers(clock, now, before[b], x);
      }
      forall b | 0 <= b < HASH_SIZE ensures DistinctKeys(after[b]) {
        UnexpiredKeys(clock, now, before[b]);
      }
    }
  }

  lemma {:induction false} UnexpiredKeys(c: Clock, now: nat, bucket: seq<Conn>)
    requires c.Valid() && DistinctKeys(bucket)
    ensures DistinctKeys(Unexpired(c, now, bucket))
  {
    if bucket != [] {
      UnexpiredKeys(c, now, bucket[1..]);
      var kept := Unexpired(c, now, bucket[1..]);
      forall i | 0 <= i < |kept| ensures kept[i].key != bucket[0].key {
        UnexpiredMembers(c, now, bucket[1..], kept[i]);
        var j :| 0 <= j < |bucket| - 1 && bucket[1..][j] == kept[i];
      }
    }
  }
}
