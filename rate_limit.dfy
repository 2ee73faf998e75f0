/**
 * The per-address rate limiter in front of the analysis endpoint. A
 * key/value store holds, per client address, a counter for the current
 * day and one for the current minute; at most 5 analyses a day and 3 a
 * minute are admitted. The daily counter is consulted first, and the store
 * is written only when the request is admitted.
 */
module RateLimit {
  import opened JsText

  /** The day or the minute a counter belongs to, as an abstract number. */
  datatype Bucket = Day(day: nat) | Minute(minute: nat)

  /** The counters, keyed by client address and bucket; a missing key reads as 0. */
  type Store = map<(JsStr, Bucket), nat>

  const DailyLimit: nat := 5
  const MinuteLimit: nat := 3

  /**
   * The two rejection messages. The source writes the Chinese halves as
   * `\\u…` inside a string literal, so the messages hold a backslash, a `u`
   * and four hex digits rather than the characters themselves.
   */
  const DailyMessage: JsStr := Lit("Daily analysis limit reached (5/day). Please try again tomorrow! / \\u4eca\\u65e5\\u5206\\u6790\\u6b21\\u6570\\u5df2\\u7528\\u5b8c\\uff085\\u6b21/\\u5929\\uff09\\u3002\\u660e\\u5929\\u518d\\u6765\\u5427\\uff01")
  const MinuteMessage: JsStr := Lit("Too many requests. Please wait a moment. / \\u8bf7\\u6c42\\u8fc7\\u4e8e\\u9891\\u7e41\\uff0c\\u8bf7\\u7a0d\\u540e\\u518d\\u8bd5")

  datatype LimitResult = Allowed(remaining: nat) | Rejected(message: JsStr)

  function Count(store: Store, key: (JsStr, Bucket)): nat
  {
    if key in store then store[key] else 0
  }

  /**
   * One call of the limiter for `ip` in the given day and minute: the
   * result and the store afterwards. The daily cap is checked first; a
   * rejection leaves the store as it was; an admission adds exactly one to
   * both counters, touches no other key, and reports how many analyses are
   * left today (0 to 4).
   */
  function Step(store: Store, ip: JsStr, day: nat, minute: nat): (res: (LimitResult, Store))
    ensures Count(store, (ip, Day(day))) >= DailyLimit ==> res == (Rejected(DailyMessage), store)
    ensures Count(store, (ip, Day(day))) < DailyLimit && Count(store, (ip, Minute(minute))) >= MinuteLimit
      ==> res == (Rejected(MinuteMessage), store)
    ensures res.0.Allowed? <==> Count(store, (ip, Day(day))) < DailyLimit && Count(store, (ip, Minute(minute))) < MinuteLimit
    ensures res.0.Allowed? ==>
      && res.0.remaining == DailyLimit - Count(store, (ip, Day(day))) - 1 <= DailyLimit - 1
      && Count(res.1, (ip, Day(day))) == Count(store, (ip, Day(day))) + 1
      && Count(res.1, (ip, Minute(minute))) == Count(store, (ip, Minute(minute))) + 1
    ensures forall k :: k != (ip, Day(day)) && k != (ip, Minute(minute)) ==> Count(res.1, k) == Count(store, k)
  {
    var dayCount := Count(store, (ip, Day(day)));
    var minCount := Count(store, (ip, Minute(minute)));
    if dayCount >= DailyLimit then (Rejected(DailyMessage), store)
    else if minCount >= MinuteLimit then (Rejected(MinuteMessage), store)
    else
      (Allowed(DailyLimit - dayCount - 1),
       store[(ip, Day(day)) := dayCount + 1][(ip, Minute(minute)) := minCount + 1])
  }

  /** The limiter with its store, which `Check` reads and writes in place. */
  class RateLimiter {
    var store: Store

    constructor()
      ensures store == map[]
    {
      store := map[];
    }

    /** `checkRateLimit(ip, kvStore)`: read the day counter, then the minute counter, then write both. */
    method Check(ip: JsStr, day: nat, minute: nat) returns (r: LimitResult)
      modifies this
      ensures (r, store) == Step(old(store), ip, day, minute)
    {
      var dayKey := (ip, Day(day));
      var minKey := (ip, Minute(minute));
      var dayCount := if dayKey in store then store[dayKey] else 0;
      if dayCount >= DailyLimit {
        return Rejected(DailyMessage);
      }
      var minCount := if minKey in store then store[minKey] else 0;
      if minCount >= MinuteLimit {
        return Rejected(MinuteMessage);
      }
      store := store[dayKey := dayCount + 1];
      store := store[minKey := minCount + 1];
      r := Allowed(DailyLimit - dayCount - 1);
    }
  }

  /* ---------- sequences of requests ---------- */

  /** A request as the limiter sees it: the client address and the current day and minute. */
  datatype Request = Request(ip: JsStr, day: nat, minute: nat)

  /** The store after the limiter has seen every request of `reqs`, in order. */
  function After(store: Store, reqs: seq<Request>): Store
    decreases |reqs|
  {
    if |reqs| == 0 then store
    else After(Step(store, reqs[0].ip, reqs[0].day, reqs[0].minute).1, reqs[1..])
  }

  /** How many requests of `reqs` for the counter `key` the limiter admits. */
  function Admitted(store: Store, reqs: seq<Request>, key: (JsStr, Bucket)): nat
    decreases |reqs|
  {
    if |reqs| == 0 then 0
    else
      var q := reqs[0];
      var res := Step(store, q.ip, q.day, q.minute);
      var hit := res.0.Allowed? && (key == (q.ip, Day(q.day)) || key == (q.ip, Minute(q.minute)));
      (if hit then 1 else 0) + Admitted(res.1, reqs[1..], key)
  }

  /** The cap on a counter: 5 for a day, 3 for a minute. */
  function Cap(key: (JsStr, Bucket)): nat
  {
    if key.1.Day? then DailyLimit else MinuteLimit
  }

  /**
   * Every admission is counted and nothing else is: the counter ends as
   * its start plus the admissions for it, and never passes its cap.
   */
  lemma {:induction false} CounterTracksAdmissions(store: Store, reqs: seq<Request>, key: (JsStr, Bucket))
    requires Count(store, key) <= Cap(key)
    ensures Count(After(store, reqs), key) == Count(store, key) + Admitted(store, reqs, key)
    ensures Count(After(store, reqs), key) <= Cap(key)
    decreases |reqs|
  {
    if |reqs| > 0 {
      var q := reqs[0];
      var next := Step(store, q.ip, q.day, q.minute).1;
      CounterTracksAdmissions(next, reqs[1..], key);
    }
  }

  /**
   * Starting from an empty store, no address gets more than 5 analyses in
   * a day or more than 3 in a minute, however the requests interleave.
   */
  lemma Caps(reqs: seq<Request>, ip: JsStr, day: nat, minute: nat)
    ensures Admitted(map[], reqs, (ip, Day(day))) <= DailyLimit
    ensures Admitted(map[], reqs, (ip, Minute(minute))) <= MinuteLimit
  {
    CounterTracksAdmissions(map[], reqs, (ip, Day(day)));
    CounterTracksAdmissions(map[], reqs, (ip, Minute(minute)));
  }

  /** Two stores that agree on one address's counters. */
  ghost predicate SameFor(a: Store, b: Store, ip: JsStr)
  {
    forall bucket :: Count(a, (ip, bucket)) == Count(b, (ip, bucket))
  }

  /**
   * Addresses do not interfere: what the limiter answers `ip`, and what
   * it leaves in `ip`'s counters, depends only on `ip`'s counters.
   */
  lemma Isolated(a: Store, b: Store, ip: JsStr, day: nat, minute: nat)
    requires SameFor(a, b, ip)
    ensures Step(a, ip, day, minute).0 == Step(b, ip, day, minute).0
    ensures SameFor(Step(a, ip, day, minute).1, Step(b, ip, day, minute).1, ip)
  {
    assert Count(a, (ip, Day(day))) == Count(b, (ip, Day(day)));
    assert Count(a, (ip, Minute(minute))) == Count(b, (ip, Minute(minute)));
  }

  /* ---------- the store's key strings ---------- */

  /** `day:${ip}:${today}`, with `today` the ten-unit date `YYYY-MM-DD`. */
  function DayKey(ip: JsStr, date: JsStr): JsStr
  {
    Lit("day:") + ip + [U(':')] + date
  }

  /** `min:${ip}:${nowMin}`, with `nowMin` the sixteen-unit stamp `YYYY-MM-DDTHH:MM`. */
  function MinuteKey(ip: JsStr, stamp: JsStr): JsStr
  {
    Lit("min:") + ip + [U(':')] + stamp
  }

  /**
   * The key strings name the same counters as the pairs of the model's
   * store: a day key never equals a minute key, and because the stamp has
   * a fixed length, two keys of one kind are equal only for the same
   * address and stamp, even when an address contains `:`.
   */
  lemma {:induction false} KeysDistinct(ip1: JsStr, s1: JsStr, ip2: JsStr, s2: JsStr)
    ensures DayKey(ip1, s1) != MinuteKey(ip2, s2)
    ensures |s1| == |s2| ==> (DayKey(ip1, s1) == DayKey(ip2, s2) <==> ip1 == ip2 && s1 == s2)
    ensures |s1| == |s2| ==> (MinuteKey(ip1, s1) == MinuteKey(ip2, s2) <==> ip1 == ip2 && s1 == s2)
  {
    assert DayKey(ip1, s1)[0] != MinuteKey(ip2, s2)[0];
    if |s1| == |s2| {
      SplitKey(Lit("day:"), ip1, s1, ip2, s2);
      SplitKey(Lit("min:"), ip1, s1, ip2, s2);
    }
  }

  lemma SplitKey(prefix: JsStr, ip1: JsStr, s1: JsStr, ip2: JsStr, s2: JsStr)
    requires |s1| == |s2|
    ensures prefix + ip1 + [U(':')] + s1 == prefix + ip2 + [U(':')] + s2 ==> ip1 == ip2 && s1 == s2
  {
    var k1 := prefix + ip1 + [U(':')] + s1;
    var k2 := prefix + ip2 + [U(':')] + s2;
    if k1 == k2 {
      assert |ip1| == |ip2|;
      assert s1 == k1[|k1| - |s1|..] == k2[|k2| - |s2|..] == s2;
      assert ip1 == k1[|prefix|..|prefix| + |ip1|] == k2[|prefix|..|prefix| + |ip2|] == ip2;
    }
  }
}
