/** Claims of a rescan (shelf/shelf_rescan.go): one scan at a time, and for the rate-limited ones a
    bucket of tokens that refills as time goes by. Times are nanoseconds. */
module Rescan {

  const BURST: real := 5.0
  const REFILL_TIME: int := 10_000_000_000

  const MAX_DURATION: int := 0x7FFF_FFFF_FFFF_FFFF

  /** Time.Sub, which stops at the largest duration. */
  function Elapsed(now: int, since: int): int {
    if now - since > MAX_DURATION then MAX_DURATION
    else if now - since < -MAX_DURATION - 1 then -MAX_DURATION - 1
    else now - since
  }

  datatype Bucket = Bucket(tokens: real, at: int)

  /** Tokens come in nanoseconds' worth. */
  ghost predicate InRange(b: Bucket) {
    && 0.0 <= b.tokens <= BURST
    && (b.tokens * REFILL_TIME as real).Floor as real == b.tokens * REFILL_TIME as real
  }

  function Min(x: real, y: real): real {
    if x < y then x else y
  }

  /** How full the bucket is by a given clock reading. */
  function Refilled(b: Bucket, now: int): Bucket {
    if Elapsed(now, b.at) <= 0 then b
    else Bucket(Min(BURST, b.tokens + Elapsed(now, b.at) as real / REFILL_TIME as real), now)
  }

  function Wait(tokens: real): int {
    ((1.0 - tokens) * REFILL_TIME as real).Floor
  }

  lemma WholeAfter(tokens: real, elapsed: nat)
    requires (tokens * REFILL_TIME as real).Floor as real == tokens * REFILL_TIME as real
    ensures var more := tokens + elapsed as real / REFILL_TIME as real;
            (more * REFILL_TIME as real).Floor as real == more * REFILL_TIME as real
  {
    var units := tokens * REFILL_TIME as real;
    var more := tokens + elapsed as real / REFILL_TIME as real;
    assert more * REFILL_TIME as real == units + elapsed as real;
    WholeSum(units, elapsed);
  }

  lemma WholeSum(units: real, more: int)
    requires units.Floor as real == units
    ensures (units + more as real).Floor as real == units + more as real
  {
    assert units + more as real == (units.Floor + more) as real;
  }

  lemma RefilledInRange(b: Bucket, now: int)
    requires InRange(b)
    ensures InRange(Refilled(b, now))
    ensures Refilled(b, now).tokens - b.tokens <= (Refilled(b, now).at - b.at) as real / REFILL_TIME as real
    ensures Refilled(b, now).at == if now > b.at then now else b.at
  {
    if Elapsed(now, b.at) > 0 {
      WholeAfter(b.tokens, Elapsed(now, b.at));
      assert (BURST * REFILL_TIME as real).Floor == 5 * REFILL_TIME;
    }
  }

  /** A refusal names a wait that is never empty. */
  lemma WaitIsPositive(b: Bucket)
    requires InRange(b)
    ensures b.tokens < 1.0 <==> Wait(b.tokens) > 0
    ensures Wait(b.tokens) as real == (1.0 - b.tokens) * REFILL_TIME as real
  {
    var n := (b.tokens * REFILL_TIME as real).Floor;
    assert (1.0 - b.tokens) * REFILL_TIME as real == (REFILL_TIME - n) as real;
  }

  /** What a claim of a token finds: the bucket afterwards, and how long to wait; 0 lets it through. */
  function Take(b: Bucket, now: int): (Bucket, int) {
    var full := Refilled(b, now);
    if full.tokens < 1.0 then (full, Wait(full.tokens)) else (full.(tokens := full.tokens - 1.0), 0)
  }

  /** For tokens of any value, as rounding may leave them, a wait below one token is empty exactly when
      they fall short of one by less than a nanosecond's worth. */
  lemma WaitIsEmptyExactly(tokens: real)
    requires tokens < 1.0
    ensures Wait(tokens) <= 0 <==> 1.0 - tokens < 1.0 / REFILL_TIME as real
  {}

  /** Just then a claim is let through without a token, and at the next nanosecond another one is. */
  lemma FreeClaimExactly(b: Bucket, now: int)
    requires 0.0 <= Refilled(b, now).tokens
    ensures var full := Refilled(b, now);
            Take(b, now) == (full, 0) <==> 1.0 - 1.0 / REFILL_TIME as real < full.tokens < 1.0
    ensures Take(b, now) == (Refilled(b, now), 0) && b.at <= now && now == Refilled(b, now).at ==>
      Take(Take(b, now).0, now + 1).1 == 0
  {
    var full := Refilled(b, now);
    if full.tokens < 1.0 {
      WaitIsEmptyExactly(full.tokens);
      assert full.tokens > 1.0 - 1.0 / REFILL_TIME as real ==> full.tokens + 1.0 / REFILL_TIME as real > 1.0;
    }
  }

  /** Looking at the bucket on the way changes nothing. */
  lemma RefillInSteps(b: Bucket, t: int, u: int)
    requires InRange(b) && t <= u
    ensures Refilled(Refilled(b, t), u).tokens == Refilled(b, u).tokens
    ensures Refilled(Refilled(b, t), u).at == Refilled(b, u).at
  {}

  function LookedAt(b: Bucket, looks: seq<int>): Bucket
    decreases |looks|
  {
    if looks == [] then b else LookedAt(Refilled(b, looks[0]), looks[1..])
  }

  lemma {:induction false} LooksChangeNothing(b: Bucket, looks: seq<int>, u: int)
    requires InRange(b) && forall t <- looks :: t <= u
    ensures InRange(LookedAt(b, looks)) && Refilled(LookedAt(b, looks), u) == Refilled(b, u)
    decreases |looks|
  {
    if looks != [] {
      assert looks[0] in looks && forall t <- looks[1..] :: t in looks;
      RefilledInRange(b, looks[0]);
      RefillInSteps(b, looks[0], u);
      LooksChangeNothing(Refilled(b, looks[0]), looks[1..], u);
    }
  }

  /** A caller refused at a moment that is the latest seen would, with no grant in between and
      whatever other refusals, be granted exactly from the named wait on. */
  lemma WaitIsExact(b: Bucket, now: int, looks: seq<int>, later: int)
    requires InRange(b) && b.at <= now && Refilled(b, now).tokens < 1.0
    requires forall t <- looks :: t <= later
    requires now <= later
    ensures Refilled(LookedAt(Refilled(b, now), looks), later).tokens >= 1.0 <==>
      later >= now + Wait(Refilled(b, now).tokens)
  {
    var refused := Refilled(b, now);
    RefilledInRange(b, now);
    WaitIsPositive(refused);
    LooksChangeNothing(refused, looks, later);
    var e := later - now;
    assert refused.tokens + e as real / REFILL_TIME as real >= 1.0 <==>
      e as real >= (1.0 - refused.tokens) * REFILL_TIME as real;
  }

  // ---------- Pace ----------

  /** No stretch of grants is denser than a burst and what was refilled during it. */
  ghost predicate Paced(grants: seq<int>) {
    && (forall i, j :: 0 <= i <= j < |grants| ==> grants[i] <= grants[j])
    && (forall i, j :: 0 <= i <= j < |grants| ==> WithinPace(j - i + 1, grants[i], grants[j]))
  }

  /** A burst of five, and one more for every ten seconds. */
  predicate WithinPace(count: int, from: int, to: int) {
    count as real <= 5.0 + (to - from) as real / 10_000_000_000.0
  }

  /** What is left in the bucket was not granted. */
  ghost predicate Accounts(grants: seq<int>, b: Bucket) {
    forall i :: 0 <= i < |grants| ==> grants[i] <= b.at && LeavesFor(|grants| - i, grants[i], b)
  }

  ghost predicate LeavesFor(count: int, from: int, b: Bucket) {
    count as real + b.tokens <= BURST + (b.at - from) as real / REFILL_TIME as real
  }

  lemma RefillAccounts(grants: seq<int>, b: Bucket, now: int)
    requires InRange(b) && Accounts(grants, b)
    ensures Accounts(grants, Refilled(b, now))
  {}

  lemma OneTokenLess(b: Bucket)
    requires InRange(b) && b.tokens >= 1.0
    ensures InRange(b.(tokens := b.tokens - 1.0))
  {
    var units := b.tokens * REFILL_TIME as real;
    assert (b.tokens - 1.0) * REFILL_TIME as real == units + (-REFILL_TIME) as real;
    WholeSum(units, -REFILL_TIME);
  }

  /** Taking a token accounts for one more grant, and leaves the pace. */
  lemma GrantFrom(count: int, from: int, b: Bucket)
    requires LeavesFor(count, from, b) && b.tokens >= 1.0
    ensures LeavesFor(count + 1, from, b.(tokens := b.tokens - 1.0)) && WithinPace(count + 1, from, b.at)
  {}

  lemma GrantAccounts(grants: seq<int>, b: Bucket)
    requires 1.0 <= b.tokens <= BURST && Accounts(grants, b) && Paced(grants)
    ensures Accounts(grants + [b.at], b.(tokens := b.tokens - 1.0)) && Paced(grants + [b.at])
  {
    var after, n := grants + [b.at], |grants|;
    var left := b.(tokens := b.tokens - 1.0);
    forall i | 0 <= i < n ensures LeavesFor(n + 1 - i, after[i], left) && WithinPace(n - i + 1, after[i], b.at) {
      GrantFrom(n - i, grants[i], b);
    }
    GrantFrom(0, b.at, b);
    forall i, j | 0 <= i <= j < |after| ensures WithinPace(j - i + 1, after[i], after[j]) {
      if j < n {
        assert WithinPace(j - i + 1, grants[i], grants[j]);
      }
    }
  }

  function GrantsBetween(grants: seq<int>, from: int, to: int): nat {
    if grants == [] then 0
    else
      var n := |grants| - 1;
      GrantsBetween(grants[..n], from, to) + if from <= grants[n] <= to then 1 else 0
  }

  lemma {:induction false} NoneBefore(grants: seq<int>, from: int, to: int, first: nat)
    requires first <= |grants| && forall i :: 0 <= i < first ==> grants[i] < from
    ensures GrantsBetween(grants, from, to) <= |grants| - first
  {
    if first < |grants| {
      NoneBefore(grants[..|grants| - 1], from, to, first);
    } else if grants != [] {
      NoneBefore(grants[..|grants| - 1], from, to, first - 1);
    }
  }

  /** In any interval of time, at most a burst and one grant for each refill time. */
  lemma {:induction false} PaceInAnyInterval(grants: seq<int>, from: int, to: int)
    requires Paced(grants) && from <= to
    ensures WithinPace(GrantsBetween(grants, from, to), from, to)
  {
    if grants != [] {
      var n := |grants| - 1;
      if from <= grants[n] <= to {
        var first := FirstFrom(grants, from);
        NoneBefore(grants, from, to, first);
        assert WithinPace(n - first + 1, grants[first], grants[n]);
      } else {
        assert forall i, j {:trigger WithinPace(j - i + 1, grants[i], grants[j])} ::
          0 <= i <= j < n ==> WithinPace(j - i + 1, grants[i], grants[j]);
        PaceInAnyInterval(grants[..n], from, to);
      }
    }
  }

  lemma FirstFrom(grants: seq<int>, from: int) returns (first: nat)
    requires grants != [] && grants[|grants| - 1] >= from
    ensures first < |grants| && grants[first] >= from && forall i :: 0 <= i < first ==> grants[i] < from
  {
    first := 0;
    while grants[first] < from
      invariant first < |grants| && forall i :: 0 <= i < first ==> grants[i] < from
      decreases |grants| - first
    {
      first := first + 1;
    }
  }

  // ---------- The book cache's claims ----------

  datatype Claim = Scan(id: string) | Running(id: string) | Refused(retryAfter: int)

  class BookCache {
    var rescanID: string
    var rescanTokens: real
    var rescanTokensAt: int
    ghost var running: nat      // scans claimed and not ended
    ghost var grants: seq<int>  // rate-limited grants, by the latest clock reading seen

    ghost function Contents(): Bucket reads this {
      Bucket(rescanTokens, rescanTokensAt)
    }

    ghost predicate Valid() reads this {
      && InRange(Contents()) && Paced(grants) && Accounts(grants, Contents())
      && running == if rescanID == "" then 0 else 1
    }

    constructor (zeroTime: int)
      ensures Valid() && grants == [] && rescanID == "" && Contents() == Bucket(BURST, zeroTime)
    {
      rescanID, rescanTokens, rescanTokensAt, running, grants := "", BURST, zeroTime, 0, [];
      new;
      assert (BURST * REFILL_TIME as real).Floor == 5 * REFILL_TIME;
    }

    method RefillSince(now: int)
      modifies this`rescanTokens, this`rescanTokensAt
      ensures Contents() == Refilled(old(Contents()), now)
    {
      var elapsed := Elapsed(now, rescanTokensAt);
      if elapsed <= 0 {
        return;
      }
      rescanTokens := Min(BURST, rescanTokens + elapsed as real / REFILL_TIME as real);
      rescanTokensAt := now;
    }

    /** Takes a token, or tells how long to wait for one. */
    method TakeRescanTokenLocked(now: int) returns (retryAfter: int)
      requires Valid()
      modifies this`rescanTokens, this`rescanTokensAt, this`grants
      ensures Valid()
      ensures (Contents(), retryAfter) == Take(old(Contents()), now)
      ensures var full := Refilled(old(Contents()), now);
              if full.tokens < 1.0 then retryAfter > 0 && grants == old(grants)
              else retryAfter == 0 && grants == old(grants) + [full.at]
    {
      RefillAccounts(grants, Contents(), now);
      RefilledInRange(Contents(), now);
      ghost var full := Refilled(Contents(), now);
      WaitIsPositive(full);
      retryAfter := TakeToken(now);
      if retryAfter == 0 {
        GrantAccounts(grants, full);
        OneTokenLess(full);
        grants := grants + [rescanTokensAt];
      }
    }

    /** The same with no more asked of the tokens than rounding leaves of them. */
    method TakeToken(now: int) returns (retryAfter: int)
      modifies this`rescanTokens, this`rescanTokensAt
      ensures (Contents(), retryAfter) == Take(old(Contents()), now)
    {
      RefillSince(now);
      if rescanTokens < 1.0 {
        return Wait(rescanTokens);
      }
      rescanTokens := rescanTokens - 1.0;
      retryAfter := 0;
    }

    /** Claims a scan under a fresh id. A running scan costs no token, and no more does an
        unthrottled claim. */
    method BeginRescan(now: int, rateLimited: bool, freshID: string) returns (claim: Claim)
      requires Valid() && freshID != ""
      modifies this
      ensures Valid()
      ensures claim.Scan? <==> old(running) == 0 && (rateLimited ==> Refilled(old(Contents()), now).tokens >= 1.0)
      ensures claim.Running? <==> old(running) == 1
      ensures claim == match claim
        case Scan(_) => Scan(freshID)
        case Running(_) => Running(old(rescanID))
        case Refused(_) => Refused(Wait(Refilled(old(Contents()), now).tokens))
      ensures claim.Scan? ==> rescanID == freshID && running == old(running) + 1
      ensures !claim.Scan? ==> rescanID == old(rescanID) && running == old(running)
      ensures claim.Running? || !rateLimited ==> Contents() == old(Contents()) && grants == old(grants)
      ensures claim.Scan? && rateLimited ==>
        && grants == old(grants) + [rescanTokensAt]
        && Contents() == var full := Refilled(old(Contents()), now); full.(tokens := full.tokens - 1.0)
      ensures claim.Refused? ==> grants == old(grants) && Contents() == Refilled(old(Contents()), now)
    {
      if rescanID != "" {
        return Running(rescanID);
      }
      if rateLimited {
        var retryAfter := TakeRescanTokenLocked(now);
        if retryAfter > 0 {
          return Refused(retryAfter);
        }
      }
      rescanID := freshID;
      running := running + 1;
      return Scan(rescanID);
    }

    method EndRescan()
      requires Valid() && running == 1
      modifies this`rescanID, this`running
      ensures Valid() && running == 0 && rescanID == ""
    {
      rescanID := "";
      running := 0;
    }
  }

  /** Any run of claims and of scans ending, whatever the clock shows: never two scans at once, and
      never more rate-limited grants in an interval than a burst and the refills it has time for. */
  method AnyRun(zeroTime: int) returns (cache: BookCache)
    ensures fresh(cache) && cache.Valid() && cache.running <= 1 && 0.0 <= cache.rescanTokens <= BURST
    ensures forall from, to :: from <= to ==> WithinPace(GrantsBetween(cache.grants, from, to), from, to)
  {
    cache := new BookCache(zeroTime);
    var steps: nat :| 0 <= steps;
    while steps > 0
      invariant fresh(cache) && cache.Valid()
    {
      var now: int, rateLimited: bool, id: string := *, *, *;
      var end: bool := *;
      if end && cache.rescanID != "" {
        cache.EndRescan();
      } else if id != "" {
        var claim := cache.BeginRescan(now, rateLimited, id);
      }
      steps := steps - 1;
    }
    forall from, to | from <= to ensures WithinPace(GrantsBetween(cache.grants, from, to), from, to) {
      PaceInAnyInterval(cache.grants, from, to);
    }
  }
}
