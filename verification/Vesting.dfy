/** How much of a stream is vested at a given time, with the program's integer arithmetic. */
module Vesting {
  import opened Numbers
  import opened Results
  import opened Accounts

  const MIN_STREAM_DURATION: int := 60

  /** The vested amount as the program computes it: checked 64- and 128-bit steps and two truncating casts. */
  function VestedAmount(s: Stream, now: i64): Result<u64, ErrorCode> {
    if s.kind.MilestoneBased? then
      Ok(s.unlockedAmount)
    else if now < s.startTs then
      Ok(0)
    else if s.kind.Cliff? && now < s.cliffTs then
      Ok(0)
    else if now >= s.endTs then
      Ok(s.totalAmount)
    else
      var elapsed :- CheckedI64(now - s.startTs);
      var duration :- CheckedI64(s.endTs - s.startTs);
      ProRata(s.totalAmount, AsU64(elapsed), AsU64(duration))
  }

  function ProRata(total: u64, elapsed: u64, duration: u64): Result<u64, ErrorCode> {
    var product :- CheckedU128(total * elapsed);
    var quotient :- CheckedDivU128(product, duration);
    Ok(AsU64(quotient))
  }

  /** The schedules that creation accepts and every later edit keeps. */
  predicate WellTimed(s: Stream) {
    && 0 <= s.startTs <= s.cliffTs <= s.endTs
    && s.endTs - s.startTs >= MIN_STREAM_DURATION
  }

  /** The share of `total` due after `elapsed` of `duration`, over unbounded integers. */
  function Share(total: nat, elapsed: nat, duration: nat): nat
    requires duration > 0
  {
    total * elapsed / duration
  }

  /** What the recipient is entitled to at `now`, over unbounded integers. */
  function Entitlement(s: Stream, now: i64): nat {
    if s.kind.MilestoneBased? then s.unlockedAmount
    else if now < s.startTs || (s.kind.Cliff? && now < s.cliffTs) then 0
    else if now >= s.endTs then s.totalAmount
    else Share(s.totalAmount, now - s.startTs, s.endTs - s.startTs)
  }

  lemma ShareBounds(total: nat, elapsed: nat, duration: nat)
    requires elapsed < duration
    ensures Share(total, elapsed, duration) <= total
    ensures total > 0 ==> Share(total, elapsed, duration) < total
  {
    FloorBounds(total * elapsed, duration);
    Scale(elapsed + 1, duration, total);
    var v := Share(total, elapsed, duration);
    if total > 0 && v >= total {
      Scale(total, v, duration);
    }
  }

  lemma DivisionExact(product: u128, duration: u64)
    requires duration > 0 && product / duration < TWO_64
    ensures CheckedDivU128(product, duration) == Ok(product / duration)
    ensures AsU64(product / duration) == product / duration
  {
    FloorAtMost(product, duration);
  }

  lemma ProRataIsExact(total: u64, elapsed: u64, duration: u64)
    requires elapsed < duration
    ensures ProRata(total, elapsed, duration) == Ok(Share(total, elapsed, duration))
  {
    ProductAtMost(total, elapsed, U64_MAX, U64_MAX);
    ShareBounds(total, elapsed, duration);
    var product := total * elapsed;
    assert CheckedU128(product) == Ok(product);
    DivisionExact(product, duration);
  }

  /** No check overflows and both casts lose nothing: the program computes the unbounded value. */
  lemma VestedAmountIsExact(s: Stream, now: i64)
    requires !s.kind.MilestoneBased? ==> WellTimed(s)
    ensures VestedAmount(s, now) == Ok(Entitlement(s, now))
  {
    if !s.kind.MilestoneBased? && s.startTs <= now < s.endTs {
      ProRataIsExact(s.totalAmount, now - s.startTs, s.endTs - s.startTs);
    }
  }

  lemma EntitlementWithinTotal(s: Stream, now: i64)
    requires !s.kind.MilestoneBased? ==> WellTimed(s)
    requires s.kind.MilestoneBased? ==> s.unlockedAmount <= s.totalAmount
    ensures Entitlement(s, now) <= s.totalAmount
  {
    if !s.kind.MilestoneBased? && s.startTs <= now < s.endTs {
      ShareBounds(s.totalAmount, now - s.startTs, s.endTs - s.startTs);
    }
  }

  /** A positive timed total is fully vested from its end on, and at no earlier time. */
  lemma FullyVestedExactlyAtEnd(s: Stream, now: i64)
    requires !s.kind.MilestoneBased? && WellTimed(s) && s.totalAmount > 0
    ensures Entitlement(s, now) == s.totalAmount <==> now >= s.endTs
  {
    if s.startTs <= now < s.endTs {
      ShareBounds(s.totalAmount, now - s.startTs, s.endTs - s.startTs);
    }
  }

  lemma EntitlementGrowsWithTime(s: Stream, now: i64, later: i64)
    requires !s.kind.MilestoneBased? ==> WellTimed(s)
    requires now <= later
    ensures Entitlement(s, now) <= Entitlement(s, later)
  {
    if !s.kind.MilestoneBased? && s.startTs <= now < s.endTs {
      var duration := s.endTs - s.startTs;
      if later < s.endTs {
        Scale(now - s.startTs, later - s.startTs, s.totalAmount);
        FloorMonotone(s.totalAmount * (now - s.startTs), s.totalAmount * (later - s.startTs), duration);
      } else {
        ShareBounds(s.totalAmount, now - s.startTs, duration);
      }
    }
  }

  lemma EntitlementGrowsWithTotal(s: Stream, total: u64, now: i64)
    requires !s.kind.MilestoneBased? && WellTimed(s) && s.totalAmount <= total
    ensures Entitlement(s, now) <= Entitlement(s.(totalAmount := total), now)
  {
    if s.startTs <= now < s.endTs {
      Scale(s.totalAmount, total, now - s.startTs);
      FloorMonotone(s.totalAmount * (now - s.startTs), total * (now - s.startTs), s.endTs - s.startTs);
    }
  }

  /** Pushing the end out never raises what is vested at a given moment. */
  lemma EntitlementShrinksWithEnd(s: Stream, end: i64, now: i64)
    requires !s.kind.MilestoneBased? && WellTimed(s) && s.endTs <= end
    ensures Entitlement(s.(endTs := end), now) <= Entitlement(s, now)
  {
    if s.startTs <= now < end {
      var elapsed := now - s.startTs;
      if now < s.endTs {
        assert s.totalAmount * elapsed >= 0;
        FloorAntitone(s.totalAmount * elapsed, s.endTs - s.startTs, end - s.startTs);
      } else {
        ShareBounds(s.totalAmount, elapsed, end - s.startTs);
      }
    }
  }

  /** Between start and end, past any cliff, the vested amount is the exact share rounded down. */
  lemma VestedAmountRoundsDown(s: Stream, now: i64)
    requires !s.kind.MilestoneBased? && WellTimed(s)
    requires s.startTs <= now < s.endTs && (s.kind.Cliff? ==> s.cliffTs <= now)
    ensures var r := VestedAmount(s, now);
            r.Ok? && r.value * (s.endTs - s.startTs) <= s.totalAmount * (now - s.startTs)
                     < (r.value + 1) * (s.endTs - s.startTs)
  {
    VestedAmountIsExact(s, now);
    FloorBounds(s.totalAmount * (now - s.startTs), s.endTs - s.startTs);
  }

  /** A cliff stream pays nothing before its cliff and follows the linear schedule from it on. */
  lemma CliffJoinsLinear(s: Stream, now: i64)
    requires s.kind.Cliff? && WellTimed(s)
    ensures VestedAmount(s, now) == if now < s.cliffTs then Ok(0) else VestedAmount(s.(kind := Linear), now)
  {
  }
}
