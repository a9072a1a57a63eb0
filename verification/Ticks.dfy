/** Fixed-point conversion of clock ticks to nanoseconds. */
module Ticks {
  import opened Span

  const I64_MAX: i64 := 0x7FFF_FFFF_FFFF_FFFF
  const I64_MIN: i64 := -0x8000_0000_0000_0000

  /** 2^14, for the shift by `TICKS_TO_NS_SHIFT`. */
  const UNIT: int := 0x4000

  /** Saturating arithmetic: the 64-bit number nearest to `x`. */
  function Saturate(x: int): i64 {
    if x > I64_MAX then I64_MAX else if x < I64_MIN then I64_MIN else x
  }

  /** An arithmetic shift right by 14 rounds down, also below zero. */
  function Shifted(x: int): int { x / UNIT }

  function TicksToNs(ticks: i64, ticksPerNsScaled: u64, maxTicksNoOverflow: u64): i64 {
    if ticksPerNsScaled == 0 then ticks
    else
      var scale := Saturate(ticksPerNsScaled);
      if ticks > Saturate(maxTicksNoOverflow) then
        var count := Shifted(ticks);
        var ns := Saturate(count * scale);
        var rest := ticks - count * UNIT;
        Saturate(ns + Shifted(Saturate(rest * scale)))
      else Saturate(0 + Shifted(Saturate(ticks * scale)))
  }

  /** The exact quotient ticks * scale / 2^14, rounded down and saturated. */
  function ExactNs(ticks: i64, scale: u64): i64 { Saturate(Shifted(ticks * scale)) }

  /** No product saturates where that would show in the result. */
  predicate ProductsFit(ticks: i64, scale: u64, maxTicks: u64) {
    if ticks > Saturate(maxTicks) then
      (ticks % UNIT) * scale <= I64_MAX || (ticks / UNIT) * scale + I64_MAX / UNIT >= I64_MAX
    else I64_MIN <= ticks * scale <= I64_MAX
  }

  /** Splitting the multiplication loses nothing: the integral part comes out of the shift unchanged. */
  lemma SplitProduct(ticks: int, scale: int)
    ensures Shifted(ticks * scale) == (ticks / UNIT) * scale + Shifted((ticks % UNIT) * scale)
  {
    var q, r := ticks / UNIT, ticks % UNIT;
    assert ticks * scale == (UNIT * q + r) * scale == UNIT * (q * scale) + r * scale;
    ShiftOut(q * scale, r * scale);
  }

  lemma ShiftOut(a: int, b: int)
    ensures (UNIT * a + b) / UNIT == a + b / UNIT
  {
  }

  lemma AtLeast(n: int, scale: int, bound: int)
    requires n >= 1 && scale >= bound >= 0
    ensures n * scale >= bound
  {
    assert n * scale == scale + (n - 1) * scale;
    NonNegative(n - 1, scale);
  }

  lemma NonNegative(a: int, b: int)
    requires a >= 0 && b >= 0
    ensures a * b >= 0
  {
  }

  lemma SaturatedProduct(p: int)
    ensures Saturate(Shifted(Saturate(p))) == Saturate(Shifted(p)) <==> I64_MIN <= p <= I64_MAX
  {
  }

  /** A scale beyond the signed range, itself saturated first, is exact for no tick count but 0 and perhaps -1. */
  lemma HugeScale(ticks: i64, scale: u64)
    requires scale > I64_MAX
    ensures Saturate(Shifted(Saturate(ticks * I64_MAX))) == ExactNs(ticks, scale) <==> I64_MIN <= ticks * scale <= I64_MAX
  {
    if ticks > 0 {
      AtLeast(ticks, scale, I64_MAX + 1);
      AtLeast(ticks, I64_MAX, I64_MAX);
    } else if ticks < -1 {
      var n := -1 - ticks;
      AtLeast(n, scale, I64_MAX + 1);
      AtLeast(n, I64_MAX, I64_MAX);
      Negate(n, scale);
      Negate(n, I64_MAX);
    }
  }

  lemma Negate(n: int, scale: int)
    ensures (-1 - n) * scale == -scale - n * scale
  {
  }

  lemma SmallBranch(ticks: i64, scale: u64, maxTicks: u64)
    requires scale > 0 && ticks <= Saturate(maxTicks)
    ensures TicksToNs(ticks, scale, maxTicks) == ExactNs(ticks, scale) <==> I64_MIN <= ticks * scale <= I64_MAX
  {
    if scale > I64_MAX {
      HugeScale(ticks, scale);
    } else {
      SaturatedProduct(ticks * scale);
    }
  }

  lemma LargeBranch(ticks: i64, scale: u64, maxTicks: u64)
    requires scale > 0 && ticks > Saturate(maxTicks)
    ensures TicksToNs(ticks, scale, maxTicks) == ExactNs(ticks, scale) <==>
            (ticks % UNIT) * scale <= I64_MAX || (ticks / UNIT) * scale + I64_MAX / UNIT >= I64_MAX
  {
    SplitProduct(ticks, scale);
    var count, rest := ticks / UNIT, ticks % UNIT;
    assert ticks - count * UNIT == rest;
    NonNegative(count, scale);
    NonNegative(rest, scale);
    if scale > I64_MAX {
      if count >= 1 {
        AtLeast(count, scale, I64_MAX + 1);
        AtLeast(count, I64_MAX, I64_MAX);
        NonNegative(rest, I64_MAX);
      } else {
        AtLeast(rest, scale, I64_MAX + 1);
        AtLeast(rest, I64_MAX, I64_MAX);
      }
    }
  }

  /**
   Without a scale, ticks are nanoseconds already. With one the conversion is exact if and only if no
   product saturates visibly; for any inputs at all.
   */
  lemma ExactIff(ticks: i64, scale: u64, maxTicks: u64)
    ensures scale == 0 ==> TicksToNs(ticks, scale, maxTicks) == ticks
    ensures scale > 0 ==>
              (TicksToNs(ticks, scale, maxTicks) == ExactNs(ticks, scale) <==> ProductsFit(ticks, scale, maxTicks))
  {
    if scale == 0 {
    } else if ticks > Saturate(maxTicks) {
      LargeBranch(ticks, scale, maxTicks);
    } else {
      SmallBranch(ticks, scale, maxTicks);
    }
  }

  /** How Postgres sets the two numbers up: the scale is at most 2^49, and the threshold fits it. */
  predicate Consistent(scale: u64, maxTicks: u64) {
    0 < scale <= 0x2_0000_0000_0000 && maxTicks * scale <= I64_MAX
  }

  /** With consistent settings the conversion is exact in both branches. */
  lemma ExactWhenConsistent(ticks: i64, scale: u64, maxTicks: u64)
    requires ticks >= 0 && Consistent(scale, maxTicks)
    ensures TicksToNs(ticks, scale, maxTicks) == ExactNs(ticks, scale)
    ensures var exact := ticks * scale / 16384;   // a shift right by 14
            TicksToNs(ticks, scale, maxTicks)
            == if exact <= 0x7FFF_FFFF_FFFF_FFFF then exact else 0x7FFF_FFFF_FFFF_FFFF
  {
    ExactIff(ticks, scale, maxTicks);
    if ticks > Saturate(maxTicks) {
      Scaled(ticks % UNIT, UNIT - 1, scale);
    } else {
      Scaled(ticks, maxTicks, scale);
      NonNegative(ticks, scale);
    }
  }

  lemma Scaled(a: int, b: int, scale: int)
    requires a <= b && scale >= 0
    ensures a * scale <= b * scale
  {
    NonNegative(b - a, scale);
    assert b * scale - a * scale == (b - a) * scale;
  }

  /** Hence more ticks never convert to fewer nanoseconds, across the switch of branches too. */
  lemma Monotone(ticks1: i64, ticks2: i64, scale: u64, maxTicks: u64)
    requires 0 <= ticks1 <= ticks2 && Consistent(scale, maxTicks)
    ensures TicksToNs(ticks1, scale, maxTicks) <= TicksToNs(ticks2, scale, maxTicks)
  {
    ExactWhenConsistent(ticks1, scale, maxTicks);
    ExactWhenConsistent(ticks2, scale, maxTicks);
    Scaled(ticks1, ticks2, scale);
  }
}
