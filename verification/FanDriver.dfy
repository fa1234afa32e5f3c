/** main/fan_driver/fan_driver.c: the percentage clamp and the percent-to-duty conversion. */
module FanDriver {
  import opened FirmwareTypes

  const FAN_PWM_RES: nat := 10
  const UINT32_RANGE := 0x1_0000_0000

  function Pow2(n: nat): (p: nat)
    ensures p >= 1
  {
    if n == 0 then 1 else 2 * Pow2(n - 1)
  }

  function DutyMax(res: nat): nat {
    Pow2(res) - 1
  }

  function Clamp(percent: uint8): (p: uint8)
    ensures p == if percent <= 100 then percent else 100
  {
    if percent > 100 then 100 else percent
  }

  /** The product is a uint32_t: it wraps before the division. */
  function Duty(percent: nat, res: nat): nat {
    percent * DutyMax(res) % UINT32_RANGE / 100
  }

  class Fan {
    const res: nat
    var percent: uint8
    var duty: nat

    /** The duty is the one the remembered percentage stands for. */
    ghost predicate Valid()
      reads this
    {
      percent <= 100 && duty == Duty(percent, res)
    }

    constructor (res: nat)
      ensures Valid()
      ensures this.res == res && percent == 0 && duty == 0
    {
      this.res := res;
      percent, duty := 0, 0;
      new;
      ZeroDuty(res);
    }

    method SetPercent(p: uint8)
      modifies this
      ensures Valid()
      ensures percent == Clamp(p)
      ensures duty == Duty(Clamp(p), res)
    {
      var clamped: uint8 := p;
      if clamped > 100 { clamped := 100; }
      percent := clamped;
      var dutyMax := DutyMax(res);
      duty := clamped * dutyMax % UINT32_RANGE / 100;
    }

    /** The percentage is not read back from the hardware, but for 7 to 25 bits it is the one that the
        running duty determines. */
    method GetPercent() returns (p: uint8)
      requires Valid()
      ensures p <= 100 && Duty(p, res) == duty
      ensures 7 <= res <= 25 ==> p == (100 * duty + DutyMax(res) - 1) / DutyMax(res)
      ensures 7 <= res <= 25 ==> forall q: nat | q <= 100 && Duty(q, res) == duty :: q == p
    {
      p := percent;
      if 7 <= res <= 25 {
        PercentRecovered(p, res);
        StrictlyIncreasingExactly(res);
      }
    }
  }

  lemma ZeroDuty(res: nat)
    ensures Duty(0, res) == 0
  {
  }

  lemma {:induction false} Pow2Monotone(a: nat, b: nat)
    requires a <= b
    ensures Pow2(a) <= Pow2(b)
    decreases b
  {
    if a < b {
      Pow2Monotone(a, b - 1);
    }
  }

  lemma Pow2Landmarks()
    ensures Pow2(6) == 64 && Pow2(7) == 128 && Pow2(25) == 0x200_0000 && Pow2(26) == 0x400_0000
  {
    assert Pow2(3) == 8;
    assert Pow2(6) == 64;
    assert Pow2(9) == 512;
    assert Pow2(12) == 4096;
    assert Pow2(15) == 0x8000;
    assert Pow2(18) == 0x4_0000;
    assert Pow2(21) == 0x20_0000;
    assert Pow2(24) == 0x100_0000;
  }

  /** The uint32_t product never wraps on 0..100 exactly for resolutions up to 25 bits. */
  lemma NoOverflowExactly(res: nat)
    ensures (forall p: nat | p <= 100 :: p * DutyMax(res) < UINT32_RANGE) <==> res <= 25
  {
    Pow2Landmarks();
    if res <= 25 {
      Pow2Monotone(res, 25);
      forall p: nat | p <= 100 ensures p * DutyMax(res) < UINT32_RANGE {
        assert p * DutyMax(res) <= 100 * DutyMax(res) by { MulMonotone(p, 100, DutyMax(res)); }
      }
    } else {
      Pow2Monotone(26, res);
      var p: nat := 100;
      assert p * DutyMax(res) >= UINT32_RANGE;
    }
  }

  lemma MulMonotone(a: nat, b: nat, c: nat)
    requires a <= b
    ensures a * c <= b * c
  {
  }

  lemma DivideByHundred(x: nat)
    requires x < UINT32_RANGE
    ensures x % UINT32_RANGE / 100 == x / 100 && 100 * (x / 100) <= x < 100 * (x / 100) + 100
  {
  }

  lemma DutyWithoutWrap(p: nat, res: nat)
    requires p <= 100 && res <= 25
    ensures Duty(p, res) == p * DutyMax(res) / 100
    ensures 100 * Duty(p, res) <= p * DutyMax(res) < 100 * Duty(p, res) + 100
  {
    NoOverflowExactly(res);
    DivideByHundred(p * DutyMax(res));
  }

  lemma DutyMonotone(p: nat, q: nat, res: nat)
    requires p <= q <= 100 && res <= 25
    ensures Duty(p, res) <= Duty(q, res)
  {
    DutyWithoutWrap(p, res);
    DutyWithoutWrap(q, res);
    MulMonotone(p, q, DutyMax(res));
  }

  /** Distinct percentages give distinct, ordered duties exactly from 7 bits on. */
  lemma StrictlyIncreasingExactly(res: nat)
    requires res <= 25
    ensures (forall p: nat, q: nat | p < q <= 100 :: Duty(p, res) < Duty(q, res)) <==> res >= 7
  {
    Pow2Landmarks();
    if res >= 7 {
      Pow2Monotone(7, res);
      forall p: nat, q: nat | p < q <= 100 ensures Duty(p, res) < Duty(q, res) {
        DutyWithoutWrap(p, res);
        DutyWithoutWrap(q, res);
        MulMonotone(p + 1, q, DutyMax(res));
        assert (p + 1) * DutyMax(res) == p * DutyMax(res) + DutyMax(res);
      }
    } else {
      Pow2Monotone(res, 6);
      DutyWithoutWrap(0, res);
      DutyWithoutWrap(1, res);
      assert Duty(0, res) == 0 == Duty(1, res);
    }
  }

  /** 0 is off, 100 is full scale, and the percentage is the ceiling of 100 * duty / full scale. */
  lemma PercentRecovered(p: nat, res: nat)
    requires p <= 100 && 7 <= res <= 25
    ensures Duty(0, res) == 0 && Duty(100, res) == DutyMax(res) > 0
    ensures p == (100 * Duty(p, res) + DutyMax(res) - 1) / DutyMax(res)
  {
    Pow2Landmarks();
    Pow2Monotone(7, res);
    DutyWithoutWrap(0, res);
    DutyWithoutWrap(100, res);
    DutyWithoutWrap(p, res);
    var d := DutyMax(res);
    var x := 100 * Duty(p, res) + d - 1;
    assert p * d <= x < (p + 1) * d;
    QuotientUnique(x, d, p);
  }

  lemma QuotientUnique(x: nat, d: nat, q: nat)
    requires d > 0 && q * d <= x < (q + 1) * d
    ensures x / d == q
  {
    var k := x / d;
    assert k * d <= x < (k + 1) * d;
    if k < q {
      MulMonotone(k + 1, q, d);
    } else if k > q {
      MulMonotone(q + 1, k, d);
    }
  }

  /** Beyond 25 bits the product does wrap: at 26 bits full speed would be 36% of full scale. */
  lemma WrapsAtTwentySix()
    ensures DutyMax(26) == 67_108_863 && Duty(100, 26) == 24_159_190
  {
    Pow2Landmarks();
  }
}
