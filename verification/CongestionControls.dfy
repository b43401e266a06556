/** The rate control laws of the audio client (lab5/lib/congestion_controls.c, lab5/v2/audiocli.c), over the reals. */
module CongestionControls {

  const AUDIO_REQUEST_INTERVAL_MS := 313.0
  const AUDIO_FRAME_SIZE := 4096.0

  /** The rate at which the device asks for bytes. */
  const AUDIO_REQUEST_RATE := 1000.0 / AUDIO_REQUEST_INTERVAL_MS * AUDIO_FRAME_SIZE

  datatype Config = Config(blocksize: nat, target: int, epsilon: real, beta: real, alpha: real) {
    ghost predicate Valid() {
      blocksize > 0 && alpha != -1.0
    }
  }

  /** A negative rate becomes 0; otherwise bytes become packets. */
  function ToRate(bytesPerSecond: real, blocksize: nat): (r: real)
    requires blocksize > 0
    ensures r >= 0.0
  {
    if bytesPerSecond < 0.0 then 0.0 else bytesPerSecond / blocksize as real
  }

  /** `packets_per_second * blocksize`. */
  function BytesPerSecond(rate: real, cfg: Config): (r: real) { rate * cfg.blocksize as real }

  /** `epsilon * occupancy_diff`. */
  function Correction(cfg: Config, load: int): (r: real) { cfg.epsilon * (cfg.target - load) as real }

  function NetInflux(bytes: real): (r: real) { bytes - AUDIO_REQUEST_RATE }

  function MethodC(rate: real, cfg: Config, load: int): (r: real)
    requires cfg.Valid()
    ensures r >= 0.0
  {
    ToRate(BytesPerSecond(rate, cfg) + Correction(cfg, load), cfg.blocksize)
  }

  function MethodD(rate: real, cfg: Config, load: int): (r: real)
    requires cfg.Valid()
    ensures r >= 0.0
  {
    var bytes := BytesPerSecond(rate, cfg);
    ToRate(bytes + Correction(cfg, load) - cfg.beta * NetInflux(bytes), cfg.blocksize)
  }

  /** The bytes per second method E aims at before the clamp. */
  function Aim(bytes: real, cfg: Config, load: int): (r: real)
    requires cfg.Valid()
  {
    bytes + (Correction(cfg, load) - cfg.beta * NetInflux(bytes)) / (1.0 + cfg.alpha)
  }

  function MethodE(rate: real, cfg: Config, load: int): (r: real)
    requires cfg.Valid()
    ensures r >= 0.0
  {
    ToRate(Aim(BytesPerSecond(rate, cfg), cfg, load), cfg.blocksize)
  }

  /** E generalises D, and D generalises C. */
  lemma Generalisations(rate: real, cfg: Config, load: int)
    requires cfg.Valid()
    ensures cfg.alpha == 0.0 ==> MethodE(rate, cfg, load) == MethodD(rate, cfg, load)
    ensures cfg.beta == 0.0 ==> MethodD(rate, cfg, load) == MethodC(rate, cfg, load)
  {
  }

  // ---------------------------------------------------------------------------------------------
  // Convergence at constant occupancy

  function Abs(x: real): (r: real) { if x < 0.0 then -x else x }

  /** The common fixed point of methods D and E, in bytes per second. */
  function FixedPoint(cfg: Config, load: int): (r: real)
    requires cfg.beta != 0.0
  {
    AUDIO_REQUEST_RATE + Correction(cfg, load) / cfg.beta
  }

  /** The distance of a rate to the fixed point, in bytes per second. */
  function Distance(rate: real, cfg: Config, load: int): (r: real)
    requires cfg.beta != 0.0
  {
    Abs(BytesPerSecond(rate, cfg) - FixedPoint(cfg, load))
  }

  /** The factor by which the distance to the fixed point changes in one step without the clamp. */
  function Factor(cfg: Config): (r: real)
    requires cfg.Valid()
  {
    1.0 - cfg.beta / (1.0 + cfg.alpha)
  }

  lemma CancelFactor(e: real, beta: real)
    requires beta != 0.0
    ensures beta * (e / beta) == e
  {
  }

  lemma ScaleDivision(p: real, q: real, a: real)
    requires a != 0.0
    ensures p * q / a == p / a * q
  {
  }

  lemma Distribute(p: real, x: real, y: real)
    ensures p * (x - y) == p * x - p * y
  {
  }

  lemma AbsProduct(p: real, q: real)
    ensures Abs(p * q) == Abs(p) * Abs(q)
  {
  }

  lemma ScaledDistance(d': real, q: real, d: real)
    requires d' == q * d
    ensures Abs(d') == Abs(q) * Abs(d)
  {
    AbsProduct(q, d);
  }

  lemma MonotoneProduct(p: real, x: real, y: real)
    requires p >= 0.0 && x <= y
    ensures p * x <= p * y
  {
  }

  lemma StrictProduct(p: real, x: real, y: real)
    requires p > 0.0 && x < y
    ensures p * x < p * y
  {
  }

  /** The unclamped step multiplies the signed distance by the factor. */
  lemma LinearStep(bytes: real, cfg: Config, load: int)
    requires cfg.Valid() && cfg.beta != 0.0
    ensures Aim(bytes, cfg, load) - FixedPoint(cfg, load) == Factor(cfg) * (bytes - FixedPoint(cfg, load))
  {
    var beta, a, fixed, e := cfg.beta, 1.0 + cfg.alpha, FixedPoint(cfg, load), Correction(cfg, load);
    CancelFactor(e, beta);
    Distribute(beta, fixed, AUDIO_REQUEST_RATE);
    Distribute(beta, bytes, AUDIO_REQUEST_RATE);
    Distribute(beta, fixed, bytes);
    assert e - beta * NetInflux(bytes) == beta * (fixed - bytes);
    ScaleDivision(beta, fixed - bytes, a);
    Factored(beta / a, bytes - fixed);
  }

  lemma Factored(k: real, d: real)
    ensures d + k * -d == (1.0 - k) * d
  {
  }

  lemma BackToBytes(bytes: real, cfg: Config)
    requires cfg.Valid()
    ensures BytesPerSecond(bytes / cfg.blocksize as real, cfg) == bytes
  {
  }

  lemma StepInBytes(rate: real, cfg: Config, load: int)
    requires cfg.Valid()
    ensures var aim := Aim(BytesPerSecond(rate, cfg), cfg, load);
            BytesPerSecond(MethodE(rate, cfg, load), cfg) == if aim < 0.0 then 0.0 else aim
  {
    BackToBytes(Aim(BytesPerSecond(rate, cfg), cfg, load), cfg);
  }

  /** The clamp at zero brings a rate nearer to a fixed point that is not negative. */
  lemma ClampedDistance(aim: real, next: real, fixed: real)
    requires fixed >= 0.0 && next == if aim < 0.0 then 0.0 else aim
    ensures Abs(next - fixed) <= Abs(aim - fixed)
  {
  }

  /** One step on plain numbers: `d` and `d'` are the distances before and after. */
  lemma StepOfNumbers(aim: real, next: real, fixed: real, q: real, bytes: real, d: real, d': real)
    requires fixed >= 0.0 && next == if aim < 0.0 then 0.0 else aim
    requires aim - fixed == q * (bytes - fixed) && d == Abs(bytes - fixed) && d' == Abs(next - fixed)
    ensures d' <= Abs(q) * d
    ensures aim >= 0.0 ==> d' == Abs(q) * d
  {
    ScaledDistance(aim - fixed, q, bytes - fixed);
    ClampedDistance(aim, next, fixed);
  }

  /** One step of method E: the clamp at zero never takes the rate further away than the linear law would. */
  lemma OneStep(rate: real, cfg: Config, load: int)
    requires cfg.Valid() && cfg.beta != 0.0 && FixedPoint(cfg, load) >= 0.0
    ensures Distance(MethodE(rate, cfg, load), cfg, load) <= Abs(Factor(cfg)) * Distance(rate, cfg, load)
    ensures Aim(BytesPerSecond(rate, cfg), cfg, load) >= 0.0 ==>
              Distance(MethodE(rate, cfg, load), cfg, load) == Abs(Factor(cfg)) * Distance(rate, cfg, load)
  {
    var bytes, fixed := BytesPerSecond(rate, cfg), FixedPoint(cfg, load);
    LinearStep(bytes, cfg, load);
    StepInBytes(rate, cfg, load);
    StepOfNumbers(Aim(bytes, cfg, load), BytesPerSecond(MethodE(rate, cfg, load), cfg), fixed, Factor(cfg), bytes,
                  Distance(rate, cfg, load), Distance(MethodE(rate, cfg, load), cfg, load));
  }

  lemma ProductIsZero(k: real, d: real)
    requires k > 0.0
    ensures k * d == 0.0 <==> d == 0.0
    ensures d >= 0.0 ==> k * d >= 0.0
  {
    if d > 0.0 {
      StrictProduct(k, 0.0, d);
    } else if d < 0.0 {
      StrictProduct(k, d, 0.0);
    }
  }

  /** Where the clamped step stays, in bytes: `aim` is the unclamped step from `bytes`, and `k` is beta / (1 + alpha). */
  lemma StaysIff(bytes: real, aim: real, fixed: real, k: real)
    requires k > 0.0 && fixed >= 0.0 && bytes >= 0.0
    requires aim - fixed == (1.0 - k) * (bytes - fixed)
    ensures bytes == (if aim < 0.0 then 0.0 else aim) <==> bytes == fixed
  {
    Distribute(bytes - fixed, 1.0, k);
    assert aim - bytes == -(k * (bytes - fixed));
    ProductIsZero(k, bytes - fixed);
    ProductIsZero(k, fixed);
    if bytes == 0.0 {
      assert k * (bytes - fixed) == -(k * fixed);
    }
  }

  lemma SameRate(x: real, y: real, cfg: Config)
    requires cfg.Valid()
    ensures BytesPerSecond(x, cfg) == BytesPerSecond(y, cfg) <==> x == y
  {
    var b := cfg.blocksize as real;
    if x < y {
      StrictProduct(b, x, y);
    } else if y < x {
      StrictProduct(b, y, x);
    }
  }

  /** For a positive gain and a fixed point that is not negative, it is the only rate that method E keeps. */
  lemma KeepsIff(rate: real, cfg: Config, load: int)
    requires cfg.Valid() && cfg.beta != 0.0 && cfg.beta / (1.0 + cfg.alpha) > 0.0
    requires FixedPoint(cfg, load) >= 0.0 && rate >= 0.0
    ensures MethodE(rate, cfg, load) == rate <==> Distance(rate, cfg, load) == 0.0
  {
    var bytes, fixed := BytesPerSecond(rate, cfg), FixedPoint(cfg, load);
    var k := cfg.beta / (1.0 + cfg.alpha);
    LinearStep(bytes, cfg, load);
    StepInBytes(rate, cfg, load);
    SameRate(MethodE(rate, cfg, load), rate, cfg);
    StaysIff(bytes, Aim(bytes, cfg, load), fixed, k);
  }

  /** Method C keeps a positive rate if and only if its correction is zero. */
  lemma KeepsIffC(rate: real, cfg: Config, load: int)
    requires cfg.Valid() && rate > 0.0
    ensures MethodC(rate, cfg, load) == rate <==> Correction(cfg, load) == 0.0
  {
    var next := BytesPerSecond(rate, cfg) + Correction(cfg, load);
    BackToBytes(next, cfg);
    StrictProduct(cfg.blocksize as real, 0.0, rate);
    SameRate(MethodC(rate, cfg, load), rate, cfg);
  }

  // ---------------------------------------------------------------------------------------------
  // Which way the laws steer, in the numbers of the device: 4096 bytes every 313 milliseconds

  lemma ScaledSign(epsilon: real, diff: real)
    requires epsilon > 0.0
    ensures epsilon * diff > 0.0 <==> diff > 0.0
    ensures epsilon * diff < 0.0 <==> diff < 0.0
  {
    if diff > 0.0 {
      StrictProduct(epsilon, 0.0, diff);
    } else if diff < 0.0 {
      StrictProduct(epsilon, diff, 0.0);
    }
  }

  lemma SameOrder(x: real, y: real, b: real)
    requires b > 0.0
    ensures x < y <==> x * b < y * b
  {
    if x < y {
      StrictProduct(b, x, y);
    } else if y < x {
      StrictProduct(b, y, x);
    }
  }

  /** Method C in bytes per second: the rate changes by epsilon times the missing bytes, but not below zero. */
  lemma ChangeC(rate: real, cfg: Config, load: int)
    requires cfg.Valid()
    ensures var bytes := rate * cfg.blocksize as real + cfg.epsilon * (cfg.target - load) as real;
            MethodC(rate, cfg, load) * cfg.blocksize as real == if bytes > 0.0 then bytes else 0.0
  {
    BackToBytes(rate * cfg.blocksize as real + cfg.epsilon * (cfg.target - load) as real, cfg);
  }

  /** Below the target, method C asks for more; above it, for less; at the target it keeps the rate. */
  lemma DirectionC(rate: real, cfg: Config, load: int)
    requires cfg.Valid() && cfg.epsilon > 0.0 && rate >= 0.0
    ensures load < cfg.target ==> MethodC(rate, cfg, load) > rate
    ensures load > cfg.target && rate > 0.0 ==> MethodC(rate, cfg, load) < rate
    ensures load == cfg.target ==> MethodC(rate, cfg, load) == rate
  {
    var b, next := cfg.blocksize as real, MethodC(rate, cfg, load);
    ChangeC(rate, cfg, load);
    ScaledSign(cfg.epsilon, (cfg.target - load) as real);
    MonotoneProduct(b, 0.0, rate);
    if rate > 0.0 {
      StrictProduct(b, 0.0, rate);
    }
    SameOrder(rate, next, b);
    SameOrder(next, rate, b);
  }

  lemma DeviceRate()
    ensures AUDIO_REQUEST_RATE == 4096.0 * 1000.0 / 313.0
  {
  }

  /** Where the clamped step stays when the unclamped one heads for a negative rate. */
  lemma StaysAtZero(bytes: real, aim: real, fixed: real, k: real)
    requires k > 0.0 && fixed < 0.0 && bytes >= 0.0
    requires aim - fixed == (1.0 - k) * (bytes - fixed)
    ensures bytes == (if aim < 0.0 then 0.0 else aim) <==> bytes == 0.0
  {
    Distribute(bytes - fixed, 1.0, k);
    assert aim - bytes == -(k * (bytes - fixed));
    StrictProduct(k, 0.0, bytes - fixed);
  }

  /** For a positive gain and any fixed point, the only rate that method E keeps is the fixed point or, when that is
      negative, 0. */
  lemma KeepsOnly(rate: real, cfg: Config, load: int)
    requires cfg.Valid() && cfg.beta != 0.0 && cfg.beta / (1.0 + cfg.alpha) > 0.0 && rate >= 0.0
    ensures var fixed := FixedPoint(cfg, load);
            MethodE(rate, cfg, load) == rate <==> BytesPerSecond(rate, cfg) == if fixed > 0.0 then fixed else 0.0
  {
    var bytes, fixed := BytesPerSecond(rate, cfg), FixedPoint(cfg, load);
    if fixed >= 0.0 {
      KeepsIff(rate, cfg, load);
    } else {
      ProductIsZero(cfg.blocksize as real, rate);
      LinearStep(bytes, cfg, load);
      StepInBytes(rate, cfg, load);
      SameRate(MethodE(rate, cfg, load), rate, cfg);
      StaysAtZero(bytes, Aim(bytes, cfg, load), fixed, cfg.beta / (1.0 + cfg.alpha));
    }
  }

  /** The only rate that method E keeps is the rate of the device, corrected by the missing bytes over beta, or 0. */
  lemma KeptRateE(rate: real, cfg: Config, load: int)
    requires cfg.Valid() && cfg.beta != 0.0 && cfg.beta / (1.0 + cfg.alpha) > 0.0 && rate >= 0.0
    ensures var kept := 4096.0 * 1000.0 / 313.0 + (cfg.epsilon * (cfg.target - load) as real) / cfg.beta;
            MethodE(rate, cfg, load) == rate <==> rate * cfg.blocksize as real == if kept > 0.0 then kept else 0.0
  {
    DeviceRate();
    var missing := cfg.epsilon * (cfg.target - load) as real;
    assert missing == Correction(cfg, load);
    assert FixedPoint(cfg, load) == 4096.0 * 1000.0 / 313.0 + missing / cfg.beta;
    KeepsOnly(rate, cfg, load);
  }

  /** Method D is method E without alpha. */
  lemma DIsE(rate: real, cfg: Config, load: int)
    requires cfg.Valid()
    ensures MethodD(rate, cfg, load) == MethodE(rate, cfg.(alpha := 0.0), load)
  {
    var without, bytes := cfg.(alpha := 0.0), BytesPerSecond(rate, cfg);
    var step := Correction(cfg, load) - cfg.beta * NetInflux(bytes);
    assert BytesPerSecond(rate, without) == bytes && Correction(without, load) == Correction(cfg, load);
    assert without.beta * NetInflux(bytes) == cfg.beta * NetInflux(bytes);
    DividedByOne(step, without);
    assert Aim(bytes, without, load) == bytes + step;
  }

  lemma DividedByOne(x: real, cfg: Config)
    requires cfg.alpha == 0.0
    ensures x / (1.0 + cfg.alpha) == x
  {
  }

  lemma KeptRateD(rate: real, cfg: Config, load: int)
    requires cfg.Valid() && cfg.beta > 0.0 && rate >= 0.0
    ensures var kept := 4096.0 * 1000.0 / 313.0 + (cfg.epsilon * (cfg.target - load) as real) / cfg.beta;
            MethodD(rate, cfg, load) == rate <==> rate * cfg.blocksize as real == if kept > 0.0 then kept else 0.0
  {
    var without := cfg.(alpha := 0.0);
    var missing := cfg.epsilon * (cfg.target - load) as real;
    assert without.beta / (1.0 + without.alpha) == cfg.beta;
    assert Correction(without, load) == missing;
    DeviceRate();
    assert FixedPoint(without, load) == 4096.0 * 1000.0 / 313.0 + missing / cfg.beta;
    DIsE(rate, cfg, load);
    KeepsOnly(rate, without, load);
  }

  lemma QuotientSign(x: real, beta: real)
    requires beta > 0.0
    ensures x / beta > 0.0 <==> x > 0.0
    ensures x / beta < 0.0 <==> x < 0.0
  {
    CancelFactor(x, beta);
    ScaledSign(beta, x / beta);
  }

  /** The rate that D and E keep is above, at or below the rate of the device as the load is below, at or above the
      target. */
  lemma DirectionDE(rate: real, cfg: Config, load: int)
    requires cfg.Valid() && cfg.epsilon > 0.0 && cfg.beta > 0.0 && cfg.alpha > -1.0 && rate >= 0.0
    requires MethodD(rate, cfg, load) == rate || MethodE(rate, cfg, load) == rate
    ensures rate * cfg.blocksize as real > 4096.0 * 1000.0 / 313.0 <==> load < cfg.target
    ensures rate * cfg.blocksize as real < 4096.0 * 1000.0 / 313.0 <==> load > cfg.target
  {
    QuotientSign(cfg.beta, 1.0 + cfg.alpha);
    KeptRateD(rate, cfg, load);
    KeptRateE(rate, cfg, load);
    ScaledSign(cfg.epsilon, (cfg.target - load) as real);
    QuotientSign(cfg.epsilon * (cfg.target - load) as real, cfg.beta);
  }

  /** Alpha divides the step that D makes by 1 + alpha. */
  lemma DampedStep(rate: real, cfg: Config, load: int)
    requires cfg.Valid() && MethodD(rate, cfg, load) > 0.0 && MethodE(rate, cfg, load) > 0.0
    ensures (MethodE(rate, cfg, load) - rate) * (1.0 + cfg.alpha) == MethodD(rate, cfg, load) - rate
  {
    var a, b, bytes := 1.0 + cfg.alpha, cfg.blocksize as real, BytesPerSecond(rate, cfg);
    var step := Correction(cfg, load) - cfg.beta * NetInflux(bytes);
    var d, e := MethodD(rate, cfg, load), MethodE(rate, cfg, load);
    BackToBytes(bytes + step, cfg);
    BackToBytes(bytes + step / a, cfg);
    CancelFactor(step, a);
    assert d * b == bytes + step && e * b == bytes + step / a;
    Damped(d, e, rate, a, b, step / a);
  }

  lemma Damped(d: real, e: real, rate: real, a: real, b: real, part: real)
    requires b > 0.0 && d * b == rate * b + a * part && e * b == rate * b + part
    ensures (e - rate) * a == d - rate
  {
    Distribute(b, e, rate);
    Distribute(b, d, rate);
    assert b * (e - rate) == part;
    assert b * ((e - rate) * a) == a * (b * (e - rate)) == b * (d - rate);
    var x, y := (e - rate) * a, d - rate;
    if x < y {
      StrictProduct(b, x, y);
    } else if y < x {
      StrictProduct(b, y, x);
    }
  }

  function Iterate(rate: real, cfg: Config, load: int, n: nat): (r: real)
    requires cfg.Valid()
  {
    if n == 0 then rate else MethodE(Iterate(rate, cfg, load, n - 1), cfg, load)
  }

  function Pow(q: real, n: nat): (r: real)
  {
    if n == 0 then 1.0 else q * Pow(q, n - 1)
  }

  /** `d` after `n` steps that each scale it by `q`. */
  function Scaled(q: real, n: nat, d: real): (r: real)
  {
    if n == 0 then d else q * Scaled(q, n - 1, d)
  }

  lemma {:induction false} ScaledIsPower(q: real, n: nat, d: real)
    ensures Scaled(q, n, d) == Pow(q, n) * d
  {
    if n > 0 {
      ScaledIsPower(q, n - 1, d);
      assert q * (Pow(q, n - 1) * d) == q * Pow(q, n - 1) * d;
    }
  }

  lemma NextScaled(q: real, n: nat, d: real, y: real)
    requires q >= 0.0 && y <= Scaled(q, n, d)
    ensures Scaled(q, 1, y) <= Scaled(q, n + 1, d)
  {
    MonotoneProduct(q, y, Scaled(q, n, d));
    assert Scaled(q, 1, y) == q * Scaled(q, 0, y) == q * y;
  }

  lemma ScaledStep(rate: real, cfg: Config, load: int)
    requires cfg.Valid() && cfg.beta != 0.0 && FixedPoint(cfg, load) >= 0.0
    ensures Distance(MethodE(rate, cfg, load), cfg, load) <= Scaled(Abs(Factor(cfg)), 1, Distance(rate, cfg, load))
  {
    OneStep(rate, cfg, load);
    ScaledIsPower(Abs(Factor(cfg)), 1, Distance(rate, cfg, load));
    assert Pow(Abs(Factor(cfg)), 1) == Abs(Factor(cfg));
  }

  lemma {:induction false} Shrinks(rate: real, cfg: Config, load: int, n: nat)
    requires cfg.Valid() && cfg.beta != 0.0 && FixedPoint(cfg, load) >= 0.0
    ensures Distance(Iterate(rate, cfg, load, n), cfg, load) <= Scaled(Abs(Factor(cfg)), n, Distance(rate, cfg, load))
  {
    if n > 0 {
      var before := Iterate(rate, cfg, load, n - 1);
      Shrinks(rate, cfg, load, n - 1);
      ScaledStep(before, cfg, load);
      NextScaled(Abs(Factor(cfg)), n - 1, Distance(rate, cfg, load), Distance(before, cfg, load));
    }
  }

  /** At constant occupancy, with a fixed point that is not negative, `n` steps bring the rate at least as close as
      the n-th power of the factor says, despite the clamp. */
  lemma Converges(rate: real, cfg: Config, load: int, n: nat)
    requires cfg.Valid() && cfg.beta != 0.0 && FixedPoint(cfg, load) >= 0.0
    ensures Distance(Iterate(rate, cfg, load, n), cfg, load)
         <= Pow(Abs(Factor(cfg)), n) * Distance(rate, cfg, load)
  {
    Shrinks(rate, cfg, load, n);
    ScaledIsPower(Abs(Factor(cfg)), n, Distance(rate, cfg, load));
  }

  lemma ScaledRange(k: real, a: real, beta: real)
    requires a > 0.0 && beta == a * k
    ensures 0.0 < k < 2.0 <==> 0.0 < beta < 2.0 * a
  {
    if k >= 2.0 {
      MonotoneProduct(a, 2.0, k);
    } else if k > 0.0 {
      StrictProduct(a, k, 2.0);
      StrictProduct(a, 0.0, k);
    } else {
      MonotoneProduct(a, k, 0.0);
    }
  }

  lemma FactorBelowOneIff(cfg: Config)
    requires cfg.Valid()
    ensures Abs(Factor(cfg)) < 1.0 <==> 0.0 < cfg.beta / (1.0 + cfg.alpha) < 2.0
    ensures cfg.alpha > -1.0 ==> (Abs(Factor(cfg)) < 1.0 <==> 0.0 < cfg.beta < 2.0 * (1.0 + cfg.alpha))
  {
    var a := 1.0 + cfg.alpha;
    if a > 0.0 {
      CancelFactor(cfg.beta, a);
      ScaledRange(cfg.beta / a, a, cfg.beta);
    }
  }

  lemma Nearer(x: real, q: real, d: real)
    requires x <= q * d && q < 1.0 && d > 0.0
    ensures x < d
  {
    StrictProduct(d, q, 1.0);
  }

  lemma StepNearer(rate: real, cfg: Config, load: int)
    requires cfg.Valid() && cfg.beta != 0.0 && FixedPoint(cfg, load) >= 0.0
    requires Abs(Factor(cfg)) < 1.0 && Distance(rate, cfg, load) != 0.0
    ensures Distance(MethodE(rate, cfg, load), cfg, load) < Distance(rate, cfg, load)
  {
    OneStep(rate, cfg, load);
    Nearer(Distance(MethodE(rate, cfg, load), cfg, load), Abs(Factor(cfg)), Distance(rate, cfg, load));
  }

  /** Every step brings every non-negative rate nearer to a positive fixed point if and only if beta / (1 + alpha) lies
      strictly between 0 and 2. */
  lemma ApproachesIff(cfg: Config, load: int)
    requires cfg.Valid() && cfg.beta != 0.0 && FixedPoint(cfg, load) > 0.0
    ensures (forall rate: real | rate >= 0.0 && Distance(rate, cfg, load) != 0.0 ::
               Distance(MethodE(rate, cfg, load), cfg, load) < Distance(rate, cfg, load))
       <==> 0.0 < cfg.beta / (1.0 + cfg.alpha) < 2.0
  {
    FactorBelowOneIff(cfg);
    if Abs(Factor(cfg)) < 1.0 {
      forall rate: real | rate >= 0.0 && Distance(rate, cfg, load) != 0.0
        ensures Distance(MethodE(rate, cfg, load), cfg, load) < Distance(rate, cfg, load)
      {
        StepNearer(rate, cfg, load);
      }
    } else {
      var rate := Overshoots(cfg, load);
    }
  }

  lemma SameSign(q: real, d: real)
    requires (q > 0.0 && d > 0.0) || (q < 0.0 && d < 0.0)
    ensures q * d >= 0.0
  {
    if q > 0.0 {
      MonotoneProduct(q, 0.0, d);
    } else {
      MonotoneProduct(-q, 0.0, -d);
      assert -q * -d == q * d;
    }
  }

  lemma NotNearer(x: real, q: real, d: real)
    requires x == q * d && q >= 1.0 && d >= 0.0
    ensures x >= d
  {
    MonotoneProduct(d, 1.0, q);
  }

  /** A rate that the step moves away from the fixed point without meeting the clamp. */
  lemma StepAway(rate: real, cfg: Config, load: int)
    requires cfg.Valid() && cfg.beta != 0.0 && FixedPoint(cfg, load) > 0.0 && Abs(Factor(cfg)) >= 1.0
    requires var d := BytesPerSecond(rate, cfg) - FixedPoint(cfg, load);
             if Factor(cfg) > 0.0 then d > 0.0 else d < 0.0
    ensures Distance(MethodE(rate, cfg, load), cfg, load) >= Distance(rate, cfg, load)
  {
    var bytes, fixed := BytesPerSecond(rate, cfg), FixedPoint(cfg, load);
    LinearStep(bytes, cfg, load);
    SameSign(Factor(cfg), bytes - fixed);
    OneStep(rate, cfg, load);
    NotNearer(Distance(MethodE(rate, cfg, load), cfg, load), Abs(Factor(cfg)), Distance(rate, cfg, load));
  }

  /** Outside that range, a rate on the right side of the fixed point does not get nearer. */
  lemma Overshoots(cfg: Config, load: int) returns (rate: real)
    requires cfg.Valid() && cfg.beta != 0.0 && FixedPoint(cfg, load) > 0.0
    requires Abs(Factor(cfg)) >= 1.0
    ensures rate >= 0.0 && Distance(rate, cfg, load) != 0.0
    ensures Distance(MethodE(rate, cfg, load), cfg, load) >= Distance(rate, cfg, load)
  {
    var fixed := FixedPoint(cfg, load);
    var bytes := if Factor(cfg) > 0.0 then 2.0 * fixed else fixed / 2.0;
    rate := bytes / cfg.blocksize as real;
    BackToBytes(bytes, cfg);
    StepAway(rate, cfg, load);
  }
}
