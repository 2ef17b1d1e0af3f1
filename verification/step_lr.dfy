/**
  A step learning-rate scheduler: every `stepSize` epochs the rate is
  multiplied by `gamma`, but never drops below `minLr`. Rates are exact reals.
 */
module StepLR {

  datatype Scheduler = Scheduler(initialLr: real, stepSize: int, gamma: real, minLr: real, currentLr: real)

  /** Either the scheduler after the step and the rate it returns, or the
      ZeroDivisionError raised by `epoch % 0`. */
  datatype StepResult = Stepped(next: Scheduler, lr: real) | ZeroDivisionError

  /** The constructor: the parameters are stored and the current rate starts
      at the initial one. */
  function Init(initialLr: real, stepSize: int := 50, gamma: real := 0.7, minLr: real := 0.000001): (s: Scheduler)
    ensures s.initialLr == initialLr && s.stepSize == stepSize && s.gamma == gamma && s.minLr == minLr
    ensures s.currentLr == initialLr
  {
    Scheduler(initialLr, stepSize, gamma, minLr, initialLr)
  }

  /** An epoch on which the rate decays. Whether `epoch % stepSize == 0` does
      not depend on the sign convention of `%`: it holds exactly when
      `stepSize` divides `epoch`. */
  predicate DecayEpoch(stepSize: int, epoch: int) {
    epoch > 0 && stepSize != 0 && epoch % stepSize == 0
  }

  function Max(a: real, b: real): real {
    if a >= b then a else b
  }

  /** `step(epoch)`. The test `epoch > 0` short-circuits, so only a positive
      epoch reaches the modulo. */
  function Step(s: Scheduler, epoch: int): (r: StepResult)
    ensures r.ZeroDivisionError? <==> epoch > 0 && s.stepSize == 0
    ensures r.Stepped? ==> r.next == s.(currentLr := r.lr)
    ensures r.Stepped? && !DecayEpoch(s.stepSize, epoch) ==> r.lr == s.currentLr
    ensures r.Stepped? && DecayEpoch(s.stepSize, epoch) ==>
      r.lr >= s.minLr && r.lr >= s.currentLr * s.gamma &&
      (r.lr == s.minLr || r.lr == s.currentLr * s.gamma)
  {
    if epoch > 0 && s.stepSize == 0 then ZeroDivisionError
    else if DecayEpoch(s.stepSize, epoch) then
      var lr := Max(s.currentLr * s.gamma, s.minLr);
      Stepped(s.(currentLr := lr), lr)
    else Stepped(s, s.currentLr)
  }

  /** On a decay epoch the new rate is the larger of the decayed rate and the floor. */
  lemma DecayIsMax(s: Scheduler, epoch: int)
    requires DecayEpoch(s.stepSize, epoch)
    ensures Step(s, epoch).Stepped? && Step(s, epoch).lr == Max(s.currentLr * s.gamma, s.minLr)
  {
  }

  /** Stepping twice on the same decay epoch decays twice: the second call
      decays the rate the first one returned, and unless the floor stops it
      the rate drops again. */
  lemma StepNotIdempotent(s: Scheduler, epoch: int)
    requires DecayEpoch(s.stepSize, epoch)
    requires 0.0 < s.gamma < 1.0 && 0.0 < s.currentLr
    ensures var first := Step(s, epoch);
            var second := Step(first.next, epoch);
            second.Stepped? && second.lr == Max(first.lr * s.gamma, s.minLr) &&
            (first.lr * s.gamma > s.minLr ==> second.lr < first.lr)
  {
    DecayIsMax(s, epoch);
    Shrinks(s.currentLr, s.gamma);
    var first := Step(s, epoch);
    assert first.lr > 0.0;
    Shrinks(first.lr, s.gamma);
    var t := first.next;
    DecayIsMax(t, epoch);
    assert t.currentLr == first.lr && t.gamma == s.gamma && t.minLr == s.minLr;
    assert t.currentLr * t.gamma == first.lr * s.gamma;
  }

  /** A concrete instance: with `gamma` 0.5 and no floor, two calls on epoch 10
      halve the rate twice. */
  lemma StepTwiceExample()
    ensures var s := Init(1.0, 10, 0.5, 0.0);
            Step(s, 10).lr == 0.5 && Step(Step(s, 10).next, 10).lr == 0.25
  {
    var s := Init(1.0, 10, 0.5, 0.0);
    DecayIsMax(s, 10);
    DecayIsMax(Step(s, 10).next, 10);
  }

  lemma Shrinks(x: real, g: real)
    requires 0.0 < x && 0.0 < g < 1.0
    ensures 0.0 < x * g < x
  {
    assert x - x * g == x * (1.0 - g);
  }

  /** With a factor in [0, 1] and a floor at most the current rate, a step never
      raises the rate, and the floor stays at most the new rate. */
  lemma StepNeverIncreases(s: Scheduler, epoch: int)
    requires 0.0 <= s.gamma <= 1.0 && 0.0 <= s.minLr <= s.currentLr
    ensures var r := Step(s, epoch);
            r.Stepped? ==> s.minLr <= r.lr <= s.currentLr && r.next.minLr <= r.next.currentLr
  {
    assert s.currentLr * s.gamma <= s.currentLr by {
      assert s.currentLr * (1.0 - s.gamma) >= 0.0;
    }
    assert Max(s.currentLr * s.gamma, s.minLr) <= s.currentLr;
  }

  /** A rate below the floor is lifted to the floor by the first decay. */
  lemma FirstDecayLiftsToFloor(s: Scheduler, epoch: int)
    requires DecayEpoch(s.stepSize, epoch)
    requires 0.0 <= s.gamma <= 1.0 && 0.0 <= s.currentLr < s.minLr
    ensures Step(s, epoch).Stepped? && Step(s, epoch).lr == s.minLr
  {
    assert s.currentLr * s.gamma <= s.currentLr by {
      assert s.currentLr * (1.0 - s.gamma) >= 0.0;
    }
  }

  /** The scheduler after `step(1)`, ..., `step(n)`, or the error. */
  function RunUpTo(s: Scheduler, n: nat): (r: StepResult)
    ensures r.Stepped? ==> r.lr == r.next.currentLr
  {
    if n == 0 then Stepped(s, s.currentLr)
    else match RunUpTo(s, n - 1)
      case ZeroDivisionError => ZeroDivisionError
      case Stepped(t, _) => Step(t, n)
  }

  function Pow(x: real, e: nat): real {
    if e == 0 then 1.0 else x * Pow(x, e - 1)
  }

  /** Epoch `n` is a decay epoch exactly when `n / k` goes up by one. */
  lemma DivStep(n: int, k: int)
    requires n > 0 && k > 0
    ensures n % k == 0 ==> n / k == (n - 1) / k + 1
    ensures n % k != 0 ==> n / k == (n - 1) / k
  {
    var q, r := (n - 1) / k, (n - 1) % k;
    assert n - 1 == k * q + r && 0 <= r < k;
    if r + 1 < k {
      DivUnique(n, k, q, r + 1);
    } else {
      assert n == k * (q + 1) + 0;
      DivUnique(n, k, q + 1, 0);
    }
  }

  lemma DivUnique(n: int, k: int, q: int, r: int)
    requires k > 0 && 0 <= r < k && n == k * q + r
    ensures n / k == q && n % k == r
  {
    var q', r' := n / k, n % k;
    assert n == k * q' + r';
    assert k * (q - q') == r' - r;
    MulAway(k, q - q');
  }

  /** A non-zero multiple of `k` is at least `k` away from zero. */
  lemma MulAway(k: int, d: int)
    requires k > 0
    ensures d >= 1 ==> k * d >= k
    ensures d <= -1 ==> k * d <= -k
  {
    assert k * d == k + k * (d - 1) == -k + k * (d + 1);
    assert d >= 1 ==> k * (d - 1) >= 0;
    assert d <= -1 ==> k * (d + 1) <= 0;
  }

  /** Two floors in a row collapse to one, for a factor in [0, 1] and a
      non-negative floor. */
  lemma MaxTwice(a: real, g: real, m: real)
    requires 0.0 <= g <= 1.0 && 0.0 <= m
    ensures Max(Max(a, m) * g, m) == Max(a * g, m)
  {
    if a < m {
      assert a * g <= m * g by {
        assert (m - a) * g >= 0.0;
      }
      assert m * g <= m by {
        assert m * (1.0 - g) >= 0.0;
      }
    }
  }

  /** The rate after `q` decays from `c`: untouched when there were none,
      otherwise `c * g^q` floored once at `m`. */
  function ClosedLr(c: real, g: real, m: real, q: nat): real {
    if q == 0 then c else Max(c * Pow(g, q), m)
  }

  /** After `step(1)` to `step(n)` with a positive step size, a factor in
      [0, 1] and a non-negative floor, the rate has decayed `n / stepSize`
      times from where it started, floored once at `minLr`. */
  lemma {:induction false} RunClosedForm(s: Scheduler, n: nat)
    requires s.stepSize > 0 && 0.0 <= s.gamma <= 1.0 && 0.0 <= s.minLr
    ensures RunUpTo(s, n).Stepped?
    ensures RunUpTo(s, n).next == s.(currentLr := RunUpTo(s, n).lr)
    ensures RunUpTo(s, n).lr == ClosedLr(s.currentLr, s.gamma, s.minLr, n / s.stepSize)
  {
    if n > 0 {
      RunClosedForm(s, n - 1);
      var t := RunUpTo(s, n - 1).next;
      assert RunUpTo(s, n) == Step(t, n);
      DivStep(n, s.stepSize);
      if n % s.stepSize == 0 {
        DecayClosed(s, t, n, (n - 1) / s.stepSize);
      }
    }
  }

  /** A decay epoch moves the closed form from `q` decays to `q + 1`. */
  lemma DecayClosed(s: Scheduler, t: Scheduler, n: int, q: nat)
    requires 0.0 <= s.gamma <= 1.0 && 0.0 <= s.minLr && DecayEpoch(s.stepSize, n)
    requires t == s.(currentLr := ClosedLr(s.currentLr, s.gamma, s.minLr, q))
    ensures Step(t, n).Stepped? && Step(t, n).next == s.(currentLr := Step(t, n).lr)
    ensures Step(t, n).lr == ClosedLr(s.currentLr, s.gamma, s.minLr, q + 1)
  {
    DecayIsMax(t, n);
    assert t.currentLr * t.gamma == ClosedLr(s.currentLr, s.gamma, s.minLr, q) * s.gamma;
    DecayOnce(s.currentLr, s.gamma, s.minLr, q);
  }

  /** One more decay of the closed form after `q` decays is the closed form
      after `q + 1`. */
  lemma DecayOnce(c: real, g: real, m: real, q: nat)
    requires 0.0 <= g <= 1.0 && 0.0 <= m
    ensures Max(ClosedLr(c, g, m, q) * g, m) == ClosedLr(c, g, m, q + 1)
  {
    var p, p' := Pow(g, q), Pow(g, q + 1);
    assert p' == g * p;
    assert q == 0 ==> p == 1.0;
    DecayOnceScaled(c, g, m, p, p', q == 0);
  }

  /** DecayOnce with the powers named: `p` for `q` decays, `p'` for one more. */
  lemma DecayOnceScaled(c: real, g: real, m: real, p: real, p': real, first: bool)
    requires 0.0 <= g <= 1.0 && 0.0 <= m
    requires p' == g * p && (first ==> p == 1.0)
    ensures Max((if first then c else Max(c * p, m)) * g, m) == Max(c * p', m)
  {
    if first {
      assert p' == g;
    } else {
      MaxTwice(c * p, g, m);
      assert c * p * g == c * p';
    }
  }

  /** With step size 0 the first positive epoch raises. */
  lemma ZeroStepSizeRaises(s: Scheduler, n: nat)
    requires s.stepSize == 0 && n > 0
    ensures RunUpTo(s, n).ZeroDivisionError?
  {
    if n > 1 {
      ZeroStepSizeRaises(s, n - 1);
    }
  }

  /** The scheduler object. A `step` that would divide by zero leaves the state
      alone and returns `ok == false` in place of the exception. */
  class StepLRScheduler {
    var state: Scheduler

    constructor(initialLr: real, stepSize: int := 50, gamma: real := 0.7, minLr: real := 0.000001)
      ensures state == Init(initialLr, stepSize, gamma, minLr)
    {
      state := Init(initialLr, stepSize, gamma, minLr);
    }

    method StepEpoch(epoch: int) returns (lr: real, ok: bool)
      modifies this
      ensures ok <==> Step(old(state), epoch).Stepped?
      ensures ok ==> state == Step(old(state), epoch).next && lr == state.currentLr
      ensures !ok ==> state == old(state)
    {
      match Step(state, epoch)
      case ZeroDivisionError =>
        lr, ok := state.currentLr, false;
      case Stepped(next, r) =>
        state := next;
        lr, ok := r, true;
    }
  }
}
