/** CalcGasLimit (core/block_validator.go): the gas limit of the next block, in 64-bit arithmetic, and where repeating
    it leads. */
module GasLimit {
  import opened StateTransitions

  const GAS_LIMIT_BOUND_DIVISOR: nat := 1024
  const MIN_GAS_LIMIT: nat := 5000

  function CalcGasLimit(gasLimit: nat, gasUsed: nat, gasFloor: nat, gasCeil: nat): nat
    requires gasLimit <= MAX_UINT64 && gasUsed <= MAX_UINT64
  {
    var contrib := Add64(gasUsed, gasUsed / 2) / GAS_LIMIT_BOUND_DIVISOR;
    var decay := Sub64(gasLimit / GAS_LIMIT_BOUND_DIVISOR, 1);
    var drifted := Add64(Sub64(gasLimit, decay), contrib);
    var limit := if drifted < MIN_GAS_LIMIT then MIN_GAS_LIMIT else drifted;
    if limit < gasFloor then
      var raised := Add64(gasLimit, decay);
      if raised > gasFloor then gasFloor else raised
    else if limit > gasCeil then
      var lowered := Sub64(gasLimit, decay);
      if lowered < gasCeil then gasCeil else lowered
    else limit
  }

  /** Limits that no step can wrap. */
  predicate NoWrap(gasLimit: nat) {
    gasLimit <= 0x7FFF_FFFF_FFFF_FFFF
  }

  ghost predicate Sensible(gasFloor: nat, gasCeil: nat) {
    MIN_GAS_LIMIT <= gasFloor <= gasCeil && NoWrap(gasCeil)
  }

  /** How far a limit is outside the range. */
  function Distance(gasLimit: nat, gasFloor: nat, gasCeil: nat): nat {
    if gasLimit < gasFloor then gasFloor - gasLimit else if gasLimit > gasCeil then gasLimit - gasCeil else 0
  }

  /** A step strictly approaches the range from outside, never leaves it from inside, and wraps nowhere. */
  lemma StepApproaches(gasLimit: nat, gasUsed: nat, gasFloor: nat, gasCeil: nat)
    requires Sensible(gasFloor, gasCeil) && 2 * GAS_LIMIT_BOUND_DIVISOR <= gasLimit && NoWrap(gasLimit)
    requires gasUsed <= gasLimit
    ensures var next := CalcGasLimit(gasLimit, gasUsed, gasFloor, gasCeil);
            && 2 * GAS_LIMIT_BOUND_DIVISOR <= next && NoWrap(next)
            && (Distance(gasLimit, gasFloor, gasCeil) > 0 ==>
                  Distance(next, gasFloor, gasCeil) < Distance(gasLimit, gasFloor, gasCeil))
            && (Distance(gasLimit, gasFloor, gasCeil) == 0 ==> Distance(next, gasFloor, gasCeil) == 0)
  {
    var q := gasLimit / GAS_LIMIT_BOUND_DIVISOR;
    assert q >= 2;
    assert Add64(gasUsed, gasUsed / 2) / GAS_LIMIT_BOUND_DIVISOR <= gasLimit;
  }

  /** The rule for successive limits of section 4.3.4 of the Ethereum Yellow Paper: a step changes the limit by less
      than a 1024th of it. */
  ghost predicate WithinBound(gasLimit: nat, next: nat) {
    -((gasLimit / GAS_LIMIT_BOUND_DIVISOR) as int) < next - gasLimit < gasLimit / GAS_LIMIT_BOUND_DIVISOR
  }

  /** A step from a valid limit keeps the rule exactly unless the limit is below five units, the block used at least
      seven units of one and a half times its gas, and the increase of four is within the range. */
  lemma StepWithinBound(gasLimit: nat, gasUsed: nat, gasFloor: nat, gasCeil: nat)
    requires Sensible(gasFloor, gasCeil) && MIN_GAS_LIMIT <= gasLimit && NoWrap(gasLimit) && gasUsed <= gasLimit
    ensures WithinBound(gasLimit, CalcGasLimit(gasLimit, gasUsed, gasFloor, gasCeil)) <==>
              !(gasLimit < 5 * GAS_LIMIT_BOUND_DIVISOR && gasUsed + gasUsed / 2 >= 7 * GAS_LIMIT_BOUND_DIVISOR
                && gasFloor <= gasLimit + 4 <= gasCeil)
  {
    var q := gasLimit / GAS_LIMIT_BOUND_DIVISOR;
    if 5 * GAS_LIMIT_BOUND_DIVISOR <= gasLimit {
      ContribBound(gasLimit, gasUsed);
    } else {
      assert q == 4;
      assert (gasUsed + gasUsed / 2) / GAS_LIMIT_BOUND_DIVISOR <= 7;
    }
  }

  /** From five units up, one and a half times the limit is below two units less a block's worth of slack. */
  lemma ContribBound(gasLimit: nat, gasUsed: nat)
    requires 5 * GAS_LIMIT_BOUND_DIVISOR <= gasLimit && gasUsed <= gasLimit
    ensures (gasUsed + gasUsed / 2) / GAS_LIMIT_BOUND_DIVISOR < 2 * (gasLimit / GAS_LIMIT_BOUND_DIVISOR) - 1
  {
    var q := gasLimit / GAS_LIMIT_BOUND_DIVISOR;
    assert gasLimit <= q * 1024 + 1023 && q >= 5;
    assert 2 * (gasUsed + gasUsed / 2) <= 3 * gasLimit;
    assert gasUsed + gasUsed / 2 < (2 * q - 1) * 1024;
  }

  /** A full block at the minimal limit breaks the rule. */
  lemma BoundFailsAtMinimum()
    ensures CalcGasLimit(5000, 5000, 5000, 8000000) == 5004 && !WithinBound(5000, 5004)
  {
  }

  /** Successive limits for given usages. */
  ghost predicate IsRun(limits: seq<nat>, used: seq<nat>, gasFloor: nat, gasCeil: nat) {
    && |limits| == |used| + 1
    && (forall i :: 0 <= i < |limits| ==> limits[i] <= MAX_UINT64)
    && (forall i :: 0 <= i < |used| ==> used[i] <= limits[i])
    && (forall i {:trigger used[i]} :: 0 <= i < |used| ==>
          limits[i + 1] == CalcGasLimit(limits[i], used[i], gasFloor, gasCeil))
  }

  /** However full the blocks are, after as many of them as the limit is away from the range it is inside, and it
      stays. */
  lemma {:induction false} RunConverges(limits: seq<nat>, used: seq<nat>, gasFloor: nat, gasCeil: nat)
    requires Sensible(gasFloor, gasCeil) && IsRun(limits, used, gasFloor, gasCeil)
    requires 2 * GAS_LIMIT_BOUND_DIVISOR <= limits[0] && NoWrap(limits[0])
    ensures var last := limits[|limits| - 1];
            && 2 * GAS_LIMIT_BOUND_DIVISOR <= last && NoWrap(last)
            && (|| Distance(last, gasFloor, gasCeil) == 0
                || Distance(last, gasFloor, gasCeil) + |used| <= Distance(limits[0], gasFloor, gasCeil))
            && (|used| >= Distance(limits[0], gasFloor, gasCeil) ==> gasFloor <= last <= gasCeil)
    decreases |used|
  {
    hide CalcGasLimit;
    if |used| > 0 {
      var n := |used| - 1;
      var limits', used' := limits[..n + 1], used[..n];
      assert IsRun(limits', used', gasFloor, gasCeil) by {
        forall i | 0 <= i < |used'| ensures limits'[i + 1] == CalcGasLimit(limits'[i], used'[i], gasFloor, gasCeil) {
          assert used'[i] == used[i];
        }
      }
      RunConverges(limits', used', gasFloor, gasCeil);
      assert used[n] <= limits[n] && limits'[n] == limits[n];
      StepApproaches(limits[n], used[n], gasFloor, gasCeil);
    }
  }
}
