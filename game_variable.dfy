/**
 * `IntGameVariable` (`GameVariableBase<int>`): a shared integer game value (coins,
 * life, step counts, stone counts …) with an optional lower and upper limit and an
 * optional "value set" event. Every assignment stores the value, pulls it back into
 * the limits by assigning again, and raises the event once per assignment.
 */
module GameVariable {
  import opened Wrappers

  class IntGameVariable {
    const initialValue: int
    const hasLowerLimit: bool
    const minValue: int
    const hasUpperLimit: bool
    const maxValue: int
    /** Whether an `onValueSet` event is attached. */
    const hasListener: bool

    var runtimeValue: int
    /** How many times `onValueSet` has been raised. */
    var raised: nat

    /** The limits admit at least one value; otherwise an assignment recurses for ever. */
    predicate LimitsConsistent() {
      hasLowerLimit && hasUpperLimit ==> minValue <= maxValue
    }

    /** `v` satisfies every limit that is switched on. */
    predicate WithinLimits(v: int) {
      (hasLowerLimit ==> minValue <= v) && (hasUpperLimit ==> v <= maxValue)
    }

    /** The value an assignment of `v` settles on. */
    function Clamp(v: int): (r: int)
      ensures LimitsConsistent() ==> WithinLimits(r)
      ensures WithinLimits(v) ==> r == v
      ensures hasUpperLimit && v > maxValue ==> r == maxValue
      ensures hasLowerLimit && v < minValue && LimitsConsistent() ==> r == minValue
    {
      if hasUpperLimit && v > maxValue then maxValue
      else if hasLowerLimit && v < minValue then minValue
      else v
    }

    /**
     * The value the setter assigns again from inside `AdjustValue` after storing `v`,
     * if any: the upper limit is checked first, then the lower one.
     */
    function NestedAssignment(v: int): (r: Option<int>)
      ensures r.None? <==> WithinLimits(v)
    {
      if hasUpperLimit && v > maxValue then Some(maxValue)
      else if hasLowerLimit && v < minValue then Some(minValue)
      else None
    }

    /** How far `v` is from settling: an out-of-limit value needs one nested assignment. */
    function Excess(v: int): nat {
      if hasUpperLimit && v > maxValue then 2
      else if hasLowerLimit && v < minValue then 1
      else 0
    }

    /** Events raised by one assignment of `v`. */
    function RaisesFor(v: int): nat {
      if !hasListener then 0 else if WithinLimits(v) then 1 else 2
    }

    constructor (initialValue: int, hasLowerLimit: bool, minValue: int,
                 hasUpperLimit: bool, maxValue: int, hasListener: bool)
      ensures this.initialValue == initialValue && this.hasListener == hasListener
      ensures this.hasLowerLimit == hasLowerLimit && this.minValue == minValue
      ensures this.hasUpperLimit == hasUpperLimit && this.maxValue == maxValue
      ensures runtimeValue == initialValue && raised == 0
    {
      this.initialValue := initialValue;
      this.hasLowerLimit := hasLowerLimit;
      this.minValue := minValue;
      this.hasUpperLimit := hasUpperLimit;
      this.maxValue := maxValue;
      this.hasListener := hasListener;
      runtimeValue := initialValue;
      raised := 0;
    }

    /** The `RuntimeValue` setter: store, adjust into the limits, raise the event. */
    method SetRuntimeValue(v: int)
      requires LimitsConsistent()
      modifies this
      decreases Excess(v), 1
      ensures runtimeValue == Clamp(v)
      ensures raised == old(raised) + RaisesFor(v)
    {
      runtimeValue := v;
      AdjustValue();
      RaiseEvent();
    }

    /** `AdjustValue`: assign the limit the stored value exceeds, upper limit first. */
    method AdjustValue()
      requires LimitsConsistent()
      modifies this
      decreases Excess(runtimeValue), 0
      ensures runtimeValue == Clamp(old(runtimeValue))
      ensures raised == old(raised) + (if hasListener && !WithinLimits(old(runtimeValue)) then 1 else 0)
    {
      if hasUpperLimit && runtimeValue > maxValue {
        SetRuntimeValue(maxValue);
      }
      if hasLowerLimit && runtimeValue < minValue {
        SetRuntimeValue(minValue);
      }
    }

    method RaiseEvent()
      modifies this
      ensures runtimeValue == old(runtimeValue)
      ensures raised == old(raised) + (if hasListener then 1 else 0)
    {
      if hasListener {
        raised := raised + 1;
      }
    }

    /** `Init`: assign the initial value through the setter. */
    method Init()
      requires LimitsConsistent()
      modifies this
      ensures runtimeValue == Clamp(initialValue)
      ensures raised == old(raised) + RaisesFor(initialValue)
    {
      SetRuntimeValue(initialValue);
    }
  }

  /** Assigning a settled value again changes nothing: clamping is idempotent. */
  lemma ClampIdempotent(g: IntGameVariable, v: int)
    requires g.LimitsConsistent()
    ensures g.Clamp(g.Clamp(v)) == g.Clamp(v)
  {
  }

  /** Clamping preserves order, so a larger assignment never settles lower. */
  lemma ClampMonotone(g: IntGameVariable, v: int, w: int)
    requires g.LimitsConsistent() && v <= w
    ensures g.Clamp(v) <= g.Clamp(w)
  {
  }

  /**
   * With consistent limits the setter assigns at most once more, and that nested
   * assignment is already within the limits, so the recursion stops.
   */
  lemma NestedAssignmentSettles(g: IntGameVariable, v: int)
    requires g.LimitsConsistent()
    ensures g.NestedAssignment(v).Some? ==> g.NestedAssignment(g.NestedAssignment(v).value).None?
    ensures g.NestedAssignment(v).Some? ==> g.NestedAssignment(v).value == g.Clamp(v)
  {
  }

  /**
   * With both limits on and `minValue > maxValue`, assigning the maximum assigns the
   * minimum, which assigns the maximum again: the setter never returns.
   */
  lemma InconsistentLimitsNeverSettle(g: IntGameVariable)
    requires g.hasLowerLimit && g.hasUpperLimit && g.minValue > g.maxValue
    ensures g.NestedAssignment(g.maxValue) == Some(g.minValue)
    ensures g.NestedAssignment(g.minValue) == Some(g.maxValue)
    ensures forall v :: g.NestedAssignment(v).Some?
  {
  }
}
