/**
 * The shared battery: a capacity-bounded charge level, an additive charge
 * operation that clamps at the capacity, and a discharge operation that is
 * admitted only while a usage permit is free.
 *
 * `charge` and the check-then-subtract of `useEnergy` run under one lock;
 * `useEnergy` takes its usage permit before the lock and returns it after
 * the unlock, and refuses without touching the lock when no permit is free.
 * Each call is modelled as a single atomic step, and the usage semaphore as
 * an integer permit counter.
 * Java's `double` quantities are `real`s: the only arithmetic is `min`, `+`,
 * `-` and `>=`.
 */
module Energy {

  /** What a caller can observe of a battery between two calls. */
  datatype Snapshot = Snapshot(capacity: real, charge: real, permits: int)

  /** The battery's intended invariant: the charge lies between 0 and the capacity. */
  predicate WithinCapacity(s: Snapshot) {
    0.0 <= s.charge <= s.capacity
  }

  /** Math.min on two ordinary (non-NaN) values. */
  function Min(a: real, b: real): (m: real)
    ensures m <= a && m <= b
    ensures m == a || m == b
  {
    if a <= b then a else b
  }

  /** One `charge(amount, source)` call: add, then clamp at the capacity. */
  function ChargeStep(s: Snapshot, amount: real): (t: Snapshot)
    ensures t.capacity == s.capacity && t.permits == s.permits
    ensures t.charge <= s.capacity && t.charge <= s.charge + amount
    ensures t.charge == s.capacity || t.charge == s.charge + amount
  {
    s.(charge := Min(s.capacity, s.charge + amount))
  }

  /** How a `useEnergy` call ends; the source prints a different line for each. */
  datatype Verdict = Used | Overloaded | InsufficientCharge

  datatype UseOutcome = UseOutcome(verdict: Verdict, after: Snapshot)

  /**
   * One `useEnergy(amount)` call: try to take a permit; with one, subtract
   * only when the charge covers the amount; give the permit back on the way out.
   */
  function UseStep(s: Snapshot, amount: real): (o: UseOutcome)
    ensures o.after.capacity == s.capacity && o.after.permits == s.permits
    ensures o.verdict == Overloaded <==> s.permits <= 0
    ensures o.verdict == Used <==> s.permits > 0 && s.charge >= amount
    ensures o.verdict == Used ==> o.after.charge == s.charge - amount
    ensures o.verdict != Used ==> o.after.charge == s.charge
  {
    if s.permits > 0 then
      var held := s.permits - 1;
      var verdict := if s.charge >= amount then Used else InsufficientCharge;
      var level := if verdict == Used then s.charge - amount else s.charge;
      UseOutcome(verdict, Snapshot(s.capacity, level, held + 1))
    else
      UseOutcome(Overloaded, s)
  }

  lemma ChargeKeepsWithinCapacity(s: Snapshot, amount: real)
    requires WithinCapacity(s) && amount >= 0.0
    ensures WithinCapacity(ChargeStep(s, amount))
  {
  }

  lemma UseKeepsWithinCapacity(s: Snapshot, amount: real)
    requires WithinCapacity(s) && amount >= 0.0
    ensures WithinCapacity(UseStep(s, amount).after)
  {
  }

  /** The check before the subtraction alone keeps the charge from going negative, whatever the amount. */
  lemma UseNeverOverdraws(s: Snapshot, amount: real)
    requires 0.0 <= s.charge
    ensures 0.0 <= UseStep(s, amount).after.charge
  {
  }

  /** Amounts are not validated: a negative charge can drive the level below zero. */
  lemma NegativeChargeBreaksInvariant()
    ensures WithinCapacity(Snapshot(10.0, 0.0, 1))
    ensures !WithinCapacity(ChargeStep(Snapshot(10.0, 0.0, 1), -5.0))
  {
  }

  /** Amounts are not validated: a negative use can push the level past the capacity. */
  lemma NegativeUseBreaksInvariant()
    ensures WithinCapacity(Snapshot(10.0, 10.0, 1))
    ensures UseStep(Snapshot(10.0, 10.0, 1), -5.0).verdict == Used
    ensures !WithinCapacity(UseStep(Snapshot(10.0, 10.0, 1), -5.0).after)
  {
  }

  /** Using back what was just charged, when nothing was clamped, restores the battery exactly. */
  lemma UseUndoesUnclampedCharge(s: Snapshot, amount: real)
    requires s.permits > 0 && 0.0 <= s.charge && s.charge + amount <= s.capacity
    ensures UseStep(ChargeStep(s, amount), amount) == UseOutcome(Used, s)
  {
  }

  /** A request a thread makes of the battery. */
  datatype Request = Charge(amount: real) | Use(amount: real)

  /**
   * A serial run of requests, one atomic step after another. Read as a
   * concurrent history, it is the order in which the lock admitted the
   * charges and the uses that got a permit; a use refused for overload
   * changes nothing and can be left out of it.
   */
  function Replay(s: Snapshot, requests: seq<Request>): (t: Snapshot)
    decreases |requests|
  {
    if requests == [] then s
    else
      var next := match requests[0]
        case Charge(amount) => ChargeStep(s, amount)
        case Use(amount) => UseStep(s, amount).after;
      Replay(next, requests[1..])
  }

  predicate NonNegativeAmounts(requests: seq<Request>) {
    forall i :: 0 <= i < |requests| ==> requests[i].amount >= 0.0
  }

  /**
   * Whatever order the lock admits them in, a run of requests with non-negative
   * amounts keeps the charge within the capacity, never changes the capacity
   * and gives back every permit it took.
   */
  lemma {:induction false} ReplayKeepsWithinCapacity(s: Snapshot, requests: seq<Request>)
    requires WithinCapacity(s) && NonNegativeAmounts(requests)
    ensures WithinCapacity(Replay(s, requests))
    ensures Replay(s, requests).capacity == s.capacity
    ensures Replay(s, requests).permits == s.permits
    decreases |requests|
  {
    if requests != [] {
      var next := match requests[0]
        case Charge(amount) => ChargeStep(s, amount)
        case Use(amount) => UseStep(s, amount).after;
      assert requests[0].amount >= 0.0;
      match requests[0] {
        case Charge(amount) => ChargeKeepsWithinCapacity(s, amount);
        case Use(amount) => UseKeepsWithinCapacity(s, amount);
      }
      assert NonNegativeAmounts(requests[1..]) by {
        forall i | 0 <= i < |requests[1..]| ensures requests[1..][i].amount >= 0.0 {
          assert requests[1..][i] == requests[i + 1];
        }
      }
      ReplayKeepsWithinCapacity(next, requests[1..]);
    }
  }

  /** The battery object: a fixed capacity, a charge level updated in place and the usage permits. */
  class Battery {
    const capacity: real
    var currentCharge: real
    var usagePermits: int

    function State(): Snapshot
      reads this
    {
      Snapshot(capacity, currentCharge, usagePermits)
    }

    /** A new battery is empty and has `maxUsageSlots` permits; neither argument is validated. */
    constructor (capacity: real, maxUsageSlots: int)
      ensures this.capacity == capacity && currentCharge == 0.0 && usagePermits == maxUsageSlots
      ensures capacity >= 0.0 ==> WithinCapacity(State())
    {
      this.capacity := capacity;
      currentCharge := 0.0;
      usagePermits := maxUsageSlots;
    }

    /** Add `amount`, clamped at the capacity; `source` only names the supplier in the console line. */
    method Charge(amount: real, source: string)
      modifies this
      ensures State() == ChargeStep(old(State()), amount)
      ensures currentCharge == Min(capacity, old(currentCharge) + amount)
      ensures usagePermits == old(usagePermits)
      ensures old(WithinCapacity(State())) && amount >= 0.0 ==> WithinCapacity(State())
    {
      currentCharge := Min(capacity, currentCharge + amount);
    }

    /**
     * Draw `amount` if a usage permit is free and the charge covers it.
     * The permit taken is released on both exits of the guarded block.
     */
    method UseEnergy(amount: real) returns (used: bool)
      modifies this
      ensures var o := UseStep(old(State()), amount); State() == o.after && used == (o.verdict == Used)
      ensures used <==> old(usagePermits) > 0 && old(currentCharge) >= amount
      ensures currentCharge == if used then old(currentCharge) - amount else old(currentCharge)
      ensures usagePermits == old(usagePermits)
      ensures old(WithinCapacity(State())) && amount >= 0.0 ==> WithinCapacity(State())
    {
      if usagePermits > 0 {
        usagePermits := usagePermits - 1;   // tryAcquire succeeded
        if currentCharge >= amount {
          currentCharge := currentCharge - amount;
          used := true;
        } else {
          used := false;
        }
        usagePermits := usagePermits + 1;   // released in the finally block
      } else {
        used := false;
      }
    }
  }
}
