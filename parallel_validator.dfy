/** The stand-alone eligibility validator (src/ParallelValidator.py).

    Validation only reads the people and the shift. Above five candidates
    `_parallel_validation` checks them on a thread pool and collects the
    results in the order the pool finishes them; that order is the parameter
    `completed` here, any rearrangement of the candidate list. */
module Validation {
  import opened Personnel
  import opened Shifts
  import opened Optional
  import opened SeqFacts

  /** The `type` of a validator conflict record. */
  datatype ConflictType = RoleMismatch | Availability | DoubleBooking

  /** What `_validate_single` returns: the eligibility flag and the conflict. */
  datatype Verdict = Verdict(isEligible: bool, conflict: Option<ConflictType>)

  /** The validator's counters as `get_statistics` reports them. */
  datatype Statistics = Statistics(total: int, parallel: int, sequential: int)

  /** The checks in order role, availability, double booking; the first that
      fails names the conflict. */
  function ValidateSingle(staff: Staff, shift: Shift): (v: Verdict)
    reads staff
    ensures v.isEligible <==> v.conflict == None
    ensures v.isEligible <==>
      staff.role == shift.requiredRole && staff.IsAvailableForShift(shift.name)
      && !staff.IsAlreadyAssignedToShift(shift.name)
    ensures v.conflict == Some(RoleMismatch) <==> staff.role != shift.requiredRole
    ensures v.conflict == Some(Availability) <==>
      staff.role == shift.requiredRole && !staff.IsAvailableForShift(shift.name)
    ensures v.conflict == Some(DoubleBooking) <==>
      staff.role == shift.requiredRole && staff.IsAvailableForShift(shift.name)
      && staff.IsAlreadyAssignedToShift(shift.name)
  {
    if staff.role != shift.requiredRole then Verdict(false, Some(RoleMismatch))
    else if !staff.IsAvailableForShift(shift.name) then Verdict(false, Some(Availability))
    else if staff.IsAlreadyAssignedToShift(shift.name) then Verdict(false, Some(DoubleBooking))
    else Verdict(true, None)
  }

  /** The people of `xs` that pass, in their order in `xs`. */
  function EligibleOf(xs: seq<Staff>, shift: Shift): (r: seq<Staff>)
    reads xs
    ensures |r| <= |xs|
    ensures forall s :: s in r ==> s in xs
  {
    if xs == [] then []
    else (if ValidateSingle(xs[0], shift).isEligible then [xs[0]] else []) + EligibleOf(xs[1..], shift)
  }

  /** The conflict of every person of `xs` that fails, in their order in `xs`. */
  function ConflictsOf(xs: seq<Staff>, shift: Shift): (r: seq<ConflictType>)
    reads xs
    ensures |r| <= |xs|
  {
    if xs == [] then []
    else
      var v := ValidateSingle(xs[0], shift);
      (if v.conflict.Some? then [v.conflict.value] else []) + ConflictsOf(xs[1..], shift)
  }

  lemma {:induction false} ValidationAppend(a: seq<Staff>, b: seq<Staff>, shift: Shift)
    ensures EligibleOf(a + b, shift) == EligibleOf(a, shift) + EligibleOf(b, shift)
    ensures ConflictsOf(a + b, shift) == ConflictsOf(a, shift) + ConflictsOf(b, shift)
  {
    if a == [] {
      assert a + b == b;
    } else {
      assert (a + b)[1..] == a[1..] + b;
      ValidationAppend(a[1..], b, shift);
    }
  }

  /** The eligible list holds exactly the candidates that pass every check. */
  lemma {:induction false} EligibleOfMembers(xs: seq<Staff>, shift: Shift)
    ensures forall s :: s in EligibleOf(xs, shift) ==> s in xs && ValidateSingle(s, shift).isEligible
    ensures forall s :: s in xs && ValidateSingle(s, shift).isEligible ==> s in EligibleOf(xs, shift)
  {
    if xs != [] {
      EligibleOfMembers(xs[1..], shift);
      assert xs == [xs[0]] + xs[1..];
    }
  }

  /** The results depend on nothing but the candidates' state: between two
      states that agree on every candidate, validation gives the same lists.
      ValidateStaff modifies only the validator, so two calls on the same
      candidates and shift agree for five or fewer candidates; above five
      they agree for the same completion order, and otherwise up to order. */
  twostate lemma ValidationFramed(xs: seq<Staff>, shift: Shift)
    requires unchanged(xs)
    ensures EligibleOf(xs, shift) == old(EligibleOf(xs, shift))
    ensures ConflictsOf(xs, shift) == old(ConflictsOf(xs, shift))
  {
  }

  /** Every candidate lands in exactly one of the two lists. */
  lemma {:induction false} ValidationPartitions(xs: seq<Staff>, shift: Shift)
    ensures |EligibleOf(xs, shift)| + |ConflictsOf(xs, shift)| == |xs|
  {
    if xs != [] {
      ValidationPartitions(xs[1..], shift);
    }
  }

  /** Validating a rearrangement of the candidates gives a rearrangement of
      the eligible list. */
  lemma {:induction false} EligibleReorders(xs: seq<Staff>, ys: seq<Staff>, shift: Shift)
    requires multiset(xs) == multiset(ys)
    ensures multiset(EligibleOf(xs, shift)) == multiset(EligibleOf(ys, shift))
    decreases |xs|
  {
    if xs == [] {
      assert |ys| == |multiset(ys)| == 0;
    } else {
      var i, rest := RemoveFirst(xs, ys);
      var x := xs[0];
      EligibleReorders(xs[1..], rest, shift);
      ValidationAppend(ys[..i], [x], shift);
      ValidationAppend(ys[..i] + [x], ys[i + 1..], shift);
      ValidationAppend(ys[..i], ys[i + 1..], shift);
      ValidationAppend([x], xs[1..], shift);
      var a, e, b := EligibleOf(ys[..i], shift), EligibleOf([x], shift), EligibleOf(ys[i + 1..], shift);
      assert EligibleOf(ys, shift) == a + e + b;
      assert EligibleOf(rest, shift) == a + b;
      assert EligibleOf(xs, shift) == e + EligibleOf(xs[1..], shift);
    }
  }

  /** Validating a rearrangement of the candidates gives a rearrangement of
      the conflict list. */
  lemma {:induction false} ConflictsReorder(xs: seq<Staff>, ys: seq<Staff>, shift: Shift)
    requires multiset(xs) == multiset(ys)
    ensures multiset(ConflictsOf(xs, shift)) == multiset(ConflictsOf(ys, shift))
    decreases |xs|
  {
    if xs == [] {
      assert |ys| == |multiset(ys)| == 0;
    } else {
      var i, rest := RemoveFirst(xs, ys);
      var x := xs[0];
      ConflictsReorder(xs[1..], rest, shift);
      ValidationAppend(ys[..i], [x], shift);
      ValidationAppend(ys[..i] + [x], ys[i + 1..], shift);
      ValidationAppend(ys[..i], ys[i + 1..], shift);
      ValidationAppend([x], xs[1..], shift);
      var a, e, b := ConflictsOf(ys[..i], shift), ConflictsOf([x], shift), ConflictsOf(ys[i + 1..], shift);
      assert ConflictsOf(ys, shift) == a + e + b;
      assert ConflictsOf(rest, shift) == a + b;
      assert ConflictsOf(xs, shift) == e + ConflictsOf(xs[1..], shift);
    }
  }

  class ParallelValidator {
    var total: nat
    var parallel: nat

    /** Parallel dispatches are among all dispatches. */
    ghost predicate Valid()
      reads this
    {
      parallel <= total
    }

    constructor ()
      ensures Valid() && total == 0 && parallel == 0
    {
      total := 0;
      parallel := 0;
    }

    /** `validate_staff`: counts the call and dispatches on the list's size. */
    method ValidateStaff(staffList: seq<Staff>, shift: Shift, completed: seq<Staff>)
      returns (eligible: seq<Staff>, conflicts: seq<ConflictType>)
      requires Valid()
      requires multiset(completed) == multiset(staffList)
      modifies this
      ensures Valid()
      ensures total == old(total) + 1
      ensures parallel == old(parallel) + (if |staffList| > 5 then 1 else 0)
      ensures |staffList| <= 5 ==>
        eligible == EligibleOf(staffList, shift) && conflicts == ConflictsOf(staffList, shift)
      ensures |staffList| > 5 ==>
        eligible == EligibleOf(completed, shift) && conflicts == ConflictsOf(completed, shift)
      ensures multiset(eligible) == multiset(EligibleOf(staffList, shift))
      ensures multiset(conflicts) == multiset(ConflictsOf(staffList, shift))
    {
      total := total + 1;
      if |staffList| > 5 {
        parallel := parallel + 1;
        eligible, conflicts := ParallelValidation(staffList, shift, completed);
      } else {
        eligible, conflicts := SequentialValidation(staffList, shift);
      }
    }

    /** `_parallel_validation`: one task per candidate; the results are
        collected in completion order, by the same loop as the sequential path. */
    method ParallelValidation(staffList: seq<Staff>, shift: Shift, completed: seq<Staff>)
      returns (eligible: seq<Staff>, conflicts: seq<ConflictType>)
      requires multiset(completed) == multiset(staffList)
      ensures eligible == EligibleOf(completed, shift) && conflicts == ConflictsOf(completed, shift)
      ensures multiset(eligible) == multiset(EligibleOf(staffList, shift))
      ensures multiset(conflicts) == multiset(ConflictsOf(staffList, shift))
    {
      eligible, conflicts := SequentialValidation(completed, shift);
      EligibleReorders(completed, staffList, shift);
      ConflictsReorder(completed, staffList, shift);
    }

    /** `_sequential_validation`: each candidate in turn, into one of two lists. */
    method SequentialValidation(staffList: seq<Staff>, shift: Shift)
      returns (eligible: seq<Staff>, conflicts: seq<ConflictType>)
      ensures eligible == EligibleOf(staffList, shift) && conflicts == ConflictsOf(staffList, shift)
    {
      eligible, conflicts := [], [];
      for k := 0 to |staffList|
        invariant eligible == EligibleOf(staffList[..k], shift)
        invariant conflicts == ConflictsOf(staffList[..k], shift)
      {
        var staff := staffList[k];
        ValidationAppend(staffList[..k], [staff], shift);
        assert staffList[..k + 1] == staffList[..k] + [staff];
        var result := ValidateSingle(staff, shift);
        assert [staff][1..] == [];
        assert EligibleOf([staff], shift) == if result.isEligible then [staff] else [];
        assert ConflictsOf([staff], shift) == if result.conflict.Some? then [result.conflict.value] else [];
        if result.isEligible {
          eligible := eligible + [staff];
        }
        if result.conflict.Some? {
          conflicts := conflicts + [result.conflict.value];
        }
      }
      assert staffList[..|staffList|] == staffList;
    }

    /** `get_statistics`: the sequential count is what is left of the total. */
    function GetStatistics(): (st: Statistics)
      reads this
      requires Valid()
      ensures st.total == total && st.parallel == parallel
      ensures st.sequential >= 0 && st.parallel + st.sequential == st.total
    {
      Statistics(total, parallel, total - parallel)
    }
  }
}
