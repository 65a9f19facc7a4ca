/** A duty slot (src/shift.py): a name, the role it needs, how many people
    it needs, and the people assigned to it so far. */
module Shifts {
  import opened Personnel

  /** max(0, required - filled): the headcount still missing. */
  function ShortageOf(required: int, filled: nat): (n: nat)
    ensures n >= required - filled
    ensures n == 0 || n == required - filled
    ensures n == 0 <==> filled >= required
  {
    if required - filled > 0 then required - filled else 0
  }

  class Shift {
    const name: string
    const requiredRole: string
    const requiredCount: int
    var assignedStaff: seq<Staff>

    constructor (name: string, requiredRole: string, requiredCount: int := 1)
      ensures this.name == name && this.requiredRole == requiredRole
      ensures this.requiredCount == requiredCount
      ensures assignedStaff == []
      ensures Shortage() == (if requiredCount > 0 then requiredCount else 0)
    {
      this.name := name;
      this.requiredRole := requiredRole;
      this.requiredCount := requiredCount;
      assignedStaff := [];
    }

    function Shortage(): (n: nat)
      reads this
      ensures n == 0 <==> |assignedStaff| >= requiredCount
      ensures n > 0 ==> n + |assignedStaff| == requiredCount
    {
      ShortageOf(requiredCount, |assignedStaff|)
    }

    predicate IsFullyStaffed()
      reads this
      ensures IsFullyStaffed() <==> ShortageOf(requiredCount, |assignedStaff|) == 0
    {
      |assignedStaff| >= requiredCount
    }

    /** Appends one person; the headcount is not enforced here but by the caller. */
    method AddStaff(staff: Staff)
      modifies this
      ensures assignedStaff == old(assignedStaff) + [staff]
      ensures old(Shortage()) > 0 ==> Shortage() == old(Shortage()) - 1
      ensures old(Shortage()) == 0 ==> Shortage() == 0
    {
      assignedStaff := assignedStaff + [staff];
    }
  }

  /** Being fully staffed is the same as having no shortage. */
  lemma FullyStaffedIffNoShortage(sh: Shift)
    ensures sh.IsFullyStaffed() <==> sh.Shortage() == 0
  {
  }
}
