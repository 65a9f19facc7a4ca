/** A member of staff (src/staff.py).
    The identity, name, role and availability list are set once by the
    constructor and never written again, so they are constant fields here;
    the only state that changes is the list of assigned shift names. */
module Personnel {

  class Staff {
    const id: int
    const name: string
    const role: string
    const availableShifts: seq<string>
    var assignedShifts: seq<string>

    constructor (staffId: int, name: string, role: string, availableShifts: seq<string>)
      ensures this.id == staffId && this.name == name && this.role == role
      ensures this.availableShifts == availableShifts
      ensures assignedShifts == [] && AssignmentCount() == 0
    {
      this.id := staffId;
      this.name := name;
      this.role := role;
      this.availableShifts := availableShifts;
      assignedShifts := [];
    }

    /** Number of shifts this person currently holds. */
    function AssignmentCount(): (n: nat)
      reads this
      ensures n == 0 <==> forall name :: !IsAlreadyAssignedToShift(name)
    {
      assert assignedShifts != [] ==> IsAlreadyAssignedToShift(assignedShifts[0]);
      |assignedShifts|
    }

    /** Whether the shift name occurs anywhere in the availability list. */
    predicate IsAvailableForShift(shiftName: string)
      ensures IsAvailableForShift(shiftName) <==>
        exists i :: 0 <= i < |availableShifts| && availableShifts[i] == shiftName
    {
      shiftName in availableShifts
    }

    /** Whether the shift name occurs anywhere in the assigned list. */
    predicate IsAlreadyAssignedToShift(shiftName: string)
      reads this
      ensures IsAlreadyAssignedToShift(shiftName) <==>
        exists i :: 0 <= i < |assignedShifts| && assignedShifts[i] == shiftName
    {
      shiftName in assignedShifts
    }

    /** Appends the shift name at the end of the assigned list; nothing is checked. */
    method AddAssignedShift(shiftName: string)
      modifies this
      ensures assignedShifts == old(assignedShifts) + [shiftName]
      ensures AssignmentCount() == old(AssignmentCount()) + 1
      ensures IsAlreadyAssignedToShift(shiftName)
      ensures forall n :: old(IsAlreadyAssignedToShift(n)) ==> IsAlreadyAssignedToShift(n)
    {
      assignedShifts := assignedShifts + [shiftName];
    }
  }
}
