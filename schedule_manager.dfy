/** The assignment engine (src/schedule_manager.py).

    The engine's observable state is the assigned-shift list of every
    person, the assigned-staff list of every shift and its two record lists.
    `World` is that state as a value; `Run`, `Pass` and `Walk` say what one
    call of `assign_shifts`, one shift of it, and its candidate walk do to
    it. `ScheduleManager.AssignShifts` performs the same steps on the objects
    and is proved to end in `Run` of the state it started from. */
module Scheduling {
  import opened Personnel
  import opened Shifts
  import opened StableSort
  import opened Optional

  datatype ConflictKind = AvailabilityMismatch | DoubleBooking

  /** A conflict record: its type, the person's name and the shift's name. */
  datatype Conflict = Conflict(kind: ConflictKind, staff: string, shift: string)

  /** A shortage record: the shift, the role it needs, and how many are missing. */
  datatype ShortageRecord = ShortageRecord(shift: string, requiredRole: string, shortage: int)

  datatype World = World(
    load: map<Staff, seq<string>>,  // each person's assigned shift names
    crew: map<Shift, seq<Staff>>,   // each shift's assigned staff
    conflicts: seq<Conflict>,
    shortages: seq<ShortageRecord>)

  /** The people whose role is `role`, in their order in `staff`. */
  function Eligible(staff: seq<Staff>, role: string): (r: seq<Staff>)
    ensures |r| <= |staff|
    ensures forall s :: s in r ==> s in staff && s.role == role
    ensures forall s :: s in staff && s.role == role ==> s in r
  {
    if staff == [] then []
    else (if staff[0].role == role then [staff[0]] else []) + Eligible(staff[1..], role)
  }

  /** Filtering a concatenation filters each part: the filter keeps order. */
  lemma {:induction false} EligibleAppend(a: seq<Staff>, b: seq<Staff>, role: string)
    ensures Eligible(a + b, role) == Eligible(a, role) + Eligible(b, role)
  {
    if a == [] {
      assert a + b == b;
    } else {
      assert (a + b)[1..] == a[1..] + b;
      EligibleAppend(a[1..], b, role);
    }
  }

  /** The check made just before a commit, on the person's assigned list
      `held` as it is at that moment: availability first, then double booking. */
  function CheckConflicts(staff: Staff, shift: Shift, held: seq<string>): (c: Option<Conflict>)
    ensures c == None <==> staff.IsAvailableForShift(shift.name) && shift.name !in held
    ensures c.Some? ==> c.value.staff == staff.name && c.value.shift == shift.name
    ensures c.Some? ==> (c.value.kind == AvailabilityMismatch <==> !staff.IsAvailableForShift(shift.name))
  {
    if !staff.IsAvailableForShift(shift.name) then
      Some(Conflict(AvailabilityMismatch, staff.name, shift.name))
    else if shift.name in held then
      Some(Conflict(DoubleBooking, staff.name, shift.name))
    else
      None
  }

  /** Each eligible person paired with the number of shifts they hold. */
  function Decorate(el: seq<Staff>, load: map<Staff, seq<string>>): (r: seq<(Staff, int)>)
    requires forall s :: s in el ==> s in load
    ensures |r| == |el|
    ensures forall k :: 0 <= k < |el| ==> r[k] == (el[k], |load[el[k]]|)
  {
    seq(|el|, k requires 0 <= k < |el| => (el[k], |load[el[k]]|))
  }

  /** The eligible people, least loaded first, ties in their original order. */
  function Candidates(el: seq<Staff>, load: map<Staff, seq<string>>): (r: seq<Staff>)
    requires forall s :: s in el ==> s in load
    ensures multiset(r) == multiset(el)
    ensures forall s :: s in r ==> s in el
    ensures forall s :: s in el ==> s in r
  {
    var d := Decorate(el, load);
    ItemsPermutation(SortByKey(d), d);
    assert Items(d) == el;
    var r := Items(SortByKey(d));
    assert forall s :: s in r ==> s in multiset(r);
    assert forall s :: s in el ==> s in multiset(el);
    r
  }

  /** The people of `xs` who hold exactly `k` shifts under `load`, in their
      order in `xs`. */
  function WithLoad(xs: seq<Staff>, load: map<Staff, seq<string>>, k: int): (r: seq<Staff>)
    requires forall s :: s in xs ==> s in load
    ensures forall s :: s in r ==> s in xs && |load[s]| == k
  {
    if xs == [] then []
    else (if |load[xs[0]]| == k then [xs[0]] else []) + WithLoad(xs[1..], load, k)
  }

  /** Every pair carries its person's current number of shifts as its key. */
  ghost predicate KeyedByLoad(xs: seq<(Staff, int)>, load: map<Staff, seq<string>>) {
    forall p :: p in xs ==> p.0 in load && p.1 == |load[p.0]|
  }

  /** Dropping the keys commutes with selecting one key, when the keys are the loads. */
  lemma {:induction false} ItemsWithKey(xs: seq<(Staff, int)>, load: map<Staff, seq<string>>, k: int)
    requires KeyedByLoad(xs, load)
    ensures Items(WithKey(xs, k)) == WithLoad(Items(xs), load, k)
  {
    if xs != [] {
      ItemsWithKey(xs[1..], load, k);
      assert Items(xs)[1..] == Items(xs[1..]);
      ItemsAppend(if xs[0].1 == k then [xs[0]] else [], WithKey(xs[1..], k));
    }
  }

  /** The order `sort(key=get_assignment_count)` produces: ascending number of
      shifts held, and people holding equally many keep their eligible-list order. */
  lemma CandidatesOrdered(el: seq<Staff>, load: map<Staff, seq<string>>)
    requires forall s :: s in el ==> s in load
    ensures var r := Candidates(el, load);
      forall i, j :: 0 <= i < j < |r| ==> |load[r[i]]| <= |load[r[j]]|
    ensures forall k :: WithLoad(Candidates(el, load), load, k) == WithLoad(el, load, k)
  {
    var d := Decorate(el, load);
    var sorted := SortByKey(d);
    assert KeyedByLoad(d, load);
    assert KeyedByLoad(sorted, load) by {
      forall p | p in sorted
        ensures p.0 in load && p.1 == |load[p.0]|
      {
        assert p in multiset(sorted);
      }
    }
    SortByKeySorted(d);
    assert Items(d) == el;
    forall k
      ensures WithLoad(Candidates(el, load), load, k) == WithLoad(el, load, k)
    {
      ItemsWithKey(sorted, load, k);
      SortByKeyStable(d, k);
      ItemsWithKey(d, load, k);
    }
  }

  /** Commits `s` to `sh`: the shift's name is appended to the person's list
      and the person to the shift's list. */
  function Commit(w: World, s: Staff, sh: Shift): (r: World)
    requires s in w.load && sh in w.crew
    ensures r.load.Keys == w.load.Keys && r.crew.Keys == w.crew.Keys
    ensures r.load[s] == w.load[s] + [sh.name] && r.crew[sh] == w.crew[sh] + [s]
    ensures forall t :: t in w.load && t != s ==> r.load[t] == w.load[t]
    ensures forall t :: t in w.crew && t != sh ==> r.crew[t] == w.crew[t]
    ensures r.conflicts == w.conflicts && r.shortages == w.shortages
  {
    w.(load := w.load[s := w.load[s] + [sh.name]], crew := w.crew[sh := w.crew[sh] + [s]])
  }

  /** The walk over the sorted candidates, `count` commits already made. */
  function Walk(sh: Shift, cands: seq<Staff>, count: int, w: World): (r: World)
    requires sh in w.crew && forall s :: s in cands ==> s in w.load
    ensures r.load.Keys == w.load.Keys && r.crew.Keys == w.crew.Keys
  {
    if cands == [] || count >= sh.requiredCount then w
    else
      match CheckConflicts(cands[0], sh, w.load[cands[0]])
      case Some(c) => Walk(sh, cands[1..], count, w.(conflicts := w.conflicts + [c]))
      case None => Walk(sh, cands[1..], count + 1, Commit(w, cands[0], sh))
  }

  /** One iteration of the loop over the shifts. */
  function Pass(sh: Shift, staff: seq<Staff>, w: World): (r: World)
    requires sh in w.crew && forall s :: s in staff ==> s in w.load
    ensures r.load.Keys == w.load.Keys && r.crew.Keys == w.crew.Keys
  {
    var el := Eligible(staff, sh.requiredRole);
    if el == [] then
      w.(shortages := w.shortages + [ShortageRecord(sh.name, sh.requiredRole, sh.requiredCount)])
    else
      var v := Walk(sh, Candidates(el, w.load), 0, w);
      var short := ShortageOf(sh.requiredCount, |v.crew[sh]|);
      if short > 0 then
        v.(shortages := v.shortages + [ShortageRecord(sh.name, sh.requiredRole, short)])
      else v
  }

  /** `Pass` when someone has the role: the walk, then a shortage record if one is due. */
  lemma PassWithCandidates(sh: Shift, staff: seq<Staff>, w: World)
    requires sh in w.crew && forall s :: s in staff ==> s in w.load
    requires Eligible(staff, sh.requiredRole) != []
    ensures var v := Walk(sh, Candidates(Eligible(staff, sh.requiredRole), w.load), 0, w);
            var short := ShortageOf(sh.requiredCount, |v.crew[sh]|);
            Pass(sh, staff, w) ==
              if short > 0 then v.(shortages := v.shortages + [ShortageRecord(sh.name, sh.requiredRole, short)])
              else v
  {
  }

  /** `w` knows every person of `staff` and every shift of `shifts`. */
  ghost predicate Covers(w: World, staff: seq<Staff>, shifts: seq<Shift>) {
    && (forall s :: s in staff ==> s in w.load)
    && (forall sh :: sh in shifts ==> sh in w.crew)
  }

  /** The whole of `assign_shifts`: the shifts one after another, in order. */
  function Run(shifts: seq<Shift>, staff: seq<Staff>, w: World): (r: World)
    requires Covers(w, staff, shifts)
    ensures r.load.Keys == w.load.Keys && r.crew.Keys == w.crew.Keys
  {
    if shifts == [] then w
    else Run(shifts[1..], staff, Pass(shifts[0], staff, w))
  }

  /** Whether a run left no records at all: the value `assign_shifts` returns. */
  predicate Succeeded(w: World)
    ensures Succeeded(w) <==> w.conflicts == [] && w.shortages == []
  {
    |w.conflicts| == 0 && |w.shortages| == 0
  }

  class ScheduleManager {
    const staffList: seq<Staff>
    const shiftList: seq<Shift>
    var conflicts: seq<Conflict>
    var shortages: seq<ShortageRecord>

    constructor (staffList: seq<Staff>, shiftList: seq<Shift>)
      ensures this.staffList == staffList && this.shiftList == shiftList
      ensures conflicts == [] && shortages == []
    {
      this.staffList := staffList;
      this.shiftList := shiftList;
      conflicts := [];
      shortages := [];
    }

    /** The engine's state as a value. */
    ghost function Snapshot(): (w: World)
      reads this, staffList, shiftList
      ensures Covers(w, staffList, shiftList)
    {
      World(map s | s in staffList :: s.assignedShifts,
            map sh | sh in shiftList :: sh.assignedStaff,
            conflicts, shortages)
    }

    /** Every person's assigned list is the one `load` gives them. */
    ghost predicate LoadsMirror(load: map<Staff, seq<string>>)
      reads staffList
    {
      && load.Keys == (set s | s in staffList)
      && forall s :: s in staffList ==> s.assignedShifts == load[s]
    }

    /** Every shift's assigned list is the one `crew` gives it. */
    ghost predicate CrewMirror(crew: map<Shift, seq<Staff>>)
      reads shiftList
    {
      && crew.Keys == (set sh | sh in shiftList)
      && forall sh :: sh in shiftList ==> sh.assignedStaff == crew[sh]
    }

    /** The objects hold exactly the state `w` describes. */
    ghost predicate Mirrors(w: World)
      reads this, staffList, shiftList
    {
      LoadsMirror(w.load) && CrewMirror(w.crew) && conflicts == w.conflicts && shortages == w.shortages
    }

    lemma MirrorsSnapshot(w: World)
      requires Mirrors(w)
      ensures Snapshot() == w
    {
      var v := Snapshot();
      assert v.load == w.load;
      assert v.crew == w.crew;
    }

    method GetEligibleStaff(shift: Shift) returns (eligible: seq<Staff>)
      ensures eligible == Eligible(staffList, shift.requiredRole)
    {
      eligible := [];
      for k := 0 to |staffList|
        invariant eligible == Eligible(staffList[..k], shift.requiredRole)
      {
        var staff := staffList[k];
        assert staffList[..k + 1] == staffList[..k] + [staff];
        EligibleAppend(staffList[..k], [staff], shift.requiredRole);
        assert Eligible([staff], shift.requiredRole) == if staff.role == shift.requiredRole then [staff] else [];
        if staff.role == shift.requiredRole {
          eligible := eligible + [staff];
        }
      }
      assert staffList[..|staffList|] == staffList;
    }

    /** `assign_shifts`: every shift in list order, then the verdict. */
    method AssignShifts() returns (ok: bool)
      modifies this, staffList, shiftList
      ensures Snapshot() == Run(shiftList, staffList, old(Snapshot()))
      ensures ok <==> Succeeded(Snapshot())
    {
      ghost var w := Snapshot();
      ghost var target := Run(shiftList, staffList, w);
      assert shiftList[0..] == shiftList;
      for i := 0 to |shiftList|
        invariant Mirrors(w)
        invariant Run(shiftList[i..], staffList, w) == target
      {
        assert shiftList[i..][1..] == shiftList[i + 1..];
        AssignShift(shiftList[i], w);
        w := Pass(shiftList[i], staffList, w);
      }
      ok := |conflicts| == 0 && |shortages| == 0;
      MirrorsSnapshot(w);
    }

    /** One iteration of the loop of `assign_shifts`, for `shift`. */
    method AssignShift(shift: Shift, ghost w: World)
      requires shift in shiftList && Mirrors(w)
      modifies this, staffList, shiftList
      ensures Mirrors(Pass(shift, staffList, w))
    {
      var eligible := GetEligibleStaff(shift);
      if eligible == [] {
        RecordShortage(ShortageRecord(shift.name, shift.requiredRole, shift.requiredCount), w);
        return;
      }
      var candidates := SortCandidates(eligible, w.load);
      CommitCandidates(shift, candidates, w);
      ghost var v := Walk(shift, candidates, 0, w);
      PassWithCandidates(shift, staffList, w);
      assert shift.Shortage() == ShortageOf(shift.requiredCount, |v.crew[shift]|);
      if shift.Shortage() > 0 {
        RecordShortage(ShortageRecord(shift.name, shift.requiredRole, shift.Shortage()), v);
      }
    }

    /** `sorted(eligible, key=lambda s: s.get_assignment_count())`: the
        eligible people, least loaded first, ties in their original order. */
    method SortCandidates(eligible: seq<Staff>, ghost load: map<Staff, seq<string>>)
      returns (candidates: seq<Staff>)
      requires LoadsMirror(load) && forall s :: s in eligible ==> s in staffList
      ensures candidates == Candidates(eligible, load)
    {
      var keyed := seq(|eligible|, k requires 0 <= k < |eligible| reads eligible =>
                       (eligible[k], eligible[k].AssignmentCount()));
      assert keyed == Decorate(eligible, load) by {
        forall k | 0 <= k < |eligible|
          ensures keyed[k] == Decorate(eligible, load)[k]
        {
          assert eligible[k] in staffList;
        }
      }
      candidates := Items(SortByKey(keyed));
    }

    /** The inner loop of `assign_shifts`: commits candidates in order until
        the shift's headcount is reached, recording the ones in conflict. */
    method CommitCandidates(shift: Shift, candidates: seq<Staff>, ghost w: World)
      requires shift in shiftList && Mirrors(w)
      requires forall s :: s in candidates ==> s in staffList
      modifies this, staffList, shiftList
      ensures Mirrors(Walk(shift, candidates, 0, w))
    {
      ghost var v := w;
      assert candidates[0..] == candidates;
      var assignedCount := 0;
      for j := 0 to |candidates|
        invariant Mirrors(v)
        invariant Walk(shift, candidates[j..], assignedCount, v) == Walk(shift, candidates, 0, w)
      {
        if assignedCount >= shift.requiredCount {
          break;
        }
        var staff := candidates[j];
        assert staff in staffList;
        assert candidates[j..][1..] == candidates[j + 1..];
        var conflict := CheckConflicts(staff, shift, staff.assignedShifts);
        if conflict.Some? {
          RecordConflict(conflict.value, v);
          v := v.(conflicts := v.conflicts + [conflict.value]);
          continue;
        }
        CommitStaff(staff, shift, v);
        v := Commit(v, staff, shift);
        assignedCount := assignedCount + 1;
      }
    }

    /** Appends a conflict record. */
    method RecordConflict(c: Conflict, ghost v: World)
      requires Mirrors(v)
      modifies this
      ensures conflicts == old(conflicts) + [c]
      ensures Mirrors(v.(conflicts := v.conflicts + [c]))
    {
      conflicts := conflicts + [c];
    }

    /** Appends a shortage record. */
    method RecordShortage(rec: ShortageRecord, ghost v: World)
      requires Mirrors(v)
      modifies this
      ensures shortages == old(shortages) + [rec]
      ensures Mirrors(v.(shortages := v.shortages + [rec]))
    {
      shortages := shortages + [rec];
    }

    /** A commit: the shift's name goes to the person, the person to the shift. */
    method CommitStaff(staff: Staff, shift: Shift, ghost v: World)
      requires staff in staffList && shift in shiftList && Mirrors(v)
      modifies staff, shift
      ensures Mirrors(Commit(v, staff, shift))
    {
      staff.AddAssignedShift(shift.name);
      shift.AddStaff(staff);
      var u := Commit(v, staff, shift);
      assert u.load.Keys == v.load.Keys;
      assert u.crew.Keys == v.crew.Keys;
    }
  }
}
