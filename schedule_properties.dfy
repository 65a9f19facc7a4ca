/** What `assign_shifts` (src/schedule_manager.py) guarantees, proved about
    the functions `Walk`, `Pass` and `Run` that `AssignShifts` is tied to. */
module SchedulingProperties {
  import opened Personnel
  import opened Shifts
  import opened StableSort
  import opened Scheduling
  import opened Optional
  import opened SeqFacts

  /** `a` is a prefix of `b`: the records only ever get appended to. */
  predicate Extends<T(==)>(b: seq<T>, a: seq<T>) {
    |a| <= |b| && b[..|a|] == a
  }

  /** No person holds the same shift name twice. */
  ghost predicate NoDoubleBooking(w: World) {
    forall s :: s in w.load ==> Distinct(w.load[s])
  }

  /** The people appended to `sh` between `w` and `r`. */
  function Added(r: World, w: World, sh: Shift): seq<Staff>
    requires sh in w.crew && sh in r.crew
  {
    if |w.crew[sh]| <= |r.crew[sh]| then r.crew[sh][|w.crew[sh]|..] else []
  }

  /** The walk only appends: to the conflicts, and to the one shift it fills;
      it leaves the shortages and every other shift alone. It commits no more
      people than the headcount still open. A conflict does not count towards
      the headcount: while the headcount is not reached the walk goes on, so
      when it ends short every candidate was either committed or recorded as
      a conflict. */
  lemma {:induction false} WalkRecords(sh: Shift, cands: seq<Staff>, count: int, w: World)
    requires sh in w.crew && forall s :: s in cands ==> s in w.load
    ensures var r := Walk(sh, cands, count, w);
      && r.shortages == w.shortages
      && Extends(r.conflicts, w.conflicts)
      && Extends(r.crew[sh], w.crew[sh])
      && (forall t :: t in w.crew && t != sh ==> r.crew[t] == w.crew[t])
      && (|r.conflicts| - |w.conflicts|) + (|r.crew[sh]| - |w.crew[sh]|) <= |cands|
      && |r.crew[sh]| - |w.crew[sh]| <= (if count < sh.requiredCount then sh.requiredCount - count else 0)
      && (count + (|r.crew[sh]| - |w.crew[sh]|) < sh.requiredCount ==>
            (|r.conflicts| - |w.conflicts|) + (|r.crew[sh]| - |w.crew[sh]|) == |cands|)
    decreases |cands|
  {
    if cands != [] && count < sh.requiredCount {
      var c0 := cands[0];
      match CheckConflicts(c0, sh, w.load[c0])
      case Some(c) =>
        var w' := w.(conflicts := w.conflicts + [c]);
        WalkRecords(sh, cands[1..], count, w');
        var r := Walk(sh, cands[1..], count, w');
        assert r.conflicts[..|w.conflicts|] == r.conflicts[..|w'.conflicts|][..|w.conflicts|];
      case None =>
        var w' := Commit(w, c0, sh);
        WalkRecords(sh, cands[1..], count + 1, w');
        var r := Walk(sh, cands[1..], count + 1, w');
        assert r.crew[sh][..|w.crew[sh]|] == r.crew[sh][..|w'.crew[sh]|][..|w.crew[sh]|];
    }
  }

  /** `added` are candidates available for `sh` that did not hold its name
      in `w`, each once; in `r` each of them holds it once more and nobody
      else's list has changed. */
  ghost predicate CommitsFrom(added: seq<Staff>, cands: seq<Staff>, sh: Shift, w: World, r: World)
    requires (forall s :: s in cands ==> s in w.load) && forall s :: s in w.load ==> s in r.load
  {
    && Distinct(added)
    && (forall x :: x in added ==> x in cands && x.IsAvailableForShift(sh.name) && sh.name !in w.load[x])
    && (forall s :: s in w.load ==> r.load[s] == if s in added then w.load[s] + [sh.name] else w.load[s])
  }

  /** Who the walk commits: candidates that are available for the shift and
      do not yet hold its name, each at most once. Each of them gains the
      shift's name once; nobody else's list changes. */
  lemma {:induction false} WalkCommits(sh: Shift, cands: seq<Staff>, count: int, w: World)
    requires sh in w.crew && forall s :: s in cands ==> s in w.load
    ensures var r := Walk(sh, cands, count, w);
      CommitsFrom(Added(r, w, sh), cands, sh, w, r)
    decreases |cands|, 1
  {
    if cands != [] && count < sh.requiredCount {
      match CheckConflicts(cands[0], sh, w.load[cands[0]])
      case Some(c) => WalkCommitsAfterConflict(sh, cands, count, c, w);
      case None => WalkCommitsAfterCommit(sh, cands, count, w);
    } else {
      assert Walk(sh, cands, count, w) == w;
    }
  }

  /** WalkCommits when the first candidate has a conflict. */
  lemma WalkCommitsAfterConflict(sh: Shift, cands: seq<Staff>, count: int, c: Conflict, w: World)
    requires sh in w.crew && forall s :: s in cands ==> s in w.load
    requires cands != [] && count < sh.requiredCount
    requires CheckConflicts(cands[0], sh, w.load[cands[0]]) == Some(c)
    ensures var r := Walk(sh, cands, count, w);
      CommitsFrom(Added(r, w, sh), cands, sh, w, r)
    decreases |cands|, 0
  {
    var w' := w.(conflicts := w.conflicts + [c]);
    var r := Walk(sh, cands[1..], count, w');
    assert Walk(sh, cands, count, w) == r;
    WalkCommits(sh, cands[1..], count, w');
    assert Added(r, w, sh) == Added(r, w', sh);
  }

  /** WalkCommits when the first candidate is committed. */
  lemma WalkCommitsAfterCommit(sh: Shift, cands: seq<Staff>, count: int, w: World)
    requires sh in w.crew && forall s :: s in cands ==> s in w.load
    requires cands != [] && count < sh.requiredCount
    requires CheckConflicts(cands[0], sh, w.load[cands[0]]).None?
    ensures var r := Walk(sh, cands, count, w);
      CommitsFrom(Added(r, w, sh), cands, sh, w, r)
    decreases |cands|, 0
  {
    var w' := Commit(w, cands[0], sh);
    var r := Walk(sh, cands[1..], count + 1, w');
    assert Walk(sh, cands, count, w) == r;
    WalkCommits(sh, cands[1..], count + 1, w');
    WalkAddsAfterCommit(sh, cands, count, w);
    CommitThenWalk(sh, cands, w, w', r, Added(r, w', sh));
  }

  /** After a commit of `s` to `sh`, the people the rest of the walk adds
      come after `s`. */
  lemma AddedAfterCommit(sh: Shift, s: Staff, w: World, r: World)
    requires sh in w.crew && s in w.load && sh in r.crew
    requires Extends(r.crew[sh], Commit(w, s, sh).crew[sh])
    ensures Added(r, w, sh) == [s] + Added(r, Commit(w, s, sh), sh)
  {
    var n, full := |w.crew[sh]|, r.crew[sh];
    assert full[..n + 1] == w.crew[sh] + [s];
    assert full[n] == s by { assert full[n] == full[..n + 1][n]; }
    assert full[n..] == [full[n]] + full[n + 1..];
  }

  /** The step of WalkCommits after a commit of the first candidate:
      `w'` is the world right after the commit, `r` the end of the walk,
      `rest` the people the walk added after the first candidate. */
  lemma CommitThenWalk(sh: Shift, cands: seq<Staff>, w: World, w': World, r: World, rest: seq<Staff>)
    requires sh in w.crew && forall s :: s in cands ==> s in w.load
    requires cands != [] && CheckConflicts(cands[0], sh, w.load[cands[0]]).None?
    requires w' == Commit(w, cands[0], sh) && r.load.Keys == w'.load.Keys
    requires CommitsFrom(rest, cands[1..], sh, w', r)
    ensures CommitsFrom([cands[0]] + rest, cands, sh, w, r)
  {
    var c0 := cands[0];
    assert c0 !in rest by {
      assert sh.name in w'.load[c0];
    }
    CommittedMembers(sh, cands, w, w', rest);
    CommittedLoads(sh, c0, w, w', r, rest);
    DistinctCons(c0, rest);
  }

  lemma CommittedMembers(sh: Shift, cands: seq<Staff>, w: World, w': World, rest: seq<Staff>)
    requires sh in w.crew && forall s :: s in cands ==> s in w.load
    requires cands != [] && CheckConflicts(cands[0], sh, w.load[cands[0]]).None?
    requires w' == Commit(w, cands[0], sh)
    requires forall x :: x in rest ==> x in cands[1..] && x.IsAvailableForShift(sh.name) && sh.name !in w'.load[x]
    ensures forall x :: x in [cands[0]] + rest ==> x in cands && x.IsAvailableForShift(sh.name) && sh.name !in w.load[x]
  {
    forall x | x in [cands[0]] + rest
      ensures x in cands && x.IsAvailableForShift(sh.name) && sh.name !in w.load[x]
    {
      if x != cands[0] {
        assert x in rest;
      }
    }
  }

  lemma CommittedLoads(sh: Shift, c0: Staff, w: World, w': World, r: World, rest: seq<Staff>)
    requires sh in w.crew && c0 in w.load && w' == Commit(w, c0, sh) && c0 !in rest
    requires forall s :: s in w'.load ==> s in r.load && r.load[s] == if s in rest then w'.load[s] + [sh.name] else w'.load[s]
    ensures forall s :: s in w.load ==> r.load[s] == if s in [c0] + rest then w.load[s] + [sh.name] else w.load[s]
  {
  }

  /** The conflicts of the candidates who fail the checks against `load`,
      in candidate order. */
  function Failures(sh: Shift, cands: seq<Staff>, load: map<Staff, seq<string>>): (r: seq<Conflict>)
    requires forall s :: s in cands ==> s in load
    ensures |r| <= |cands|
  {
    if cands == [] then []
    else
      match CheckConflicts(cands[0], sh, load[cands[0]])
      case Some(c) => [c] + Failures(sh, cands[1..], load)
      case None => Failures(sh, cands[1..], load)
  }

  /** The candidates who pass the checks against `load`, in candidate order. */
  function Passing(sh: Shift, cands: seq<Staff>, load: map<Staff, seq<string>>): (r: seq<Staff>)
    requires forall s :: s in cands ==> s in load
    ensures |r| + |Failures(sh, cands, load)| == |cands|
    ensures forall s :: s in r ==> s in cands
  {
    if cands == [] then []
    else
      match CheckConflicts(cands[0], sh, load[cands[0]])
      case Some(_) => Passing(sh, cands[1..], load)
      case None => [cands[0]] + Passing(sh, cands[1..], load)
  }

  /** Two loads that agree on the candidates give the same outcome. */
  lemma {:induction false} OutcomeFrame(sh: Shift, cands: seq<Staff>, load1: map<Staff, seq<string>>,
                                        load2: map<Staff, seq<string>>)
    requires forall s :: s in cands ==> s in load1 && s in load2 && load1[s] == load2[s]
    ensures Failures(sh, cands, load1) == Failures(sh, cands, load2)
    ensures Passing(sh, cands, load1) == Passing(sh, cands, load2)
  {
    if cands != [] {
      OutcomeFrame(sh, cands[1..], load1, load2);
    }
  }

  /** A prefix of at least one candidate, the first of whom fails with `c`:
      `c` comes first, then the outcome of a prefix of the others. */
  lemma FailingPrefix(sh: Shift, cands: seq<Staff>, n: nat, load: map<Staff, seq<string>>, c: Conflict)
    requires forall s :: s in cands ==> s in load
    requires 1 <= n <= |cands| && CheckConflicts(cands[0], sh, load[cands[0]]) == Some(c)
    ensures Failures(sh, cands[..n], load) == [c] + Failures(sh, cands[1..][..n - 1], load)
    ensures Passing(sh, cands[..n], load) == Passing(sh, cands[1..][..n - 1], load)
  {
    assert cands[..n][0] == cands[0];
    assert cands[..n][1..] == cands[1..][..n - 1];
  }

  /** A prefix of at least one candidate, the first of whom passes: that
      person comes first, then the outcome of a prefix of the others. */
  lemma PassingPrefix(sh: Shift, cands: seq<Staff>, n: nat, load: map<Staff, seq<string>>)
    requires forall s :: s in cands ==> s in load
    requires 1 <= n <= |cands| && CheckConflicts(cands[0], sh, load[cands[0]]).None?
    ensures Failures(sh, cands[..n], load) == Failures(sh, cands[1..][..n - 1], load)
    ensures Passing(sh, cands[..n], load) == [cands[0]] + Passing(sh, cands[1..][..n - 1], load)
  {
    assert cands[..n][0] == cands[0];
    assert cands[..n][1..] == cands[1..][..n - 1];
  }

  /** The conflicts appended between `w` and `r`. */
  function NewConflicts(r: World, w: World): seq<Conflict> {
    if |w.conflicts| <= |r.conflicts| then r.conflicts[|w.conflicts|..] else []
  }

  /** A walk over `cands`, `count` commits already made, each candidate
      checked against `load`, that recorded the conflicts `failed` and
      committed the people `added`. It examined the first
      `n == |failed| + |added|` candidates, in order: `failed` are the
      conflicts of those who fail the checks and `added` those who pass
      them, both in candidate order. It stopped before the end only once the
      headcount was reached, and it examined nobody after reaching it: a
      conflict does not count towards the headcount. */
  ghost predicate Examined(sh: Shift, cands: seq<Staff>, count: int, load: map<Staff, seq<string>>,
                           failed: seq<Conflict>, added: seq<Staff>)
    requires forall s :: s in cands ==> s in load
  {
    var n := |failed| + |added|;
    && n <= |cands|
    && failed == Failures(sh, cands[..n], load)
    && added == Passing(sh, cands[..n], load)
    && (n < |cands| ==> count + |added| >= sh.requiredCount)
    && (n > 0 ==> count + |Passing(sh, cands[..n - 1], load)| < sh.requiredCount)
  }

  /** What the walk does, when no candidate is listed twice: every candidate
      is checked against the loads at the start of the walk, since only the
      person just committed has gained a shift since (see Examined). */
  lemma {:induction false} WalkOutcome(sh: Shift, cands: seq<Staff>, count: int, w: World)
    requires sh in w.crew && forall s :: s in cands ==> s in w.load
    requires Distinct(cands)
    ensures var r := Walk(sh, cands, count, w);
      Examined(sh, cands, count, w.load, NewConflicts(r, w), Added(r, w, sh))
    decreases |cands|, 2
  {
    if cands != [] && count < sh.requiredCount {
      match CheckConflicts(cands[0], sh, w.load[cands[0]])
      case Some(c) => WalkOutcomeConflict(sh, cands, count, c, w);
      case None => WalkOutcomeCommit(sh, cands, count, w);
    } else {
      assert Walk(sh, cands, count, w) == w;
    }
  }

  /** WalkOutcome when the first candidate has a conflict. */
  lemma WalkOutcomeConflict(sh: Shift, cands: seq<Staff>, count: int, c: Conflict, w: World)
    requires sh in w.crew && forall s :: s in cands ==> s in w.load
    requires Distinct(cands) && cands != [] && count < sh.requiredCount
    requires CheckConflicts(cands[0], sh, w.load[cands[0]]) == Some(c)
    ensures var r := Walk(sh, cands, count, w);
      Examined(sh, cands, count, w.load, NewConflicts(r, w), Added(r, w, sh))
    decreases |cands|, 1
  {
    var w' := w.(conflicts := w.conflicts + [c]);
    var r := Walk(sh, cands[1..], count, w');
    assert Walk(sh, cands, count, w) == r;
    assert Examined(sh, cands[1..], count, w.load, NewConflicts(r, w'), Added(r, w', sh)) by {
      DistinctTail(cands);
      WalkOutcome(sh, cands[1..], count, w');
    }
    WalkRecordsAfterConflict(sh, cands, count, c, w);
    ExaminedAfterConflict(sh, cands, count, w.load, c, NewConflicts(r, w'), Added(r, w', sh));
  }

  /** WalkOutcome when the first candidate is committed. */
  lemma WalkOutcomeCommit(sh: Shift, cands: seq<Staff>, count: int, w: World)
    requires sh in w.crew && forall s :: s in cands ==> s in w.load
    requires Distinct(cands) && cands != [] && count < sh.requiredCount
    requires CheckConflicts(cands[0], sh, w.load[cands[0]]).None?
    ensures var r := Walk(sh, cands, count, w);
      Examined(sh, cands, count, w.load, NewConflicts(r, w), Added(r, w, sh))
    decreases |cands|, 1
  {
    var w' := Commit(w, cands[0], sh);
    var r := Walk(sh, cands[1..], count + 1, w');
    assert Walk(sh, cands, count, w) == r;
    WalkOutcomeAfterCommit(sh, cands, count, w);
    WalkAddsAfterCommit(sh, cands, count, w);
    ExaminedAfterCommit(sh, cands, count, w.load, NewConflicts(r, w), Added(r, w', sh));
  }

  /** The walk after the commit of the first candidate, seen from the loads
      before that commit. */
  lemma WalkOutcomeAfterCommit(sh: Shift, cands: seq<Staff>, count: int, w: World)
    requires sh in w.crew && forall s :: s in cands ==> s in w.load
    requires Distinct(cands) && cands != []
    ensures var w' := Commit(w, cands[0], sh);
      var r := Walk(sh, cands[1..], count + 1, w');
      Examined(sh, cands[1..], count + 1, w.load, NewConflicts(r, w), Added(r, w', sh))
    decreases |cands|, 0
  {
    var w' := Commit(w, cands[0], sh);
    var r := Walk(sh, cands[1..], count + 1, w');
    DistinctTail(cands);
    WalkOutcome(sh, cands[1..], count + 1, w');
    assert NewConflicts(r, w) == NewConflicts(r, w');
    // Only the person just committed has a new shift, and nobody later in
    // the walk is that person.
    assert forall s :: s in cands[1..] ==> s in w'.load && w'.load[s] == w.load[s];
    ExaminedFrame(sh, cands[1..], count + 1, w'.load, w.load, NewConflicts(r, w'), Added(r, w', sh));
  }

  /** The walk after a conflict of the first candidate records that
      conflict first and commits the same people. */
  lemma WalkRecordsAfterConflict(sh: Shift, cands: seq<Staff>, count: int, c: Conflict, w: World)
    requires sh in w.crew && forall s :: s in cands ==> s in w.load
    requires cands != []
    ensures var w' := w.(conflicts := w.conflicts + [c]);
      var r := Walk(sh, cands[1..], count, w');
      && NewConflicts(r, w) == [c] + NewConflicts(r, w')
      && Added(r, w, sh) == Added(r, w', sh)
  {
    var w' := w.(conflicts := w.conflicts + [c]);
    var r := Walk(sh, cands[1..], count, w');
    WalkRecords(sh, cands[1..], count, w');
    assert r.conflicts[|w.conflicts|] == c by {
      assert r.conflicts[|w.conflicts|] == r.conflicts[..|w'.conflicts|][|w.conflicts|];
    }
  }

  /** The walk after a commit of the first candidate: that candidate is the
      first person added. */
  lemma WalkAddsAfterCommit(sh: Shift, cands: seq<Staff>, count: int, w: World)
    requires sh in w.crew && forall s :: s in cands ==> s in w.load
    requires cands != []
    ensures var w' := Commit(w, cands[0], sh);
      var r := Walk(sh, cands[1..], count + 1, w');
      Added(r, w, sh) == [cands[0]] + Added(r, w', sh)
  {
    var w' := Commit(w, cands[0], sh);
    WalkRecords(sh, cands[1..], count + 1, w');
    AddedAfterCommit(sh, cands[0], w, Walk(sh, cands[1..], count + 1, w'));
  }

  /** Two loads that agree on the candidates describe the same walk. */
  lemma ExaminedFrame(sh: Shift, cands: seq<Staff>, count: int, load1: map<Staff, seq<string>>,
                      load2: map<Staff, seq<string>>, failed: seq<Conflict>, added: seq<Staff>)
    requires forall s :: s in cands ==> s in load1 && s in load2 && load1[s] == load2[s]
    requires Examined(sh, cands, count, load1, failed, added)
    ensures Examined(sh, cands, count, load2, failed, added)
  {
    var n := |failed| + |added|;
    assert forall s :: s in cands[..n] ==> s in cands;
    OutcomeFrame(sh, cands[..n], load1, load2);
    if n > 0 {
      assert forall s :: s in cands[..n - 1] ==> s in cands;
      OutcomeFrame(sh, cands[..n - 1], load1, load2);
    }
  }

  /** A conflict of the first candidate is the first conflict recorded. */
  lemma ExaminedAfterConflict(sh: Shift, cands: seq<Staff>, count: int, load: map<Staff, seq<string>>,
                              c: Conflict, failed: seq<Conflict>, added: seq<Staff>)
    requires forall s :: s in cands ==> s in load
    requires cands != [] && count < sh.requiredCount
    requires CheckConflicts(cands[0], sh, load[cands[0]]) == Some(c)
    requires Examined(sh, cands[1..], count, load, failed, added)
    ensures Examined(sh, cands, count, load, [c] + failed, added)
  {
    var n' := |failed| + |added|;
    var n := |[c] + failed| + |added|;
    assert n == n' + 1;
    FailingPrefix(sh, cands, n, load, c);
    assert [c] + failed == Failures(sh, cands[..n], load);
    assert added == Passing(sh, cands[..n], load);
    assert n < |cands| ==> count + |added| >= sh.requiredCount;
    assert count + |Passing(sh, cands[..n - 1], load)| < sh.requiredCount by {
      if n' > 0 {
        FailingPrefix(sh, cands, n', load, c);
        assert count + |Passing(sh, cands[1..][..n' - 1], load)| < sh.requiredCount;
      } else {
        assert cands[..0] == [];
      }
    }
  }

  /** A commit of the first candidate is the first person added. */
  lemma ExaminedAfterCommit(sh: Shift, cands: seq<Staff>, count: int, load: map<Staff, seq<string>>,
                            failed: seq<Conflict>, added: seq<Staff>)
    requires forall s :: s in cands ==> s in load
    requires cands != [] && count < sh.requiredCount
    requires CheckConflicts(cands[0], sh, load[cands[0]]).None?
    requires Examined(sh, cands[1..], count + 1, load, failed, added)
    ensures Examined(sh, cands, count, load, failed, [cands[0]] + added)
  {
    var n' := |failed| + |added|;
    var n := |failed| + |[cands[0]] + added|;
    assert n == n' + 1;
    PassingPrefix(sh, cands, n, load);
    assert failed == Failures(sh, cands[..n], load);
    assert [cands[0]] + added == Passing(sh, cands[..n], load);
    assert n < |cands| ==> count + |[cands[0]] + added| >= sh.requiredCount;
    assert count + |Passing(sh, cands[..n - 1], load)| < sh.requiredCount by {
      if n' > 0 {
        PassingPrefix(sh, cands, n', load);
        assert count + 1 + |Passing(sh, cands[1..][..n' - 1], load)| < sh.requiredCount;
      } else {
        assert cands[..0] == [];
      }
    }
  }

  /** No one in the staff list has the required role: exactly one shortage
      record, for the full headcount, and nothing else changes. */
  lemma PassNoEligible(sh: Shift, staff: seq<Staff>, w: World)
    requires sh in w.crew && forall s :: s in staff ==> s in w.load
    requires forall s :: s in staff ==> s.role != sh.requiredRole
    ensures var r := Pass(sh, staff, w);
      && r.shortages == w.shortages + [ShortageRecord(sh.name, sh.requiredRole, sh.requiredCount)]
      && r.load == w.load && r.crew == w.crew && r.conflicts == w.conflicts
  {
  }

  /** When someone has the role, a shortage record is added after the walk
      exactly when the shift is still short, and it carries that shortage. */
  lemma PassShortageRecord(sh: Shift, staff: seq<Staff>, w: World)
    requires sh in w.crew && forall s :: s in staff ==> s in w.load
    requires Eligible(staff, sh.requiredRole) != []
    ensures var r := Pass(sh, staff, w);
      var short := ShortageOf(sh.requiredCount, |r.crew[sh]|);
      r.shortages == w.shortages + (if short > 0 then [ShortageRecord(sh.name, sh.requiredRole, short)] else [])
  {
    var el := Eligible(staff, sh.requiredRole);
    WalkRecords(sh, Candidates(el, w.load), 0, w);
  }

  /** One pass commits at most `required_count` people to its shift and
      touches no other shift; the records only grow. */
  lemma PassRecords(sh: Shift, staff: seq<Staff>, w: World)
    requires sh in w.crew && forall s :: s in staff ==> s in w.load
    ensures var r := Pass(sh, staff, w);
      && Extends(r.conflicts, w.conflicts)
      && Extends(r.shortages, w.shortages)
      && Extends(r.crew[sh], w.crew[sh])
      && |r.crew[sh]| - |w.crew[sh]| <= ShortageOf(sh.requiredCount, 0)
      && (forall t :: t in w.crew && t != sh ==> r.crew[t] == w.crew[t])
  {
    var el := Eligible(staff, sh.requiredRole);
    if el != [] {
      WalkRecords(sh, Candidates(el, w.load), 0, w);
    }
  }

  /** Filtering by role keeps a staff list free of repeats. */
  lemma {:induction false} EligibleDistinct(staff: seq<Staff>, role: string)
    requires Distinct(staff)
    ensures Distinct(Eligible(staff, role))
  {
    if staff != [] {
      DistinctTail(staff);
      EligibleDistinct(staff[1..], role);
      if staff[0].role == role {
        DistinctCons(staff[0], Eligible(staff[1..], role));
      }
    }
  }

  /** What one pass does with a staff list that names nobody twice. The
      walk goes through the candidates least-loaded first and checks each
      against the loads the pass started from: the conflicts it appends are
      those of the examined candidates who fail the checks, and the people
      it commits are those who pass them, both in candidate order. It stops
      early only once the headcount is reached, and a conflict does not
      count towards it (see Examined). */
  lemma PassOutcome(sh: Shift, staff: seq<Staff>, w: World)
    requires sh in w.crew && forall s :: s in staff ==> s in w.load
    requires Distinct(staff)
    ensures var r := Pass(sh, staff, w);
      var cands := Candidates(Eligible(staff, sh.requiredRole), w.load);
      Examined(sh, cands, 0, w.load, NewConflicts(r, w), Added(r, w, sh))
  {
    var el := Eligible(staff, sh.requiredRole);
    var cands := Candidates(el, w.load);
    var r := Pass(sh, staff, w);
    if el != [] {
      EligibleDistinct(staff, sh.requiredRole);
      DistinctPermutation(el, cands);
      WalkOutcome(sh, cands, 0, w);
      PassWithCandidates(sh, staff, w);
      var v := Walk(sh, cands, 0, w);
      assert r.conflicts == v.conflicts && r.crew == v.crew;
    } else {
      assert cands == [];
      assert r.conflicts == w.conflicts && r.crew == w.crew;
    }
  }

  /** Everyone a pass commits has the required role, is available for the
      shift and did not hold its name; they are distinct, each gains the
      shift's name once, and nobody else's list changes. */
  lemma PassCommits(sh: Shift, staff: seq<Staff>, w: World)
    requires sh in w.crew && forall s :: s in staff ==> s in w.load
    ensures var r := Pass(sh, staff, w);
      var added := Added(r, w, sh);
      && Distinct(added)
      && (forall x :: x in added ==>
            x in staff && x.role == sh.requiredRole && x.IsAvailableForShift(sh.name) && sh.name !in w.load[x])
      && (forall s :: s in w.load ==> r.load[s] == if s in added then w.load[s] + [sh.name] else w.load[s])
  {
    PassRecords(sh, staff, w);
    var el := Eligible(staff, sh.requiredRole);
    if el != [] {
      WalkRecords(sh, Candidates(el, w.load), 0, w);
      WalkCommits(sh, Candidates(el, w.load), 0, w);
    }
  }

  /** A pass keeps every assigned list free of repeated shift names. */
  lemma PassNoDoubleBooking(sh: Shift, staff: seq<Staff>, w: World)
    requires sh in w.crew && forall s :: s in staff ==> s in w.load
    requires NoDoubleBooking(w)
    ensures NoDoubleBooking(Pass(sh, staff, w))
  {
    PassCommits(sh, staff, w);
    var r := Pass(sh, staff, w);
    forall s | s in r.load
      ensures Distinct(r.load[s])
    {
      var added := Added(r, w, sh);
      if s in added {
        assert r.load[s] == w.load[s] + [sh.name];
      }
    }
  }

  lemma ExtendsTransitive<T>(c: seq<T>, b: seq<T>, a: seq<T>)
    requires Extends(c, b) && Extends(b, a)
    ensures Extends(c, a)
  {
    assert c[..|a|] == c[..|b|][..|a|];
  }

  /** The whole run: the records of earlier runs stay in front of the new ones,
      every shift's list only grows, unlisted shifts are untouched and, when
      no shift object is listed twice, each listed shift gains at most
      `required_count` people. */
  lemma {:induction false} RunRecords(shifts: seq<Shift>, staff: seq<Staff>, w: World)
    requires Covers(w, staff, shifts)
    ensures var r := Run(shifts, staff, w);
      && Extends(r.conflicts, w.conflicts)
      && Extends(r.shortages, w.shortages)
      && (forall t :: t in w.crew ==> Extends(r.crew[t], w.crew[t]))
      && (forall t :: t in w.crew && t !in shifts ==> r.crew[t] == w.crew[t])
      && (Distinct(shifts) ==>
            forall sh :: sh in shifts ==> |r.crew[sh]| - |w.crew[sh]| <= ShortageOf(sh.requiredCount, 0))
  {
    if shifts != [] {
      var sh0 := shifts[0];
      var w1 := Pass(sh0, staff, w);
      PassRecords(sh0, staff, w);
      RunRecords(shifts[1..], staff, w1);
      var r := Run(shifts[1..], staff, w1);
      assert r == Run(shifts, staff, w);
      ExtendsTransitive(r.conflicts, w1.conflicts, w.conflicts);
      ExtendsTransitive(r.shortages, w1.shortages, w.shortages);
      forall t | t in w.crew
        ensures Extends(r.crew[t], w.crew[t])
      {
        if t == sh0 {
          ExtendsTransitive(r.crew[t], w1.crew[t], w.crew[t]);
        }
      }
      if Distinct(shifts) {
        forall sh | sh in shifts
          ensures |r.crew[sh]| - |w.crew[sh]| <= ShortageOf(sh.requiredCount, 0)
        {
          if sh == sh0 {
            forall k | 0 <= k < |shifts[1..]|
              ensures shifts[1..][k] != sh0
            {
              assert shifts[1..][k] == shifts[k + 1];
            }
          } else {
            assert sh in shifts[1..];
            assert Distinct(shifts[1..]) by {
              forall i, j | 0 <= i < j < |shifts[1..]|
                ensures shifts[1..][i] != shifts[1..][j]
              {
                assert shifts[1..][i] == shifts[i + 1] && shifts[1..][j] == shifts[j + 1];
              }
            }
          }
        }
      }
    }
  }

  /** Over a list of distinct shift objects that start empty, no shift ends
      with more than `required_count` people. */
  lemma RunWithinHeadcount(shifts: seq<Shift>, staff: seq<Staff>, w: World)
    requires Covers(w, staff, shifts)
    requires Distinct(shifts)
    requires forall sh :: sh in shifts ==> w.crew[sh] == []
    ensures var r := Run(shifts, staff, w);
      forall sh :: sh in shifts ==> |r.crew[sh]| <= ShortageOf(sh.requiredCount, 0)
  {
    RunRecords(shifts, staff, w);
  }

  /** No person ever holds the same shift name twice, given none does at the start. */
  lemma {:induction false} RunNoDoubleBooking(shifts: seq<Shift>, staff: seq<Staff>, w: World)
    requires Covers(w, staff, shifts)
    requires NoDoubleBooking(w)
    ensures NoDoubleBooking(Run(shifts, staff, w))
  {
    if shifts != [] {
      PassNoDoubleBooking(shifts[0], staff, w);
      RunNoDoubleBooking(shifts[1..], staff, Pass(shifts[0], staff, w));
    }
  }

  /** Workload balance: for a shift needing one person, when every eligible
      person passes the checks, the one committed holds the fewest shifts. */
  lemma PassPicksLeastLoaded(sh: Shift, staff: seq<Staff>, w: World)
    requires sh in w.crew && forall s :: s in staff ==> s in w.load
    requires sh.requiredCount == 1
    requires Eligible(staff, sh.requiredRole) != []
    requires forall s :: s in staff && s.role == sh.requiredRole ==> CheckConflicts(s, sh, w.load[s]) == None
    ensures var r := Pass(sh, staff, w);
      && |r.crew[sh]| == |w.crew[sh]| + 1
      && r.crew[sh][..|w.crew[sh]|] == w.crew[sh]
      && (var x := r.crew[sh][|w.crew[sh]|];
          && x in staff && x.role == sh.requiredRole
          && (forall t :: t in staff && t.role == sh.requiredRole ==> |w.load[x]| <= |w.load[t]|))
      && r.conflicts == w.conflicts && r.shortages == w.shortages
  {
    var el := Eligible(staff, sh.requiredRole);
    var d := Decorate(el, w.load);
    var sorted := SortByKey(d);
    var cands := Candidates(el, w.load);
    assert cands == Items(sorted);
    var x := cands[0];
    assert x in el;
    var w1 := Commit(w, x, sh);
    assert Walk(sh, cands, 0, w) == Walk(sh, cands[1..], 1, w1);
    assert Walk(sh, cands[1..], 1, w1) == w1;
    PassWithCandidates(sh, staff, w);
    SortByKeySorted(d);
    assert sorted[0] in multiset(d);
    var m :| 0 <= m < |d| && d[m] == sorted[0];
    forall t | t in staff && t.role == sh.requiredRole
      ensures |w.load[x]| <= |w.load[t]|
    {
      assert t in el;
      var k :| 0 <= k < |el| && el[k] == t;
      assert d[k] in multiset(sorted);
      var j :| 0 <= j < |sorted| && sorted[j] == d[k];
    }
  }

  /** A person who already holds the shift's name and is its only candidate:
      one double-booking conflict, no commit, and a shortage record if the
      shift is short. */
  lemma PassSoleCandidateDoubleBooked(sh: Shift, staff: seq<Staff>, w: World, s: Staff)
    requires sh in w.crew && forall p :: p in staff ==> p in w.load
    requires Eligible(staff, sh.requiredRole) == [s]
    requires s.IsAvailableForShift(sh.name) && sh.name in w.load[s]
    requires sh.requiredCount >= 1
    ensures var r := Pass(sh, staff, w);
      var short := ShortageOf(sh.requiredCount, |w.crew[sh]|);
      && r.conflicts == w.conflicts + [Conflict(DoubleBooking, s.name, sh.name)]
      && r.load == w.load && r.crew == w.crew
      && r.shortages == w.shortages + (if short > 0 then [ShortageRecord(sh.name, sh.requiredRole, short)] else [])
  {
    var d := Decorate([s], w.load);
    assert d == [(s, |w.load[s]|)];
    assert SortByKey(d) == d;
    assert Candidates([s], w.load) == [s];
    var c := Conflict(DoubleBooking, s.name, sh.name);
    assert CheckConflicts(s, sh, w.load[s]) == Some(c);
    var w1 := w.(conflicts := w.conflicts + [c]);
    assert Walk(sh, [s], 0, w) == Walk(sh, [], 0, w1) == w1;
    PassWithCandidates(sh, staff, w);
  }
}
