/**
 * The assignment manager's pure parts: the duplicate test, the bulk-assign
 * loop, selection toggling and select-all.
 */
module Assignments {
  import opened Wrappers
  import opened Seqs
  import opened Types
  import opened Cohorts

  /** `a.courseId === courseId` and the class fields equal: the five-field duplicate test. */
  predicate SameSlot(a: CourseAssignment, courseId: string, c: Cohort) {
    a.courseId == courseId && AssignedTo(a, c)
  }

  /** `assignments.some(...)`: the subject is already assigned to the class. */
  predicate IsAssigned(assignments: seq<CourseAssignment>, courseId: string, c: Cohort) {
    exists a :: a in assignments && SameSlot(a, courseId, c)
  }

  /** The assignment made for a selected subject. */
  function NewAssignment(id: string, courseId: string, c: Cohort): CourseAssignment {
    CourseAssignment(id, courseId, c.degree, c.department, c.year, c.semester)
  }

  /**
   * What the bulk assign creates: for each selected subject in turn, with
   * the id drawn for it, a new assignment unless the subject is already
   * assigned to the class.
   */
  function NewAssignments(existing: seq<CourseAssignment>, selected: seq<string>, c: Cohort, ids: seq<string>): seq<CourseAssignment>
    requires |ids| == |selected|
  {
    if selected == [] then []
    else
      var n := |selected| - 1;
      NewAssignments(existing, selected[..n], c, ids[..n])
        + (if IsAssigned(existing, selected[n], c) then [] else [NewAssignment(ids[n], selected[n], c)])
  }

  /** The selected subjects that are not yet assigned to the class, in selection order. */
  function Unassigned(existing: seq<CourseAssignment>, selected: seq<string>, c: Cohort): (r: seq<string>)
    ensures |r| <= |selected|
    ensures forall id :: id in r <==> id in selected && !IsAssigned(existing, id, c)
  {
    if selected == [] then []
    else
      var n := |selected| - 1;
      assert selected == selected[..n] + [selected[n]];
      Unassigned(existing, selected[..n], c) + (if IsAssigned(existing, selected[n], c) then [] else [selected[n]])
  }

  /**
   * `handleAssignMultiple`'s loop: each selected subject either yields a new
   * assignment or counts as a duplicate.
   */
  method PlanAssignments(existing: seq<CourseAssignment>, selected: seq<string>, c: Cohort, ids: seq<string>)
    returns (created: seq<CourseAssignment>, duplicateCount: nat)
    requires |ids| == |selected|
    ensures created == NewAssignments(existing, selected, c, ids)
    ensures |created| + duplicateCount == |selected|
  {
    created := [];
    duplicateCount := 0;
    for i := 0 to |selected|
      invariant created == NewAssignments(existing, selected[..i], c, ids[..i])
      invariant |created| + duplicateCount == i
    {
      var courseId := selected[i];
      assert selected[..i + 1][..i] == selected[..i] && ids[..i + 1][..i] == ids[..i];
      if !IsAssigned(existing, courseId, c) {
        created := created + [NewAssignment(ids[i], courseId, c)];
      } else {
        duplicateCount := duplicateCount + 1;
      }
    }
    assert selected[..|selected|] == selected && ids[..|ids|] == ids;
  }

  /**
   * A selected subject yields an assignment exactly when it is not yet
   * assigned to the class; the new assignments name those subjects in
   * selection order, carry the class's fields and the ids drawn for them.
   */
  lemma {:induction false} NewAssignmentsSpec(existing: seq<CourseAssignment>, selected: seq<string>, c: Cohort, ids: seq<string>)
    requires |ids| == |selected|
    ensures var created := NewAssignments(existing, selected, c, ids);
      && Map(created, AssignedCourseId) == Unassigned(existing, selected, c)
      && (forall a :: a in created ==>
            (a.degree == c.degree && a.department == c.department
             && a.year == c.year && a.semester == c.semester && a.id in ids))
  {
    if selected != [] {
      var n := |selected| - 1;
      NewAssignmentsSpec(existing, selected[..n], c, ids[..n]);
      var prev := NewAssignments(existing, selected[..n], c, ids[..n]);
      var step := if IsAssigned(existing, selected[n], c) then [] else [NewAssignment(ids[n], selected[n], c)];
      MapConcat(prev, step, AssignedCourseId);
      forall a | a in prev ensures a.id in ids {
        assert a.id in ids[..n];
      }
    }
  }

  /** Every new assignment carries one of the drawn ids. */
  lemma NewAssignmentIdsDrawn(existing: seq<CourseAssignment>, selected: seq<string>, c: Cohort, ids: seq<string>)
    requires |ids| == |selected|
    ensures forall a :: a in NewAssignments(existing, selected, c, ids) ==> a.id in ids
  {
    NewAssignmentsSpec(existing, selected, c, ids);
  }

  /** The new assignments have distinct ids when the drawn ids are distinct. */
  lemma {:induction false} NewAssignmentIds(existing: seq<CourseAssignment>, selected: seq<string>, c: Cohort, ids: seq<string>)
    requires |ids| == |selected| && Distinct(ids)
    ensures Distinct(Map(NewAssignments(existing, selected, c, ids), AssignmentIdOf))
  {
    if selected != [] {
      var n := |selected| - 1;
      var prev := NewAssignments(existing, selected[..n], c, ids[..n]);
      assert Distinct(ids[..n]) by {
        forall i, j | 0 <= i < j < n ensures ids[..n][i] != ids[..n][j] {
          assert ids[..n][i] == ids[i] && ids[..n][j] == ids[j];
        }
      }
      NewAssignmentIds(existing, selected[..n], c, ids[..n]);
      NewAssignmentIdsDrawn(existing, selected[..n], c, ids[..n]);
      var step := if IsAssigned(existing, selected[n], c) then [] else [NewAssignment(ids[n], selected[n], c)];
      assert NewAssignments(existing, selected, c, ids) == prev + step;
      MapConcat(prev, step, AssignmentIdOf);
      var prevIds := Map(prev, AssignmentIdOf);
      if step != [] {
        assert ids[n] !in prevIds by {
          forall k | 0 <= k < |prevIds| ensures prevIds[k] != ids[n] {
            assert prev[k] in prev;
            var m :| 0 <= m < n && ids[..n][m] == prev[k].id;
            assert ids[m] == prevIds[k];
          }
        }
        DistinctSnoc(prevIds, ids[n]);
      } else {
        assert Map(step, AssignmentIdOf) == [];
        assert prevIds + [] == prevIds;
      }
    }
  }

  /** A duplicate-free selection leaves a duplicate-free list of subjects to assign. */
  lemma {:induction false} UnassignedDistinct(existing: seq<CourseAssignment>, selected: seq<string>, c: Cohort)
    requires Distinct(selected)
    ensures Distinct(Unassigned(existing, selected, c))
  {
    if selected != [] {
      var n := |selected| - 1;
      assert Distinct(selected[..n]) by {
        forall i, j | 0 <= i < j < n ensures selected[..n][i] != selected[..n][j] {
          assert selected[..n][i] == selected[i] && selected[..n][j] == selected[j];
        }
      }
      UnassignedDistinct(existing, selected[..n], c);
      assert selected[n] !in selected[..n];
    }
  }

  // ----- selection -----

  /** `toggleCourseSelection`: remove the subject if selected, append it otherwise. */
  function Toggled(selected: seq<string>, courseId: string): (r: seq<string>)
    ensures forall x :: x in r <==> if x == courseId then courseId !in selected else x in selected
  {
    if courseId in selected then Filter(selected, NotEqual(courseId)) else selected + [courseId]
  }

  /** Toggling keeps the selection free of repeats. */
  lemma ToggledDistinct(selected: seq<string>, courseId: string)
    requires Distinct(selected)
    ensures Distinct(Toggled(selected, courseId))
  {
    if courseId in selected {
      FilterDistinct(selected, NotEqual(courseId));
    }
  }

  /** Toggling an unselected subject twice restores the selection exactly. */
  lemma ToggleTwiceUnselected(selected: seq<string>, courseId: string)
    requires courseId !in selected
    ensures Toggled(Toggled(selected, courseId), courseId) == selected
  {
    FilterConcat(selected, [courseId], NotEqual(courseId));
    FilterKeepsAll(selected, NotEqual(courseId));
    assert Filter([courseId], NotEqual(courseId)) == [];
  }

  /** Toggling a selected subject twice keeps the same subjects, with that one moved to the end. */
  lemma ToggleTwiceSelected(selected: seq<string>, courseId: string)
    requires courseId in selected
    ensures Toggled(Toggled(selected, courseId), courseId) == Filter(selected, NotEqual(courseId)) + [courseId]
    ensures forall x :: x in Toggled(Toggled(selected, courseId), courseId) <==> x in selected
  {
  }

  function NotAmong(ids: seq<string>): (p: Course -> bool)
    ensures forall x :: p(x) <==> x.id !in ids
  {
    (x: Course) => x.id !in ids
  }

  /** The ids of the library subjects not yet assigned to the class, in library order. */
  function AvailableCourses(courses: seq<Course>, assignments: seq<CourseAssignment>, c: Cohort): (r: seq<string>)
    ensures forall id :: id in r <==>
      (exists k :: 0 <= k < |courses| && courses[k].id == id) && !IsAssigned(assignments, id, c)
    ensures Subsequence(r, Map(courses, CourseIdOf))
  {
    var currentAssigned := Map(Filter(assignments, AssignedToTest(c)), AssignedCourseId);
    assert forall id :: id in currentAssigned <==> IsAssigned(assignments, id, c) by {
      forall id | IsAssigned(assignments, id, c) ensures id in currentAssigned {
        var a :| a in assignments && SameSlot(a, id, c);
        var mine := Filter(assignments, AssignedToTest(c));
        assert a in mine;
        var k :| 0 <= k < |mine| && mine[k] == a;
        assert currentAssigned[k] == id;
      }
      forall id | id in currentAssigned ensures IsAssigned(assignments, id, c) {
        var mine := Filter(assignments, AssignedToTest(c));
        var k :| 0 <= k < |currentAssigned| && currentAssigned[k] == id;
        assert mine[k] in mine;
        assert SameSlot(mine[k], id, c);
      }
    }
    var free := Filter(courses, NotAmong(currentAssigned));
    var r := Map(free, CourseIdOf);
    assert forall id :: id in r <==> (exists k :: 0 <= k < |courses| && courses[k].id == id) && id !in currentAssigned by {
      forall id | (exists k :: 0 <= k < |courses| && courses[k].id == id) && id !in currentAssigned
        ensures id in r
      {
        var k :| 0 <= k < |courses| && courses[k].id == id;
        assert courses[k] in free;
        var m :| 0 <= m < |free| && free[m] == courses[k];
        assert r[m] == id;
      }
      forall id | id in r ensures exists k :: 0 <= k < |courses| && courses[k].id == id {
        var m :| 0 <= m < |r| && r[m] == id;
        assert free[m] in courses;
      }
    }
    FilterSubsequence(courses, NotAmong(currentAssigned));
    MapSubsequence(free, courses, CourseIdOf);
    r
  }

  /** With distinct library ids, the available ids are distinct too. */
  lemma AvailableDistinct(courses: seq<Course>, assignments: seq<CourseAssignment>, c: Cohort)
    requires Distinct(Map(courses, CourseIdOf))
    ensures Distinct(AvailableCourses(courses, assignments, c))
  {
    var currentAssigned := Map(Filter(assignments, AssignedToTest(c)), AssignedCourseId);
    FilterMapDistinct(courses, NotAmong(currentAssigned), CourseIdOf);
  }

  /**
   * `toggleSelectAll`: clear the selection when it is as long as the list of
   * available subjects, otherwise select exactly the available subjects.
   */
  function SelectAll(selected: seq<string>, available: seq<string>): (r: seq<string>)
    ensures forall x :: x in r ==> x in available
    ensures r == available || r == []
    ensures r == [] <==> |selected| == |available| || available == []
  {
    if |selected| == |available| then [] else available
  }

  /** Pressing "select all" twice, from a selection not as long as the available list, ends with nothing selected. */
  lemma SelectAllTwice(selected: seq<string>, available: seq<string>)
    requires |selected| != |available|
    ensures SelectAll(selected, available) == available
    ensures SelectAll(SelectAll(selected, available), available) == []
  {
  }

  /**
   * "Select all" compares lengths only: a selection as long as the available
   * list that misses one of its subjects (it holds a stale id) is cleared
   * rather than completed.
   */
  lemma SelectAllComparesLengths(selected: seq<string>, available: seq<string>, missing: string)
    requires |selected| == |available| && missing in available && missing !in selected
    ensures SelectAll(selected, available) == [] && missing !in SelectAll(selected, available)
  {
  }
}
