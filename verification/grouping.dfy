/**
 * The two dashboard tallies built by a loop over a list: the assignments
 * grouped under their class label, and the number of students per
 * department.
 */
module Grouping {
  import opened Seqs
  import opened Strings
  import opened Types

  // ----- assignments grouped by class -----

  /** The group heading: `${degree} - ${department} - Y${year} / S${semester}`. */
  function Label(a: CourseAssignment): string {
    a.degree + " - " + a.department + " - Y" + NumToString(a.year) + " / S" + NumToString(a.semester)
  }

  datatype Group = Group(heading: string, items: seq<CourseAssignment>)

  function GroupLabel(g: Group): string { g.heading }

  /** How many assignments the groups hold between them. */
  function TotalSize(groups: seq<Group>): nat {
    if groups == [] then 0 else |groups[0].items| + TotalSize(groups[1..])
  }

  /** Some element of `s` has key `k`. */
  ghost predicate Occurs<T, K>(s: seq<T>, key: T -> K, k: K) {
    exists x :: x in s && key(x) == k
  }

  /** `grouped` files each element of `prefix` under its key, and `keys` lists the keys once each. */
  ghost predicate GroupedBy<T(!new), K(!new)>(grouped: map<K, seq<T>>, keys: seq<K>, prefix: seq<T>, key: T -> K) {
    && Distinct(keys)
    && (forall k :: k in keys <==> k in grouped)
    && (forall k :: k in grouped <==> Occurs(prefix, key, k))
    && (forall k :: k in grouped ==> grouped[k] == KeyFilter(prefix, key, k))
  }

  /** One step of the loop: append `x` to the group of key `k`, creating the group first if needed. */
  function FileOne<T, K(==)>(grouped: map<K, seq<T>>, keys: seq<K>, k: K, x: T): (map<K, seq<T>>, seq<K>) {
    var g := if k in grouped then grouped else grouped[k := []];
    (g[k := g[k] + [x]], if k in grouped then keys else keys + [k])
  }

  /** Filing one more element keeps the grouping exact. */
  lemma GroupedSnoc<T(!new), K(!new)>(grouped: map<K, seq<T>>, keys: seq<K>, prefix: seq<T>, key: T -> K, x: T)
    requires GroupedBy(grouped, keys, prefix, key)
    ensures var next := FileOne(grouped, keys, key(x), x);
      GroupedBy(next.0, next.1, prefix + [x], key)
  {
    var kx := key(x);
    var next := FileOne(grouped, keys, kx, x);
    var g, ks := next.0, next.1;
    var before := if kx in grouped then grouped[kx] else [];
    assert kx in g && g[kx] == before + [x];
    assert forall k :: k != kx ==> (k in g <==> k in grouped) && (k in g ==> g[k] == grouped[k]);
    assert forall k :: k in ks <==> k in keys || k == kx;
    if kx !in grouped {
      assert kx !in keys;
      forall i | 0 <= i < |prefix| ensures key(prefix[i]) != kx {
        assert prefix[i] in prefix;
      }
      KeyFilterNone(prefix, key, kx);
    }
    forall k ensures Occurs(prefix + [x], key, k) <==> Occurs(prefix, key, k) || k == kx {
      if Occurs(prefix + [x], key, k) && k != kx {
        var y :| y in prefix + [x] && key(y) == k;
        assert y in prefix;
      }
      if k == kx {
        assert x in prefix + [x];
      }
      if Occurs(prefix, key, k) {
        var y :| y in prefix && key(y) == k;
        assert y in prefix + [x];
      }
    }
    forall k | k in g ensures g[k] == KeyFilter(prefix + [x], key, k) {
      KeyFilterSnoc(prefix, x, key, k);
    }
  }

  /** Filing the next element of `s` extends the grouping of its prefix by that element. */
  lemma FileStep<T(!new), K(!new)>(grouped: map<K, seq<T>>, keys: seq<K>, s: seq<T>, i: nat, key: T -> K)
    requires i < |s| && GroupedBy(grouped, keys, s[..i], key)
    ensures var next := FileOne(grouped, keys, key(s[i]), s[i]);
      GroupedBy(next.0, next.1, s[..i + 1], key)
  {
    GroupedSnoc(grouped, keys, s[..i], key, s[i]);
    assert s[..i + 1] == s[..i] + [s[i]];
  }

  /** The `forEach` loop of `groupedAssignments`: file every element under its key, in list order. */
  method FileByKey<T(!new), K(==, !new)>(s: seq<T>, key: T -> K) returns (grouped: map<K, seq<T>>, keys: seq<K>)
    ensures GroupedBy(grouped, keys, s, key)
  {
    grouped := map[];
    keys := [];
    for i := 0 to |s|
      invariant GroupedBy(grouped, keys, s[..i], key)
    {
      FileStep(grouped, keys, s, i, key);
      grouped, keys := FileOne(grouped, keys, key(s[i]), s[i]).0, FileOne(grouped, keys, key(s[i]), s[i]).1;
    }
    assert s[..|s|] == s;
  }

  /**
   * The `groupedAssignments` memo: every assignment filed under its label,
   * in list order, then the labels sorted. The labels come out strictly
   * ascending, one per label that occurs; each group holds exactly the
   * assignments with its label, and the groups hold every assignment once.
   */
  method GroupAssignments(assignments: seq<CourseAssignment>) returns (groups: seq<Group>)
    ensures forall i, j :: 0 <= i < j < |groups| ==> StrLt(groups[i].heading, groups[j].heading)
    ensures forall k :: k in Map(groups, GroupLabel) <==> Occurs(assignments, Label, k)
    ensures forall i :: 0 <= i < |groups| ==> groups[i].items == KeyFilter(assignments, Label, groups[i].heading)
    ensures TotalSize(groups) == |assignments|
  {
    var grouped, keys := FileByKey(assignments, Label);
    var sorted := SortBy(keys, SameString, StrLe);
    SortedKeys(grouped, keys, assignments, sorted);
    groups := seq(|sorted|, i requires 0 <= i < |sorted| => Group(sorted[i], grouped[sorted[i]]));
    GroupsFacts(grouped, keys, assignments, sorted, groups);
  }

  lemma SortedKeys(grouped: map<string, seq<CourseAssignment>>, keys: seq<string>, assignments: seq<CourseAssignment>, sorted: seq<string>)
    requires GroupedBy(grouped, keys, assignments, Label)
    requires sorted == SortBy(keys, SameString, StrLe)
    ensures forall k :: k in sorted <==> k in grouped
    ensures forall i :: 0 <= i < |sorted| ==> sorted[i] in grouped
  {
    forall k ensures k in sorted <==> k in keys {
      assert k in sorted <==> k in multiset(sorted);
    }
  }

  lemma GroupsFacts(grouped: map<string, seq<CourseAssignment>>, keys: seq<string>, assignments: seq<CourseAssignment>, sorted: seq<string>, groups: seq<Group>)
    requires GroupedBy(grouped, keys, assignments, Label)
    requires sorted == SortBy(keys, SameString, StrLe)
    requires forall k :: k in sorted <==> k in grouped
    requires |groups| == |sorted|
    requires forall i :: 0 <= i < |groups| ==> groups[i] == Group(sorted[i], grouped[sorted[i]])
    ensures forall i, j :: 0 <= i < j < |groups| ==> StrLt(groups[i].heading, groups[j].heading)
    ensures forall k :: k in Map(groups, GroupLabel) <==> Occurs(assignments, Label, k)
    ensures forall i :: 0 <= i < |groups| ==> groups[i].items == KeyFilter(assignments, Label, groups[i].heading)
    ensures TotalSize(groups) == |assignments|
  {
    DistinctPermutation(keys, sorted);
    StrLeTotalPreorder();
    SortBySorted(keys, SameString, StrLe);
    forall i, j | 0 <= i < j < |groups| ensures StrLt(groups[i].heading, groups[j].heading) {
      assert StrLe(SameString(sorted[i]), SameString(sorted[j]));
    }
    assert Map(groups, GroupLabel) == sorted;
    TotalSizeIsSum(groups, assignments);
    forall i | 0 <= i < |assignments| ensures Label(assignments[i]) in sorted {
      assert assignments[i] in assignments;
      assert Occurs(assignments, Label, Label(assignments[i]));
    }
    CountPartition(assignments, Label, sorted);
  }

  lemma {:induction false} TotalSizeIsSum(groups: seq<Group>, assignments: seq<CourseAssignment>)
    requires forall i :: 0 <= i < |groups| ==> groups[i].items == KeyFilter(assignments, Label, groups[i].heading)
    ensures TotalSize(groups) == SumCounts(assignments, Label, Map(groups, GroupLabel))
  {
    if groups != [] {
      TotalSizeIsSum(groups[1..], assignments);
      assert Map(groups, GroupLabel)[1..] == Map(groups[1..], GroupLabel);
    }
  }

  // ----- students per department -----

  datatype DeptCount = DeptCount(department: string, count: nat)

  function DepartmentOf(s: Student): string { s.department }
  function DeptName(e: DeptCount): string { e.department }
  function CountOf(e: DeptCount): nat { e.count }

  /** The comparator `(a, b) => b[1] - a[1]`: larger counts first. */
  predicate AtLeast(a: nat, b: nat) { a >= b }

  ghost predicate HasDepartment(students: seq<Student>, d: string) {
    exists s :: s in students && s.department == d
  }

  function TotalCount(counts: seq<DeptCount>): nat {
    if counts == [] then 0 else counts[0].count + TotalCount(counts[1..])
  }

  function CountMatches(students: seq<Student>): (p: DeptCount -> bool)
    ensures forall e :: p(e) <==> e.count == |KeyFilter(students, DepartmentOf, e.department)|
  {
    (e: DeptCount) => e.count == |KeyFilter(students, DepartmentOf, e.department)|
  }

  lemma MapHasDepartment(students: seq<Student>, d: string)
    ensures d in Map(students, DepartmentOf) <==> HasDepartment(students, d)
  {
    if d in Map(students, DepartmentOf) {
      var k :| 0 <= k < |students| && Map(students, DepartmentOf)[k] == d;
      assert students[k] in students;
    }
    if HasDepartment(students, d) {
      var x :| x in students && x.department == d;
      var k :| 0 <= k < |students| && students[k] == x;
      assert Map(students, DepartmentOf)[k] == d;
    }
  }

  /** One more student adds the department to the first appearances unless it occurred already. */
  lemma DedupStep(prefix: seq<Student>, s: Student)
    ensures var seen := Dedup(Map(prefix, DepartmentOf));
      Dedup(Map(prefix + [s], DepartmentOf)) == if s.department in seen then seen else seen + [s.department]
  {
    var next := Map(prefix + [s], DepartmentOf);
    assert next[..|next| - 1] == Map(prefix, DepartmentOf) && next[|next| - 1] == s.department;
  }

  /** The entry `[department, count]` of a department. */
  function DeptCountIn(students: seq<Student>): (f: string -> DeptCount)
    ensures forall d :: f(d).department == d && f(d).count == |KeyFilter(students, DepartmentOf, d)|
  {
    d => DeptCount(d, |KeyFilter(students, DepartmentOf, d)|)
  }

  /**
   * `Object.entries(counts)` before the sort: one entry per department, in
   * order of first appearance among the students, with its number of students.
   */
  function DeptEntries(students: seq<Student>): (r: seq<DeptCount>)
    ensures Map(r, DeptName) == Dedup(Map(students, DepartmentOf))
    ensures forall i :: 0 <= i < |r| ==> r[i].count == |KeyFilter(students, DepartmentOf, r[i].department)|
  {
    var r := Map(Dedup(Map(students, DepartmentOf)), DeptCountIn(students));
    assert Map(r, DeptName) == Dedup(Map(students, DepartmentOf));
    r
  }

  /** `tally` counts the students of `prefix` per department, and `order` lists those departments by first appearance. */
  ghost predicate Tallied(tally: map<string, nat>, order: seq<string>, prefix: seq<Student>) {
    && order == Dedup(Map(prefix, DepartmentOf))
    && (forall d :: d in tally <==> d in order)
    && (forall d :: d in tally ==> tally[d] == |KeyFilter(prefix, DepartmentOf, d)|)
  }

  /** Counting the next student keeps the tally exact. */
  lemma TallyStep(tally: map<string, nat>, order: seq<string>, students: seq<Student>, i: nat)
    requires i < |students| && Tallied(tally, order, students[..i])
    ensures var d := students[i].department;
      Tallied(tally[d := (if d in tally then tally[d] else 0) + 1], if d in tally then order else order + [d], students[..i + 1])
  {
    assert students[..i + 1] == students[..i] + [students[i]];
    TallySnoc(tally, order, students[..i], students[i]);
  }

  lemma TallySnoc(tally: map<string, nat>, order: seq<string>, prefix: seq<Student>, s: Student)
    requires Tallied(tally, order, prefix)
    ensures var d := s.department;
      Tallied(tally[d := (if d in tally then tally[d] else 0) + 1], if d in tally then order else order + [d], prefix + [s])
  {
    DedupStep(prefix, s);
    CountStep(tally, order, prefix, s);
  }

  /** The counts after one more student: the student's department goes up by one, the others stay. */
  lemma CountStep(tally: map<string, nat>, order: seq<string>, prefix: seq<Student>, s: Student)
    requires Tallied(tally, order, prefix)
    ensures var d := s.department;
      forall k :: k in tally[d := (if d in tally then tally[d] else 0) + 1] ==>
        tally[d := (if d in tally then tally[d] else 0) + 1][k] == |KeyFilter(prefix + [s], DepartmentOf, k)|
  {
    var d := s.department;
    var next := tally[d := (if d in tally then tally[d] else 0) + 1];
    forall k | k in next ensures next[k] == |KeyFilter(prefix + [s], DepartmentOf, k)| {
      KeyFilterSnoc(prefix, s, DepartmentOf, k);
      if k == d && d !in tally {
        forall j | 0 <= j < |prefix| ensures DepartmentOf(prefix[j]) != d {
          assert Map(prefix, DepartmentOf)[j] == DepartmentOf(prefix[j]);
        }
        KeyFilterNone(prefix, DepartmentOf, d);
      }
    }
  }

  /**
   * The `forEach` loop of `studentsPerDept`: `counts[department]` bumped once
   * per student, each department added to the key order on its first student.
   */
  method TallyByDepartment(students: seq<Student>) returns (tally: map<string, nat>, order: seq<string>)
    ensures order == Dedup(Map(students, DepartmentOf))
    ensures forall d :: d in tally <==> d in order
    ensures forall d :: d in tally ==> tally[d] == |KeyFilter(students, DepartmentOf, d)|
  {
    tally := map[];
    order := [];
    for i := 0 to |students|
      invariant Tallied(tally, order, students[..i])
    {
      var d := students[i].department;
      TallyStep(tally, order, students, i);
      var previous := 0;
      if d in tally {
        previous := tally[d];
      } else {
        order := order + [d];
      }
      tally := tally[d := previous + 1];
    }
    assert students[..|students|] == students;
  }

  /**
   * The `studentsPerDept` memo: a count per department, in order of first
   * appearance, then sorted by count, largest first (ties keep that order).
   * Each department occurring among the students appears once with its
   * number of students, and the counts add up to the number of students.
   */
  method StudentsPerDept(students: seq<Student>) returns (counts: seq<DeptCount>)
    ensures Distinct(Map(counts, DeptName))
    ensures forall d :: d in Map(counts, DeptName) <==> HasDepartment(students, d)
    ensures forall i :: 0 <= i < |counts| ==> counts[i].count == |KeyFilter(students, DepartmentOf, counts[i].department)|
    ensures forall i, j :: 0 <= i < j < |counts| ==> counts[i].count >= counts[j].count
    ensures TotalCount(counts) == |students|
    ensures counts == SortBy(DeptEntries(students), CountOf, AtLeast)
  {
    var tally, order := TallyByDepartment(students);
    var entries := seq(|order|, i requires 0 <= i < |order| => DeptCount(order[i], tally[order[i]]));
    counts := SortBy(entries, CountOf, AtLeast);
    EntriesInOrder(students, tally, order, entries);
    forall d ensures d in order <==> HasDepartment(students, d) {
      MapHasDepartment(students, d);
    }
    DeptCountFacts(students, entries, counts);
  }

  lemma EntriesInOrder(students: seq<Student>, tally: map<string, nat>, order: seq<string>, entries: seq<DeptCount>)
    requires forall d :: d in order ==> d in tally && tally[d] == |KeyFilter(students, DepartmentOf, d)|
    requires order == Dedup(Map(students, DepartmentOf))
    requires |entries| == |order| && forall i :: 0 <= i < |order| ==> entries[i] == DeptCount(order[i], tally[order[i]])
    ensures Map(entries, DeptName) == order
    ensures entries == DeptEntries(students)
  {
    assert Map(entries, DeptName) == order;
  }

  lemma DeptCountFacts(students: seq<Student>, entries: seq<DeptCount>, counts: seq<DeptCount>)
    requires Distinct(Map(entries, DeptName))
    requires forall d :: d in Map(entries, DeptName) <==> HasDepartment(students, d)
    requires forall i :: 0 <= i < |entries| ==> entries[i].count == |KeyFilter(students, DepartmentOf, entries[i].department)|
    requires counts == SortBy(entries, CountOf, AtLeast)
    ensures Distinct(Map(counts, DeptName))
    ensures forall d :: d in Map(counts, DeptName) <==> HasDepartment(students, d)
    ensures forall i :: 0 <= i < |counts| ==> counts[i].count == |KeyFilter(students, DepartmentOf, counts[i].department)|
    ensures forall i, j :: 0 <= i < j < |counts| ==> counts[i].count >= counts[j].count
    ensures TotalCount(counts) == |students|
  {
    SortedNames(students, entries, counts);
    SortByKeepsAll(entries, CountOf, AtLeast, CountMatches(students));
    assert TotalPreorder(AtLeast);
    SortBySorted(entries, CountOf, AtLeast);
    forall i, j | 0 <= i < j < |counts| ensures counts[i].count >= counts[j].count {
      assert AtLeast(CountOf(counts[i]), CountOf(counts[j]));
    }
    SortedTotal(students, counts);
  }

  /** Sorting keeps the department names, each once. */
  lemma SortedNames(students: seq<Student>, entries: seq<DeptCount>, counts: seq<DeptCount>)
    requires Distinct(Map(entries, DeptName))
    requires forall d :: d in Map(entries, DeptName) <==> HasDepartment(students, d)
    requires counts == SortBy(entries, CountOf, AtLeast)
    ensures Distinct(Map(counts, DeptName))
    ensures forall d :: d in Map(counts, DeptName) <==> HasDepartment(students, d)
  {
    MapPermutation(entries, counts, DeptName);
    var names, sortedNames := Map(entries, DeptName), Map(counts, DeptName);
    DistinctPermutation(names, sortedNames);
    forall d ensures d in sortedNames <==> d in names {
      assert d in sortedNames <==> d in multiset(sortedNames);
    }
  }

  /** Exact counts for every department, each listed once, add up to the number of students. */
  lemma SortedTotal(students: seq<Student>, counts: seq<DeptCount>)
    requires Distinct(Map(counts, DeptName))
    requires forall d :: d in Map(counts, DeptName) <==> HasDepartment(students, d)
    requires forall i :: 0 <= i < |counts| ==> counts[i].count == |KeyFilter(students, DepartmentOf, counts[i].department)|
    ensures TotalCount(counts) == |students|
  {
    var sortedNames := Map(counts, DeptName);
    TotalCountIsSum(counts, students);
    forall i | 0 <= i < |students| ensures DepartmentOf(students[i]) in sortedNames {
      assert HasDepartment(students, students[i].department);
    }
    CountPartition(students, DepartmentOf, sortedNames);
  }

  lemma {:induction false} TotalCountIsSum(counts: seq<DeptCount>, students: seq<Student>)
    requires forall i :: 0 <= i < |counts| ==> counts[i].count == |KeyFilter(students, DepartmentOf, counts[i].department)|
    ensures TotalCount(counts) == SumCounts(students, DepartmentOf, Map(counts, DeptName))
  {
    if counts != [] {
      TotalCountIsSum(counts[1..], students);
      assert Map(counts, DeptName)[1..] == Map(counts[1..], DeptName);
    }
  }

  function HasCount(n: nat): (p: DeptCount -> bool)
    ensures forall e :: p(e) <==> e.count == n
  {
    (e: DeptCount) => e.count == n
  }

  function DeptOfSize(students: seq<Student>, n: nat): (p: string -> bool)
    ensures forall d :: p(d) <==> |KeyFilter(students, DepartmentOf, d)| == n
  {
    d => |KeyFilter(students, DepartmentOf, d)| == n
  }

  /**
   * Departments with equal counts keep `Object.entries`' order through the
   * stable sort: those with `n` students are ranked in the order in which
   * each department's first student appears.
   */
  lemma DeptTiesInFirstAppearanceOrder(students: seq<Student>, n: nat)
    ensures Map(Filter(SortBy(DeptEntries(students), CountOf, AtLeast), HasCount(n)), DeptName)
      == Filter(Dedup(Map(students, DepartmentOf)), DeptOfSize(students, n))
  {
    SortByStable(DeptEntries(students), CountOf, AtLeast, HasCount(n));
    TiedNames(Dedup(Map(students, DepartmentOf)), students, n);
  }

  lemma {:induction false} TiedNames(ds: seq<string>, students: seq<Student>, n: nat)
    ensures Map(Filter(Map(ds, DeptCountIn(students)), HasCount(n)), DeptName) == Filter(ds, DeptOfSize(students, n))
  {
    if ds != [] {
      var f := DeptCountIn(students);
      TiedNames(ds[1..], students, n);
      MapConcat([ds[0]], ds[1..], f);
      assert ds == [ds[0]] + ds[1..];
      var entries := Map(ds, f);
      assert entries[0] == f(ds[0]) && entries[1..] == Map(ds[1..], f);
      if f(ds[0]).count == n {
        MapConcat([f(ds[0])], Filter(Map(ds[1..], f), HasCount(n)), DeptName);
      }
    }
  }
}
