/**
 * The faculty and staff directory page (index.tsx:773-791): the distinct departments in
 * the order they first appear in the roster (`Array.from(new Set(STAFF.map(s =>
 * s.department)))`), each followed by the staff of that department in roster order
 * (`STAFF.filter(s => s.department === dept)`).
 */
module Directory {
  import opened Content

  /** One section of the directory: a department heading and its members. */
  datatype Group = Group(department: string, members: seq<StaffMember>)

  /**
   * The departments of `staff`, built the way a JavaScript `Set` is filled: visiting the
   * roster in order and appending a department only the first time it is seen.
   */
  function Departments(staff: seq<StaffMember>): (ds: seq<string>)
    ensures forall i, j :: 0 <= i < j < |ds| ==> ds[i] != ds[j]
    ensures forall k :: 0 <= k < |staff| ==> staff[k].department in ds
    ensures forall d :: d in ds ==> exists k :: 0 <= k < |staff| && staff[k].department == d
  {
    if staff == [] then []
    else
      var init := staff[..|staff| - 1];
      var ds := Departments(init);
      var d := staff[|staff| - 1].department;
      assert forall k :: 0 <= k < |init| ==> staff[k] == init[k];
      if d in ds then ds else ds + [d]
  }

  /** `k` is the roster position where department `d` first appears. */
  predicate FirstOccurrence(staff: seq<StaffMember>, d: string, k: int)
  {
    0 <= k < |staff| && staff[k].department == d &&
    forall j :: 0 <= j < k ==> staff[j].department != d
  }

  /** The departments are listed in the order of their first appearance in the roster. */
  lemma {:induction false} DepartmentsInFirstOccurrenceOrder(staff: seq<StaffMember>, i: nat, j: nat, ki: int, kj: int)
    requires i < j < |Departments(staff)|
    requires FirstOccurrence(staff, Departments(staff)[i], ki)
    requires FirstOccurrence(staff, Departments(staff)[j], kj)
    ensures ki < kj
  {
    var n := |staff|;
    var init := staff[..n - 1];
    var previous := Departments(init);
    var ds := Departments(staff);
    assert ds[i] == previous[i];
    FirstOccurrenceInPrefix(staff, ds[i], ki);
    if j < |previous| {
      assert ds[j] == previous[j];
      FirstOccurrenceInPrefix(staff, ds[j], kj);
      DepartmentsInFirstOccurrenceOrder(init, i, j, ki, kj);
    } else {
      NewDepartmentFirstAtEnd(staff);
    }
  }

  /** A department already seen before the last entry first occurs at the same place before it. */
  lemma FirstOccurrenceInPrefix(staff: seq<StaffMember>, d: string, k: int)
    requires staff != []
    requires d in Departments(staff[..|staff| - 1])
    requires FirstOccurrence(staff, d, k)
    ensures k < |staff| - 1 && FirstOccurrence(staff[..|staff| - 1], d, k)
  {
    var init := staff[..|staff| - 1];
    var m :| 0 <= m < |init| && init[m].department == d;
    assert staff[m] == init[m];
    assert forall j :: 0 <= j < k && j < |init| ==> staff[j] == init[j];
  }

  /** When the last entry brings a new department, that department first occurs at the end. */
  lemma NewDepartmentFirstAtEnd(staff: seq<StaffMember>)
    requires staff != []
    requires |Departments(staff)| > |Departments(staff[..|staff| - 1])|
    ensures var n := |staff|; var ds := Departments(staff);
      ds == Departments(staff[..n - 1]) + [staff[n - 1].department] &&
      FirstOccurrence(staff, staff[n - 1].department, n - 1)
  {
    var n := |staff|;
    var init := staff[..n - 1];
    var previous := Departments(init);
    var d := staff[n - 1].department;
    assert d !in previous;
    forall m | 0 <= m < n - 1 ensures staff[m].department != d {
      assert staff[m] == init[m];
    }
  }

  /** `staff.filter(s => s.department === dept)`, kept in roster order. */
  function Members(staff: seq<StaffMember>, dept: string): (group: seq<StaffMember>)
    ensures forall m :: m in group ==> m in staff && m.department == dept
    ensures forall k :: 0 <= k < |staff| && staff[k].department == dept ==> staff[k] in group
  {
    if staff == [] then []
    else
      var init := staff[..|staff| - 1];
      var group := Members(init, dept);
      assert forall k :: 0 <= k < |init| ==> staff[k] == init[k];
      if staff[|staff| - 1].department == dept then group + [staff[|staff| - 1]] else group
  }

  /** The roster positions whose department is `dept`, in increasing order. */
  function Positions(staff: seq<StaffMember>, dept: string): seq<nat>
  {
    if staff == [] then []
    else
      Positions(staff[..|staff| - 1], dept) +
      (if staff[|staff| - 1].department == dept then [|staff| - 1] else [])
  }

  /**
   * A department's group is exactly the roster entries of that department, in the
   * order they appear in the roster: the k-th member is the entry at the k-th matching
   * position, the positions increase, and every matching position is among them.
   */
  lemma MembersKeepRosterOrder(staff: seq<StaffMember>, dept: string)
    ensures var ps := Positions(staff, dept); var group := Members(staff, dept);
      && |ps| == |group|
      && (forall k :: 0 <= k < |ps| ==> ps[k] < |staff| && group[k] == staff[ps[k]])
      && (forall k, l :: 0 <= k < l < |ps| ==> ps[k] < ps[l])
      && (forall i :: 0 <= i < |staff| && staff[i].department == dept ==> i in ps)
  {
    PositionsIncrease(staff, dept);
    MembersAtPositions(staff, dept);
    PositionsComplete(staff, dept);
  }

  /** The matching positions lie inside the roster and increase. */
  lemma {:induction false} PositionsIncrease(staff: seq<StaffMember>, dept: string)
    ensures forall k :: 0 <= k < |Positions(staff, dept)| ==> Positions(staff, dept)[k] < |staff|
    ensures forall k, l :: 0 <= k < l < |Positions(staff, dept)| ==>
      Positions(staff, dept)[k] < Positions(staff, dept)[l]
  {
    if staff != [] {
      var n := |staff|;
      var init := staff[..n - 1];
      PositionsIncrease(init, dept);
      var psInit := Positions(init, dept);
      assert forall k :: 0 <= k < |psInit| ==> psInit[k] < n - 1;
    }
  }

  /** The group's k-th member is the roster entry at the k-th matching position. */
  lemma {:induction false} MembersAtPositions(staff: seq<StaffMember>, dept: string)
    ensures var ps := Positions(staff, dept); var group := Members(staff, dept);
      |ps| == |group| && forall k :: 0 <= k < |ps| ==> ps[k] < |staff| && group[k] == staff[ps[k]]
  {
    if staff != [] {
      var init := staff[..|staff| - 1];
      MembersAtPositions(init, dept);
      var psInit := Positions(init, dept);
      assert forall k :: 0 <= k < |psInit| ==> staff[psInit[k]] == init[psInit[k]];
    }
  }

  /** Every roster position whose department matches is among the matching positions. */
  lemma {:induction false} PositionsComplete(staff: seq<StaffMember>, dept: string)
    ensures forall i :: 0 <= i < |staff| && staff[i].department == dept ==> i in Positions(staff, dept)
  {
    if staff != [] {
      var init := staff[..|staff| - 1];
      PositionsComplete(init, dept);
      assert forall i :: 0 <= i < |init| ==> staff[i] == init[i];
    }
  }

  /** `departments.map(dept => …)`: one group per department, in the departments' order. */
  function GroupsFor(staff: seq<StaffMember>, ds: seq<string>): (groups: seq<Group>)
    ensures |groups| == |ds|
  {
    if ds == [] then []
    else [Group(ds[0], Members(staff, ds[0]))] + GroupsFor(staff, ds[1..])
  }

  /** The g-th group is headed by the g-th department and holds that department's members. */
  lemma {:induction false} GroupAt(staff: seq<StaffMember>, ds: seq<string>, g: nat)
    requires g < |ds|
    ensures GroupsFor(staff, ds)[g] == Group(ds[g], Members(staff, ds[g]))
  {
    if g > 0 {
      GroupAt(staff, ds[1..], g - 1);
    }
  }

  /** The directory as the Staff page lays it out. */
  function StaffDirectory(staff: seq<StaffMember>): seq<Group>
  {
    GroupsFor(staff, Departments(staff))
  }

  /** All members of all groups, group after group. */
  function Flatten(groups: seq<Group>): seq<StaffMember>
  {
    if groups == [] then [] else groups[0].members + Flatten(groups[1..])
  }

  /** The roster entries whose department is one of `depts`, in roster order. */
  function MembersIn(staff: seq<StaffMember>, depts: set<string>): seq<StaffMember>
  {
    if staff == [] then []
    else
      MembersIn(staff[..|staff| - 1], depts) +
      (if staff[|staff| - 1].department in depts then [staff[|staff| - 1]] else [])
  }

  /** Adding one more department to a set adds exactly that department's members. */
  lemma {:induction false} MembersInAddDepartment(staff: seq<StaffMember>, d: string, depts: set<string>)
    requires d !in depts
    ensures multiset(Members(staff, d)) + multiset(MembersIn(staff, depts)) ==
            multiset(MembersIn(staff, depts + {d}))
  {
    if staff != [] {
      MembersInAddDepartment(staff[..|staff| - 1], d, depts);
    }
  }

  /** Selecting by a set that holds every department selects the whole roster. */
  lemma {:induction false} MembersInEveryDepartment(staff: seq<StaffMember>, depts: set<string>)
    requires forall k :: 0 <= k < |staff| ==> staff[k].department in depts
    ensures MembersIn(staff, depts) == staff
  {
    if staff != [] {
      var init := staff[..|staff| - 1];
      assert forall k :: 0 <= k < |init| ==> staff[k] == init[k];
      MembersInEveryDepartment(init, depts);
      assert init + [staff[|staff| - 1]] == staff;
    }
  }

  /** The groups for distinct departments hold, together, the members of those departments. */
  lemma {:induction false} FlattenGroups(staff: seq<StaffMember>, ds: seq<string>)
    requires forall i, j :: 0 <= i < j < |ds| ==> ds[i] != ds[j]
    ensures multiset(Flatten(GroupsFor(staff, ds))) == multiset(MembersIn(staff, set d | d in ds))
  {
    if ds == [] {
      assert (set d | d in ds) == {};
      MembersInNone(staff);
    } else {
      var rest := ds[1..];
      var later := set d | d in rest;
      FlattenGroups(staff, rest);
      assert ds[0] !in later by {
        forall j | 0 <= j < |rest| ensures rest[j] != ds[0] {
          assert rest[j] == ds[j + 1];
        }
      }
      assert (set d | d in ds) == later + {ds[0]};
      MembersInAddDepartment(staff, ds[0], later);
    }
  }

  /** Selecting by the empty set of departments selects nobody. */
  lemma {:induction false} MembersInNone(staff: seq<StaffMember>)
    ensures MembersIn(staff, {}) == []
  {
    if staff != [] {
      MembersInNone(staff[..|staff| - 1]);
    }
  }

  /**
   * The directory is a partition of the roster: taken together, its groups hold every
   * staff member exactly as many times as the roster does.
   */
  lemma DirectoryIsPartition(staff: seq<StaffMember>)
    ensures multiset(Flatten(StaffDirectory(staff))) == multiset(staff)
  {
    var ds := Departments(staff);
    FlattenGroups(staff, ds);
    MembersInEveryDepartment(staff, set d | d in ds);
  }

  /** Each staff member is listed under exactly one department: their own. */
  lemma ListedUnderOneDepartment(staff: seq<StaffMember>, k: nat)
    requires k < |staff|
    ensures var dir := StaffDirectory(staff);
      exists g :: 0 <= g < |dir| && dir[g].department == staff[k].department && staff[k] in dir[g].members
    ensures var dir := StaffDirectory(staff);
      forall g :: 0 <= g < |dir| && staff[k] in dir[g].members ==> dir[g].department == staff[k].department
    ensures var dir := StaffDirectory(staff);
      forall g, h :: 0 <= g < h < |dir| ==> dir[g].department != dir[h].department
  {
    var ds := Departments(staff);
    var dir := StaffDirectory(staff);
    var g :| 0 <= g < |ds| && ds[g] == staff[k].department;
    forall h | 0 <= h < |ds| ensures dir[h] == Group(ds[h], Members(staff, ds[h])) {
      GroupAt(staff, ds, h);
    }
  }
}
