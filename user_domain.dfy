/**
 * Entities of the user lifecycle service (users, departments, roles, project
 * assignments), the calls the service makes on its collaborators, and the pure
 * functions that specify the service's queries and cascades.
 */
module UserDomain {
  import opened Wrappers

  /** A point in time; the clock is read by the caller and passed in. */
  type Date = int

  datatype DateRange = DateRange(dateStart: Option<Date>, dateEnd: Option<Date>)

  datatype Project = Project(projectId: int, active: bool)

  datatype ProjectAssignment = ProjectAssignment(
    assignmentId: int,
    dateStart: Option<Date>,
    dateEnd: Option<Date>,
    project: Option<Project>)

  /** Roles are a fixed catalog identified by their role id. */
  datatype UserRole = UserRole(roleId: string)

  const ROLE_PROJECTMANAGER: string := "ROLE_PROJECTMANAGER"
  const PROJECTMANAGER: UserRole := UserRole(ROLE_PROJECTMANAGER)

  /**
   * A user record. `None` stands for a Java null; the department is referenced
   * by its id. `inactiveProjectAssignments` and `deletable` are transient: they
   * are only filled in on the copy a query returns.
   */
  datatype User = User(
    userId: Option<int>,
    username: string,
    password: Option<string>,
    salt: Option<int>,
    email: string,
    firstName: string,
    lastName: string,
    active: bool,
    department: Option<int>,
    userRoles: set<UserRole>,
    projectAssignments: Option<set<ProjectAssignment>>,
    inactiveProjectAssignments: Option<set<ProjectAssignment>>,
    deletable: bool)

  /** The record `new User()` starts from: no id, no password, no salt. */
  const BLANK_USER: User := User(None, "", None, None, "", "", "", false, None, {}, None, None, false)

  datatype UserDepartment = UserDepartment(
    departmentId: Option<int>,
    name: string,
    code: string,
    deletable: bool)

  /** Hours booked on one assignment, as the aggregate report service returns them. */
  datatype AssignmentAggregate = AssignmentAggregate(assignmentId: int, hours: int)

  datatype ServiceError = ObjectNotFound | ObjectNotUnique

  /** A call the service makes on a collaborator or on a persistence gateway. */
  datatype Call =
    | HoursPerAssignment(assignmentIds: set<int>)
    | PersistUser(userId: int)
    | PersistDepartment(departmentId: int)
    | MergeDepartment(departmentId: int)
    | AssignToDefaultProjects(username: string)
    | DeletePmWithoutProject
    | DeleteTimesheetEntries(userId: int)
    | DeleteUser(userId: int)
    | DeleteDepartment(departmentId: int)

  // ---------------------------------------------------------------------------
  // Assignment activity

  /** An assignment is active when `today` is inside its date range and its project is present and active. */
  predicate IsActiveAssignment(a: ProjectAssignment, today: Date, withinRange: (Date, DateRange) -> bool)
  {
    withinRange(today, DateRange(a.dateStart, a.dateEnd)) && a.project.Some? && a.project.value.active
  }

  function ActiveAssignments(s: set<ProjectAssignment>, today: Date, withinRange: (Date, DateRange) -> bool): set<ProjectAssignment>
  {
    set a | a in s && IsActiveAssignment(a, today, withinRange)
  }

  function InactiveAssignments(s: set<ProjectAssignment>, today: Date, withinRange: (Date, DateRange) -> bool): set<ProjectAssignment>
  {
    set a | a in s && !IsActiveAssignment(a, today, withinRange)
  }

  function AssignmentIds(s: set<ProjectAssignment>): set<int>
  {
    set a | a in s :: a.assignmentId
  }

  // ---------------------------------------------------------------------------
  // Lookups of the user gateway over the user table (a sequence in listing order)

  /** findById: the position of the record with that id, if any. */
  function IndexOfId(users: seq<User>, id: int): (r: Option<nat>)
    ensures r.Some? ==> r.value < |users| && users[r.value].userId == Some(id)
    ensures r.Some? ==> forall j :: 0 <= j < r.value ==> users[j].userId != Some(id)
    ensures r.None? ==> forall j :: 0 <= j < |users| ==> users[j].userId != Some(id)
  {
    if |users| == 0 then None
    else if users[0].userId == Some(id) then Some(0)
    else match IndexOfId(users[1..], id)
      case None => None
      case Some(j) => Some(j + 1)
  }

  /** findByUsername: the position of the record with that username, if any. */
  function IndexOfUsername(users: seq<User>, username: string): (r: Option<nat>)
    ensures r.Some? ==> r.value < |users| && users[r.value].username == username
    ensures r.Some? ==> forall j :: 0 <= j < r.value ==> users[j].username != username
    ensures r.None? ==> forall j :: 0 <= j < |users| ==> users[j].username != username
  {
    if |users| == 0 then None
    else if users[0].username == username then Some(0)
    else match IndexOfUsername(users[1..], username)
      case None => None
      case Some(j) => Some(j + 1)
  }

  /** findActiveUsers: the active records, in listing order. */
  function ActiveUsers(users: seq<User>): seq<User>
  {
    if users == [] then []
    else ActiveUsers(users[..|users| - 1]) + (if users[|users| - 1].active then [users[|users| - 1]] else [])
  }

  /** The users of `s` whose role set contains `role`, in the order of `s`. */
  function UsersWithRole(s: seq<User>, role: UserRole): seq<User>
  {
    if s == [] then []
    else UsersWithRole(s[..|s| - 1], role) + (if role in s[|s| - 1].userRoles then [s[|s| - 1]] else [])
  }

  lemma {:induction false} ActiveUsersMembers(users: seq<User>, u: User)
    ensures u in ActiveUsers(users) <==> u in users && u.active
  {
    if users != [] {
      var init := users[..|users| - 1];
      ActiveUsersMembers(init, u);
      assert users == init + [users[|users| - 1]];
    }
  }

  lemma {:induction false} UsersWithRoleMembers(s: seq<User>, role: UserRole, u: User)
    ensures u in UsersWithRole(s, role) <==> u in s && role in u.userRoles
  {
    if s != [] {
      var init := s[..|s| - 1];
      UsersWithRoleMembers(init, role, u);
      assert s == init + [s[|s| - 1]];
    }
  }

  /** The role-filtered active-user list holds exactly the active users that have the role. */
  lemma ActiveUsersWithRoleMembers(users: seq<User>, role: UserRole, u: User)
    ensures u in UsersWithRole(ActiveUsers(users), role) <==> u in users && u.active && role in u.userRoles
  {
    UsersWithRoleMembers(ActiveUsers(users), role, u);
    ActiveUsersMembers(users, u);
  }

  // ---------------------------------------------------------------------------
  // The role catalog

  predicate Distinct<T(==)>(s: seq<T>)
  {
    forall i, j :: 0 <= i < j < |s| ==> s[i] != s[j]
  }

  /** java.util.List.remove(Object): drops the first occurrence of `x`, if any, and keeps the rest in order. */
  function RemoveFirst<T(==)>(s: seq<T>, x: T): (r: seq<T>)
    ensures x !in s ==> r == s
    ensures x in s ==> |r| == |s| - 1
    ensures multiset(r) == multiset(s) - multiset{x}
    ensures x in s ==> r == s[..FirstIndex(s, x)] + s[FirstIndex(s, x) + 1..]
  {
    if x !in s then s
    else
      var k := FirstIndex(s, x);
      assert s == s[..k] + [x] + s[k + 1..];
      s[..k] + s[k + 1..]
  }

  /** Past a head that is not `x`, removal keeps the head and removes from the tail. */
  lemma RemoveFirstCons<T>(s: seq<T>, x: T)
    requires s != [] && s[0] != x
    ensures RemoveFirst(s, x) == [s[0]] + RemoveFirst(s[1..], x)
  {
    assert s == [s[0]] + s[1..];
    if x in s {
      assert x in s[1..];
      var k := FirstIndex(s[1..], x);
      assert FirstIndex(s, x) == k + 1;
      assert s[..k + 1] == [s[0]] + s[1..][..k];
      assert s[k + 2..] == s[1..][k + 1..];
    }
  }

  /** The position of the first occurrence of `x`. */
  function FirstIndex<T(==)>(s: seq<T>, x: T): (k: nat)
    requires x in s
    ensures k < |s| && s[k] == x && x !in s[..k]
  {
    if s[0] == x then 0
    else
      assert s == [s[0]] + s[1..];
      assert s[..FirstIndex(s[1..], x) + 1] == [s[0]] + s[1..][..FirstIndex(s[1..], x)];
      FirstIndex(s[1..], x) + 1
  }

  /** Every occurrence of `x` dropped, the rest in order. */
  function Without<T(==)>(s: seq<T>, x: T): seq<T>
  {
    if s == [] then [] else (if s[0] == x then [] else [s[0]]) + Without(s[1..], x)
  }

  lemma {:induction false} WithoutAbsent<T>(s: seq<T>, x: T)
    requires x !in s
    ensures Without(s, x) == s
  {
    if s != [] {
      WithoutAbsent(s[1..], x);
    }
  }

  /** On a catalog without duplicates, removing the first occurrence removes them all. */
  lemma {:induction false} RemoveFirstOfDistinct<T>(s: seq<T>, x: T)
    requires Distinct(s)
    ensures RemoveFirst(s, x) == Without(s, x)
  {
    if s != [] {
      assert Distinct(s[1..]) by {
        forall i, j | 0 <= i < j < |s[1..]| ensures s[1..][i] != s[1..][j] {
          assert s[i + 1] != s[j + 1];
        }
      }
      if s[0] == x {
        assert x !in s[1..] by {
          forall j | 0 <= j < |s[1..]| ensures s[1..][j] != x {
            assert s[0] != s[j + 1];
          }
        }
        assert FirstIndex(s, x) == 0;
        assert RemoveFirst(s, x) == s[1..] by {
          assert s[..0] + s[1..] == s[1..];
        }
        WithoutAbsent(s[1..], x);
      } else {
        RemoveFirstCons(s, x);
        RemoveFirstOfDistinct(s[1..], x);
      }
    }
  }

  lemma {:induction false} WithoutMembers<T>(s: seq<T>, x: T, y: T)
    ensures y in Without(s, x) <==> y in s && y != x
  {
    if s != [] {
      WithoutMembers(s[1..], x, y);
      assert s == [s[0]] + s[1..];
    }
  }

  // ---------------------------------------------------------------------------
  // Invariants of the user table

  /** Every stored record has an id, and all ids are below the next id the gateway hands out. */
  predicate IdsBelow(users: seq<User>, bound: int)
  {
    forall i :: 0 <= i < |users| ==> users[i].userId.Some? && users[i].userId.value < bound
  }

  predicate UniqueIds(users: seq<User>)
  {
    forall i, j :: 0 <= i < j < |users| ==> users[i].userId != users[j].userId
  }

  predicate UniqueUsernames(users: seq<User>)
  {
    forall i, j :: 0 <= i < j < |users| ==> users[i].username != users[j].username
  }

  /** editUser copies the profile of `u` onto the stored record `db`; id, password, salt and assignments stay. */
  function WithProfileOf(db: User, u: User): User
  {
    db.(active := u.active, email := u.email, firstName := u.firstName, lastName := u.lastName,
        department := u.department, username := u.username, userRoles := u.userRoles)
  }

  // ---------------------------------------------------------------------------
  // Deletion

  function Elements(s: seq<int>): set<int>
  {
    set k | k in s
  }

  predicate HasIdIn(u: User, ids: set<int>)
  {
    u.userId.Some? && u.userId.value in ids
  }

  /** The user table once the records with the given ids are deleted. */
  function WithoutIds(users: seq<User>, ids: set<int>): seq<User>
  {
    if users == [] then []
    else WithoutIds(users[..|users| - 1], ids) + (if HasIdIn(users[|users| - 1], ids) then [] else [users[|users| - 1]])
  }

  lemma {:induction false} WithoutIdsMembers(users: seq<User>, ids: set<int>, u: User)
    ensures u in WithoutIds(users, ids) <==> u in users && !HasIdIn(u, ids)
  {
    if users != [] {
      var init := users[..|users| - 1];
      WithoutIdsMembers(init, ids, u);
      assert users == init + [users[|users| - 1]];
    }
  }

  lemma {:induction false} WithoutNoIds(users: seq<User>)
    ensures WithoutIds(users, {}) == users
  {
    if users != [] {
      WithoutNoIds(users[..|users| - 1]);
    }
  }

  /** Deleting ids `a`, then ids `b`, is deleting `a + b`. */
  lemma {:induction false} WithoutIdsTwice(users: seq<User>, a: set<int>, b: set<int>)
    ensures WithoutIds(WithoutIds(users, a), b) == WithoutIds(users, a + b)
  {
    if users != [] {
      var init := users[..|users| - 1];
      var last := users[|users| - 1];
      WithoutIdsTwice(init, a, b);
      if !HasIdIn(last, a) {
        var w := WithoutIds(init, a) + [last];
        assert WithoutIds(users, a) == w;
        assert w[..|w| - 1] == WithoutIds(init, a) && w[|w| - 1] == last;
        assert WithoutIds(w, b) == WithoutIds(init, a + b) + (if HasIdIn(last, b) then [] else [last]);
        assert HasIdIn(last, a + b) == HasIdIn(last, b);
      } else {
        assert WithoutIds(users, a) == WithoutIds(init, a);
        assert HasIdIn(last, a + b);
      }
    }
  }

  /** Deleting records keeps every invariant of the user table. */
  lemma {:induction false} WithoutIdsKeepsInvariants(users: seq<User>, ids: set<int>, bound: int)
    requires IdsBelow(users, bound) && UniqueIds(users) && UniqueUsernames(users)
    ensures var w := WithoutIds(users, ids); IdsBelow(w, bound) && UniqueIds(w) && UniqueUsernames(w)
  {
    if users != [] {
      var init := users[..|users| - 1];
      var last := users[|users| - 1];
      WithoutIdsKeepsInvariants(init, ids, bound);
      var w := WithoutIds(init, ids);
      forall i | 0 <= i < |w|
        ensures w[i].userId.Some? && w[i].userId.value < bound
        ensures w[i].userId != last.userId && w[i].username != last.username
      {
        WithoutIdsMembers(init, ids, w[i]);
        var k :| 0 <= k < |init| && init[k] == w[i];
        assert users[k] == w[i];
      }
    }
  }

  /** The ids of the members of a department (its `users` collection), in listing order. */
  function MemberIds(users: seq<User>, departmentId: int): (r: seq<int>)
    requires forall i :: 0 <= i < |users| ==> users[i].userId.Some?
    ensures forall k :: k in r <==> exists i :: 0 <= i < |users| && users[i].userId == Some(k) && users[i].department == Some(departmentId)
    ensures UniqueIds(users) ==> Distinct(r)
  {
    if users == [] then []
    else
      var last := users[|users| - 1];
      var init := MemberIds(users[..|users| - 1], departmentId);
      if last.department == Some(departmentId) then init + [last.userId.value] else init
  }

  /**
   * One step of the department cascade: the next member is still stored, and
   * deleting it extends the set of deleted members by one.
   */
  lemma CascadeStep(before: seq<User>, departmentId: int, members: seq<int>, i: nat, users: seq<User>)
    requires forall j :: 0 <= j < |before| ==> before[j].userId.Some?
    requires UniqueIds(before)
    requires members == MemberIds(before, departmentId)
    requires i < |members|
    requires users == WithoutIds(before, Elements(members[..i]))
    ensures IndexOfId(users, members[i]).Some?
    ensures WithoutIds(users, {members[i]}) == WithoutIds(before, Elements(members[..i + 1]))
  {
    var m := members[i];
    var done := Elements(members[..i]);
    assert m !in done;
    var j :| 0 <= j < |before| && before[j].userId == Some(m) && before[j].department == Some(departmentId);
    WithoutIdsMembers(before, done, before[j]);
    WithoutIdsTwice(before, done, {m});
    var prefix := members[..i + 1];
    assert prefix == members[..i] + [m];
    assert Elements(prefix) == done + {m};
  }

  /**
   * Deleting every member of a department leaves exactly the users of the
   * other departments (and those without one), in listing order.
   */
  lemma DepartmentMembersDeleted(users: seq<User>, departmentId: int, u: User)
    requires forall i :: 0 <= i < |users| ==> users[i].userId.Some?
    requires UniqueIds(users)
    ensures var members := MemberIds(users, departmentId);
      u in WithoutIds(users, Elements(members)) <==> u in users && u.department != Some(departmentId)
  {
    var members := MemberIds(users, departmentId);
    var ids := Elements(members);
    WithoutIdsMembers(users, ids, u);
    if u in users {
      var j :| 0 <= j < |users| && users[j] == u;
      if HasIdIn(u, ids) {
        var i :| 0 <= i < |users| && users[i].userId == u.userId && users[i].department == Some(departmentId);
        assert i == j;
      }
    }
  }

  /** The calls deleteUser makes for each id in turn: timesheet entries, then the record. */
  function DeleteCascade(ids: seq<int>): seq<Call>
  {
    if ids == [] then [] else DeleteCascade(ids[..|ids| - 1]) + [DeleteTimesheetEntries(ids[|ids| - 1]), DeleteUser(ids[|ids| - 1])]
  }

  /** One step of the department cascade on the call trace. */
  lemma CascadeCallsStep(prior: seq<Call>, members: seq<int>, i: nat, callsBefore: seq<Call>, callsAfter: seq<Call>)
    requires i < |members|
    requires callsBefore == prior + DeleteCascade(members[..i])
    requires callsAfter == callsBefore + [DeleteTimesheetEntries(members[i]), DeleteUser(members[i])]
    ensures callsAfter == prior + DeleteCascade(members[..i + 1])
  {
    assert members[..i + 1][..i] == members[..i];
  }

  /** In a cascade, the k-th user's timesheet entries are deleted right before the k-th user. */
  lemma {:induction false} DeleteCascadeOrder(ids: seq<int>, k: nat)
    requires k < |ids|
    ensures |DeleteCascade(ids)| == 2 * |ids|
    ensures DeleteCascade(ids)[2 * k] == DeleteTimesheetEntries(ids[k])
    ensures DeleteCascade(ids)[2 * k + 1] == DeleteUser(ids[k])
  {
    var init := ids[..|ids| - 1];
    if k < |ids| - 1 {
      DeleteCascadeOrder(init, k);
    } else if init != [] {
      DeleteCascadeOrder(init, 0);
    }
  }
}
