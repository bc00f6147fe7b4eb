/**
 * The user lifecycle service over an in-memory store: the user table, the
 * departments keyed by id and the role catalog stand for the persistence
 * gateways, and `calls` records, in order, the calls that write to a gateway,
 * the calls into collaborator services that have an effect, and the hours
 * aggregation query; gateway lookups and the other side-effect-free
 * collaborators are not recorded. Each operation is one atomic step on that store.
 */
module UserService {
  import opened Wrappers
  import opened UserDomain

  class UserServiceImpl {
    /** The user table, in the order the gateway lists it. */
    var users: seq<User>
    var departments: map<int, UserDepartment>
    var roleCatalog: seq<UserRole>
    /** The ids the gateways hand out to records persisted without one. */
    var nextUserId: int
    var nextDepartmentId: int
    /** The gateway writes, effectful collaborator calls and aggregation queries made, oldest first. */
    var calls: seq<Call>

    /** Collaborators whose code is not part of this model. */
    const withinRange: (Date, DateRange) -> bool
    const hoursPerAssignment: set<int> -> seq<AssignmentAggregate>
    const isEmptyAggregateList: seq<AssignmentAggregate> -> bool
    const encode: (string, int) -> string

    ghost predicate Valid()
      reads this
    {
      && IdsBelow(users, nextUserId)
      && UniqueIds(users)
      && UniqueUsernames(users)
      && (forall k :: k in departments ==> departments[k].departmentId == Some(k) && k < nextDepartmentId)
      && (forall k, l :: k in departments && l in departments && k != l ==>
            !SameNameAndCode(departments[k], departments[l]))
      && Distinct(roleCatalog)
    }

    static predicate SameNameAndCode(d: UserDepartment, e: UserDepartment)
    {
      d.name == e.name && d.code == e.code
    }

    constructor (roleCatalog: seq<UserRole>,
                 withinRange: (Date, DateRange) -> bool,
                 hoursPerAssignment: set<int> -> seq<AssignmentAggregate>,
                 isEmptyAggregateList: seq<AssignmentAggregate> -> bool,
                 encode: (string, int) -> string)
      requires Distinct(roleCatalog)
      ensures Valid()
      ensures users == [] && departments == map[] && calls == []
      ensures this.roleCatalog == roleCatalog
      ensures this.withinRange == withinRange && this.hoursPerAssignment == hoursPerAssignment
      ensures this.isEmptyAggregateList == isEmptyAggregateList && this.encode == encode
    {
      this.users := [];
      this.departments := map[];
      this.roleCatalog := roleCatalog;
      this.nextUserId := 0;
      this.nextDepartmentId := 0;
      this.calls := [];
      this.withinRange := withinRange;
      this.hoursPerAssignment := hoursPerAssignment;
      this.isEmptyAggregateList := isEmptyAggregateList;
      this.encode := encode;
    }

    /** The stored record with that id can be retrieved: it exists and its assignment set is not null. */
    ghost predicate Retrievable(userId: int)
      reads this
    {
      IndexOfId(users, userId).Some? && users[IndexOfId(users, userId).value].projectAssignments.Some?
    }

    ghost function StoredAssignments(userId: int): set<ProjectAssignment>
      reads this
      requires Retrievable(userId)
    {
      users[IndexOfId(users, userId).value].projectAssignments.value
    }

    // -------------------------------------------------------------------------
    // Queries

    /**
     * getUser(Integer): the stored record, with its assignments split into the
     * active ones (kept in `projectAssignments`) and the inactive ones. The
     * stored record itself is not changed.
     */
    method GetUser(userId: int, today: Date) returns (r: Result<User, ServiceError>)
      ensures r.Err? <==> !Retrievable(userId)
      ensures r.Err? ==> r.error == ObjectNotFound
      ensures r.Ok? ==>
        var stored := users[IndexOfId(users, userId).value];
        var all := stored.projectAssignments.value;
        && r.value.projectAssignments.Some? && r.value.inactiveProjectAssignments.Some?
        && r.value == stored.(projectAssignments := r.value.projectAssignments,
                              inactiveProjectAssignments := r.value.inactiveProjectAssignments)
        && r.value.projectAssignments.value + r.value.inactiveProjectAssignments.value == all
        && r.value.projectAssignments.value !! r.value.inactiveProjectAssignments.value
        && (forall a :: a in r.value.projectAssignments.value ==> IsActiveAssignment(a, today, withinRange))
        && (forall a :: a in r.value.inactiveProjectAssignments.value ==> !IsActiveAssignment(a, today, withinRange))
    {
      var index := IndexOfId(users, userId);
      if index.None? || users[index.value].projectAssignments.None? {
        return Err(ObjectNotFound);
      }
      var user := users[index.value];
      var all := user.projectAssignments.value;
      var inactiveAssignments: set<ProjectAssignment> := {};
      var remaining := all;
      while remaining != {}
        invariant remaining <= all
        invariant inactiveAssignments <= all - remaining
        invariant forall a :: a in all - remaining ==>
          (a in inactiveAssignments <==> !IsActiveAssignment(a, today, withinRange))
        decreases remaining
      {
        var assignment :| assignment in remaining;
        var assignmentRange := DateRange(assignment.dateStart, assignment.dateEnd);
        if !withinRange(today, assignmentRange) || assignment.project.None? || !assignment.project.value.active {
          inactiveAssignments := inactiveAssignments + {assignment};
        }
        remaining := remaining - {assignment};
      }
      user := user.(projectAssignments := Some(all - inactiveAssignments),
                    inactiveProjectAssignments := Some(inactiveAssignments));
      r := Ok(user);
    }

    /**
     * getUserAndCheckDeletability: getUser, then `deletable` is true when the
     * user has no assignment at all (the aggregate service is not asked) and
     * otherwise whether no hours are booked on any of its assignments.
     */
    method GetUserAndCheckDeletability(userId: int, today: Date) returns (r: Result<User, ServiceError>)
      modifies this`calls
      ensures r.Err? <==> !Retrievable(userId)
      ensures r.Err? ==> r.error == ObjectNotFound && calls == old(calls)
      ensures r.Ok? ==>
        var stored := users[IndexOfId(users, userId).value];
        var all := StoredAssignments(userId);
        && r.value == stored.(projectAssignments := Some(ActiveAssignments(all, today, withinRange)),
                              inactiveProjectAssignments := Some(InactiveAssignments(all, today, withinRange)),
                              deletable := r.value.deletable)
        && (all == {} ==> r.value.deletable && calls == old(calls))
        && (all != {} ==>
              && r.value.deletable == isEmptyAggregateList(hoursPerAssignment(AssignmentIds(all)))
              && calls == old(calls) + [HoursPerAssignment(AssignmentIds(all))])
    {
      r := GetUser(userId, today);
      if r.Err? {
        return;
      }
      var user := r.value;
      ghost var all := StoredAssignments(userId);
      var active := user.projectAssignments;
      var inactive := user.inactiveProjectAssignments;
      assert active.value == ActiveAssignments(all, today, withinRange);
      assert inactive.value == InactiveAssignments(all, today, withinRange);
      if (active.None? || |active.value| == 0) && (inactive.None? || |inactive.value| == 0) {
        user := user.(deletable := true);
      } else {
        var assignmentIds := AssignmentIds(active.value) + AssignmentIds(inactive.value);
        assert assignmentIds == AssignmentIds(all);
        var aggregates := hoursPerAssignment(assignmentIds);
        calls := calls + [HoursPerAssignment(assignmentIds)];
        user := user.(deletable := isEmptyAggregateList(aggregates));
      }
      r := Ok(user);
    }

    /** getUserDepartment: NotFound for an unknown id; deletable exactly when no user belongs to it. */
    method GetUserDepartment(departmentId: int) returns (r: Result<UserDepartment, ServiceError>)
      requires Valid()
      ensures departmentId !in departments ==> r == Err(ObjectNotFound)
      ensures departmentId in departments ==>
        && r.Ok?
        && r.value == departments[departmentId].(deletable := r.value.deletable)
        && (r.value.deletable <==> forall i :: 0 <= i < |users| ==> users[i].department != Some(departmentId))
    {
      if departmentId !in departments {
        return Err(ObjectNotFound);
      }
      var userDepartment := departments[departmentId];
      var members := MemberIds(users, departmentId);
      r := Ok(userDepartment.(deletable := |members| == 0));
      if |members| != 0 {
        assert members[0] in members;
      }
    }

    /** getUserRoles: the assignable roles, that is the catalog without the project-manager role. */
    method GetUserRoles() returns (userRoles: seq<UserRole>)
      requires Valid()
      ensures userRoles == Without(roleCatalog, PROJECTMANAGER)
      ensures forall role :: role in userRoles <==> role in roleCatalog && role != PROJECTMANAGER
    {
      userRoles := RemoveFirst(roleCatalog, PROJECTMANAGER);
      RemoveFirstOfDistinct(roleCatalog, PROJECTMANAGER);
      forall role ensures role in userRoles <==> role in roleCatalog && role != PROJECTMANAGER {
        WithoutMembers(roleCatalog, PROJECTMANAGER, role);
      }
    }

    /** getUsers(UserRole): the active users whose role set contains `userRole`, in listing order. */
    method GetUsersWithRole(userRole: UserRole) returns (validUsers: seq<User>)
      ensures validUsers == UsersWithRole(ActiveUsers(users), userRole)
      ensures forall u :: u in validUsers <==> u in users && u.active && userRole in u.userRoles
    {
      var activeUsers := ActiveUsers(users);
      validUsers := [];
      var i := 0;
      while i < |activeUsers|
        invariant 0 <= i <= |activeUsers|
        invariant validUsers == UsersWithRole(activeUsers[..i], userRole)
      {
        var user := activeUsers[i];
        assert activeUsers[..i + 1][..i] == activeUsers[..i];
        if userRole in user.userRoles {
          validUsers := validUsers + [user];
        }
        i := i + 1;
      }
      assert activeUsers[..i] == activeUsers;
      forall u ensures u in validUsers <==> u in users && u.active && userRole in u.userRoles {
        ActiveUsersWithRoleMembers(users, userRole, u);
      }
    }

    // -------------------------------------------------------------------------
    // The user gateway's persist (insert-or-update)

    /**
     * Stores `u` under its id, replacing the record with that id, or under a
     * fresh id when it has none. The caller has checked that no other record
     * holds its username.
     */
    method PersistUserRecord(u: User) returns (saved: User)
      requires Valid()
      requires forall j :: 0 <= j < |users| && users[j].username == u.username ==> users[j].userId == u.userId
      modifies this
      ensures Valid()
      ensures departments == old(departments) && nextDepartmentId == old(nextDepartmentId)
      ensures roleCatalog == old(roleCatalog)
      ensures saved == u.(userId := saved.userId) && saved.userId.Some?
      ensures u.userId.Some? ==> saved == u
      ensures u.userId.None? ==> saved.userId == Some(old(nextUserId))
      ensures match IndexOfId(old(users), saved.userId.value)
        case Some(i) => users == old(users)[i := saved]
        case None => users == old(users) + [saved]
      ensures calls == old(calls) + [PersistUser(saved.userId.value)]
    {
      var id: int;
      if u.userId.None? {
        id := nextUserId;
      } else {
        id := u.userId.value;
      }
      saved := u.(userId := Some(id));
      var index := IndexOfId(users, id);
      if index.Some? {
        users := users[index.value := saved];
      } else {
        users := users + [saved];
        if nextUserId <= id {
          nextUserId := id + 1;
        }
      }
      calls := calls + [PersistUser(id)];
    }

    // -------------------------------------------------------------------------
    // Commands

    /**
     * persistUserDepartment: inserts when no department has the same name and
     * code, updates when the one that has them is this department, and fails
     * with NotUnique, changing nothing, when it is another department.
     */
    method PersistUserDepartment(department: UserDepartment) returns (r: Result<UserDepartment, ServiceError>)
      requires Valid()
      modifies this
      ensures Valid()
      ensures users == old(users) && nextUserId == old(nextUserId) && roleCatalog == old(roleCatalog)
      ensures r.Err? <==> exists k :: k in old(departments) && SameNameAndCode(old(departments)[k], department) &&
                                      department.departmentId != Some(k)
      ensures r.Err? ==> r.error == ObjectNotUnique && departments == old(departments) && calls == old(calls)
      ensures (forall k :: k in old(departments) ==> !SameNameAndCode(old(departments)[k], department)) ==>
        && r.Ok?
        && r.value == department.(departmentId := r.value.departmentId)
        && r.value.departmentId.Some?
        && (department.departmentId.Some? ==> r.value == department)
        && (department.departmentId.None? ==> r.value.departmentId == Some(old(nextDepartmentId)))
        && departments == old(departments)[r.value.departmentId.value := r.value]
        && calls == old(calls) + [PersistDepartment(r.value.departmentId.value)]
      ensures forall k :: k in old(departments) && SameNameAndCode(old(departments)[k], department) &&
                          department.departmentId == Some(k) ==>
        && r == Ok(department)
        && departments == old(departments)[k := department]
        && calls == old(calls) + [MergeDepartment(k)]
    {
      if !exists k :: k in departments && SameNameAndCode(departments[k], department) {
        var id: int;
        if department.departmentId.None? {
          id := nextDepartmentId;
        } else {
          id := department.departmentId.value;
        }
        var saved := department.(departmentId := Some(id));
        departments := departments[id := saved];
        if nextDepartmentId <= id {
          nextDepartmentId := id + 1;
        }
        calls := calls + [PersistDepartment(id)];
        r := Ok(saved);
      } else {
        var otherDept :| otherDept in departments && SameNameAndCode(departments[otherDept], department);
        forall k | k in departments && SameNameAndCode(departments[k], department)
          ensures k == otherDept
        {
        }
        if department.departmentId == Some(otherDept) {
          departments := departments[otherDept := department];
          calls := calls + [MergeDepartment(otherDept)];
          r := Ok(department);
        } else {
          r := Err(ObjectNotUnique);
        }
      }
    }

    /**
     * editUser: an upsert keyed by username. It fails with NotUnique when
     * another user holds the username; otherwise it copies the profile fields
     * onto the record holding that username, or onto a new record when no
     * user holds it, and persists that record. Password and salt are not touched.
     */
    method EditUser(user: User) returns (r: Result<User, ServiceError>)
      requires Valid()
      modifies this
      ensures Valid()
      ensures departments == old(departments) && roleCatalog == old(roleCatalog)
      ensures r.Err? <==> IndexOfUsername(old(users), user.username).Some? &&
                          old(users)[IndexOfUsername(old(users), user.username).value].userId != user.userId
      ensures r.Err? ==> r.error == ObjectNotUnique && users == old(users) && calls == old(calls)
      ensures r.Ok? ==>
        && r.value.active == user.active && r.value.email == user.email
        && r.value.firstName == user.firstName && r.value.lastName == user.lastName
        && r.value.department == user.department && r.value.username == user.username
        && r.value.userRoles == user.userRoles
        && r.value.userId.Some?
        && calls == old(calls) + [PersistUser(r.value.userId.value)]
      ensures r.Ok? && IndexOfUsername(old(users), user.username).Some? ==>
        var i := IndexOfUsername(old(users), user.username).value;
        && r.value == WithProfileOf(old(users)[i], user)
        && r.value.password == old(users)[i].password && r.value.salt == old(users)[i].salt
        && users == old(users)[i := r.value]
      ensures r.Ok? && IndexOfUsername(old(users), user.username).None? ==>
        && r.value == WithProfileOf(BLANK_USER, user).(userId := Some(old(nextUserId)))
        && r.value.password.None? && r.value.salt.None?
        && users == old(users) + [r.value]
    {
      var found := IndexOfUsername(users, user.username);
      var dbUser: User;
      if found.Some? && users[found.value].userId != user.userId {
        return Err(ObjectNotUnique);
      } else if found.None? {
        dbUser := BLANK_USER;
      } else {
        dbUser := users[found.value];
      }
      dbUser := dbUser.(active := user.active);
      dbUser := dbUser.(email := user.email);
      dbUser := dbUser.(firstName := user.firstName);
      dbUser := dbUser.(lastName := user.lastName);
      dbUser := dbUser.(department := user.department);
      dbUser := dbUser.(username := user.username);
      dbUser := dbUser.(userRoles := user.userRoles);
      forall j | 0 <= j < |users| && users[j].username == dbUser.username
        ensures users[j].userId == dbUser.userId
      {
        assert found.Some? && j == found.value;
      }
      if found.None? {
        assert IndexOfId(users, nextUserId).None?;
      }
      dbUser := PersistUserRecord(dbUser);
      r := Ok(dbUser);
    }

    /**
     * newUser: rejects a username held by another user; otherwise draws a salt
     * in [0, 10000), stores the encoded password, has the assignment service
     * attach the default projects and persists the user.
     */
    method NewUser(user: User, password: string) returns (r: Result<User, ServiceError>)
      requires Valid()
      modifies this
      ensures Valid()
      ensures departments == old(departments) && roleCatalog == old(roleCatalog)
      ensures r.Err? <==> IndexOfUsername(old(users), user.username).Some? &&
                          old(users)[IndexOfUsername(old(users), user.username).value].userId != user.userId
      ensures r.Err? ==> r.error == ObjectNotUnique && users == old(users) && calls == old(calls)
      ensures r.Ok? ==>
        && r.value.salt.Some? && 0 <= r.value.salt.value < 10000
        && r.value.password == Some(encode(password, r.value.salt.value))
        && r.value == user.(userId := r.value.userId, salt := r.value.salt, password := r.value.password)
        && r.value.userId.Some?
        && (user.userId.Some? ==> r.value.userId == user.userId)
        && (user.userId.None? ==> r.value.userId == Some(old(nextUserId)))
        && calls == old(calls) + [AssignToDefaultProjects(user.username), PersistUser(r.value.userId.value)]
        && match IndexOfId(old(users), r.value.userId.value)
             case Some(i) => users == old(users)[i := r.value]
             case None => users == old(users) + [r.value]
    {
      var found := IndexOfUsername(users, user.username);
      if found.Some? && users[found.value].userId != user.userId {
        return Err(ObjectNotUnique);
      }
      var salt :| 0 <= salt < 10000;
      var newUser := user.(salt := Some(salt));
      newUser := newUser.(password := Some(encode(password, salt)));
      calls := calls + [AssignToDefaultProjects(user.username)];
      forall j | 0 <= j < |users| && users[j].username == newUser.username
        ensures users[j].userId == newUser.userId
      {
        assert found.Some? && j == found.value;
      }
      newUser := PersistUserRecord(newUser);
      r := Ok(newUser);
    }

    /**
     * changePassword: false, persisting nothing, for an unknown username;
     * otherwise a fresh salt in [0, 10000), the encoded password, persisted, and true.
     */
    method ChangePassword(username: string, newUnencryptedPassword: string) returns (positiveResult: bool)
      requires Valid()
      modifies this
      ensures Valid()
      ensures departments == old(departments) && roleCatalog == old(roleCatalog)
      ensures positiveResult <==> IndexOfUsername(old(users), username).Some?
      ensures !positiveResult ==> users == old(users) && calls == old(calls)
      ensures positiveResult ==>
        var i := IndexOfUsername(old(users), username).value;
        && |users| == |old(users)|
        && users[i].salt.Some? && 0 <= users[i].salt.value < 10000
        && users == old(users)[i := old(users)[i].(salt := users[i].salt,
                                                   password := Some(encode(newUnencryptedPassword, users[i].salt.value)))]
        && calls == old(calls) + [PersistUser(old(users)[i].userId.value)]
    {
      var found := IndexOfUsername(users, username);
      if found.None? {
        positiveResult := false;
      } else {
        var user := users[found.value];
        var salt :| 0 <= salt < 10000;
        user := user.(salt := Some(salt));
        user := user.(password := Some(encode(newUnencryptedPassword, salt)));
        forall j | 0 <= j < |users| && users[j].username == user.username
          ensures users[j].userId == user.userId
        {
          assert j == found.value;
        }
        var saved := PersistUserRecord(user);
        positiveResult := true;
      }
    }

    /** getAndAddPmRole: the stored user, with the project-manager role added, persisted. */
    method GetAndAddPmRole(userId: int) returns (user: User)
      requires Valid()
      requires IndexOfId(users, userId).Some?
      requires PROJECTMANAGER in roleCatalog
      modifies this
      ensures Valid()
      ensures departments == old(departments) && roleCatalog == old(roleCatalog)
      ensures var i := IndexOfId(old(users), userId).value;
        && user == old(users)[i].(userRoles := old(users)[i].userRoles + {PROJECTMANAGER})
        && users == old(users)[i := user]
        && calls == old(calls) + [PersistUser(userId)]
    {
      var index := IndexOfId(users, userId).value;
      user := users[index];
      var userRole :| userRole in roleCatalog && userRole.roleId == ROLE_PROJECTMANAGER;
      assert userRole == PROJECTMANAGER;
      user := user.(userRoles := user.userRoles + {userRole});
      forall j | 0 <= j < |users| && users[j].username == user.username
        ensures users[j].userId == user.userId
      {
        assert j == index;
      }
      user := PersistUserRecord(user);
    }

    /**
     * validateProjectManagementRoles: promotes the given user, if any, to
     * project manager, then has the gateway drop the project-manager grants no
     * longer backed by a managed project.
     */
    method ValidateProjectManagementRoles(userId: Option<int>) returns (user: Option<User>)
      requires Valid()
      requires userId.Some? ==> IndexOfId(users, userId.value).Some? && PROJECTMANAGER in roleCatalog
      modifies this
      ensures Valid()
      ensures departments == old(departments) && roleCatalog == old(roleCatalog)
      ensures userId.None? ==> user.None? && users == old(users) && calls == old(calls) + [DeletePmWithoutProject]
      ensures userId.Some? ==>
        var i := IndexOfId(old(users), userId.value).value;
        && user == Some(old(users)[i].(userRoles := old(users)[i].userRoles + {PROJECTMANAGER}))
        && users == old(users)[i := user.value]
        && calls == old(calls) + [PersistUser(userId.value), DeletePmWithoutProject]
    {
      user := None;
      if userId.Some? {
        var promoted := GetAndAddPmRole(userId.value);
        user := Some(promoted);
      }
      calls := calls + [DeletePmWithoutProject];
    }

    /** deleteUser: the user's timesheet entries are deleted, then the user record. */
    method DeleteUserById(userId: int)
      requires Valid()
      requires IndexOfId(users, userId).Some?
      modifies this
      ensures Valid()
      ensures departments == old(departments) && roleCatalog == old(roleCatalog)
      ensures users == WithoutIds(old(users), {userId})
      ensures forall u :: u in users <==> u in old(users) && u.userId != Some(userId)
      ensures calls == old(calls) + [DeleteTimesheetEntries(userId), DeleteUser(userId)]
    {
      calls := calls + [DeleteTimesheetEntries(userId)];
      WithoutIdsKeepsInvariants(users, {userId}, nextUserId);
      forall u ensures u in WithoutIds(users, {userId}) <==> u in users && u.userId != Some(userId) {
        WithoutIdsMembers(users, {userId}, u);
      }
      users := WithoutIds(users, {userId});
      calls := calls + [DeleteUser(userId)];
    }

    /**
     * deleteDepartment: every member user is deleted (timesheet entries first,
     * then the record), then the department.
     */
    method DeleteDepartmentById(departmentId: int)
      requires Valid()
      requires departmentId in departments
      modifies this
      ensures Valid()
      ensures roleCatalog == old(roleCatalog)
      ensures departments == old(departments) - {departmentId}
      ensures forall u :: u in users <==> u in old(users) && u.department != Some(departmentId)
      ensures users == WithoutIds(old(users), Elements(MemberIds(old(users), departmentId)))
      ensures calls == old(calls) + DeleteCascade(MemberIds(old(users), departmentId)) + [DeleteDepartment(departmentId)]
    {
      var members := MemberIds(users, departmentId);
      ghost var before := users;
      assert IdsBelow(before, nextUserId) && UniqueIds(before);
      WithoutNoIds(before);
      assert (Elements(members[..0])) == {};
      var i := 0;
      while i < |members|
        invariant 0 <= i <= |members|
        invariant Valid()
        invariant departments == old(departments) && roleCatalog == old(roleCatalog)
        invariant users == WithoutIds(before, Elements(members[..i]))
        invariant calls == old(calls) + DeleteCascade(members[..i])
      {
        CascadeStep(before, departmentId, members, i, users);
        ghost var callsBefore := calls;
        DeleteUserById(members[i]);
        CascadeCallsStep(old(calls), members, i, callsBefore, calls);
        i := i + 1;
      }
      assert members[..i] == members;
      assert users == WithoutIds(before, Elements(members));
      forall u ensures u in users <==> u in before && u.department != Some(departmentId) {
        DepartmentMembersDeleted(before, departmentId, u);
      }
      departments := departments - {departmentId};
      calls := calls + [DeleteDepartment(departmentId)];
    }
  }
}
