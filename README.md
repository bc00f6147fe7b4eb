# eHour user service and Excel report layout, in Dafny

This project models two pieces of eHour, a web-based time-tracking system.

**The user lifecycle service** (`UserServiceImpl`). The service reads and changes users, departments and roles through persistence gateways, and calls collaborator services for hours aggregation, timesheets, default project assignment and password hashing. The model replaces the gateways with an in-memory store held by the class `UserService.UserServiceImpl`:

- `users`: the user table, as a sequence in the gateway's listing order;
- `departments`: a map from department id to department;
- `roleCatalog`: the role table;
- two id counters that hand out ids to records persisted without one.

Three kinds of call are appended to a call trace, `calls`: every call that writes to a gateway, `deletePmWithoutProject` included; every collaborator call that has an effect (deleting timesheet entries, assigning default projects); and the hours-per-assignment aggregation query. Gateway lookups (`findById`, `findByUsername`, `findAll`, `findActiveUsers`, `findOnNameAndCode`, the role lookup) are not recorded. Nor are the date-range test, the empty-aggregate test and the password encoder. The trace states ordering properties ("timesheet entries before the user", "every member before the department") and "persists nothing" properties. The collaborators whose code is not in the model are function-valued constants of the class:

- the date-range test;
- the hours-per-assignment aggregation;
- the empty-aggregate test;
- the password encoder.

The clock is a `today` parameter. `Math.random()` is an arbitrary choice in [0, 10000).

**The Excel layout of a report** (`AbstractExcelReport`). The class `ExcelReport.AbstractExcelReport` fills a `ExcelReport.Sheet`, which stands for a POI worksheet. A sheet has a name, column widths, rows (a map from row index to a map from cell index to cell) and merged regions. A cell is a value together with its list of styles. The module `ExcelLayout` defines the intended layout as functions and proves it:

- where each value and each header lands, given column visibility and nulls;
- the style for each column type;
- the title and date rows;
- the column widths;
- the download file name.

Each method is proved to produce exactly that layout.

Points of the code's behaviour the model keeps as written:

- **User deletability.** A user with no assignments is deletable. A user who has assignments is still deletable when the aggregate result for their assignment ids is empty (UserServiceImpl.java:100-112).
- **Merged region.** `createHeaders` merges cells 0–1 of row 0 whatever row number it is given (AbstractExcelReport.java:184). The model does the same. The only caller passes row 0.

## Model

| member | source | states |
|---|---|---|
| UserService.UserServiceImpl.GetUser | eHour-service/src/main/java/net/rrm/ehour/user/service/UserServiceImpl.java:69-91 | Fails with NotFound exactly when no user has the id or its assignment set is null. Otherwise the result is the stored user with its assignments split in two. The active part and the inactive part are disjoint and together give the stored set. Every active assignment has today in range and a present, active project; every inactive one fails one of these. |
| UserService.UserServiceImpl.GetUserAndCheckDeletability | eHour-service/src/main/java/net/rrm/ehour/user/service/UserServiceImpl.java:97-118 | With no assignments at all, the user is deletable and the aggregation service is not called. Otherwise one aggregation call is made with the ids of all active and inactive assignments, and deletable equals the empty-aggregate test on its result. NotFound changes nothing. |
| UserService.UserServiceImpl.PersistUserDepartment | eHour-service/src/main/java/net/rrm/ehour/user/service/UserServiceImpl.java:144-160 | Fails with NotUnique exactly when another department has the same name and code; the store and the trace are then unchanged. With no match, the department is inserted (a fresh id if it has none). When the match is this department, it is merged under its id. The store invariants, including unique (name, code), are kept. |
| UserService.UserServiceImpl.GetUserDepartment | eHour-service/src/main/java/net/rrm/ehour/user/service/UserServiceImpl.java:162-172 | NotFound for an unknown id. Otherwise it returns the stored department, deletable exactly when no user belongs to it. |
| UserService.UserServiceImpl.GetUserRoles | eHour-service/src/main/java/net/rrm/ehour/user/service/UserServiceImpl.java:191-197 | Returns the catalog in order with the project-manager role removed. A role is in the result exactly when it is in the catalog and is not the project-manager role. |
| UserService.UserServiceImpl.GetUsersWithRole | eHour-service/src/main/java/net/rrm/ehour/user/service/UserServiceImpl.java:330-344 | Returns the active users that hold the role, in listing order (the loop's result equals the filter of the active users). A user is in the result exactly when it is stored, active and holds the role. |
| UserService.UserServiceImpl.PersistUserRecord | eHour-service/src/main/java/net/rrm/ehour/user/service/UserServiceImpl.java:225 | The user gateway's persist: the record replaces the one with its id, or is appended, under a fresh id if it had none. One persist call is recorded. Unique ids and usernames are kept. |
| UserService.UserServiceImpl.EditUser | eHour-service/src/main/java/net/rrm/ehour/user/service/UserServiceImpl.java:202-228 | Fails with NotUnique, changing nothing, exactly when the username belongs to a user with another id. Otherwise the result carries the input's active flag, email, names, department, username and roles. The record holding that username keeps its password and salt. A new record (no password, no salt, fresh id) is created only when no user holds the username. |
| UserService.UserServiceImpl.NewUser | eHour-service/src/main/java/net/rrm/ehour/user/service/UserServiceImpl.java:230-248 | Fails with NotUnique, changing nothing, exactly when the username belongs to a user with another id. Otherwise the stored user is the input with a salt in [0, 10000) and the password encode(password, salt). The default-project call is recorded before the persist. |
| UserService.UserServiceImpl.ChangePassword | eHour-service/src/main/java/net/rrm/ehour/user/service/UserServiceImpl.java:250-269 | Returns true exactly when the username is known. When it is unknown, nothing is stored and no call is recorded. When it is known, only that user's salt (in [0, 10000)) and password (encode(new password, salt)) change, and one persist is recorded. |
| UserService.UserServiceImpl.GetAndAddPmRole | eHour-service/src/main/java/net/rrm/ehour/user/service/UserServiceImpl.java:304-314 | The stored user gets the project-manager role added to its roles and nothing else changed. It is persisted in place. |
| UserService.UserServiceImpl.ValidateProjectManagementRoles | eHour-service/src/main/java/net/rrm/ehour/user/service/UserServiceImpl.java:275-294 | With no id, the result is null and only the cleanup call is recorded. With an id, that user is promoted and persisted, and the cleanup call comes after the persist. |
| UserService.UserServiceImpl.DeleteUserById | eHour-service/src/main/java/net/rrm/ehour/user/service/UserServiceImpl.java:350-357 | Removes exactly the user with that id; the others stay in order. The timesheet-entry deletion is recorded before the user deletion. Store invariants are kept. |
| UserService.UserServiceImpl.DeleteDepartmentById | eHour-service/src/main/java/net/rrm/ehour/user/service/UserServiceImpl.java:363-376 | Removes the department and exactly its member users. The trace holds, for each member in listing order, its timesheet deletion then its user deletion, and the department deletion last. Store invariants are kept. |
| UserDomain.IndexOfId | eHour-service/src/main/java/net/rrm/ehour/user/service/UserServiceImpl.java:70 | Lookup by id: the first position holding the id, or none exactly when no record has it. |
| UserDomain.IndexOfUsername | eHour-service/src/main/java/net/rrm/ehour/user/service/UserServiceImpl.java:209 | Lookup by username: the first position holding it, or none exactly when no record has it. |
| UserDomain.ActiveUsersMembers | eHour-service/src/main/java/net/rrm/ehour/user/service/UserServiceImpl.java:333 | A user is in the active-user listing exactly when it is stored and active. |
| UserDomain.UsersWithRoleMembers | eHour-service/src/main/java/net/rrm/ehour/user/service/UserServiceImpl.java:337-341 | The role filter keeps exactly the users that hold the role. |
| UserDomain.ActiveUsersWithRoleMembers | eHour-service/src/main/java/net/rrm/ehour/user/service/UserServiceImpl.java:331-344 | Filtering the active users by role keeps exactly the stored, active users holding the role. |
| UserDomain.RemoveFirst | eHour-service/src/main/java/net/rrm/ehour/user/service/UserServiceImpl.java:194 | List.remove removes the first occurrence of the element and keeps the rest in order: the result is the list with the element at its first index cut out. The multiset loses exactly one copy. The list is unchanged when the element is absent. |
| UserDomain.RemoveFirstOfDistinct | eHour-service/src/main/java/net/rrm/ehour/user/service/UserServiceImpl.java:192-194 | On a catalog without duplicates, removing the first occurrence removes every occurrence. |
| UserDomain.WithoutMembers | eHour-service/src/main/java/net/rrm/ehour/user/service/UserServiceImpl.java:191-197 | After removing x, y is present exactly when it was present and differs from x. |
| UserDomain.WithoutIdsMembers | eHour-service/src/main/java/net/rrm/ehour/user/service/UserServiceImpl.java:356 | Deleting a set of ids keeps exactly the users whose id is outside the set. |
| UserDomain.WithoutIdsKeepsInvariants | eHour-service/src/main/java/net/rrm/ehour/user/service/UserServiceImpl.java:350-357 | Deleting users keeps ids below the counter, ids unique and usernames unique. |
| UserDomain.WithoutIdsTwice | eHour-service/src/main/java/net/rrm/ehour/user/service/UserServiceImpl.java:369-373 | Deleting one id set and then another is the same as deleting their union. |
| UserDomain.MemberIds | eHour-service/src/main/java/net/rrm/ehour/user/service/UserServiceImpl.java:365-369 | The department's users: an id is listed exactly when a stored user with that id belongs to the department. The ids are distinct when user ids are unique. |
| UserDomain.CascadeStep | eHour-service/src/main/java/net/rrm/ehour/user/service/UserServiceImpl.java:369-373 | In the cascade loop, the next member still exists. Deleting it extends the deleted set by that member. |
| UserDomain.CascadeCallsStep | eHour-service/src/main/java/net/rrm/ehour/user/service/UserServiceImpl.java:369-373 | Each loop step appends the next member's two deletion calls to the cascade trace. |
| UserDomain.DepartmentMembersDeleted | eHour-service/src/main/java/net/rrm/ehour/user/service/UserServiceImpl.java:364-376 | Deleting all member ids leaves exactly the users that do not belong to the department. |
| UserDomain.DeleteCascadeOrder | eHour-service/src/main/java/net/rrm/ehour/user/service/UserServiceImpl.java:351-373 | The cascade trace has two calls per member: the k-th member's timesheet deletion sits immediately before that member's user deletion. |
| ExcelLayout.StyleFor | eHour-wicketweb/src/main/java/net/rrm/ehour/ui/common/report/AbstractExcelReport.java:144-159 | Hour maps to DIGIT, turnover and rate to currency, date to DATE, and every other type to NORMAL. Each style is given exactly for those types. |
| ExcelLayout.ColumnWidths | eHour-wicketweb/src/main/java/net/rrm/ehour/ui/common/report/AbstractExcelReport.java:71-79 | Widths are set exactly on columns 0..n-1: 5000 below column 4 and 3000 from column 4. |
| ExcelLayout.NthVisible | eHour-wicketweb/src/main/java/net/rrm/ehour/ui/common/report/AbstractExcelReport.java:138-168 | The column that fills cell c is visible and has exactly c visible columns before it. |
| ExcelLayout.CellIndexRoundTrip | eHour-wicketweb/src/main/java/net/rrm/ehour/ui/common/report/AbstractExcelReport.java:138-168 | A visible column's cell index (the number of visible columns before it) is in range and leads back to that column. |
| ExcelLayout.VisibleCountStep | eHour-wicketweb/src/main/java/net/rrm/ehour/ui/common/report/AbstractExcelReport.java:140-165 | The cell counter grows by one at a visible column and stays the same at a hidden one. |
| ExcelLayout.ValuePlacement | eHour-wicketweb/src/main/java/net/rrm/ehour/ui/common/report/AbstractExcelReport.java:138-168 | The i-th value goes to the cell whose index is the number of visible columns before i, with its column's style. A null in a visible column takes that index but has no cell. A hidden column takes no index. |
| ExcelLayout.HeaderPlacement | eHour-wicketweb/src/main/java/net/rrm/ehour/ui/common/report/AbstractExcelReport.java:102-110 | The header of each visible column sits at the number of visible columns before it, with HEADER style. |
| ExcelLayout.HeaderCellsSnoc | eHour-wicketweb/src/main/java/net/rrm/ehour/ui/common/report/AbstractExcelReport.java:102-110 | One more column adds its header at the next index if it is visible, and nothing otherwise. |
| ExcelLayout.CellsSnoc | eHour-wicketweb/src/main/java/net/rrm/ehour/ui/common/report/AbstractExcelReport.java:138-168 | One more value adds a cell at the next index only if its column is visible and the value is not null. |
| ExcelLayout.FilledRows | eHour-wicketweb/src/main/java/net/rrm/ehour/ui/common/report/AbstractExcelReport.java:116-128 | Exactly the rows first..first+n-1 are written; row first+k holds element k. |
| ExcelLayout.FilledRowsSnoc | eHour-wicketweb/src/main/java/net/rrm/ehour/ui/common/report/AbstractExcelReport.java:122-127 | One more element adds its row right after the earlier ones. |
| ExcelLayout.ReportRows | eHour-wicketweb/src/main/java/net/rrm/ehour/ui/common/report/AbstractExcelReport.java:64-88 | Rows 0 (title), 1 (dates) and 3 (column headers) are written, row 2 stays empty, and element k is in row 4+k. No other row exists. |
| ExcelLayout.DateRow | eHour-wicketweb/src/main/java/net/rrm/ehour/ui/common/report/AbstractExcelReport.java:186-208 | The date row has cells 0, 1, 3 and 4 only, with the labels in 0 and 3. Cell 1 is "--" exactly when the range or its start is null, and otherwise the start date in bold date style. Cell 4 follows the same rule with the end date. |
| ExcelLayout.LowerCase | eHour-wicketweb/src/main/java/net/rrm/ehour/ui/common/report/AbstractExcelReport.java:174 | Each ASCII capital is lowered; every other character is kept; the length is kept. |
| ExcelLayout.Replace | eHour-wicketweb/src/main/java/net/rrm/ehour/ui/common/report/AbstractExcelReport.java:174 | Every occurrence of the character is replaced; every other character is kept. |
| ExcelLayout.Filename | eHour-wicketweb/src/main/java/net/rrm/ehour/ui/common/report/AbstractExcelReport.java:171-175 | The name followed by ".xls", with no space and no capital letter in the name part. Spaces become '_', each ASCII capital becomes its lower-case letter, and every other character is kept. |
| ExcelReport.AbstractExcelReport.GetFilename | eHour-wicketweb/src/main/java/net/rrm/ehour/ui/common/report/AbstractExcelReport.java:171-175 | The report's file name is `Filename` of the report name: it ends in ".xls"; in the name part each space becomes '_', each capital becomes its lower-case letter and every other character is kept. |
| ExcelReport.AbstractExcelReport.CreateWorkbook | eHour-wicketweb/src/main/java/net/rrm/ehour/ui/common/report/AbstractExcelReport.java:64-88 | A new sheet with the report's name, with widths set exactly on columns 0-6, the rows of ReportRows and the single merged region (0,0,0,1). |
| ExcelReport.AbstractExcelReport.CreateHeaders | eHour-wicketweb/src/main/java/net/rrm/ehour/ui/common/report/AbstractExcelReport.java:178-213 | Writes exactly the title row and the date row at rowNumber and rowNumber+1, and adds the merged region. Returns rowNumber+3, leaving one row blank. |
| ExcelReport.AbstractExcelReport.AddColumnHeaders | eHour-wicketweb/src/main/java/net/rrm/ehour/ui/common/report/AbstractExcelReport.java:94-113 | Writes one row holding the headers of the visible columns at 0..k-1, and returns rowNumber+1. |
| ExcelReport.AbstractExcelReport.FillReportSheet | eHour-wicketweb/src/main/java/net/rrm/ehour/ui/common/report/AbstractExcelReport.java:115-128 | Adds one row per element, in order, from rowNumber on. All other rows are unchanged. |
| ExcelReport.AbstractExcelReport.AddColumns | eHour-wicketweb/src/main/java/net/rrm/ehour/ui/common/report/AbstractExcelReport.java:130-169 | Adds to the row exactly the cells of RowCells, placed and styled as ValuePlacement states. The rest of the sheet is unchanged. |

## Left out

- Persistence, Spring transactions and injection. The gateways are an in-memory store, and each operation is one atomic step. The read-then-write race on the uniqueness checks is a concurrency matter and is not modelled.
- The gateways' own code is not part of this model. `userDAO.persist`, `userDepartmentDAO.persist` and `userDepartmentDAO.merge` are taken to be an insert-or-update keyed by id (a department persisted under a given id is inserted when no department has that id yet), and `findOnNameAndCode` to return the one department with that name and code.
- `MessageDigestPasswordEncoder` (SHA-1) is an uninterpreted `encode(password, salt)`. So the promise that a new password's stored hash differs from the old one cannot be stated.
- `Math.random()` is an arbitrary salt in [0, 10000).
- `DateUtil.isDateWithinRange`, `AggregateReportService.getHoursPerAssignment` and `ReportUtil.isEmptyAggregateList` are uninterpreted functions. The aggregation takes the id set rather than a list, so duplicate ids are not modelled.
- `TimesheetService.deleteTimesheetEntries`, `ProjectAssignmentManagementService.assignUserToDefaultProjects` and `UserDao.deletePmWithoutProject` are recorded as calls only. Their effects on the store are not modelled: the default assignments added to a new user, and the project-manager roles dropped.
- Logging, and the catch branches of `validateProjectManagementRoles` (lines 285-291) that cannot be reached.
- `getUser(String)`, `getUserDepartments`, `getUsers(boolean)`, `getActiveUsers`, `getUserRole`, `getUsersWithEmailSet`, the setters and `encryptPassword` are single gateway or encoder calls. They are not modelled separately.
- GetUser: returns the partitioned user as a new value and leaves the stored record unchanged. The source changes the loaded entity's assignment set in place.
- GetUserDepartment: the department's users are the users whose department is this one. A null user collection cannot occur in the model.
- DeleteUserById: requires the user to exist. The source fails with a null dereference on a missing id.
- DeleteDepartmentById: requires the department to exist, for the same reason.
- GetAndAddPmRole: requires the user to exist and the project-manager role to be in the catalog. A missing role would add a null to the role set in the source.
- ValidateProjectManagementRoles: has the same requirements as GetAndAddPmRole when an id is given.
- Apache POI is left out. A sheet is a value map. Workbook serialisation (`getExcelData`, `PoiUtil`) is not modelled, and `createRow` is taken to replace a row that already exists. `CellFactory` is not part of this model: a cell records its value and styles, not how they are rendered.
- Wicket `ResourceModel` localisation is not modelled: header and label cells hold the resource key. The report's names are plain strings.
- Filename: `toLowerCase` is modelled for ASCII capitals only, with no locale rules.
- CreateHeaders / DateRow: the code tests `report.getReportRange()` for null but reads the dates from `report.getReportCriteria().getReportRange()`; the model treats these as one range.
- DeleteDepartmentById: members are deleted in the user table's listing order. The code iterates the department's user `Set`, whose order is undefined, so the order of the member deletions in the trace is a choice of the model.
- AddColumns: requires an element to have no more values than there are columns; the source fails on a longer element with an index error. `ExcelLayout.RowCells` gives such an element no cells, a case the methods never reach.
- The column types of the report configuration are modelled as hour, turnover, rate, date and one constructor for all other types.
