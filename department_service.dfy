/** DepartmentService: the two ways of building a DepartmentDTO with its employees and their tasks. */
module DepartmentService {
  import opened Wrappers
  import opened Dto
  import opened Repositories

  /** The TaskDTO a flattened row carries. */
  function TaskOf(row: DepartmentRow): TaskDto
  {
    TaskDto(row.taskId, row.taskTitle, row.taskDescription, row.taskDueDate, row.taskCompleted)
  }

  /** The distinct employee ids of the rows. */
  function EmployeeIds(rows: seq<DepartmentRow>): set<int>
  {
    set row | row in rows :: row.employeeId
  }

  /** The TaskDTOs of the rows of employee `k`. */
  function TasksOf(rows: seq<DepartmentRow>, k: int): set<TaskDto>
  {
    set row | row in rows && row.employeeId == k :: TaskOf(row)
  }

  /** The index of the first row of employee `k`. */
  function FirstRowOf(rows: seq<DepartmentRow>, k: int): (i: nat)
    requires k in EmployeeIds(rows)
    ensures i < |rows| && rows[i].employeeId == k
    ensures forall j :: 0 <= j < i ==> rows[j].employeeId != k
  {
    if rows[0].employeeId == k then 0
    else
      var row :| row in rows && row.employeeId == k;
      assert row in rows[1..];
      1 + FirstRowOf(rows[1..], k)
  }

  /** The EmployeeDTO of employee `k`: created from its first row, holding the tasks of all its rows. */
  function EmployeeOfRows(rows: seq<DepartmentRow>, k: int): EmployeeDto
    requires k in EmployeeIds(rows)
  {
    var first := rows[FirstRowOf(rows, k)];
    EmployeeDto(k, first.employeeName, first.employeePosition, TasksOf(rows, k))
  }

  /** The rows grouped by employee id. */
  function EmployeeGroups(rows: seq<DepartmentRow>): map<int, EmployeeDto>
  {
    map k | k in EmployeeIds(rows) :: EmployeeOfRows(rows, k)
  }

  /** What the one-query variant builds: not found for no rows, otherwise the department of the
      first row with the rows grouped by employee. */
  function AssembleDepartment(id: int, rows: seq<DepartmentRow>): Result<DepartmentDto>
  {
    if |rows| == 0 then Failure(NotFound(DepartmentKind, id))
    else Success(DepartmentDto(rows[0].departmentId, rows[0].departmentName, EmployeeGroups(rows)))
  }

  /** Any index with the first-row property is FirstRowOf. */
  lemma FirstRowIsUnique(rows: seq<DepartmentRow>, k: int, i: nat)
    requires i < |rows| && rows[i].employeeId == k
    requires forall j :: 0 <= j < i ==> rows[j].employeeId != k
    ensures k in EmployeeIds(rows) && FirstRowOf(rows, k) == i
  {
  }

  lemma EmployeeIdsSnoc(rows: seq<DepartmentRow>, row: DepartmentRow)
    ensures EmployeeIds(rows + [row]) == EmployeeIds(rows) + {row.employeeId}
  {
  }

  lemma TasksOfSnoc(rows: seq<DepartmentRow>, row: DepartmentRow, j: int)
    ensures TasksOf(rows + [row], j) == TasksOf(rows, j) + (if j == row.employeeId then {TaskOf(row)} else {})
  {
  }

  /** One more row leaves the EmployeeDTO of every other employee as it was. */
  lemma EmployeeOfRowsSnocOther(rows: seq<DepartmentRow>, row: DepartmentRow, j: int)
    requires j in EmployeeIds(rows) && j != row.employeeId
    ensures j in EmployeeIds(rows + [row]) && EmployeeOfRows(rows + [row], j) == EmployeeOfRows(rows, j)
  {
    EmployeeIdsSnoc(rows, row);
    TasksOfSnoc(rows, row, j);
    FirstRowIsUnique(rows + [row], j, FirstRowOf(rows, j));
  }

  /** One more row adds its task to the EmployeeDTO of its employee, creating it from this row
      for an employee not seen before. */
  lemma EmployeeOfRowsSnocSame(rows: seq<DepartmentRow>, row: DepartmentRow)
    ensures var k := row.employeeId;
            var base := if k in EmployeeIds(rows) then EmployeeOfRows(rows, k)
                        else EmployeeDto(k, row.employeeName, row.employeePosition, {});
            k in EmployeeIds(rows + [row]) && EmployeeOfRows(rows + [row], k) == base.(tasks := base.tasks + {TaskOf(row)})
  {
    var k := row.employeeId;
    EmployeeIdsSnoc(rows, row);
    TasksOfSnoc(rows, row, k);
    if k in EmployeeIds(rows) {
      FirstRowIsUnique(rows + [row], k, FirstRowOf(rows, k));
    } else {
      FirstRowIsUnique(rows + [row], k, |rows|);
      assert TasksOf(rows, k) == {};
    }
  }

  /** The loop body of the one-query variant on the employee map: look the row's employee up,
      create its DTO from this row if it is new, and add the row's TaskDTO to it. */
  function AddRow(groups: map<int, EmployeeDto>, row: DepartmentRow): map<int, EmployeeDto>
  {
    var k := row.employeeId;
    var base := if k in groups then groups[k] else EmployeeDto(k, row.employeeName, row.employeePosition, {});
    groups[k := base.(tasks := base.tasks + {TaskOf(row)})]
  }

  /** The employee map after the loop has seen `rows`. */
  function GroupRows(rows: seq<DepartmentRow>): map<int, EmployeeDto>
  {
    if rows == [] then map[] else AddRow(GroupRows(rows[..|rows| - 1]), rows[|rows| - 1])
  }

  /** The grouping of one more row of a list is one more step of the fold. */
  lemma GroupRowsPrefix(rows: seq<DepartmentRow>, i: nat)
    requires i < |rows|
    ensures GroupRows(rows[..i + 1]) == AddRow(GroupRows(rows[..i]), rows[i])
  {
    assert rows[..i + 1][..i] == rows[..i];
  }

  /** `groups` holds, for each employee id of the rows, the EmployeeDTO those rows make. */
  ghost predicate Groups(groups: map<int, EmployeeDto>, rows: seq<DepartmentRow>)
  {
    && groups.Keys == EmployeeIds(rows)
    && forall k :: k in groups ==> groups[k] == EmployeeOfRows(rows, k)
  }

  /** The loop body keeps the map equal to the grouping of the rows seen so far. */
  lemma AddRowGroups(groups: map<int, EmployeeDto>, rows: seq<DepartmentRow>, row: DepartmentRow)
    requires Groups(groups, rows)
    ensures Groups(AddRow(groups, row), rows + [row])
  {
    var k := row.employeeId;
    var after := AddRow(groups, row);
    EmployeeIdsSnoc(rows, row);
    EmployeeOfRowsSnocSame(rows, row);
    forall j | j in after && j != k ensures after[j] == EmployeeOfRows(rows + [row], j) {
      EmployeeOfRowsSnocOther(rows, row, j);
    }
  }

  /** The map the loop builds is the grouping of the rows by employee id. */
  lemma {:induction false} GroupRowsIsEmployeeGroups(rows: seq<DepartmentRow>)
    ensures GroupRows(rows) == EmployeeGroups(rows)
  {
    GroupRowsGroups(rows);
  }

  lemma {:induction false} GroupRowsGroups(rows: seq<DepartmentRow>)
    ensures Groups(GroupRows(rows), rows)
  {
    if rows != [] {
      var n := |rows| - 1;
      GroupRowsGroups(rows[..n]);
      AddRowGroups(GroupRows(rows[..n]), rows[..n], rows[n]);
      assert rows[..n] + [rows[n]] == rows;
    }
  }

  /** getDepartmentWithEmployeesAndTasksInOneQueryDTO: one loop over the rows of the joined query,
      with a map from employee id to the EmployeeDTO built so far. The department's employee set
      holds the same objects as the map in the Java service; here it is kept as the set of their ids. */
  method GetDepartmentWithEmployeesAndTasksInOneQueryDto(id: int, results: seq<DepartmentRow>)
    returns (r: Result<DepartmentDto>)
    ensures r == AssembleDepartment(id, results)
    ensures r.Failure? <==> |results| == 0
    ensures r.Failure? ==> r.error == NotFound(DepartmentKind, id)
    ensures r.Success? ==> r.value.id == results[0].departmentId && r.value.name == results[0].departmentName
    ensures r.Success? ==> r.value.employees == EmployeeGroups(results)
  {
    if |results| == 0 {
      return Failure(NotFound(DepartmentKind, id));
    }
    var firstRow := results[0];
    var departmentEmployees: set<int> := {};
    var employeeDtoMap: map<int, EmployeeDto> := map[];
    for i := 0 to |results|
      invariant departmentEmployees == employeeDtoMap.Keys
      invariant employeeDtoMap == GroupRows(results[..i])
    {
      var row := results[i];
      var employeeId := row.employeeId;
      var employeeDto: EmployeeDto;
      if employeeId in employeeDtoMap {
        employeeDto := employeeDtoMap[employeeId];
      } else {
        employeeDto := EmployeeDto(employeeId, row.employeeName, row.employeePosition, {});
        departmentEmployees := departmentEmployees + {employeeId};
      }
      var taskDto := TaskOf(row);
      employeeDto := employeeDto.(tasks := employeeDto.tasks + {taskDto});
      GroupRowsPrefix(results, i);
      employeeDtoMap := employeeDtoMap[employeeId := employeeDto];
    }
    assert results[..|results|] == results;
    GroupRowsIsEmployeeGroups(results);
    var employees := map k | k in departmentEmployees :: employeeDtoMap[k];
    assert employees == employeeDtoMap;
    r := Success(DepartmentDto(firstRow.departmentId, firstRow.departmentName, employees));
  }

  // Properties of the grouping

  /** Rows that name the same task name the same employee (the task's foreign key). */
  ghost predicate TaskIdsDetermineEmployee(rows: seq<DepartmentRow>)
  {
    forall r1, r2 :: r1 in rows && r2 in rows && r1.taskId == r2.taskId ==> r1.employeeId == r2.employeeId
  }

  /** The employees partition the rows by employee id: one EmployeeDTO per distinct employee id, and
      every row's TaskDTO in the task set of its own employee and of no other. */
  lemma EmployeesPartitionRows(rows: seq<DepartmentRow>)
    requires TaskIdsDetermineEmployee(rows)
    ensures EmployeeGroups(rows).Keys == EmployeeIds(rows)
    ensures |EmployeeGroups(rows)| == |EmployeeIds(rows)|
    ensures forall k :: k in EmployeeGroups(rows) ==>
              EmployeeGroups(rows)[k].id == k && EmployeeGroups(rows)[k].tasks == TasksOf(rows, k)
    ensures forall row, k :: row in rows && k in EmployeeGroups(rows) ==>
              (TaskOf(row) in EmployeeGroups(rows)[k].tasks <==> k == row.employeeId)
  {
  }

  /** The rows name one department, and rows of the same employee carry the same employee fields. */
  ghost predicate Coherent(rows: seq<DepartmentRow>)
  {
    forall r1, r2 :: r1 in rows && r2 in rows ==>
      && r1.departmentId == r2.departmentId
      && r1.departmentName == r2.departmentName
      && (r1.employeeId == r2.employeeId ==>
            r1.employeeName == r2.employeeName && r1.employeePosition == r2.employeePosition)
  }

  /** Two listings of coherent rows make the same EmployeeDTO for each employee. */
  lemma SameRowsSameEmployee(rows1: seq<DepartmentRow>, rows2: seq<DepartmentRow>, k: int)
    requires forall r :: r in rows1 <==> r in rows2
    requires Coherent(rows1)
    requires k in EmployeeIds(rows1)
    ensures k in EmployeeIds(rows2) && EmployeeOfRows(rows1, k) == EmployeeOfRows(rows2, k)
  {
  }

  /** Coherent rows make the same tree in whatever order they come. */
  lemma AssembleDepartmentIgnoresOrder(id: int, rows1: seq<DepartmentRow>, rows2: seq<DepartmentRow>)
    requires forall r :: r in rows1 <==> r in rows2
    requires Coherent(rows1)
    ensures AssembleDepartment(id, rows1) == AssembleDepartment(id, rows2)
  {
    SameElementsShareHeads(rows1, rows2);
    assert EmployeeIds(rows1) == EmployeeIds(rows2);
    forall k | k in EmployeeIds(rows1) ensures EmployeeOfRows(rows1, k) == EmployeeOfRows(rows2, k) {
      SameRowsSameEmployee(rows1, rows2, k);
    }
    assert EmployeeGroups(rows1) == EmployeeGroups(rows2);
  }

  // The rows of the joined query

  /** What every row of `FROM Department d JOIN d.employees e JOIN e.tasks t WHERE d.id = :id` says:
      the requested department, one of its employees, and one task of that employee. */
  lemma JoinRowsDescribeDepartment(store: Store, id: int, rows: seq<DepartmentRow>)
    requires Lists(rows, FindAllDepartmentDtoData(store, id))
    ensures forall row :: row in rows ==>
              && id in store.departments
              && row.departmentId == id && row.departmentName == store.departments[id].name
              && WorksIn(store, row.employeeId, id)
              && row.employeeName == store.employees[row.employeeId].name
              && row.employeePosition == store.employees[row.employeeId].position
              && row.taskId in store.tasks && store.tasks[row.taskId].employeeId == Some(row.employeeId)
              && TaskOf(row) == TaskDtoOf(row.taskId, store.tasks[row.taskId])
    ensures Coherent(rows) && TaskIdsDetermineEmployee(rows)
  {
  }

  /** The inner joins keep exactly the employees with tasks, each with all of its tasks. */
  lemma JoinRowsGroupEmployeeTasks(store: Store, id: int, rows: seq<DepartmentRow>)
    requires Lists(rows, FindAllDepartmentDtoData(store, id))
    ensures id !in store.departments ==> |rows| == 0
    ensures forall e :: WorksIn(store, e, id) && id in store.departments ==>
              TasksOf(rows, e) == FindTaskDtosByEmployeeId(store, e)
    ensures forall e :: e in EmployeeIds(rows) <==>
              WorksIn(store, e, id) && id in store.departments && FindTaskDtosByEmployeeId(store, e) != {}
  {
    JoinRowsDescribeDepartment(store, id, rows);
    if |rows| > 0 {
      assert rows[0] in rows;
    }
    forall e | WorksIn(store, e, id) && id in store.departments
      ensures TasksOf(rows, e) == FindTaskDtosByEmployeeId(store, e)
    {
      forall dto | dto in FindTaskDtosByEmployeeId(store, e) ensures dto in TasksOf(rows, e) {
        var t :| t in store.tasks && store.tasks[t].employeeId == Some(e) && dto == TaskDtoOf(t, store.tasks[t]);
        var row := DepartmentRowOf(store, id, t);
        assert row in FindAllDepartmentDtoData(store, id);
        assert row in rows && row.employeeId == e && TaskOf(row) == dto;
      }
    }
    forall e | e in EmployeeIds(rows) ensures FindTaskDtosByEmployeeId(store, e) != {} {
      var row :| row in rows && row.employeeId == e;
      assert TaskOf(row) in TasksOf(rows, e);
    }
  }

  // The multi-query variant

  /** An employee of the department with its tasks, as the per-id lookups give it. */
  function EmployeeWithTasks(store: Store, e: int): EmployeeDto
    requires e in store.employees
  {
    EmployeeDtoOf(e, store.employees[e]).(tasks := FindTaskDtosByEmployeeId(store, e))
  }

  /** The department tree of the store: not found for an absent department, otherwise every employee
      of the department, with or without tasks, keyed by its id. */
  function DepartmentTree(store: Store, id: int): Result<DepartmentDto>
  {
    if id !in store.departments then Failure(NotFound(DepartmentKind, id))
    else Success(DepartmentDto(id, store.departments[id].name,
                               map e | e in store.employees && WorksIn(store, e, id) :: EmployeeWithTasks(store, e)))
  }

  /** getDepartmentWithEmployeesAndTasksDTO: look the department up, then its employees, then the
      tasks of each employee in turn, adding them to that employee's DTO. */
  method GetDepartmentWithEmployeesAndTasksDto(store: Store, id: int) returns (r: Result<DepartmentDto>)
    ensures r == DepartmentTree(store, id)
    ensures r.Failure? <==> id !in store.departments
    ensures r.Failure? ==> r.error == NotFound(DepartmentKind, id)
    ensures r.Success? ==> r.value.id == id && r.value.name == store.departments[id].name
    ensures r.Success? ==> forall e :: e in r.value.employees <==> WorksIn(store, e, id)
    ensures r.Success? ==> forall e :: e in r.value.employees ==>
              && r.value.employees[e].id == e
              && r.value.employees[e].name == store.employees[e].name
              && r.value.employees[e].position == store.employees[e].position
              && r.value.employees[e].tasks == FindTaskDtosByEmployeeId(store, e)
  {
    var found := FindDepartmentDtoById(store, id);
    if found.None? {
      return Failure(NotFound(DepartmentKind, id));
    }
    var departmentDto := found.value;
    var employeeDtos := FindEmployeeDtosByDepartmentId(store, id);
    var remaining := employeeDtos;
    var filled: map<int, EmployeeDto> := map[];
    while remaining != {}
      invariant remaining <= employeeDtos
      invariant forall dto :: dto in employeeDtos ==> (dto.id in filled <==> dto !in remaining)
      invariant forall e :: e in filled ==> WorksIn(store, e, id) && filled[e] == EmployeeWithTasks(store, e)
      decreases remaining
    {
      var employeeDto :| employeeDto in remaining;
      remaining := remaining - {employeeDto};
      var taskDtos := FindTaskDtosByEmployeeId(store, employeeDto.id);
      var withTasks := employeeDto.(tasks := employeeDto.tasks + taskDtos);
      filled := filled[employeeDto.id := withTasks];
    }
    forall e | WorksIn(store, e, id) ensures e in filled {
      assert EmployeeDtoOf(e, store.employees[e]) in employeeDtos;
    }
    departmentDto := departmentDto.(employees := departmentDto.employees + filled);
    assert departmentDto.employees == filled;
    var expected := map e | e in store.employees && WorksIn(store, e, id) :: EmployeeWithTasks(store, e);
    forall e ensures e in filled <==> e in expected {
      if e in expected {
        assert WorksIn(store, e, id);
      }
    }
    assert filled == expected;
    r := Success(departmentDto);
  }

  // The two variants side by side

  /** The employees that have at least one task. */
  function WithTasks(employees: map<int, EmployeeDto>): (r: map<int, EmployeeDto>)
    ensures forall e :: e in r <==> e in employees && employees[e].tasks != {}
    ensures forall e :: e in r ==> r[e] == employees[e]
  {
    map e | e in employees && employees[e].tasks != {} :: employees[e]
  }

  /** The one-query variant fails exactly when the department is absent or none of its employees has
      a task. */
  lemma OneQueryFailsWithoutTasks(store: Store, id: int, rows: seq<DepartmentRow>)
    requires Lists(rows, FindAllDepartmentDtoData(store, id))
    ensures |rows| == 0 <==>
              id !in store.departments || forall e :: WorksIn(store, e, id) ==> FindTaskDtosByEmployeeId(store, e) == {}
  {
    JoinRowsGroupEmployeeTasks(store, id, rows);
    if |rows| > 0 {
      assert rows[0].employeeId in EmployeeIds(rows);
    }
  }

  /** An employee of the joined rows is an employee of the department, with all of its tasks. */
  lemma OneQueryEmployeeHasAllTasks(store: Store, id: int, rows: seq<DepartmentRow>, e: int)
    requires Lists(rows, FindAllDepartmentDtoData(store, id))
    requires e in EmployeeIds(rows)
    ensures id in store.departments && WorksIn(store, e, id)
    ensures EmployeeOfRows(rows, e) == EmployeeWithTasks(store, e)
  {
    JoinRowsDescribeDepartment(store, id, rows);
    JoinRowsGroupEmployeeTasks(store, id, rows);
    assert rows[FirstRowOf(rows, e)] in rows;
  }

  /** The one-query employees are the multi-query employees that have tasks. */
  lemma OneQueryEmployeeIdsHaveTasks(store: Store, id: int, rows: seq<DepartmentRow>)
    requires Lists(rows, FindAllDepartmentDtoData(store, id))
    requires id in store.departments
    ensures EmployeeIds(rows) == WithTasks(DepartmentTree(store, id).value.employees).Keys
  {
    JoinRowsGroupEmployeeTasks(store, id, rows);
  }

  /** For a department with rows, the one-query employees are the multi-query employees that have
      tasks, each with the same DTO. */
  lemma OneQueryKeepsEmployeesWithTasks(store: Store, id: int, rows: seq<DepartmentRow>)
    requires Lists(rows, FindAllDepartmentDtoData(store, id))
    requires id in store.departments
    ensures var multi := DepartmentTree(store, id).value;
            EmployeeGroups(rows) == WithTasks(multi.employees)
  {
    var expected := WithTasks(DepartmentTree(store, id).value.employees);
    var one := EmployeeGroups(rows);
    OneQueryEmployeeIdsHaveTasks(store, id, rows);
    assert one.Keys == expected.Keys;
    forall e | e in one ensures one[e] == expected[e] {
      OneQueryEmployeeHasAllTasks(store, id, rows, e);
    }
  }

  /** The two variants side by side: the one-query variant fails exactly when the department is
      absent or none of its employees has a task; otherwise both give the requested department with
      the same id and name, and the one-query tree is the multi-query tree without the employees
      that have no tasks. */
  lemma OneQueryAgreesWithMultiQuery(store: Store, id: int, rows: seq<DepartmentRow>)
    requires Lists(rows, FindAllDepartmentDtoData(store, id))
    ensures AssembleDepartment(id, rows).Failure? <==>
              id !in store.departments || forall e :: WorksIn(store, e, id) ==> FindTaskDtosByEmployeeId(store, e) == {}
    ensures AssembleDepartment(id, rows).Failure? ==> AssembleDepartment(id, rows).error == NotFound(DepartmentKind, id)
    ensures id !in store.departments ==> AssembleDepartment(id, rows) == DepartmentTree(store, id)
    ensures id in store.departments ==> DepartmentTree(store, id).Success?
    ensures AssembleDepartment(id, rows).Success? ==>
              && DepartmentTree(store, id).Success?
              && var one := AssembleDepartment(id, rows).value;
                 var multi := DepartmentTree(store, id).value;
                 && one.id == multi.id == id
                 && one.name == multi.name
                 && one.employees == WithTasks(multi.employees)
  {
    OneQueryFailsWithoutTasks(store, id, rows);
    if |rows| > 0 {
      JoinRowsDescribeDepartment(store, id, rows);
      assert rows[0] in rows;
      OneQueryKeepsEmployeesWithTasks(store, id, rows);
    }
  }
}
