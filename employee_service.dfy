/** EmployeeService: the two ways of building an EmployeeDTO with its tasks. */
module EmployeeService {
  import opened Wrappers
  import opened Dto
  import opened Repositories

  /** The TaskDTO a flattened row carries. */
  function TaskOf(row: EmployeeRow): TaskDto
  {
    TaskDto(row.taskId, row.taskTitle, row.taskDescription, row.taskDueDate, row.taskCompleted)
  }

  /** The TaskDTOs of a list of rows. */
  function TasksOfRows(rows: seq<EmployeeRow>): set<TaskDto>
  {
    set row | row in rows :: TaskOf(row)
  }

  lemma TasksOfRowsSnoc(rows: seq<EmployeeRow>, row: EmployeeRow)
    ensures TasksOfRows(rows + [row]) == TasksOfRows(rows) + {TaskOf(row)}
  {
  }

  /** What the one-query variant builds from the rows: not found for no rows, otherwise the
      employee of the first row with one TaskDTO per row. */
  function AssembleEmployee(id: int, rows: seq<EmployeeRow>): Result<EmployeeDto>
  {
    if |rows| == 0 then Failure(NotFound(EmployeeKind, id))
    else Success(EmployeeDto(rows[0].employeeId, rows[0].employeeName, rows[0].employeePosition, TasksOfRows(rows)))
  }

  /** getEmployeeWithTasksInOneQueryDTO: one loop over the rows of the joined query. */
  method GetEmployeeWithTasksInOneQueryDto(id: int, results: seq<EmployeeRow>) returns (r: Result<EmployeeDto>)
    ensures r == AssembleEmployee(id, results)
    ensures r.Failure? <==> |results| == 0
    ensures r.Failure? ==> r.error == NotFound(EmployeeKind, id)
    ensures r.Success? ==> && r.value.id == results[0].employeeId
                           && r.value.name == results[0].employeeName
                           && r.value.position == results[0].employeePosition
    ensures r.Success? ==> forall t :: t in r.value.tasks <==> exists row :: row in results && t == TaskOf(row)
  {
    if |results| == 0 {
      return Failure(NotFound(EmployeeKind, id));
    }
    var firstRow := results[0];
    var employeeDto := EmployeeDto(firstRow.employeeId, firstRow.employeeName, firstRow.employeePosition, {});
    for i := 0 to |results|
      invariant employeeDto == EmployeeDto(firstRow.employeeId, firstRow.employeeName, firstRow.employeePosition,
                                           TasksOfRows(results[..i]))
    {
      var row := results[i];
      var taskDto := TaskOf(row);
      TasksOfRowsSnoc(results[..i], row);
      assert results[..i + 1] == results[..i] + [row];
      employeeDto := employeeDto.(tasks := employeeDto.tasks + {taskDto});
    }
    assert results[..|results|] == results;
    r := Success(employeeDto);
  }

  /** getEmployeeWithTasksDTO: look the employee up, then add the tasks found by its id. */
  function GetEmployeeWithTasksDto(store: Store, id: int): (r: Result<EmployeeDto>)
    ensures r.Failure? <==> id !in store.employees
    ensures r.Failure? ==> r.error == NotFound(EmployeeKind, id)
    ensures r.Success? ==> && r.value.id == id
                           && r.value.name == store.employees[id].name
                           && r.value.position == store.employees[id].position
                           && r.value.tasks == FindTaskDtosByEmployeeId(store, id)
  {
    match FindEmployeeDtoById(store, id)
    case None => Failure(NotFound(EmployeeKind, id))
    case Some(employeeDto) =>
      Success(employeeDto.(tasks := employeeDto.tasks + FindTaskDtosByEmployeeId(store, id)))
  }

  /** All rows describe the same employee (true of every result of the joined query). */
  ghost predicate OneEmployee(rows: seq<EmployeeRow>)
  {
    forall r1, r2 :: r1 in rows && r2 in rows ==>
      r1.employeeId == r2.employeeId && r1.employeeName == r2.employeeName && r1.employeePosition == r2.employeePosition
  }

  /** The one-query result does not depend on the order (or repetition) of the rows. */
  lemma AssembleEmployeeIgnoresOrder(id: int, rows1: seq<EmployeeRow>, rows2: seq<EmployeeRow>)
    requires forall r :: r in rows1 <==> r in rows2
    requires OneEmployee(rows1)
    ensures AssembleEmployee(id, rows1) == AssembleEmployee(id, rows2)
  {
    assert TasksOfRows(rows1) == TasksOfRows(rows2);
    SameElementsShareHeads(rows1, rows2);
  }

  /** The rows of the joined query for `id` all carry that employee, as stored. */
  lemma JoinRowsDescribeEmployee(store: Store, id: int, rows: seq<EmployeeRow>)
    requires Lists(rows, FindAllEmployeeDtoData(store, id))
    ensures OneEmployee(rows)
    ensures forall row :: row in rows ==> && id in store.employees && row.employeeId == id
                                          && row.employeeName == store.employees[id].name
                                          && row.employeePosition == store.employees[id].position
  {
  }

  /** The tasks of the joined rows are exactly the tasks found by employee id, and there are no
      rows at all exactly when the employee is absent or has no task (the join is an inner join). */
  lemma JoinRowsHoldEmployeeTasks(store: Store, id: int, rows: seq<EmployeeRow>)
    requires Lists(rows, FindAllEmployeeDtoData(store, id))
    ensures id in store.employees ==> TasksOfRows(rows) == FindTaskDtosByEmployeeId(store, id)
    ensures |rows| == 0 <==> id !in store.employees || FindTaskDtosByEmployeeId(store, id) == {}
  {
    if id in store.employees {
      forall dto | dto in TasksOfRows(rows) ensures dto in FindTaskDtosByEmployeeId(store, id) {
        var row :| row in rows && dto == TaskOf(row);
        var t :| t in store.tasks && InEmployeeJoin(store, id, t) && row == EmployeeRowOf(store, id, t);
        assert dto == TaskDtoOf(t, store.tasks[t]);
      }
      forall dto | dto in FindTaskDtosByEmployeeId(store, id) ensures dto in TasksOfRows(rows) {
        var t :| t in store.tasks && store.tasks[t].employeeId == Some(id) && dto == TaskDtoOf(t, store.tasks[t]);
        var row := EmployeeRowOf(store, id, t);
        assert row in FindAllEmployeeDtoData(store, id);
        assert TaskOf(row) == dto;
      }
    }
    if |rows| > 0 {
      assert rows[0] in FindAllEmployeeDtoData(store, id);
      var t :| t in store.tasks && InEmployeeJoin(store, id, t) && rows[0] == EmployeeRowOf(store, id, t);
      assert TaskOf(rows[0]) in TasksOfRows(rows);
    }
  }

  /** The two variants agree for an employee with at least one task; for an existing employee
      without tasks the one-query variant reports not found while the two-query variant returns
      the employee with an empty task set; for an absent employee both report not found. */
  lemma OneQueryAgreesWithTwoQueries(store: Store, id: int, rows: seq<EmployeeRow>)
    requires Lists(rows, FindAllEmployeeDtoData(store, id))
    ensures id in store.employees && FindTaskDtosByEmployeeId(store, id) != {} ==>
              AssembleEmployee(id, rows) == GetEmployeeWithTasksDto(store, id)
    ensures id in store.employees && FindTaskDtosByEmployeeId(store, id) == {} ==>
              && AssembleEmployee(id, rows) == Failure(NotFound(EmployeeKind, id))
              && GetEmployeeWithTasksDto(store, id) == Success(EmployeeDtoOf(id, store.employees[id]))
    ensures id !in store.employees ==>
              AssembleEmployee(id, rows) == GetEmployeeWithTasksDto(store, id) == Failure(NotFound(EmployeeKind, id))
  {
    JoinRowsDescribeEmployee(store, id, rows);
    JoinRowsHoldEmployeeTasks(store, id, rows);
    if |rows| > 0 {
      assert rows[0] in rows;
    }
  }
}
