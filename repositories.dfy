/** The relational store and the repository queries the services call, as pure functions.
    Hibernate runs these queries in the application; here each one is the set of results the query
    denotes (the order of a JPA result list is unspecified, so results are sets). */
module Repositories {
  import opened Wrappers
  import opened Dto

  /** One row of each table, keyed by its id in the store; `LocalDate` is a day number. */
  datatype DepartmentRecord = DepartmentRecord(name: string)
  datatype EmployeeRecord = EmployeeRecord(name: string, position: string, departmentId: Option<int>)
  datatype TaskRecord = TaskRecord(title: string, description: string, dueDate: int, completed: bool,
                                   employeeId: Option<int>)

  /** The three tables, each a map from id to row (ids are primary keys). */
  datatype Store = Store(departments: map<int, DepartmentRecord>,
                         employees: map<int, EmployeeRecord>,
                         tasks: map<int, TaskRecord>)

  /** The `new map(...)` row of DepartmentRepository.findAllDTODataInOneQuery, one per task. */
  datatype DepartmentRow = DepartmentRow(departmentId: int, departmentName: string,
                                         employeeId: int, employeeName: string, employeePosition: string,
                                         taskId: int, taskTitle: string, taskDescription: string,
                                         taskDueDate: int, taskCompleted: bool)

  /** The `new map(...)` row of EmployeeRepository.findAllDTODataInOneQuery, one per task. */
  datatype EmployeeRow = EmployeeRow(employeeId: int, employeeName: string, employeePosition: string,
                                     taskId: int, taskTitle: string, taskDescription: string,
                                     taskDueDate: int, taskCompleted: bool)

  /** `new TaskDTO(t.id, t.title, t.description, t.dueDate, t.completed)` of a stored task. */
  function TaskDtoOf(t: int, task: TaskRecord): TaskDto
  {
    TaskDto(t, task.title, task.description, task.dueDate, task.completed)
  }

  /** `new EmployeeDTO(e.id, e.name, e.position)`: an employee DTO with an empty task set. */
  function EmployeeDtoOf(e: int, employee: EmployeeRecord): EmployeeDto
  {
    EmployeeDto(e, employee.name, employee.position, {})
  }

  /** DepartmentRepository.findDepartmentDTOById: `new DepartmentDTO(d.id, d.name) ... WHERE d.id = :id`. */
  function FindDepartmentDtoById(store: Store, id: int): (r: Option<DepartmentDto>)
    ensures r.Some? <==> id in store.departments
    ensures r.Some? ==> r.value.id == id && r.value.name == store.departments[id].name
    ensures r.Some? ==> r.value.employees == map[]
  {
    if id in store.departments then Some(DepartmentDto(id, store.departments[id].name, map[])) else None
  }

  /** The employees whose department is `d` (`WHERE e.department.id = :departmentId`). */
  predicate WorksIn(store: Store, e: int, d: int)
  {
    e in store.employees && store.employees[e].departmentId == Some(d)
  }

  /** DepartmentRepository.findEmployeeDTOsByDepartmentId. */
  function FindEmployeeDtosByDepartmentId(store: Store, d: int): (r: set<EmployeeDto>)
    ensures forall dto :: dto in r ==> WorksIn(store, dto.id, d) && dto == EmployeeDtoOf(dto.id, store.employees[dto.id])
    ensures forall e :: WorksIn(store, e, d) ==> EmployeeDtoOf(e, store.employees[e]) in r
  {
    set e | e in store.employees && WorksIn(store, e, d) :: EmployeeDtoOf(e, store.employees[e])
  }

  /** DepartmentRepository/EmployeeRepository.findTaskDTOsByEmployeeId (`WHERE t.employee.id = :employeeId`). */
  function FindTaskDtosByEmployeeId(store: Store, e: int): (r: set<TaskDto>)
    ensures forall dto :: dto in r ==>
              dto.id in store.tasks && store.tasks[dto.id].employeeId == Some(e) && dto == TaskDtoOf(dto.id, store.tasks[dto.id])
    ensures forall t :: t in store.tasks && store.tasks[t].employeeId == Some(e) ==> TaskDtoOf(t, store.tasks[t]) in r
  {
    set t | t in store.tasks && store.tasks[t].employeeId == Some(e) :: TaskDtoOf(t, store.tasks[t])
  }

  /** EmployeeRepository.findEmployeeDTOById. */
  function FindEmployeeDtoById(store: Store, id: int): (r: Option<EmployeeDto>)
    ensures r.Some? <==> id in store.employees
    ensures r.Some? ==> r.value == EmployeeDtoOf(id, store.employees[id])
  {
    if id in store.employees then Some(EmployeeDtoOf(id, store.employees[id])) else None
  }

  /** Task `t` takes part in `FROM Department d JOIN d.employees e JOIN e.tasks t WHERE d.id = :id`:
      inner joins, so the task's employee and that employee's department must both exist. */
  predicate InDepartmentJoin(store: Store, id: int, t: int)
  {
    && t in store.tasks
    && store.tasks[t].employeeId.Some?
    && WorksIn(store, store.tasks[t].employeeId.value, id)
    && id in store.departments
  }

  function DepartmentRowOf(store: Store, id: int, t: int): DepartmentRow
    requires InDepartmentJoin(store, id, t)
  {
    var e := store.tasks[t].employeeId.value;
    var task := store.tasks[t];
    DepartmentRow(id, store.departments[id].name, e, store.employees[e].name, store.employees[e].position,
                  t, task.title, task.description, task.dueDate, task.completed)
  }

  /** DepartmentRepository.findAllDTODataInOneQuery, as the set of rows it returns: one row per task
      of an employee of the department, determined by the task's id. */
  function FindAllDepartmentDtoData(store: Store, id: int): (r: set<DepartmentRow>)
    ensures forall row :: row in r ==> InDepartmentJoin(store, id, row.taskId) && row == DepartmentRowOf(store, id, row.taskId)
    ensures forall t :: InDepartmentJoin(store, id, t) ==> DepartmentRowOf(store, id, t) in r
  {
    set t | t in store.tasks && InDepartmentJoin(store, id, t) :: DepartmentRowOf(store, id, t)
  }

  /** Task `t` takes part in `FROM Employee e JOIN e.tasks t WHERE e.id = :id`. */
  predicate InEmployeeJoin(store: Store, id: int, t: int)
  {
    t in store.tasks && store.tasks[t].employeeId == Some(id) && id in store.employees
  }

  function EmployeeRowOf(store: Store, id: int, t: int): EmployeeRow
    requires InEmployeeJoin(store, id, t)
  {
    var task := store.tasks[t];
    EmployeeRow(id, store.employees[id].name, store.employees[id].position,
                t, task.title, task.description, task.dueDate, task.completed)
  }

  /** EmployeeRepository.findAllDTODataInOneQuery, as the set of rows it returns: one row per task
      of the employee, determined by the task's id. */
  function FindAllEmployeeDtoData(store: Store, id: int): (r: set<EmployeeRow>)
    ensures forall row :: row in r ==> InEmployeeJoin(store, id, row.taskId) && row == EmployeeRowOf(store, id, row.taskId)
    ensures forall t :: InEmployeeJoin(store, id, t) ==> EmployeeRowOf(store, id, t) in r
  {
    set t | t in store.tasks && InEmployeeJoin(store, id, t) :: EmployeeRowOf(store, id, t)
  }

  /** `rows` is a listing, in some order, of the result set `result` of a query. */
  ghost predicate Lists<T(!new)>(rows: seq<T>, result: set<T>)
  {
    forall r :: r in rows <==> r in result
  }

  /** Two listings of the same rows are both empty or both start with a row of the other. */
  lemma SameElementsShareHeads<T>(a: seq<T>, b: seq<T>)
    requires forall r :: r in a <==> r in b
    ensures |a| > 0 ==> a[0] in b
    ensures |b| > 0 ==> b[0] in a
  {
  }
}
