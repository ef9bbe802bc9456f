# Departments, employees and tasks: the DTO assemblers, the task service and the entities

This project models the service core of a small Spring/Hibernate teaching application. It keeps a
three-level tree Department → Employee → Task and offers several ways of loading that tree. The
model covers three pieces of that core.

- **DTO assembly** (`DepartmentService`, `EmployeeService`). There are two ways of building a
  DepartmentDTO → EmployeeDTO → TaskDTO tree, or an EmployeeDTO → TaskDTO tree.
  - The *one-query* variant regroups the flat rows of one joined query in a loop. It uses a map
    from employee id to the EmployeeDTO under construction. These variants are methods with loop
    invariants; the department loop is specified by a fold (`GroupRows`). Each is proved equal to a
    declarative grouping (`EmployeeGroups`, `TasksOfRows`).
  - The *multi-query* variant calls per-id lookups one after the other.
  - The store is three maps from id to row. The repository queries are pure functions on it that
    return sets, because the order of a JPA result list is unspecified. The rows of the joined
    query are an input sequence. The lemmas assume only that this sequence lists the query's
    result set in some order (`Repositories.Lists`).
  - The lemmas prove three things: the employees partition the rows, the tree does not depend on
    row order, and the two variants agree exactly where the inner join lets them.
- **TaskService**. This is a class whose field is the task table, a map from id to task row.
  - `getTaskById` and `getOverdueTasks` are functions reading it.
  - `deleteTask` and `markTaskAsCompleted` are methods replacing it.
  - `deleteTask` leaves the old table without that id. The effect of `markTaskAsCompleted` is
    stated by the function `MarkedCompleted`. The overdue query is the function `OverdueTasks`.
    Lemmas about these two functions give idempotence and the effect on the overdue list.
- **Entities**. `Department`, `Employee` and `Task` are classes.
  - Each has an `Option<int>` id that is absent until the entity is saved.
  - The child sets are `set` fields, and the back-references are nullable fields.
  - `equals` holds for the same reference, or for an instance of the class with an equal non-null
    id (`instanceof`; a Dafny class has no subclasses, so `o is C` matches it).
  - `hashCode` is one constant per class.
  - `addTask` and `addEmployee` insert with `HashSet.add` semantics: nothing is added when an equal
    element is already present. Then they set the back-reference.

Notes:
- Dates (`LocalDate`) are day numbers. Ids (`Long`) are unbounded integers.
- `LocalDate.now()` is the parameter `today`.
- Both the "not found" `RuntimeException`s and the Spring Data exception of `deleteById` become
  `Failure` values (`Wrappers.Error`).
- An empty one-query result does not only mean the parent is absent. The query uses inner joins,
  so a parent with no tasks also yields no rows, and the code throws "not found".
  `DepartmentService.OneQueryAgreesWithMultiQuery` and `EmployeeService.OneQueryAgreesWithTwoQueries`
  state this case.
- `hashCode` is `getClass().hashCode()`: one value per class, independent of the id. With a
  constant hash, `HashSet.add` compares the new element by `equals` against the current members and
  their current ids, which is what `HasTask` and `HasEmployee` test.

Files:
- `wrappers.dfy`: Option, Result and the error values.
- `dto.dfy`: the DTOs.
- `repositories.dfy`: the store and the queries.
- `employee_service.dfy`, `department_service.dfy`: the assemblers.
- `task_service.dfy`: the task service.
- `entities.dfy`: the entities.

## Model

| member | source | states |
|---|---|---|
| Repositories.FindDepartmentDtoById | src/main/java/tr/com/mcay/repository/DepartmentRepository.java:29-30 | a DepartmentDTO exactly when the department exists, with its id and name and no employees |
| Repositories.FindEmployeeDtosByDepartmentId | src/main/java/tr/com/mcay/repository/DepartmentRepository.java:32-33 | every DTO returned is an employee of the department with empty tasks, and every employee of the department has its DTO in the result |
| Repositories.FindTaskDtosByEmployeeId | src/main/java/tr/com/mcay/repository/DepartmentRepository.java:35-36 | every DTO returned is built from a stored task of the employee, and every task of the employee has its DTO in the result |
| Repositories.FindAllDepartmentDtoData | src/main/java/tr/com/mcay/repository/DepartmentRepository.java:41-48 | one row per task that inner-joins to an employee of the department, and each row is built from that task, its employee and the department |
| Repositories.FindAllEmployeeDtoData | src/main/java/tr/com/mcay/repository/EmployeeRepository.java:39-45 | one row per task of the employee, and each row is built from that task and the employee |
| Repositories.FindEmployeeDtoById | src/main/java/tr/com/mcay/repository/EmployeeRepository.java:29-30 | an EmployeeDTO exactly when the employee exists, built from its row with empty tasks |
| EmployeeService.GetEmployeeWithTasksInOneQueryDto | src/main/java/tr/com/mcay/service/EmployeeService.java:130-159 | fails with "Employee not found" for the requested id exactly when there are no rows; otherwise id, name and position come from the first row, and the task set holds exactly the TaskDTOs of the rows |
| EmployeeService.GetEmployeeWithTasksDto | src/main/java/tr/com/mcay/service/EmployeeService.java:111-121 | fails with "Employee not found" exactly when the employee is absent; otherwise its id, name and position come from the store, and its tasks equal the by-employee task lookup |
| EmployeeService.AssembleEmployeeIgnoresOrder | src/main/java/tr/com/mcay/service/EmployeeService.java:138-156 | two listings of the same rows of one employee give the same result |
| EmployeeService.JoinRowsDescribeEmployee | src/main/java/tr/com/mcay/repository/EmployeeRepository.java:39-45 | every row of the joined query names the requested employee, with its stored name and position |
| EmployeeService.JoinRowsHoldEmployeeTasks | src/main/java/tr/com/mcay/repository/EmployeeRepository.java:39-45 | the rows' TaskDTOs are the employee's tasks; there are no rows exactly when the employee is absent or has no tasks |
| EmployeeService.OneQueryAgreesWithTwoQueries | src/main/java/tr/com/mcay/service/EmployeeService.java:111-159 | for an employee with tasks both variants give the same DTO; for an existing employee without tasks the one-query variant fails while the two-query variant gives an empty task set; for an absent employee both fail |
| DepartmentService.AddRowGroups | src/main/java/tr/com/mcay/service/DepartmentService.java:131-156 | one pass of the loop body turns the grouping of the rows seen so far into the grouping of those rows plus the next one |
| DepartmentService.GroupRowsIsEmployeeGroups | src/main/java/tr/com/mcay/service/DepartmentService.java:129-156 | the map the loop builds is the rows grouped by employee id: each employee is created from its first row and holds the tasks of all its rows |
| DepartmentService.GetDepartmentWithEmployeesAndTasksInOneQueryDto | src/main/java/tr/com/mcay/service/DepartmentService.java:114-159 | fails with "Department not found" for the requested id exactly when there are no rows; otherwise the department's id and name come from the first row, and its employees are the rows grouped by employee id; loop invariant: the department's employee collection and the map have the same keys, and the map is the grouping of the rows seen so far |
| DepartmentService.EmployeesPartitionRows | src/main/java/tr/com/mcay/service/DepartmentService.java:133-155 | one EmployeeDTO per distinct employee id, so the number of employees equals the number of distinct ids; each holds exactly the tasks of its rows; a row's TaskDTO belongs to its own employee and to no other |
| DepartmentService.AssembleDepartmentIgnoresOrder | src/main/java/tr/com/mcay/service/DepartmentService.java:131-156 | when rows of the same employee carry the same employee fields and all rows name one department, the result does not depend on row order |
| DepartmentService.JoinRowsDescribeDepartment | src/main/java/tr/com/mcay/repository/DepartmentRepository.java:41-48 | every row names the requested department, one of its employees with its stored fields, and a task of that employee; the rows are coherent, and a task id determines its employee |
| DepartmentService.JoinRowsGroupEmployeeTasks | src/main/java/tr/com/mcay/repository/DepartmentRepository.java:41-48 | no rows for an absent department; the rows' employee ids are exactly the department's employees that have tasks; each such employee's rows carry all of its tasks |
| DepartmentService.GetDepartmentWithEmployeesAndTasksDto | src/main/java/tr/com/mcay/service/DepartmentService.java:87-105 | fails with "Department not found" exactly when the department is absent; otherwise the DTO has the requested id and the stored name, holds every employee of the department including those with no tasks, and each employee's tasks equal the by-employee task lookup |
| DepartmentService.OneQueryFailsWithoutTasks | src/main/java/tr/com/mcay/service/DepartmentService.java:115-119 | the joined query has no rows exactly when the department is absent or none of its employees has a task |
| DepartmentService.OneQueryEmployeeHasAllTasks | src/main/java/tr/com/mcay/service/DepartmentService.java:131-156 | an employee built from the joined rows works in the department and holds exactly the tasks the per-employee lookup returns |
| DepartmentService.OneQueryEmployeeIdsHaveTasks | src/main/java/tr/com/mcay/repository/DepartmentRepository.java:41-48 | the employee ids in the joined rows are exactly the ids of the multi-query employees that have tasks |
| DepartmentService.OneQueryKeepsEmployeesWithTasks | src/main/java/tr/com/mcay/service/DepartmentService.java:87-159 | when the department exists, the one-query employees are exactly the multi-query employees that have tasks |
| DepartmentService.OneQueryAgreesWithMultiQuery | src/main/java/tr/com/mcay/service/DepartmentService.java:87-159 | the one-query variant fails exactly when the department is absent or has no tasks at all; for an absent department both variants fail alike; the multi-query variant succeeds whenever the department exists; otherwise both give the requested id and the same name, and the one-query employees are the multi-query employees minus those without tasks |
| TaskService.OverdueTasks | src/main/java/tr/com/mcay/repository/TaskRepository.java:17 | exactly the tasks not completed whose due day is strictly before today, unchanged |
| TaskService.MarkedCompleted | src/main/java/tr/com/mcay/service/TaskService.java:50-54 | same task ids; the marked task is completed and differs from its old row only in the flag; every other task is unchanged |
| TaskService.MarkedCompletedIsIdempotent | src/main/java/tr/com/mcay/service/TaskService.java:50-55 | marking the same task completed twice leaves the table as marking it once |
| TaskService.MarkingCompletedTaskChangesNothing | src/main/java/tr/com/mcay/service/TaskService.java:53-54 | marking a task that is already completed leaves the table unchanged |
| TaskService.MarkedCompletedLeavesOverdue | src/main/java/tr/com/mcay/service/TaskService.java:35-55 | after marking a task completed, the overdue list is the old one without that task |
| TaskService.DueTodayIsNotOverdue | src/main/java/tr/com/mcay/service/TaskService.java:35-37 | a task due today is not overdue |
| TaskService.TaskService.constructor | src/main/java/tr/com/mcay/service/TaskService.java:19-21 | the service starts from the given task table |
| TaskService.TaskService.GetTaskById | src/main/java/tr/com/mcay/service/TaskService.java:27-29 | the task with that id exactly when there is one |
| TaskService.TaskService.GetOverdueTasks | src/main/java/tr/com/mcay/service/TaskService.java:35-37 | exactly the stored tasks that are not completed and are due strictly before today; a task due today and a completed task are excluded |
| TaskService.TaskService.DeleteTask | src/main/java/tr/com/mcay/service/TaskService.java:44-47 | fails for an absent id; afterwards the task is gone, every other task is still there, and nothing else changed |
| TaskService.TaskService.MarkTaskAsCompleted | src/main/java/tr/com/mcay/service/TaskService.java:49-55 | fails with "Task not found" and leaves the table unchanged for an absent id; otherwise the stored and the returned task are the old task with `completed` set, everything else is unchanged, and the overdue list loses only that task |
| TaskService.MarkTaskAsCompletedTwice | src/main/java/tr/com/mcay/service/TaskService.java:49-55 | a second call succeeds when the first did, returns the same task and leaves the table as the first call left it |
| Entities.Department.constructor | src/main/java/tr/com/mcay/entity/Department.java:28-32 | no id, the given name, no employees |
| Entities.Department.HashCode | src/main/java/tr/com/mcay/entity/Department.java:47-50 | the class constant, the same for every Department, with or without an id |
| Entities.Department.AddEmployee | src/main/java/tr/com/mcay/entity/Department.java:34-37 | the employee set gains the employee unless an equal one was present, keeps every old member and grows by at most one; the employee's department becomes this one; names, ids and the employee's tasks are unchanged; no other department is touched |
| Entities.Employee.constructor | src/main/java/tr/com/mcay/entity/Employee.java:36-41 | no id, the given name and position, no department, no tasks |
| Entities.Employee.HashCode | src/main/java/tr/com/mcay/entity/Employee.java:56-59 | the class constant, the same for every Employee, with or without an id |
| Entities.Employee.AddTask | src/main/java/tr/com/mcay/entity/Employee.java:43-46 | the task set gains the task unless an equal one was present, keeps every old task and grows by at most one; the task's employee becomes this one; every other field of both is unchanged |
| Entities.Task.constructor | src/main/java/tr/com/mcay/entity/Task.java:36-41 | no id, the given title, description and due day, not completed, no employee |
| Entities.Task.HashCode | src/main/java/tr/com/mcay/entity/Task.java:51-54 | the class constant, the same for every Task, with or without an id |
| Entities.Department.Equals | src/main/java/tr/com/mcay/entity/Department.java:39-45 | a Department equals itself; it equals only instances of Department; another instance equals it only when both have the same non-null id; one without an id equals no other instance |
| Entities.DepartmentEqualsIsEquivalence | src/main/java/tr/com/mcay/entity/Department.java:39-45 | Department.equals is reflexive, symmetric and transitive |
| Entities.DepartmentsWithSameIdAreEqual | src/main/java/tr/com/mcay/entity/Department.java:44 | Departments with the same non-null id are equal, whatever their names |
| Entities.DepartmentHashCodeAgreesWithEquals | src/main/java/tr/com/mcay/entity/Department.java:39-50 | equal Departments have equal hash codes |
| Entities.Employee.Equals | src/main/java/tr/com/mcay/entity/Employee.java:48-54 | an Employee equals itself; it equals only instances of Employee; another instance equals it only when both have the same non-null id; one without an id equals no other instance |
| Entities.EmployeeEqualsIsEquivalence | src/main/java/tr/com/mcay/entity/Employee.java:48-54 | Employee.equals is reflexive, even without an id, and symmetric and transitive |
| Entities.EmployeesWithSameIdAreEqual | src/main/java/tr/com/mcay/entity/Employee.java:53 | Employees with the same non-null id are equal, whatever their names and positions |
| Entities.EmployeeHashCodeAgreesWithEquals | src/main/java/tr/com/mcay/entity/Employee.java:48-59 | equal Employees have equal hash codes |
| Entities.Task.Equals | src/main/java/tr/com/mcay/entity/Task.java:43-49 | a Task equals itself; it equals only instances of Task; another instance equals it only when both have the same non-null id; one without an id equals no other instance |
| Entities.TaskEqualsIsEquivalence | src/main/java/tr/com/mcay/entity/Task.java:43-49 | Task.equals is reflexive, symmetric and transitive |
| Entities.TasksWithSameIdAreEqual | src/main/java/tr/com/mcay/entity/Task.java:48 | Tasks with the same non-null id are equal |
| Entities.TaskHashCodeAgreesWithEquals | src/main/java/tr/com/mcay/entity/Task.java:43-54 | equal Tasks have equal hash codes |
| Entities.AddSameTaskTwice | src/main/java/tr/com/mcay/entity/Employee.java:43-45 | adding the same task twice adds at most one entry, whatever the set held before, and leaves the task in the set pointing at the employee |
| Entities.AddTwoUnsavedTasks | src/main/java/tr/com/mcay/entity/Employee.java:43-45 | two distinct unsaved tasks are both added to whatever the set held before |
| Entities.AddTwoTasksWithSameId | src/main/java/tr/com/mcay/entity/Employee.java:43-45 | a second, distinct task with the id of one already present is not added, but its employee is still set |
| Entities.MoveEmployee | src/main/java/tr/com/mcay/entity/Department.java:34-37 | adding an employee to a second department leaves it in the first department's set and points its back-reference at the second |

## Left out

- Controllers, HTTP status mapping and JSON serialisation (`@JsonIgnore`, `toString`): these are
  presentation, not service logic.
- Lazy loading, `@Transactional`, `LazyInitializationException`, `@BatchSize`, `JOIN FETCH` and the
  number of queries issued: these are Hibernate proxy behaviour and performance. Every
  entity-returning relation method of the services is left out for the same reason: the
  `*Transactional`, `*NonTransactional` and `*Fetch` methods, `getDepartmentWithEmployeesAndTasksInOneQuery`,
  `getEmployeeWithTasksInOneQuery`, `getEmployeeWithTasksBatchSize`, `getEmployeeWithTasksAndDepartment`
  and `getTaskWithEmployeeAndDepartment`.
- The CRUD passthroughs (`getAll*`, `get*ById` of departments and employees, `save*`, `delete*` of
  departments and employees, `getEmployeesByDepartmentId`, `getTasksByEmployeeId`): each is a single repository call. The task
  ones the model does include show what such a call does.
- Id generation and cascade delete: the ORM does these, and here ids are the keys of the store.
- The seed data in `DataInitializer`: it only calls `save`.
- Lombok setters and the no-argument and all-argument constructors: field assignments.
- JPA queries: they are pure functions on the store (`Repositories`), not executed SQL. Each
  result list is a set, because its order is unspecified. The one-query rows are any listing of
  that set.
- The DTOs' `@Data` equality and hashing on mutable fields: the Java service mutates an EmployeeDTO after
  putting it in a HashSet. Here the department's employees are a map keyed by employee id, so
  that hazard is not modelled.
- Null strings and dates, and the `Number`/`String`/`LocalDate` casts of the row maps: row fields
  are typed values. `Long` values are unbounded integers, with no 64-bit wrap-around.
- `LocalDate.now()`: it is the parameter `today`.
- TaskService.TaskService.DeleteTask: it models `deleteById` of Spring Data 2.x, the version that
  goes with the `javax.persistence` entities. That version fails for an absent id. Later versions
  silently ignore an absent id. The table afterwards is the same in both cases.
- TaskService.TaskService: it holds task rows as values (`TaskRecord`), not the `Task` entity
  objects that `setCompleted` mutates. So it does not model aliasing between a returned Task and the
  one in the persistence context.
- Entities.Department.HashCode, Entities.Employee.HashCode, Entities.Task.HashCode: the value of
  `getClass().hashCode()` is chosen by the JVM. The model fixes an arbitrary constant per class.
  Only its independence from the fields matters.
