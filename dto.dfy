/** The detached transfer objects of the service layer (Lombok value classes in the application). */
module Dto {

  /** `new TaskDTO(t.id, t.title, t.description, t.dueDate, t.completed)`; dates are day numbers. */
  datatype TaskDto = TaskDto(id: int, title: string, description: string, dueDate: int, completed: bool)

  /** An employee with the set of its tasks. */
  datatype EmployeeDto = EmployeeDto(id: int, name: string, position: string, tasks: set<TaskDto>)

  /** A department with its employees, keyed by employee id. The one-query variant keeps each
      EmployeeDTO both in the department's HashSet and in a HashMap keyed by id; the multi-query
      variant only adds them to the set. Both hold one EmployeeDTO per employee id, so the model
      keeps the map. */
  datatype DepartmentDto = DepartmentDto(id: int, name: string, employees: map<int, EmployeeDto>)
}
