/** The JPA entities Department, Employee and Task: mutable objects with a database id that is
    absent until the entity is saved, child sets on the one side of each relation, back-references
    on the other, and an identity-based equals. */
module Entities {
  import opened Wrappers

  /** `getClass().hashCode()` of each entity class: some number fixed for the run, the same for
      every instance of the class. */
  const DepartmentClassHash: int := 1
  const EmployeeClassHash: int := 2
  const TaskClassHash: int := 3

  class Department {
    var id: Option<int>
    var name: string
    var employees: set<Employee>

    /** `new Department(name)`: not saved yet, no employees. */
    constructor (name: string)
      ensures id == None && this.name == name && employees == {}
    {
      id := None;
      this.name := name;
      employees := {};
    }

    /** equals: the same reference, or another Department with the same non-null id. */
    function Equals(o: object?): (r: bool)
      reads this, o
      ensures this == o ==> r
      ensures r ==> o is Department
      ensures r && this != o ==> id.Some? && id == (o as Department).id
      ensures id.None? ==> (r <==> this == o)
    {
      this == o || (o is Department && id.Some? && id == (o as Department).id)
    }

    /** hashCode: the class's hash, whatever the id. */
    function HashCode(): (h: int)
      ensures h == DepartmentClassHash
    {
      DepartmentClassHash
    }

    /** HashSet.add on the employee set: a no-op when an equal employee is present. */
    predicate HasEmployee(employee: Employee)
      reads this, employee, employees
    {
      exists e :: e in employees && employee.Equals(e)
    }

    /** addEmployee: add to the employee set, then point the employee's department here. The
        employee stays in the set of its previous department, whose set is not touched. */
    method AddEmployee(employee: Employee)
      modifies this, employee
      ensures old(HasEmployee(employee)) ==> employees == old(employees)
      ensures !old(HasEmployee(employee)) ==> employees == old(employees) + {employee}
      ensures HasEmployee(employee)
      ensures employee.department == this
      ensures id == old(id) && name == old(name)
      ensures employee.id == old(employee.id) && employee.name == old(employee.name)
      ensures employee.position == old(employee.position) && employee.tasks == old(employee.tasks)
    {
      if !HasEmployee(employee) {
        employees := employees + {employee};
      }
      employee.department := this;
      assert employee.Equals(employee);
    }
  }

  class Employee {
    var id: Option<int>
    var name: string
    var position: string
    var department: Department?
    var tasks: set<Task>

    /** `new Employee(name, position)`: not saved yet, no department, no tasks. */
    constructor (name: string, position: string)
      ensures id == None && this.name == name && this.position == position
      ensures department == null && tasks == {}
    {
      id := None;
      this.name := name;
      this.position := position;
      department := null;
      tasks := {};
    }

    /** equals: the same reference, or another Employee with the same non-null id. */
    function Equals(o: object?): (r: bool)
      reads this, o
      ensures this == o ==> r
      ensures r ==> o is Employee
      ensures r && this != o ==> id.Some? && id == (o as Employee).id
      ensures id.None? ==> (r <==> this == o)
    {
      this == o || (o is Employee && id.Some? && id == (o as Employee).id)
    }

    /** hashCode: the class's hash, whatever the id. */
    function HashCode(): (h: int)
      ensures h == EmployeeClassHash
    {
      EmployeeClassHash
    }

    /** HashSet.add on the task set: a no-op when an equal task is present. */
    predicate HasTask(task: Task)
      reads this, task, tasks
    {
      exists t :: t in tasks && task.Equals(t)
    }

    /** addTask: add to the task set, then point the task's employee here. */
    method AddTask(task: Task)
      modifies this, task
      ensures old(HasTask(task)) ==> tasks == old(tasks)
      ensures !old(HasTask(task)) ==> tasks == old(tasks) + {task}
      ensures HasTask(task)
      ensures task.employee == this
      ensures id == old(id) && name == old(name) && position == old(position) && department == old(department)
      ensures task.id == old(task.id) && task.title == old(task.title) && task.description == old(task.description)
      ensures task.dueDate == old(task.dueDate) && task.completed == old(task.completed)
    {
      if !HasTask(task) {
        tasks := tasks + {task};
      }
      task.employee := this;
      assert task.Equals(task);
    }
  }

  class Task {
    var id: Option<int>
    var title: string
    var description: string
    var dueDate: int
    var completed: bool
    var employee: Employee?

    /** `new Task(title, description, dueDate)`: not saved yet, not completed, no employee. */
    constructor (title: string, description: string, dueDate: int)
      ensures id == None && this.title == title && this.description == description && this.dueDate == dueDate
      ensures !completed && employee == null
    {
      id := None;
      this.title := title;
      this.description := description;
      this.dueDate := dueDate;
      completed := false;
      employee := null;
    }

    /** equals: the same reference, or another Task with the same non-null id. */
    function Equals(o: object?): (r: bool)
      reads this, o
      ensures this == o ==> r
      ensures r ==> o is Task
      ensures r && this != o ==> id.Some? && id == (o as Task).id
      ensures id.None? ==> (r <==> this == o)
    {
      this == o || (o is Task && id.Some? && id == (o as Task).id)
    }

    /** hashCode: the class's hash, whatever the id. */
    function HashCode(): (h: int)
      ensures h == TaskClassHash
    {
      TaskClassHash
    }
  }

  // Department.equals

  /** Department.equals is reflexive, symmetric and transitive. */
  lemma DepartmentEqualsIsEquivalence(a: Department, b: Department, c: Department)
    ensures a.Equals(a)
    ensures a.Equals(b) ==> b.Equals(a)
    ensures a.Equals(b) && b.Equals(c) ==> a.Equals(c)
  {
  }

  /** Departments with the same non-null id are equal whatever their names. */
  lemma DepartmentsWithSameIdAreEqual(d1: Department, d2: Department)
    requires d1.id.Some? && d1.id == d2.id
    ensures d1.Equals(d2) && d2.Equals(d1)
  {
  }

  /** Equal Departments have equal hash codes, ids or not. */
  lemma DepartmentHashCodeAgreesWithEquals(a: Department, b: Department)
    requires a.Equals(b)
    ensures a.HashCode() == b.HashCode()
  {
  }

  // Employee.equals

  lemma EmployeeEqualsIsEquivalence(a: Employee, b: Employee, c: Employee)
    ensures a.Equals(a)
    ensures a.Equals(b) ==> b.Equals(a)
    ensures a.Equals(b) && b.Equals(c) ==> a.Equals(c)
  {
  }

  /** Employees with the same non-null id are equal whatever their names and positions. */
  lemma EmployeesWithSameIdAreEqual(e1: Employee, e2: Employee)
    requires e1.id.Some? && e1.id == e2.id
    ensures e1.Equals(e2) && e2.Equals(e1)
  {
  }

  lemma EmployeeHashCodeAgreesWithEquals(a: Employee, b: Employee)
    requires a.Equals(b)
    ensures a.HashCode() == b.HashCode()
  {
  }

  // Task.equals

  lemma TaskEqualsIsEquivalence(a: Task, b: Task, c: Task)
    ensures a.Equals(a)
    ensures a.Equals(b) ==> b.Equals(a)
    ensures a.Equals(b) && b.Equals(c) ==> a.Equals(c)
  {
  }

  /** Tasks with the same non-null id are equal whatever their other fields. */
  lemma TasksWithSameIdAreEqual(t1: Task, t2: Task)
    requires t1.id.Some? && t1.id == t2.id
    ensures t1.Equals(t2) && t2.Equals(t1)
  {
  }

  lemma TaskHashCodeAgreesWithEquals(a: Task, b: Task)
    requires a.Equals(b)
    ensures a.HashCode() == b.HashCode()
  {
  }

  // addTask and the identity of unsaved tasks

  /** Adding the same Task twice adds at most one entry, whatever the set held before. */
  method AddSameTaskTwice(employee: Employee, task: Task)
    modifies employee, task
    ensures employee.tasks == old(employee.tasks) || employee.tasks == old(employee.tasks) + {task}
    ensures employee.HasTask(task) && task.employee == employee
  {
    employee.AddTask(task);
    employee.AddTask(task);
  }

  /** Two distinct unsaved Tasks are both kept, whatever the set held before: without ids each
      equals only itself. */
  method AddTwoUnsavedTasks(employee: Employee, t1: Task, t2: Task)
    requires t1 != t2 && t1.id.None? && t2.id.None?
    modifies employee, t1, t2
    ensures employee.tasks == old(employee.tasks) + {t1, t2} && t1.employee == employee && t2.employee == employee
  {
    employee.AddTask(t1);
    employee.AddTask(t2);
  }

  /** Two saved Tasks with the same id are one entry: the second is equal to the first. */
  method AddTwoTasksWithSameId(employee: Employee, t1: Task, t2: Task)
    requires employee.tasks == {} && t1 != t2 && t1.id.Some? && t1.id == t2.id
    modifies employee, t1, t2
    ensures employee.tasks == {t1} && t2.employee == employee
  {
    employee.AddTask(t1);
    employee.AddTask(t2);
  }

  /** addEmployee moves the back-reference but leaves the employee in its previous department's
      set. */
  method MoveEmployee(from: Department, to: Department, employee: Employee)
    requires from != to && !from.HasEmployee(employee) && !to.HasEmployee(employee)
    modifies from, to, employee
    ensures employee in from.employees && employee in to.employees
    ensures employee.department == to
  {
    from.AddEmployee(employee);
    to.AddEmployee(employee);
  }
}
