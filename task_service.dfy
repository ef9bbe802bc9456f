/** TaskService: lookups, the overdue query, deletion and marking a task completed over the task
    table, an id-to-row map that the service's operations read and replace. */
module TaskService {
  import opened Wrappers
  import opened Repositories

  /** TaskRepository.findByCompletedFalseAndDueDateBefore(today): the tasks not completed whose due
      day is strictly before `today`. */
  function OverdueTasks(tasks: map<int, TaskRecord>, today: int): (r: map<int, TaskRecord>)
    ensures forall t :: t in r <==> t in tasks && !tasks[t].completed && tasks[t].dueDate < today
    ensures forall t :: t in r ==> r[t] == tasks[t]
  {
    map t | t in tasks && !tasks[t].completed && tasks[t].dueDate < today :: tasks[t]
  }

  /** The task table after markTaskAsCompleted(id): the task's `completed` flag set, or the table
      as it was when there is no such task. */
  function MarkedCompleted(tasks: map<int, TaskRecord>, id: int): (r: map<int, TaskRecord>)
    ensures r.Keys == tasks.Keys
    ensures id in tasks ==> r[id].completed
    ensures id in tasks ==> r[id].(completed := tasks[id].completed) == tasks[id]
    ensures forall t :: t in tasks && t != id ==> r[t] == tasks[t]
  {
    if id in tasks then tasks[id := tasks[id].(completed := true)] else tasks
  }

  /** Marking a task completed a second time changes nothing. */
  lemma MarkedCompletedIsIdempotent(tasks: map<int, TaskRecord>, id: int)
    ensures MarkedCompleted(MarkedCompleted(tasks, id), id) == MarkedCompleted(tasks, id)
  {
  }

  /** Marking a task completed that already is completed changes nothing. */
  lemma MarkingCompletedTaskChangesNothing(tasks: map<int, TaskRecord>, id: int)
    requires id in tasks && tasks[id].completed
    ensures MarkedCompleted(tasks, id) == tasks
  {
  }

  /** Marking a task completed takes it off the overdue list and leaves the rest of the list alone. */
  lemma MarkedCompletedLeavesOverdue(tasks: map<int, TaskRecord>, id: int, today: int)
    ensures OverdueTasks(MarkedCompleted(tasks, id), today) == OverdueTasks(tasks, today) - {id}
  {
  }

  /** A task due today is not overdue yet. */
  lemma DueTodayIsNotOverdue(tasks: map<int, TaskRecord>, t: int, today: int)
    requires t in tasks && tasks[t].dueDate == today
    ensures t !in OverdueTasks(tasks, today)
  {
  }

  class TaskService {
    /** The task table behind TaskRepository, keyed by task id. */
    var tasks: map<int, TaskRecord>

    constructor (tasks: map<int, TaskRecord>)
      ensures this.tasks == tasks
    {
      this.tasks := tasks;
    }

    /** getTaskById: the task with that id, if there is one. */
    function GetTaskById(id: int): (r: Option<TaskRecord>)
      reads this
      ensures r.Some? <==> id in tasks
      ensures r.Some? ==> r.value == tasks[id]
    {
      if id in tasks then Some(tasks[id]) else None
    }

    /** getOverdueTasks, with `LocalDate.now()` passed in as `today`. */
    function GetOverdueTasks(today: int): (r: map<int, TaskRecord>)
      reads this
      ensures forall t :: t in r <==> t in tasks && !tasks[t].completed && tasks[t].dueDate < today
      ensures forall t :: t in r ==> r[t] == tasks[t]
    {
      OverdueTasks(tasks, today)
    }

    /** deleteTask: `deleteById` removes the task; for an absent id it fails with
        EmptyResultDataAccessException and removes nothing. */
    method DeleteTask(id: int) returns (r: Result<()>)
      modifies this
      ensures r.Failure? <==> id !in old(tasks)
      ensures r.Failure? ==> r.error == EmptyResult(id)
      ensures tasks == old(tasks) - {id}
      ensures GetTaskById(id).None?
      ensures forall t :: t in old(tasks) && t != id ==> GetTaskById(t) == Some(old(tasks)[t])
    {
      if id !in tasks {
        return Failure(EmptyResult(id));
      }
      tasks := tasks - {id};
      r := Success(());
    }

    /** markTaskAsCompleted: find the task or fail with "Task not found", set its `completed` flag,
        save it and return the saved task. */
    method MarkTaskAsCompleted(id: int) returns (r: Result<TaskRecord>)
      modifies this
      ensures tasks == MarkedCompleted(old(tasks), id)
      ensures r.Failure? <==> id !in old(tasks)
      ensures r.Failure? ==> r.error == NotFound(TaskKind, id) && tasks == old(tasks)
      ensures r.Success? ==> r.value.completed && r.value == tasks[id]
      ensures r.Success? ==> r.value == old(tasks)[id].(completed := true)
      ensures forall today :: GetOverdueTasks(today) == old(GetOverdueTasks(today)) - {id}
    {
      var found := GetTaskById(id);
      if found.None? {
        return Failure(NotFound(TaskKind, id));
      }
      var task := found.value.(completed := true);
      tasks := tasks[id := task];
      r := Success(task);
      forall today ensures GetOverdueTasks(today) == old(GetOverdueTasks(today)) - {id} {
        MarkedCompletedLeavesOverdue(old(tasks), id, today);
      }
    }
  }

  /** Two calls of markTaskAsCompleted in a row: the second one succeeds whenever the first one did
      and leaves the table as the first one left it. */
  method MarkTaskAsCompletedTwice(service: TaskService, id: int) returns (first: Result<TaskRecord>, second: Result<TaskRecord>)
    modifies service
    ensures first.Success? ==> second.Success? && second.value == first.value
    ensures first.Failure? ==> second.Failure?
    ensures service.tasks == MarkedCompleted(old(service.tasks), id)
  {
    first := service.MarkTaskAsCompleted(id);
    second := service.MarkTaskAsCompleted(id);
    MarkedCompletedIsIdempotent(old(service.tasks), id);
  }
}
