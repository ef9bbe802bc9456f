/** Option and Result, the model's stand-ins for Java's null / Optional and for thrown exceptions. */
module Wrappers {

  datatype Option<+T> = None | Some(value: T)

  /** The entity a "not found" error names. */
  datatype EntityKind = DepartmentKind | EmployeeKind | TaskKind

  /** The exceptions the core throws.
      NotFound is the `RuntimeException("<Entity> not found with id: " + id)` of the services;
      EmptyResult is the exception Spring Data's `deleteById` throws for an absent id. */
  datatype Error = NotFound(entity: EntityKind, id: int) | EmptyResult(id: int)

  datatype Result<+R> = Success(value: R) | Failure(error: Error)
}
