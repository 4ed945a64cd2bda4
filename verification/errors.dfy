/** The failures the injector reports; only the kind is kept here. In the source
    most of them are an unchecked `InjectorException` with a message. `NullPointer`
    stands for a `NullPointerException`. A constructor that throws, and a
    post-construct method that takes parameters, escape unwrapped in the source and
    are reported here as `CannotInstantiate` and `PostConstructFailed`. */
module Errors {
  import opened Types

  datatype InjectorError =
    | NullObject                                  // registering a null object
    | NullPointer                                 // a null lookup name reached `name.equals(..)`
    | CannotInstantiate(clazz: TypeId)            // the no-argument constructor failed
    | CannotResolve(field: string, fieldType: TypeId)  // no binding for a marked field
    | CannotInject(field: string)                 // the reflective field write was refused
    | PostConstructFailed(hook: string)         // a post-construct hook threw

  /** The outcome of an operation that returns a value or throws. */
  datatype Result<+T> = Success(value: T) | Failure(error: InjectorError)

  /** The outcome of an operation that returns nothing of interest or throws. */
  datatype Outcome = Pass | Fail(error: InjectorError)
}
