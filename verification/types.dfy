/** Java-level notions the injector relies on: nullable values, classes and
    the JVM's `Class.isAssignableFrom` relation, kept abstract. */
module Types {

  /** A nullable Java reference: `None` stands for `null`. */
  datatype Option<+T> = None | Some(value: T)

  /** A class, identified by its fully qualified name. */
  type TypeId = string

  /** A non-null Java object: an identity and its runtime class (`getClass()`). */
  datatype Obj = Obj(id: nat, runtimeClass: TypeId)

  /** The JVM's subtyping as seen through reflection:
      `assignable(from, to)` holds when `to.isAssignableFrom(from)`, that is when
      a value of class `from` may be stored in a variable of class `to`. */
  datatype TypeSystem = TypeSystem(assignable: (TypeId, TypeId) -> bool) {

    /** Java's assignability is a preorder: every class is assignable to itself,
        and assignability composes along the class hierarchy. */
    ghost predicate Valid() {
      && (forall t :: assignable(t, t))
      && (forall a, b, c :: assignable(a, b) && assignable(b, c) ==> assignable(a, c))
    }
  }
}
