/** A binding: the immutable `(name, object, type)` record of the registry. */
module Injectables {
  import opened Types

  /** Every component is final and nullable at this level; the registry is what
      refuses a null object. Being a datatype, a binding cannot change after it
      is built and two bindings are equal exactly when their components are. */
  datatype Injectable = Injectable(name: Option<string>, obj: Option<Obj>, declaredType: TypeId)

  /** The static factory: builds a binding from its three components without
      validating any of them. */
  function Of(name: Option<string>, obj: Option<Obj>, declaredType: TypeId): Injectable
  {
    Injectable(name, obj, declaredType)
  }

  /** The getters return the factory's arguments, whatever they are (a null name or
      object included), and two bindings built by `Of` are equal exactly when all
      three arguments are. */
  lemma OfEquality(n1: Option<string>, o1: Option<Obj>, t1: TypeId,
                   n2: Option<string>, o2: Option<Obj>, t2: TypeId)
    ensures Of(n1, o1, t1).name == n1 && Of(n1, o1, t1).obj == o1 && Of(n1, o1, t1).declaredType == t1
    ensures Of(n1, o1, t1) == Of(n2, o2, t2) <==> n1 == n2 && o1 == o2 && t1 == t2
  {
  }
}
