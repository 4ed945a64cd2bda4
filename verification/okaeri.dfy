/** The injector: an append-only registry of bindings, lookup by name and type,
    and the construct / inject fields / run post-construct hooks pipeline. */
module Okaeri {
  import opened Types
  import opened Errors
  import opened Injectables
  import opened Resolution
  import opened Descriptors

  /** An object built by `createInstance`: the values of its declared fields, in
      the descriptor's (reflection's) order. */
  class Instance {
    const decl: ClassDecl
    var values: seq<Option<Obj>>

    /** The no-argument constructor: each field holds what the constructor leaves in it. */
    constructor (decl: ClassDecl)
      ensures this.decl == decl
      ensures |values| == |decl.fields|
      ensures forall j :: 0 <= j < |values| ==> values[j] == decl.fields[j].initial
    {
      this.decl := decl;
      values := seq(|decl.fields|, j requires 0 <= j < |decl.fields| => decl.fields[j].initial);
    }
  }

  class OkaeriInjector {
    /** The registry, in registration order. */
    var injectables: seq<Injectable>

    /** The registry never holds a binding with a null object. */
    ghost predicate Valid()
      reads this
    {
      forall b :: b in injectables ==> b.obj.Some?
    }

    /** `create()`: an injector with an empty registry. */
    constructor Create()
      ensures Valid() && injectables == []
    {
      injectables := [];
    }

    /** Registers `obj` under `name` with the declared type given: a null object is
        refused and leaves the registry as it was; otherwise exactly one binding is
        appended and every earlier binding keeps its place. */
    method RegisterInjectable(name: Option<string>, obj: Option<Obj>, declaredType: TypeId) returns (r: Outcome)
      requires Valid()
      modifies this
      ensures Valid()
      ensures obj.None? ==> r == Fail(NullObject) && injectables == old(injectables)
      ensures obj.Some? ==> r == Pass && injectables == old(injectables) + [Of(name, obj, declaredType)]
    {
      if obj.None? {
        return Fail(NullObject);
      }
      injectables := injectables + [Of(name, obj, declaredType)];
      r := Pass;
    }

    /** The interface's one-argument overload: no name, and the object's runtime
        class as declared type. */
    method RegisterObject(obj: Option<Obj>) returns (r: Outcome)
      requires Valid()
      modifies this
      ensures Valid()
      ensures obj.None? ==> r == Fail(NullObject) && injectables == old(injectables)
      ensures obj.Some? ==> r == Pass && injectables == old(injectables) + [Of(None, obj, obj.value.runtimeClass)]
    {
      if obj.None? {
        return Fail(NullObject);
      }
      r := RegisterInjectable(None, obj, obj.value.runtimeClass);
    }

    /** The interface's two-argument overload: the name given, and the object's
        runtime class as declared type. */
    method RegisterNamed(name: Option<string>, obj: Option<Obj>) returns (r: Outcome)
      requires Valid()
      modifies this
      ensures Valid()
      ensures obj.None? ==> r == Fail(NullObject) && injectables == old(injectables)
      ensures obj.Some? ==> r == Pass && injectables == old(injectables) + [Of(name, obj, obj.value.runtimeClass)]
    {
      if obj.None? {
        return Fail(NullObject);
      }
      r := RegisterInjectable(name, obj, obj.value.runtimeClass);
    }

    /** `getInjectable(name, requested)`: any binding with the name and an assignable
        type, else any binding with an assignable type, else nothing. The registry is
        only read. A null name is dereferenced as soon as a binding reaches the name
        filter, so it fails on a non-empty registry and finds nothing on an empty one. */
    method GetInjectable(ts: TypeSystem, name: Option<string>, requested: TypeId) returns (r: Result<Option<Injectable>>)
      ensures name.None? ==> r == (if injectables == [] then Success(None) else Failure(NullPointer))
      ensures name.Some? ==> r.Success? && ResolvesTo(injectables, ts, name.value, requested, r.value)
    {
      if name.None? {
        if injectables != [] {
          return Failure(NullPointer);
        }
        return Success(None);
      }
      var byNameAndType := ByNameAndType(injectables, ts, name.value, requested);
      if |byNameAndType| > 0 {
        assert byNameAndType[0] in byNameAndType;
        var b :| b in byNameAndType;
        return Success(Some(b));
      }
      var byType := AssignableTo(injectables, ts, requested);
      if |byType| > 0 {
        assert byType[0] in byType;
        var b :| b in byType;
        return Success(Some(b));
      }
      return Success(None);
    }

    /** One iteration of the field loop of `createInstance`: an unmarked field is
        skipped; a marked one is resolved by its lookup name and declared type and,
        when something is found and the write is permitted, receives the binding's
        object. Only that field of `instance` changes. */
    method InjectField(ts: TypeSystem, instance: Instance, i: nat) returns (err: Option<InjectorError>)
      requires Valid()
      requires |instance.values| == |instance.decl.fields| && i < |instance.values|
      modifies instance
      ensures err == FieldError(injectables, ts, instance.decl.fields[i])
      ensures |instance.values| == |old(instance.values)|
      ensures instance.values == old(instance.values)[i := instance.values[i]]
      ensures err.None? ==> Injected(injectables, ts, instance.decl.fields[i], old(instance.values)[i], instance.values[i])
      ensures err.Some? ==> instance.values == old(instance.values)
    {
      var f := instance.decl.fields[i];
      if f.inject.None? {
        return None;
      }
      var found := GetInjectable(ts, Some(LookupName(f)), f.fieldType);
      if found.value.None? {
        return Some(CannotResolve(f.name, f.fieldType));
      }
      if !f.writable {
        return Some(CannotInject(f.name));
      }
      var b := found.value.value;
      assert b in Candidates(injectables, ts, LookupName(f), f.fieldType);
      assert b in injectables;
      instance.values := instance.values[i := b.obj];
      err := None;
    }

    /** The field loop of `createInstance`: every marked field of `instance`, in
        the descriptor's (reflection's) order, receives the object of a binding found for its lookup
        name and declared type; the loop stops at the first field that cannot be
        resolved or written. */
    method InjectFields(ts: TypeSystem, instance: Instance) returns (err: Option<InjectorError>)
      requires Valid()
      requires |instance.values| == |instance.decl.fields|
      modifies instance
      ensures err == FirstFieldError(injectables, ts, instance.decl.fields)
      ensures |instance.values| == |instance.decl.fields|
      ensures err.None? ==> forall j :: 0 <= j < |instance.values| ==>
                Injected(injectables, ts, instance.decl.fields[j], old(instance.values)[j], instance.values[j])
    {
      var fields := instance.decl.fields;
      var i := 0;
      while i < |fields|
        invariant 0 <= i <= |fields|
        invariant |instance.values| == |fields|
        invariant FirstFieldError(injectables, ts, fields) == FirstFieldError(injectables, ts, fields[i..])
        invariant forall j :: 0 <= j < i ==>
                    Injected(injectables, ts, fields[j], old(instance.values)[j], instance.values[j])
        invariant forall j :: i <= j < |fields| ==> instance.values[j] == old(instance.values)[j]
      {
        assert fields[i..][0] == fields[i] && fields[i..][1..] == fields[i + 1..];
        err := InjectField(ts, instance, i);
        if err.Some? {
          return;
        }
        i := i + 1;
      }
      assert fields[i..] == [];
      err := None;
    }

    /** `createInstance(c)`: constructs, injects every marked field, then invokes
        every post-construct method, both in the descriptor's (reflection's) order, each
        step stopping at the first failure. `calls` is the sequence of hooks invoked,
        which happens only once every field is injected. No instance is returned on
        failure. On success the fields are as the field loop left them: every marked
        field holds the (non-null) object of a binding `getInjectable` may return for
        it, and every other field is left as constructed. Hooks have no effect on them
        in this model. */
    method CreateInstance(ts: TypeSystem, c: ClassDecl) returns (r: Result<Instance>, calls: seq<string>)
      requires Valid()
      ensures r.Failure? <==> CreateError(injectables, ts, c).Some?
      ensures r.Failure? ==> Some(r.error) == CreateError(injectables, ts, c)
      ensures calls == HookCalls(injectables, ts, c)
      ensures r.Success? ==> fresh(r.value) && r.value.decl == c && |r.value.values| == |c.fields|
      ensures r.Success? ==> forall j :: 0 <= j < |c.fields| ==>
                Injected(injectables, ts, c.fields[j], c.fields[j].initial, r.value.values[j])
    {
      calls := [];
      if !c.constructible {
        return Failure(CannotInstantiate(c.clazz)), calls;
      }
      var instance := new Instance(c);
      var err := InjectFields(ts, instance);
      if err.Some? {
        return Failure(err.value), calls;
      }
      var run := DispatchPostConstructs(c.methods);
      calls := run.calls;
      if run.failed.Some? {
        return Failure(PostConstructFailed(run.failed.value)), calls;
      }
      r := Success(instance);
    }
  }
}
