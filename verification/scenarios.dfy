/** The injector's own test cases, restated as client code of the model: the
    assertions they make about injected fields follow from the contracts alone. */
module Scenarios {
  import opened Types
  import opened Errors
  import opened Injectables
  import opened Resolution
  import opened Descriptors
  import opened Okaeri

  const ApiClass: TypeId := "eu.okaeri.injectortest.element.Api"
  const WorkerClass: TypeId := "eu.okaeri.injectortest.element.Worker"
  const Worker2Class: TypeId := "eu.okaeri.injectortest.element.Worker2"

  /** A class hierarchy in which every class is assignable only to itself and to
      `java.lang.Object`. */
  function Jvm(): (ts: TypeSystem)
    ensures ts.Valid()
  {
    TypeSystem((from: TypeId, to: TypeId) => from == to || to == "java.lang.Object")
  }

  /** `Worker`: one field `api` marked without a name, and a post-construct hook. */
  function Worker(): ClassDecl
  {
    ClassDecl(WorkerClass, true,
              [FieldDecl("api", ApiClass, None, Some(""), true)],
              [MethodDecl("initialize", true, true)])
  }

  /** `Worker2`: its field `api` is marked with the explicit name `"api2"`. */
  function Worker2(): ClassDecl
  {
    ClassDecl(Worker2Class, true,
              [FieldDecl("api", ApiClass, None, Some("api2"), true)],
              [MethodDecl("initialize", true, true)])
  }

  /** Builds `c` with `injector` and returns what its first field holds. */
  method FirstField(injector: OkaeriInjector, c: ClassDecl) returns (v: Option<Obj>, calls: seq<string>)
    requires injector.Valid() && |c.fields| > 0
    ensures CreateError(injector.injectables, Jvm(), c).None? ==>
              Injected(injector.injectables, Jvm(), c.fields[0], c.fields[0].initial, v)
    ensures calls == HookCalls(injector.injectables, Jvm(), c)
  {
    var r;
    r, calls := injector.CreateInstance(Jvm(), c);
    v := if r.Success? then r.value.values[0] else None;
  }

  /** An unnamed `Api` binding is injected into `Worker`'s field `api` by type. */
  method SimpleInjector() returns (injected: Option<Obj>, calls: seq<string>)
    ensures injected == Some(Obj(1, ApiClass))
    ensures calls == ["initialize"]
  {
    var api := Obj(1, ApiClass);
    var injector := new OkaeriInjector.Create();
    var outcome := injector.RegisterObject(Some(api));
    var b := Injectable(None, Some(api), ApiClass);
    assert injector.injectables == [b];
    assert Candidates([b], Jvm(), "api", ApiClass) == [b];
    injected, calls := FirstField(injector, Worker());
  }

  /** With `"api"` and `"api2"` registered, `Worker` gets the first by its field
      name and `Worker2` the second by its explicit marker name. */
  method DoubleTypeInjector() returns (worker: Option<Obj>, worker2: Option<Obj>)
    ensures worker == Some(Obj(1, ApiClass))
    ensures worker2 == Some(Obj(2, ApiClass))
  {
    var api, api2 := Obj(1, ApiClass), Obj(2, ApiClass);
    var injector := new OkaeriInjector.Create();
    var outcome := injector.RegisterNamed(Some("api"), Some(api));
    outcome := injector.RegisterNamed(Some("api2"), Some(api2));
    var b1 := Injectable(Some("api"), Some(api), ApiClass);
    var b2 := Injectable(Some("api2"), Some(api2), ApiClass);
    assert injector.injectables == [b1, b2];
    assert [b1, b2][1..] == [b2] && [b2][1..] == [];
    assert WithName([b1, b2], "api") == [b1];
    assert Candidates([b1, b2], Jvm(), "api", ApiClass) == [b1];
    assert Candidates([b1, b2], Jvm(), "api2", ApiClass) == [b2];
    var calls;
    worker, calls := FirstField(injector, Worker());
    worker2, calls := FirstField(injector, Worker2());
  }

  /** A binding named after the field wins over an earlier binding of the same type
      registered under another name. */
  method DoubleTypeInjector2() returns (worker: Option<Obj>)
    ensures worker == Some(Obj(2, ApiClass))
  {
    var api, api2 := Obj(1, ApiClass), Obj(2, ApiClass);
    var injector := new OkaeriInjector.Create();
    var outcome := injector.RegisterNamed(Some("api-abc"), Some(api));
    outcome := injector.RegisterNamed(Some("api"), Some(api2));
    var b1 := Injectable(Some("api-abc"), Some(api), ApiClass);
    var b2 := Injectable(Some("api"), Some(api2), ApiClass);
    assert injector.injectables == [b1, b2];
    assert Candidates([b1, b2], Jvm(), "api", ApiClass) == [b2];
    var calls;
    worker, calls := FirstField(injector, Worker());
  }
}
