# okaeri-injector, modelled in Dafny

This project models the core of okaeri-injector, a small Java dependency-injection container:

- **The registry.** `OkaeriInjector` keeps an append-only list of immutable bindings `(name, object, type)`.
- **Registration.** `registerInjectable` and its two interface overloads append to that list. A null object is refused.
- **Lookup.** `getInjectable(name, type)` first looks for a binding with that exact name and an assignable type. Failing that, it looks for any binding with an assignable type, whatever its name.
- **The interface default.** `Injector` also has a default `getInjectable`. It calls the abstract `getExact`, and retries with the wildcard name `""`.
- **Instance construction.** `createInstance` has three steps:
  1. It builds the object with the no-argument constructor.
  2. It fills every field carrying the inject marker from a lookup. The lookup name is the marker's value, or the field's own name when the marker gives none.
  3. It invokes every post-construct method.

  Each step fails fast.

Reflection is replaced by an explicit class descriptor (`Descriptors.ClassDecl`). It holds:
- whether the constructor succeeds;
- the declared fields, each with its type, the value the constructor leaves in it, its marker and whether the reflective write is permitted;
- the declared methods, each with its post-construct flag and whether its invocation returns normally.

Java's `Class.isAssignableFrom` is an abstract relation (`Types.TypeSystem`). Its `Valid()` says it is reflexive and transitive.

`findAny` is modelled as a nondeterministic choice. In `Okaeri.OkaeriInjector.GetInjectable` it is a `:|` pick. The deterministic part, which of the two filtered lists the pick is made from, is the function `Resolution.Candidates`.

Modules, one per source file or component:
- `Types`: nullable references, objects with their runtime class, the type relation.
- `Errors`: the failures the injector reports. Most are an `InjectorException`; `NullPointer` is a `NullPointerException`; a throwing constructor and a post-construct method with parameters escape unwrapped and are reported as `CannotInstantiate` and `PostConstructFailed`.
- `Injectables`: `Injectable.java`.
- `Resolution`: the filters of `OkaeriInjector.getInjectable`.
- `InjectorDefaults`: the default `getInjectable` of `Injector.java`.
- `Descriptors`: the class descriptor, the pure specification of `createInstance`, and the hook loop that runs the post-construct methods.
- `Okaeri`: the `OkaeriInjector` class and the instances it builds.
- `Scenarios`: the cases of `TestInjector.java`.

Behaviour of the code that the model keeps:
- **Null lookup name.** In `OkaeriInjector.getInjectable` a null lookup name is dereferenced when the first binding reaches the name filter. The lookup therefore throws on a non-empty registry and finds nothing on an empty one. The interface default, by contrast, treats a null name as "not the wildcard".
- **Duplicate names.** Bindings are appended and lookup picks any match. So when two bindings share a name and both have a type assignable to the requested one, either one may be returned (`Resolution.DuplicatesAreBothCandidates`). The model does not promise that the last registration wins.

## Model

| member | source | states |
|---|---|---|
| `Injectables.OfEquality` | src/main/java/eu/okaeri/injector/Injectable.java:7-17 | the getters return the factory's three arguments unvalidated (null name or object included); bindings are equal exactly when name, object and type are |
| `Resolution.WithName` | src/main/java/eu/okaeri/injector/OkaeriInjector.java:36-37 | the name filter keeps exactly the bindings whose name equals the lookup name; a null-named binding never passes |
| `Resolution.AssignableTo` | src/main/java/eu/okaeri/injector/OkaeriInjector.java:38 | the type filter keeps exactly the bindings whose declared type is assignable to the requested type |
| `Resolution.CandidatesSpec` | src/main/java/eu/okaeri/injector/OkaeriInjector.java:34-52 | every possible result is a registered binding of assignable type; a result exists iff some binding has an assignable type; a name-and-type match excludes all type-only matches |
| `Resolution.NameBeatsType` | src/main/java/eu/okaeri/injector/OkaeriInjector.java:36-44 | if a binding has the lookup name and an assignable type, every result has the name and an assignable type |
| `Resolution.TypeFallback` | src/main/java/eu/okaeri/injector/OkaeriInjector.java:46-51 | without a name-and-type match, the result is present iff some binding of any name has an assignable type, and any result has one |
| `Resolution.UnnamedOnlyByType` | src/main/java/eu/okaeri/injector/OkaeriInjector.java:37 | a null-named candidate is only ever reached through the type-only stage |
| `Resolution.DuplicatesAreBothCandidates` | src/main/java/eu/okaeri/injector/OkaeriInjector.java:28-43 | two same-named assignable bindings are both possible results: registration order gives no precedence |
| `Resolution.RegisteredTypeResolves` | src/main/java/eu/okaeri/injector/OkaeriInjector.java:46-51 | a lookup by a registered binding's own declared type never comes back empty (reflexivity); the binding itself need not be the one returned |
| `Resolution.ResolvableUpwards` | src/main/java/eu/okaeri/injector/OkaeriInjector.java:38 | a lookup that succeeds for a class succeeds for every supertype (transitivity) |
| `Resolution.WithNameAppend` | src/main/java/eu/okaeri/injector/OkaeriInjector.java:36-37 | the name filter distributes over concatenation of registries |
| `Resolution.AssignableToAppend` | src/main/java/eu/okaeri/injector/OkaeriInjector.java:38 | the type filter distributes over concatenation of registries |
| `Resolution.StagesAfterAppend` | src/main/java/eu/okaeri/injector/OkaeriInjector.java:28-48 | appending a binding extends each stage's matches by that binding exactly when it passes that stage's filters |
| `Resolution.CandidatesAfterAppend` | src/main/java/eu/okaeri/injector/OkaeriInjector.java:28-51 | while a name-and-type match exists, registering removes no candidate and the new binding joins only if it matches both; the first name-and-type match displaces every type-only candidate; otherwise the new binding joins when its type fits |
| `InjectorDefaults.DefaultGetInjectable` | src/main/java/eu/okaeri/injector/Injector.java:34-46 | the first `getExact` call is the query given; a second, with `""`, is made iff the first found nothing and the name is not `""` (null included); the result is that of the last call |
| `InjectorDefaults.DefaultPresentIff` | src/main/java/eu/okaeri/injector/Injector.java:34-46 | the default lookup is present iff `getExact(name)` is, or the name is not `""` and `getExact("")` is; a first-call hit is returned unchanged |
| `InjectorDefaults.WildcardIsExact` | src/main/java/eu/okaeri/injector/Injector.java:39-45 | for `""` the default lookup is exactly one `getExact("")` call; for a null name it falls back to `getExact("")` |
| `Descriptors.FirstFieldError` | src/main/java/eu/okaeri/injector/OkaeriInjector.java:65-89 | the field loop fails iff some field fails, and then with the error of one of the fields |
| `Descriptors.FirstFieldErrorIsFirst` | src/main/java/eu/okaeri/injector/OkaeriInjector.java:67-87 | the error reported is that of the first failing field in the descriptor's (reflection's) order |
| `Descriptors.RunHooks` | src/main/java/eu/okaeri/injector/OkaeriInjector.java:91-104 | hooks fail iff some post-construct method fails; otherwise every post-construct method is invoked once, in the descriptor's (reflection's) order; a failure is the last call and the calls are a prefix of the post-construct methods |
| `Descriptors.RunHooksStopsAtFirstFailure` | src/main/java/eu/okaeri/injector/OkaeriInjector.java:93-103 | a failing run stops at the first failing post-construct method, having invoked exactly those preceding it in the descriptor's (reflection's) order |
| `Descriptors.CreateSucceedsIff` | src/main/java/eu/okaeri/injector/OkaeriInjector.java:59-106 | `createInstance` succeeds iff construction succeeds, every marked field resolves and is writable, and every post-construct method returns normally; then every hook runs once in order |
| `Descriptors.ExplicitMarkerSelects` | src/main/java/eu/okaeri/injector/OkaeriInjector.java:72-76 | with an explicit marker name that some assignable binding carries, the field only receives objects of bindings under that name |
| `Descriptors.InferredNameFallsBackToType` | src/main/java/eu/okaeri/injector/OkaeriInjector.java:72-76 | an empty marker looks up the field's own name, and the field resolves iff any binding has an assignable type |
| `Okaeri.Instance.constructor` | src/main/java/eu/okaeri/injector/OkaeriInjector.java:58-63 | after construction every field holds the value the no-argument constructor leaves in it |
| `Okaeri.OkaeriInjector.Create` | src/main/java/eu/okaeri/injector/OkaeriInjector.java:19-23 | a new injector has an empty registry |
| `Okaeri.OkaeriInjector.RegisterInjectable` | src/main/java/eu/okaeri/injector/OkaeriInjector.java:26-30 | a null object fails and leaves the registry unchanged; otherwise exactly `(name, object, type)` is appended, earlier bindings unchanged; no null object ever enters |
| `Okaeri.OkaeriInjector.RegisterObject` | src/main/java/eu/okaeri/injector/Injector.java:20-24 | a null object fails; otherwise appends a binding with a null name and the object's runtime class |
| `Okaeri.OkaeriInjector.RegisterNamed` | src/main/java/eu/okaeri/injector/Injector.java:27-31 | a null object fails; otherwise appends a binding with the given name and the object's runtime class |
| `Okaeri.OkaeriInjector.GetInjectable` | src/main/java/eu/okaeri/injector/OkaeriInjector.java:34-52 | the result is one of the candidates when there are any, and absent otherwise; the registry is not modified; a null name fails on a non-empty registry |
| `Okaeri.OkaeriInjector.InjectField` | src/main/java/eu/okaeri/injector/OkaeriInjector.java:68-88 | one field: skipped when unmarked; otherwise resolved by its lookup name; fails when unresolvable or unwritable, else receives a candidate's non-null object; no other field changes |
| `Okaeri.OkaeriInjector.InjectFields` | src/main/java/eu/okaeri/injector/OkaeriInjector.java:65-89 | the field loop reports the first field error; on success every marked field holds a candidate's object and every unmarked field is unchanged |
| `Descriptors.DispatchPostConstructs` | src/main/java/eu/okaeri/injector/OkaeriInjector.java:91-104 | the hook loop's calls and failure are those of `RunHooks` |
| `Okaeri.OkaeriInjector.CreateInstance` | src/main/java/eu/okaeri/injector/OkaeriInjector.java:55-107 | fails exactly with the first error of construction, fields, then hooks, returning no instance; hooks run only after every field is injected; on success a fresh instance whose marked fields hold candidates' non-null objects |
| `Scenarios.SimpleInjector` | src/test/java/eu/okaeri/injectortest/TestInjector.java:17-25 | an unnamed `Api` is injected into `Worker.api` by type, and `initialize` runs once |
| `Scenarios.DoubleTypeInjector` | src/test/java/eu/okaeri/injectortest/TestInjector.java:29-44 | with `"api"` and `"api2"` registered, `Worker` receives the first and `Worker2` (marker `"api2"`) the second |
| `Scenarios.DoubleTypeInjector2` | src/test/java/eu/okaeri/injectortest/TestInjector.java:47-58 | a binding named after the field beats an earlier same-typed binding under another name |

## Left out

- `getExact`, `all`, `removeIf` and `allOf` are declared by `Injector` but implemented nowhere. `getExact` appears only as the parameter of `InjectorDefaults.DefaultGetInjectable`. The other three are not modelled.
- `registerExclusive` is called by the tests but defined nowhere. Its test (`TestInjector.java:77-92`) and `test_always_provide_last` (`TestInjector.java:62-75`) rely on `getExact`, so they are not modelled either. The code does not promise "last registration wins", and the model does not claim it.
- The tests' `getCounter` assertions are not modelled, because `Worker` has no such member. The console output and `Api.test()` calls in the fixtures are not modelled either.
- Constructor-parameter injection, ordering of hooks by a declared order, and registering hook return values are not modelled: no shown code implements them.
- Reflection is replaced by the class descriptor. Accessibility flags and their restoration have no counterpart. The order of `getDeclaredFields`/`getDeclaredMethods` is taken to be the descriptor's order.
- Every failure becomes an `InjectorError` kind. That includes exceptions the source lets escape unwrapped: a constructor that throws, and a post-construct method with parameters. Exception messages are not modelled.
- Okaeri.OkaeriInjector.InjectField never fails because of the object it writes. The model does not relate a binding's object to its declared type. The source's write can throw an unwrapped `IllegalArgumentException` when the object's runtime class does not fit the field. `FieldDecl.writable` covers only a write refused for the field itself, whatever the binding.
- Post-construct methods are opaque. Their effects on the instance, the registry or the outside world are not modelled. Only the fact and order of their invocation, and whether they return normally, are kept.
- Java subtyping is an abstract relation, not a class hierarchy. A null `Class` argument and the generic typing between an object and its declared type are not modelled.
- Concurrency is not modelled: the registry is a plain unsynchronised list.
