/** The class descriptor that stands in for reflection in `createInstance`, and
    the pure specification of each step of that pipeline. */
module Descriptors {
  import opened Types
  import opened Errors
  import opened Injectables
  import opened Resolution

  /** A declared field: its name, its declared type, the value the no-argument
      constructor leaves in it, its injection marker (`None` when unmarked, otherwise
      the marker's value, `""` when no name is given) and whether the reflective
      write into it is permitted. */
  datatype FieldDecl = FieldDecl(name: string, fieldType: TypeId, initial: Option<Obj>,
                                 inject: Option<string>, writable: bool)

  /** A declared method: its name, whether it carries the post-construct marker,
      and whether invoking it returns normally. */
  datatype MethodDecl = MethodDecl(name: string, postConstruct: bool, succeeds: bool)

  /** A class as `createInstance` sees it: whether its no-argument constructor
      succeeds, and its declared fields and methods in the descriptor's (reflection's) order. */
  datatype ClassDecl = ClassDecl(clazz: TypeId, constructible: bool,
                                 fields: seq<FieldDecl>, methods: seq<MethodDecl>)

  /** The name a marked field is looked up by: the marker's value, or the field's
      own name when the marker gives none. */
  function LookupName(f: FieldDecl): string
    requires f.inject.Some?
  {
    if f.inject.value == "" then f.name else f.inject.value
  }

  /** The failure, if any, of injecting one field: unmarked fields are skipped; a
      marked one fails when nothing resolves, then when the write is refused. */
  function FieldError(reg: seq<Injectable>, ts: TypeSystem, f: FieldDecl): Option<InjectorError>
  {
    if f.inject.None? then None
    else if !Resolvable(reg, ts, LookupName(f), f.fieldType) then Some(CannotResolve(f.name, f.fieldType))
    else if !f.writable then Some(CannotInject(f.name))
    else None
  }

  /** The failure of the field loop, which stops at the first failing field. */
  function FirstFieldError(reg: seq<Injectable>, ts: TypeSystem, fs: seq<FieldDecl>): (r: Option<InjectorError>)
    ensures r.None? <==> forall j :: 0 <= j < |fs| ==> FieldError(reg, ts, fs[j]).None?
    ensures r.Some? ==> exists k :: 0 <= k < |fs| && r == FieldError(reg, ts, fs[k])
  {
    if fs == [] then None
    else if FieldError(reg, ts, fs[0]).Some? then FieldError(reg, ts, fs[0])
    else
      var rest := FirstFieldError(reg, ts, fs[1..]);
      assert forall j :: 1 <= j < |fs| ==> fs[j] == fs[1..][j - 1];
      rest
  }

  /** The error reported is that of the first failing field in the descriptor's (reflection's) order. */
  lemma {:induction false} FirstFieldErrorIsFirst(reg: seq<Injectable>, ts: TypeSystem, fs: seq<FieldDecl>, k: nat)
    requires k < |fs| && FieldError(reg, ts, fs[k]).Some?
    requires forall j :: 0 <= j < k ==> FieldError(reg, ts, fs[j]).None?
    ensures FirstFieldError(reg, ts, fs) == FieldError(reg, ts, fs[k])
  {
    if k > 0 {
      assert forall j :: 0 <= j < k - 1 ==> fs[1..][j] == fs[j + 1];
      FirstFieldErrorIsFirst(reg, ts, fs[1..], k - 1);
    }
  }

  /** `v` is a value the field may hold after injection, `before` being the value it
      held before: an unmarked field keeps it, a marked one holds the non-null object
      of a binding that `getInjectable` may return for its lookup name and declared type. */
  ghost predicate Injected(reg: seq<Injectable>, ts: TypeSystem, f: FieldDecl, before: Option<Obj>, v: Option<Obj>)
  {
    if f.inject.None? then v == before
    else v.Some? && exists b :: b in Candidates(reg, ts, LookupName(f), f.fieldType) && v == b.obj
  }

  /** The names of the post-construct methods, in the descriptor's (reflection's) order. */
  function PostConstructs(ms: seq<MethodDecl>): seq<string>
  {
    if ms == [] then []
    else (if ms[0].postConstruct then [ms[0].name] else []) + PostConstructs(ms[1..])
  }

  /** The post-construct hooks invoked, in order, and the one that failed, if any. */
  datatype HookRun = HookRun(calls: seq<string>, failed: Option<string>)

  /** The hook loop: every post-construct method is invoked in the descriptor's (reflection's) order,
      and the first one to fail stops the loop. */
  function RunHooks(ms: seq<MethodDecl>): (r: HookRun)
    ensures r.failed.None? <==> forall j :: 0 <= j < |ms| && ms[j].postConstruct ==> ms[j].succeeds
    ensures r.failed.None? ==> r.calls == PostConstructs(ms)
    ensures r.failed.Some? ==> r.calls <= PostConstructs(ms) && |r.calls| > 0
                               && r.calls[|r.calls| - 1] == r.failed.value
  {
    if ms == [] then HookRun([], None)
    else
      assert forall j :: 1 <= j < |ms| ==> ms[j] == ms[1..][j - 1];
      if !ms[0].postConstruct then RunHooks(ms[1..])
      else if !ms[0].succeeds then HookRun([ms[0].name], Some(ms[0].name))
      else
        var rest := RunHooks(ms[1..]);
        HookRun([ms[0].name] + rest.calls, rest.failed)
  }

  /** One step of the hook run over a suffix of the declared methods. */
  lemma RunHooksStep(ms: seq<MethodDecl>, k: nat)
    requires k < |ms|
    ensures var rest := RunHooks(ms[k + 1..]);
            RunHooks(ms[k..]) == if !ms[k].postConstruct then rest
                                 else if !ms[k].succeeds then HookRun([ms[k].name], Some(ms[k].name))
                                 else HookRun([ms[k].name] + rest.calls, rest.failed)
  {
  }

  /** The hook loop of `createInstance`: invokes the post-construct methods in
      the descriptor's (reflection's) order and stops at the first one that fails. */
  method DispatchPostConstructs(methods: seq<MethodDecl>) returns (run: HookRun)
    ensures run == RunHooks(methods)
  {
    var calls := [];
    var k := 0;
    while k < |methods|
      invariant 0 <= k <= |methods|
      invariant RunHooks(methods)
                == HookRun(calls + RunHooks(methods[k..]).calls, RunHooks(methods[k..]).failed)
    {
      var m := methods[k];
      RunHooksStep(methods, k);
      if m.postConstruct {
        calls := calls + [m.name];
        if !m.succeeds {
          return HookRun(calls, Some(m.name));
        }
      }
      k := k + 1;
    }
    assert methods[k..] == [];
    run := HookRun(calls, None);
  }

  /** A failing hook run stops at the first post-construct method that fails, after
      invoking exactly the post-construct methods that precede it in the descriptor's (reflection's) order. */
  lemma {:induction false} RunHooksStopsAtFirstFailure(ms: seq<MethodDecl>, k: nat)
    requires k < |ms| && ms[k].postConstruct && !ms[k].succeeds
    requires forall j :: 0 <= j < k && ms[j].postConstruct ==> ms[j].succeeds
    ensures RunHooks(ms) == HookRun(PostConstructs(ms[..k + 1]), Some(ms[k].name))
  {
    if k == 0 {
      assert ms[..1] == [ms[0]];
      assert [ms[0]][1..] == [];
    } else {
      var prefix := ms[..k + 1];
      assert prefix[0] == ms[0] && prefix[1..] == ms[1..][..k];
      assert PostConstructs(prefix)
             == (if ms[0].postConstruct then [ms[0].name] else []) + PostConstructs(ms[1..][..k]);
      assert ms[0].postConstruct ==> ms[0].succeeds;
      RunHooksStopsAtFirstFailure(ms[1..], k - 1);
    }
  }

  /** The failure `createInstance` reports, if any: construction first, then the
      first failing field, then the first failing hook. */
  function CreateError(reg: seq<Injectable>, ts: TypeSystem, c: ClassDecl): Option<InjectorError>
  {
    if !c.constructible then Some(CannotInstantiate(c.clazz))
    else if FirstFieldError(reg, ts, c.fields).Some? then FirstFieldError(reg, ts, c.fields)
    else
      var run := RunHooks(c.methods);
      if run.failed.Some? then Some(PostConstructFailed(run.failed.value)) else None
  }

  /** The hooks `createInstance` invokes: none unless construction and every field
      injection succeed, then those of the hook loop. */
  function HookCalls(reg: seq<Injectable>, ts: TypeSystem, c: ClassDecl): seq<string>
  {
    if !c.constructible || FirstFieldError(reg, ts, c.fields).Some? then []
    else RunHooks(c.methods).calls
  }

  /** `createInstance` succeeds exactly when the class can be constructed, every
      marked field resolves and is writable, and every post-construct hook returns
      normally; on success every post-construct hook runs once, in order. */
  lemma CreateSucceedsIff(reg: seq<Injectable>, ts: TypeSystem, c: ClassDecl)
    ensures CreateError(reg, ts, c).None? <==>
              && c.constructible
              && (forall j :: 0 <= j < |c.fields| && c.fields[j].inject.Some? ==>
                    Resolvable(reg, ts, LookupName(c.fields[j]), c.fields[j].fieldType) && c.fields[j].writable)
              && (forall j :: 0 <= j < |c.methods| && c.methods[j].postConstruct ==> c.methods[j].succeeds)
    ensures CreateError(reg, ts, c).None? ==> HookCalls(reg, ts, c) == PostConstructs(c.methods)
  {
  }

  /** An explicit marker name selects the binding registered under it: when such a
      binding has an assignable type, the field may only receive the object of a
      binding registered under that name, whatever other bindings of the type exist. */
  lemma ExplicitMarkerSelects(reg: seq<Injectable>, ts: TypeSystem, f: FieldDecl, b: Injectable, v: Option<Obj>)
    requires f.inject.Some? && f.inject.value != ""
    requires b in reg && b.name == f.inject && ts.assignable(b.declaredType, f.fieldType)
    requires Injected(reg, ts, f, f.initial, v)
    ensures exists c :: c in reg && c.name == f.inject && c.obj == v
  {
  }

  /** With no marker value the field's own name is the lookup name, and a binding
      without a name still reaches the field through the type-only stage. */
  lemma InferredNameFallsBackToType(reg: seq<Injectable>, ts: TypeSystem, f: FieldDecl)
    requires f.inject == Some("")
    ensures LookupName(f) == f.name
    ensures Resolvable(reg, ts, LookupName(f), f.fieldType) <==>
              exists b :: b in reg && ts.assignable(b.declaredType, f.fieldType)
  {
    CandidatesSpec(reg, ts, LookupName(f), f.fieldType);
  }
}
