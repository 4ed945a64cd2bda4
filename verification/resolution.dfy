/** The pure part of `OkaeriInjector.getInjectable`: the two stream filters and
    the choice between them. Which element `findAny` then picks is left open;
    see `Okaeri.OkaeriInjector.GetInjectable`. */
module Resolution {
  import opened Types
  import opened Injectables

  /** The name filter of the first stage: the bindings registered under exactly
      `name`, in registry order. A binding with a null name never passes. */
  function WithName(bs: seq<Injectable>, name: string): (r: seq<Injectable>)
    ensures forall b :: b in r <==> b in bs && b.name == Some(name)
    ensures |r| <= |bs|
  {
    if bs == [] then []
    else (if bs[0].name == Some(name) then [bs[0]] else []) + WithName(bs[1..], name)
  }

  /** The type filter of both stages: the bindings whose declared type may be
      stored in a variable of class `requested`, in registry order. */
  function AssignableTo(bs: seq<Injectable>, ts: TypeSystem, requested: TypeId): (r: seq<Injectable>)
    ensures forall b :: b in r <==> b in bs && ts.assignable(b.declaredType, requested)
    ensures |r| <= |bs|
  {
    if bs == [] then []
    else (if ts.assignable(bs[0].declaredType, requested) then [bs[0]] else []) + AssignableTo(bs[1..], ts, requested)
  }

  /** The first stage: matching name and assignable type. */
  function ByNameAndType(reg: seq<Injectable>, ts: TypeSystem, name: string, requested: TypeId): seq<Injectable>
  {
    AssignableTo(WithName(reg, name), ts, requested)
  }

  /** The bindings `findAny` may return for a lookup of `name` and `requested`: those
      of the first stage when it has any, otherwise those of the type-only stage. */
  function Candidates(reg: seq<Injectable>, ts: TypeSystem, name: string, requested: TypeId): seq<Injectable>
  {
    var byName := ByNameAndType(reg, ts, name, requested);
    if |byName| > 0 then byName else AssignableTo(reg, ts, requested)
  }

  /** Every candidate is a registered binding of assignable type; there are candidates
      exactly when some binding has an assignable type, whatever its name; and when
      some binding matches both name and type, every candidate does. */
  lemma CandidatesSpec(reg: seq<Injectable>, ts: TypeSystem, name: string, requested: TypeId)
    ensures var cs := Candidates(reg, ts, name, requested);
            && (forall c :: c in cs ==> c in reg && ts.assignable(c.declaredType, requested))
            && (|cs| > 0 <==> exists b :: b in reg && ts.assignable(b.declaredType, requested))
            && ((exists b :: b in reg && b.name == Some(name) && ts.assignable(b.declaredType, requested)) ==>
                  forall c :: c in cs ==> c.name == Some(name))
  {
    var byName := ByNameAndType(reg, ts, name, requested);
    var byType := AssignableTo(reg, ts, requested);
    if |byName| > 0 {
      assert byName[0] in byName;
    }
    if |byType| > 0 {
      assert byType[0] in byType;
    }
  }

  /** `r` is a result `getInjectable(name, requested)` may return: present exactly
      when there are candidates, and then one of them. */
  ghost predicate ResolvesTo(reg: seq<Injectable>, ts: TypeSystem, name: string, requested: TypeId, r: Option<Injectable>)
  {
    var cs := Candidates(reg, ts, name, requested);
    if |cs| > 0 then r.Some? && r.value in cs else r.None?
  }

  /** Whether `getInjectable(name, requested)` finds anything at all. */
  predicate Resolvable(reg: seq<Injectable>, ts: TypeSystem, name: string, requested: TypeId)
  {
    |Candidates(reg, ts, name, requested)| > 0
  }

  /** Name beats type: when a binding registered under `name` has an assignable
      type, every possible result is such a binding. */
  lemma NameBeatsType(reg: seq<Injectable>, ts: TypeSystem, name: string, requested: TypeId, b: Injectable, r: Option<Injectable>)
    requires b in reg && b.name == Some(name) && ts.assignable(b.declaredType, requested)
    requires ResolvesTo(reg, ts, name, requested, r)
    ensures r.Some? && r.value in reg && r.value.name == Some(name) && ts.assignable(r.value.declaredType, requested)
  {
  }

  /** Type-only fallback: without a name-and-type match, a result is present exactly
      when some binding's type is assignable, and any result is such a binding. */
  lemma TypeFallback(reg: seq<Injectable>, ts: TypeSystem, name: string, requested: TypeId, r: Option<Injectable>)
    requires forall b :: b in reg && b.name == Some(name) ==> !ts.assignable(b.declaredType, requested)
    requires ResolvesTo(reg, ts, name, requested, r)
    ensures r.Some? <==> exists b :: b in reg && ts.assignable(b.declaredType, requested)
    ensures r.Some? ==> r.value in reg && ts.assignable(r.value.declaredType, requested)
  {
  }

  /** A binding registered without a name is never a first-stage match: whenever
      one is a candidate, no binding matched both name and type. */
  lemma UnnamedOnlyByType(reg: seq<Injectable>, ts: TypeSystem, name: string, requested: TypeId, b: Injectable)
    requires b in Candidates(reg, ts, name, requested) && b.name.None?
    ensures |ByNameAndType(reg, ts, name, requested)| == 0
    ensures forall c :: c in reg && c.name == Some(name) ==> !ts.assignable(c.declaredType, requested)
  {
  }

  /** Registration order gives no precedence: two bindings registered under the same
      name with assignable types are both possible results, the earlier as well as
      the later. */
  lemma DuplicatesAreBothCandidates(reg: seq<Injectable>, ts: TypeSystem, name: string, requested: TypeId, i: nat, j: nat)
    requires i < j < |reg|
    requires reg[i].name == Some(name) && ts.assignable(reg[i].declaredType, requested)
    requires reg[j].name == Some(name) && ts.assignable(reg[j].declaredType, requested)
    ensures ResolvesTo(reg, ts, name, requested, Some(reg[i]))
    ensures ResolvesTo(reg, ts, name, requested, Some(reg[j]))
  {
  }

  /** A lookup by a registered binding's own declared type never comes back empty,
      because assignability is reflexive. The binding itself need not be a possible
      result: a binding matching name and type may take precedence. */
  lemma RegisteredTypeResolves(reg: seq<Injectable>, ts: TypeSystem, name: string, b: Injectable)
    requires ts.Valid() && b in reg
    ensures Resolvable(reg, ts, name, b.declaredType)
  {
  }

  /** A lookup that succeeds for a class also succeeds for each of its supertypes. */
  lemma ResolvableUpwards(reg: seq<Injectable>, ts: TypeSystem, name: string, sub: TypeId, super: TypeId)
    requires ts.Valid() && ts.assignable(sub, super)
    requires Resolvable(reg, ts, name, sub)
    ensures Resolvable(reg, ts, name, super)
  {
    var cs := Candidates(reg, ts, name, sub);
    assert cs[0] in cs;
  }

  lemma {:induction false} WithNameAppend(a: seq<Injectable>, b: seq<Injectable>, name: string)
    ensures WithName(a + b, name) == WithName(a, name) + WithName(b, name)
  {
    if a == [] {
      assert a + b == b;
    } else {
      assert (a + b)[1..] == a[1..] + b;
      WithNameAppend(a[1..], b, name);
    }
  }

  lemma {:induction false} AssignableToAppend(a: seq<Injectable>, b: seq<Injectable>, ts: TypeSystem, requested: TypeId)
    ensures AssignableTo(a + b, ts, requested) == AssignableTo(a, ts, requested) + AssignableTo(b, ts, requested)
  {
    if a == [] {
      assert a + b == b;
    } else {
      assert (a + b)[1..] == a[1..] + b;
      AssignableToAppend(a[1..], b, ts, requested);
    }
  }

  /** What appending `x` does to the two stages. */
  lemma StagesAfterAppend(reg: seq<Injectable>, x: Injectable, ts: TypeSystem, name: string, requested: TypeId)
    ensures var xs := if ts.assignable(x.declaredType, requested) then [x] else [];
            && AssignableTo(reg + [x], ts, requested) == AssignableTo(reg, ts, requested) + xs
            && ByNameAndType(reg + [x], ts, name, requested)
                 == ByNameAndType(reg, ts, name, requested) + (if x.name == Some(name) then xs else [])
  {
    var xs := if ts.assignable(x.declaredType, requested) then [x] else [];
    var named := if x.name == Some(name) then [x] else [];
    assert AssignableTo([x], ts, requested) == xs by {
      assert [x][1..] == [];
      assert AssignableTo([], ts, requested) == [];
    }
    assert WithName([x], name) == named by {
      assert [x][1..] == [];
      assert WithName([], name) == [];
    }
    assert AssignableTo(named, ts, requested) == (if x.name == Some(name) then xs else []);
    AssignableToAppend(reg, [x], ts, requested);
    WithNameAppend(reg, [x], name);
    AssignableToAppend(WithName(reg, name), named, ts, requested);
  }

  /** What appending a binding `x` does to the candidates of a lookup. While some
      binding matches name and type, no candidate is removed and `x` joins only if it
      matches both too. If `x` is the first binding to match both, it displaces every
      type-only candidate and becomes the only one. Otherwise `x` joins when its type
      is assignable. */
  lemma CandidatesAfterAppend(reg: seq<Injectable>, x: Injectable, ts: TypeSystem, name: string, requested: TypeId)
    ensures var before := Candidates(reg, ts, name, requested);
            var after := Candidates(reg + [x], ts, name, requested);
            var fits := ts.assignable(x.declaredType, requested);
            if |ByNameAndType(reg, ts, name, requested)| > 0 then
              after == before + (if fits && x.name == Some(name) then [x] else [])
            else if fits && x.name == Some(name) then
              after == [x]
            else
              after == before + (if fits then [x] else [])
  {
    StagesAfterAppend(reg, x, ts, name, requested);
  }
}
