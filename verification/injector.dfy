/** The default `getInjectable` of the `Injector` interface: a lookup through the
    abstract `getExact`, retried with the empty (wildcard) name when the first
    attempt finds nothing. `getExact` has no implementation in this model; it is a
    parameter, and every query made of it is recorded. */
module InjectorDefaults {
  import opened Types
  import opened Injectables

  /** One call `getExact(name, requested)`. */
  datatype ExactQuery = ExactQuery(name: Option<string>, requested: TypeId)

  /** The result of the default lookup and the `getExact` calls it made, in order. */
  datatype Lookup = Lookup(result: Option<Injectable>, queries: seq<ExactQuery>)

  /** The wildcard name that asks `getExact` to match on type only. */
  const Wildcard: Option<string> := Some("")

  function DefaultGetInjectable(getExact: ExactQuery -> Option<Injectable>, name: Option<string>, requested: TypeId): (r: Lookup)
    // the first call is always the query as given
    ensures 1 <= |r.queries| <= 2 && r.queries[0] == ExactQuery(name, requested)
    // the retry happens exactly when the first call found nothing and the name was not already the wildcard
    ensures |r.queries| == 2 <==> getExact(ExactQuery(name, requested)).None? && name != Wildcard
    ensures |r.queries| == 2 ==> r.queries[1] == ExactQuery(Wildcard, requested)
    // the answer is that of the last call made
    ensures r.result == getExact(r.queries[|r.queries| - 1])
  {
    var first := ExactQuery(name, requested);
    var value := getExact(first);
    if value.None? && name != Wildcard then
      var retry := ExactQuery(Wildcard, requested);
      Lookup(getExact(retry), [first, retry])
    else
      Lookup(value, [first])
  }

  /** The default lookup finds something exactly when `getExact` does for the name
      given, or the name is not the wildcard and `getExact` finds something for the
      wildcard; a hit on the first call is returned unchanged. */
  lemma DefaultPresentIff(getExact: ExactQuery -> Option<Injectable>, name: Option<string>, requested: TypeId)
    ensures var r := DefaultGetInjectable(getExact, name, requested).result;
            && (r.Some? <==> getExact(ExactQuery(name, requested)).Some?
                             || (name != Wildcard && getExact(ExactQuery(Wildcard, requested)).Some?))
            && (getExact(ExactQuery(name, requested)).Some? ==> r == getExact(ExactQuery(name, requested)))
  {
    var l := DefaultGetInjectable(getExact, name, requested);
    if |l.queries| == 2 {
      assert l.result == getExact(ExactQuery(Wildcard, requested));
    }
  }

  /** Asking for the wildcard name is exactly one `getExact` call with that name;
      a null name is not the wildcard and so gets the retry. */
  lemma WildcardIsExact(getExact: ExactQuery -> Option<Injectable>, requested: TypeId)
    ensures DefaultGetInjectable(getExact, Wildcard, requested)
            == Lookup(getExact(ExactQuery(Wildcard, requested)), [ExactQuery(Wildcard, requested)])
    ensures getExact(ExactQuery(None, requested)).None? ==>
              DefaultGetInjectable(getExact, None, requested).result == getExact(ExactQuery(Wildcard, requested))
  {
  }
}
