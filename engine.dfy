/** The engine's process-wide state, the rule registry and the results
    store, and the operations that change it: registering a rule, the
    guarded default insertion, storing a result, and the two validation
    scopes. The model-wide scope is given the model it searches and the
    element scope the element it validates, both as parameters. */
module Validate {
  import opened Primitives
  import opened ResultsStore
  import opened RuleRegistry
  import opened Execution

  class Engine {
    /** The rule registry (`VALIDATION_RULES`). */
    var registry: Registry
    /** The results store (`VALIDATION_RESULTS`). */
    var results: Results

    ghost predicate Valid()
      reads this
    {
      registry.Valid() && results.Valid()
    }

    /** Start-up: every category present and empty, no results. */
    constructor ()
      ensures Valid()
      ensures registry == EmptyRegistry && results == Empty
    {
      registry := EmptyRegistry;
      results := Empty;
    }

    /** `register_rule(category, type, id, ...)` applied to a validator:
        build the rule, append it to the list of (`category`, `typ`),
        creating that list first if needed, and return it. */
    method RegisterRule(category: Category, typ: TypeRef, id: string, name: string, rationale: string,
                        actions: seq<string>, furtherReading: Option<string>, validator: Validator)
      returns (rule: Rule)
      requires Valid()
      modifies this
      ensures Valid()
      ensures rule == Rule(id, name, rationale, actions, validator, furtherReading)
      ensures registry == Register(old(registry), category, typ, rule)
      ensures results == old(results)
    {
      rule := Rule(id, name, rationale, actions, validator, furtherReading);
      ghost var before := registry.Table(category);
      var table := registry.Table(category);
      if typ !in table.rules {
        table := TypeTable(table.types + [typ], table.rules[typ := []]);
      }
      table := table.(rules := table.rules[typ := table.rules[typ] + [rule]]);
      assert table == Append(before, typ, rule);
      registry := registry.WithTable(category, table);
    }

    /** `Results.setdefault` on the store. */
    method SetDefault(key: Rule, default: Option<Bucket>) returns (bucket: Fallible<Bucket>)
      modifies this
      ensures old(Valid()) ==> Valid()
      ensures registry == old(registry)
      ensures results == ResultsStore.SetDefault(old(results), key, default).store
      ensures bucket == ResultsStore.SetDefault(old(results), key, default).bucket
    {
      if default.None? {
        return Err(ValueError);
      }
      if key !in results.buckets {
        results := Results(results.keys + [key], results.buckets[key := default.value]);
      }
      bucket := Ok(results.buckets[key]);
    }

    /** `store_result`: fetch (or create) the rule's bucket, then record the
        result for the element's uuid unless one is already there. */
    method StoreResult(rule: Rule, obj: Element, result: Result)
      modifies this
      ensures old(Valid()) ==> Valid()
      ensures registry == old(registry)
      ensures results == Store(old(results), rule, obj.uuid, result)
    {
      var got := SetDefault(rule, Some(map[]));
      assert got.Ok?;
      var bucket := got.value;
      if obj.uuid !in bucket {
        results := results.(buckets := results.buckets[rule := bucket[obj.uuid := result]]);
      }
    }

    /** The rule loop of one (category, element): evaluate and store every
        rule of `rules` that the filter lets through. */
    method ValidateRules(category: Category, obj: Element, rules: seq<Rule>, run: Oracle, filter: RuleFilter)
      modifies this
      ensures registry == old(registry)
      ensures results == Run(old(results), RuleTasks(category, obj, rules, filter), run)
    {
      var ri := 0;
      ghost var done: seq<Task> := [];
      while ri < |rules|
        invariant 0 <= ri <= |rules|
        invariant registry == old(registry)
        invariant done == RuleTasks(category, obj, rules[..ri], filter)
        invariant results == Run(old(results), done, run)
      {
        var rule := rules[ri];
        RuleStep(category, obj, rules, filter, ri);
        if (filter.OnlyRule? && filter.rule != rule) || (filter.OnlyId? && filter.id != rule.id) {
          assert !Passes(filter, rule);
          assert done + [] == done;
        } else {
          var result := Result(obj.uuid, category, rule.Call(run, obj));
          ghost var t := Task(rule, category, obj);
          assert Passes(filter, rule) && result == Outcome(t, run);
          RunSnoc(old(results), done, t, run);
          StoreResult(rule, obj, result);
          done := done + [t];
        }
        ri := ri + 1;
      }
      assert rules[..ri] == rules;
    }

    /** The element loop of one (category, type): the rule loop on every
        element of `objs`. */
    method ValidateObjects(category: Category, objs: seq<Element>, rules: seq<Rule>, run: Oracle,
                           filter: RuleFilter)
      modifies this
      ensures registry == old(registry)
      ensures results == Run(old(results), ObjTasks(category, objs, rules, filter), run)
    {
      var oi := 0;
      while oi < |objs|
        invariant 0 <= oi <= |objs|
        invariant registry == old(registry)
        invariant results == Run(old(results), ObjTasks(category, objs[..oi], rules, filter), run)
      {
        ghost var before := results;
        ValidateRules(category, objs[oi], rules, run, filter);
        ObjStep(old(results), category, objs, rules, filter, run, oi, before, results);
        oi := oi + 1;
      }
      assert objs[..oi] == objs;
    }

    /** The type loop of one category over that category's table: for each
        type, the element loop over what the model's search returns for
        the type, with the type's rules. */
    method ValidateTypes(category: Category, table: TypeTable, model: Model, run: Oracle,
                         filter: RuleFilter)
      modifies this
      ensures registry == old(registry)
      ensures results == Run(old(results), TypeTasks(category, table, table.types, model, filter), run)
    {
      var ti := 0;
      while ti < |table.types|
        invariant 0 <= ti <= |table.types|
        invariant registry == old(registry)
        invariant results == Run(old(results), TypeTasks(category, table, table.types[..ti], model, filter), run)
      {
        var typ := table.types[ti];
        var objs := model.Search(typ);
        ghost var before := results;
        ValidateObjects(category, objs, table.RulesFor(typ), run, filter);
        TypeStep(old(results), category, table, table.types, model, filter, run, ti, before, results);
        ti := ti + 1;
      }
      assert table.types[..ti] == table.types;
    }

    /** The category loop of the model-wide scope: the type loop of every
        category, in the registry's category order. */
    method ValidateCategories(model: Model, run: Oracle, filter: RuleFilter)
      modifies this
      ensures registry == old(registry)
      ensures results == Run(old(results), ModelTasks(registry, model, filter), run)
    {
      var reg := registry;
      var ci := 0;
      while ci < |Categories|
        invariant 0 <= ci <= |Categories|
        invariant registry == reg
        invariant results == Run(old(results), CatTasks(reg, Categories[..ci], model, filter), run)
      {
        ghost var before := results;
        ValidateTypes(Categories[ci], reg.Table(Categories[ci]), model, run, filter);
        CatStep(old(results), reg, Categories, model, filter, run, ci, before, results);
        ci := ci + 1;
      }
      assert Categories[..ci] == Categories;
    }

    /** `ModelValidation.validate`: for every category, every type in its
        table, every element the model's search returns for that type and
        every rule of that type, evaluate the rule unless the filter skips
        it and store the result. Returns the whole store. */
    method ValidateModel(model: Model, run: Oracle, filter: RuleFilter)
      returns (out: Results)
      requires Valid()
      modifies this
      ensures Valid() && registry == old(registry)
      ensures results == Run(old(results), ModelTasks(old(registry), model, filter), run)
      ensures out == results
    {
      ValidateCategories(model, run, filter);
      RunValid(old(results), ModelTasks(registry, model, filter), run);
      out := results;
    }

    /** `ElementValidation.results`: the store cut down to one element. */
    function ElementResults(elem: Element): (out: Results)
      reads this
      ensures out.keys == results.keys && out.buckets.Keys == results.buckets.Keys
      ensures forall r, u :: out.Get(r, u) == if u == elem.uuid then results.Get(r, u) else None
    {
      ByUuid(results, elem.uuid)
    }

    /** The type loop of the element scope over one category's table of
        `ElementRules`: a type not equal to the element's exact type is
        skipped, otherwise its rule loop runs on the element. */
    method ValidateElementTypes(category: Category, table: TypeTable, elem: Element, run: Oracle,
                                filter: RuleFilter)
      modifies this
      ensures registry == old(registry)
      ensures results == Run(old(results), ElemTypeTasks(category, table, table.types, elem, filter), run)
    {
      var ti := 0;
      while ti < |table.types|
        invariant 0 <= ti <= |table.types|
        invariant registry == old(registry)
        invariant results == Run(old(results), ElemTypeTasks(category, table, table.types[..ti], elem, filter), run)
      {
        var typ := table.types[ti];
        if typ == elem.RuntimeType() {
          ghost var before := results;
          ValidateRules(category, elem, table.RulesFor(typ), run, filter);
          ElemTypeStep(old(results), category, table, table.types, elem, filter, run, ti, before, results);
        } else {
          ElemTypeSkip(old(results), category, table, table.types, elem, filter, run, ti);
        }
        ti := ti + 1;
      }
      assert table.types[..ti] == table.types;
    }

    /** The category loop of the element scope over `scoped`. */
    method ValidateElementCategories(scoped: Registry, elem: Element, run: Oracle, filter: RuleFilter)
      modifies this
      ensures registry == old(registry)
      ensures results == Run(old(results), ElemCatTasks(scoped, Categories, elem, filter), run)
    {
      var ci := 0;
      while ci < |Categories|
        invariant 0 <= ci <= |Categories|
        invariant registry == old(registry)
        invariant results == Run(old(results), ElemCatTasks(scoped, Categories[..ci], elem, filter), run)
      {
        ghost var before := results;
        ValidateElementTypes(Categories[ci], scoped.Table(Categories[ci]), elem, run, filter);
        ElemCatStep(old(results), scoped, Categories, elem, filter, run, ci, before, results);
        ci := ci + 1;
      }
      assert Categories[..ci] == Categories;
    }

    /** `ElementValidation.validate`: for every category, the types that
        `ElementRules` keeps (skipping any not equal to the element's exact
        type), every rule of that type, evaluate the rule on the element
        unless the filter skips it and store the result. Returns the store
        cut down to the element. */
    method ValidateElement(elem: Element, run: Oracle, filter: RuleFilter) returns (out: Results)
      requires Valid()
      modifies this
      ensures Valid() && registry == old(registry)
      ensures results == Run(old(results), ElementTasks(old(registry), elem, filter), run)
      ensures out == ElementResults(elem)
    {
      var scoped := ElementRules(registry, elem);
      ValidateElementCategories(scoped, elem, run, filter);
      RunValid(old(results), ElementTasks(registry, elem, filter), run);
      out := ByUuid(results, elem.uuid);
    }
  }
}
