/** What a validation pass does, stated on values. A pass is the sequence of
    evaluations (tasks) its nested loops perform, in loop order, and its
    effect on the results mapping is the write-once store of each task's
    outcome, one after the other. */
module Execution {
  import opened Primitives
  import opened ResultsStore
  import opened RuleRegistry

  /** One evaluation: `rule`, reached under `category`, run on `obj`. */
  datatype Task = Task(rule: Rule, category: Category, obj: Element)

  /** The result a task records: the element's uuid, the category of the
      registry entry the rule was reached through, and the rule's verdict. */
  function Outcome(t: Task, run: Oracle): Result {
    Result(t.obj.uuid, t.category, t.rule.Call(run, t.obj))
  }

  /** Whether task `t` writes to the entry for `rule` and `uuid`. */
  predicate Hits(t: Task, rule: Rule, uuid: Uuid) {
    t.rule == rule && t.obj.uuid == uuid
  }

  /** The results mapping after storing the outcome of every task of
      `tasks`, in order, starting from `base`. */
  function Run(base: Results, tasks: seq<Task>, run: Oracle): Results
    decreases |tasks|
  {
    if tasks == [] then base
    else
      var t := tasks[|tasks| - 1];
      Store(Run(base, tasks[..|tasks| - 1], run), t.rule, t.obj.uuid, Outcome(t, run))
  }

  /** A pass keeps the results mapping well formed: distinct rule keys, each
      with a bucket. */
  lemma {:induction false} RunValid(base: Results, tasks: seq<Task>, run: Oracle)
    requires base.Valid()
    ensures Run(base, tasks, run).Valid()
    decreases |tasks|
  {
    if tasks != [] {
      RunValid(base, tasks[..|tasks| - 1], run);
    }
  }

  /** Running one more task is one more store. */
  lemma RunSnoc(base: Results, tasks: seq<Task>, t: Task, run: Oracle)
    ensures Run(base, tasks + [t], run) == Store(Run(base, tasks, run), t.rule, t.obj.uuid, Outcome(t, run))
  {
    assert (tasks + [t])[..|tasks|] == tasks;
  }

  /** Running two task sequences one after the other is running their
      concatenation. */
  lemma {:induction false} RunAppend(base: Results, a: seq<Task>, b: seq<Task>, run: Oracle)
    ensures Run(base, a + b, run) == Run(Run(base, a, run), b, run)
    decreases |b|
  {
    if b == [] {
      assert a + b == a;
    } else {
      var init, last := b[..|b| - 1], b[|b| - 1];
      assert b == init + [last];
      assert a + b == (a + init) + [last];
      RunAppend(base, a, init, run);
      RunSnoc(base, a + init, last, run);
      RunSnoc(Run(base, a, run), init, last, run);
    }
  }

  /** The index of the first task that writes to the entry for `rule` and
      `uuid`, if any. */
  function FirstHit(tasks: seq<Task>, rule: Rule, uuid: Uuid): (i: Option<nat>)
    ensures i.Some? ==> i.value < |tasks| && Hits(tasks[i.value], rule, uuid)
    ensures i.Some? ==> forall j :: 0 <= j < i.value ==> !Hits(tasks[j], rule, uuid)
    ensures i.None? <==> forall j :: 0 <= j < |tasks| ==> !Hits(tasks[j], rule, uuid)
    decreases |tasks|
  {
    if tasks == [] then None
    else
      var init := tasks[..|tasks| - 1];
      match FirstHit(init, rule, uuid)
      case Some(k) => Some(k)
      case None => if Hits(tasks[|tasks| - 1], rule, uuid) then Some(|tasks| - 1) else None
  }

  /** The entry a pass leaves for `rule` and `uuid`: the one that was there
      before, if any; otherwise the outcome of the first task that writes
      to it; otherwise none. Later tasks for the same entry have no effect. */
  function Winner(base: Results, tasks: seq<Task>, run: Oracle, rule: Rule, uuid: Uuid): Option<Result> {
    if base.Get(rule, uuid).Some? then base.Get(rule, uuid)
    else match FirstHit(tasks, rule, uuid)
      case None => None
      case Some(i) => Some(Outcome(tasks[i], run))
  }

  lemma {:induction false} RunCell(base: Results, tasks: seq<Task>, run: Oracle, rule: Rule, uuid: Uuid)
    ensures Run(base, tasks, run).Get(rule, uuid) == Winner(base, tasks, run, rule, uuid)
    decreases |tasks|
  {
    if tasks != [] {
      var init, last := tasks[..|tasks| - 1], tasks[|tasks| - 1];
      RunCell(base, init, run, rule, uuid);
      assert forall j :: 0 <= j < |init| ==> init[j] == tasks[j];
    }
  }

  /** Every entry a pass leaves is the one that was there before or comes
      from a task of the pass. */
  lemma RunEntries(base: Results, tasks: seq<Task>, run: Oracle, rule: Rule, uuid: Uuid)
    ensures base.Get(rule, uuid).Some? ==> Run(base, tasks, run).Get(rule, uuid) == base.Get(rule, uuid)
    ensures base.Get(rule, uuid).None? ==>
              (Run(base, tasks, run).Get(rule, uuid).Some? <==>
                 exists i :: 0 <= i < |tasks| && Hits(tasks[i], rule, uuid))
    ensures base.Get(rule, uuid).None? && Run(base, tasks, run).Get(rule, uuid).Some? ==>
              exists i :: 0 <= i < |tasks| && Hits(tasks[i], rule, uuid)
                && Run(base, tasks, run).Get(rule, uuid) == Some(Outcome(tasks[i], run))
  {
    RunCell(base, tasks, run, rule, uuid);
  }

  /** A pass keeps every old rule key in its place and appends the rules of
      its tasks that had no bucket yet; it never removes a key. */
  lemma {:induction false} RunKeys(base: Results, tasks: seq<Task>, run: Oracle)
    ensures |base.keys| <= |Run(base, tasks, run).keys|
    ensures Run(base, tasks, run).keys[..|base.keys|] == base.keys
    ensures Run(base, tasks, run).buckets.Keys == base.buckets.Keys + set t | t in tasks :: t.rule
    decreases |tasks|
  {
    if tasks != [] {
      var init, last := tasks[..|tasks| - 1], tasks[|tasks| - 1];
      RunKeys(base, init, run);
      assert tasks == init + [last];
      var prev := Run(base, init, run);
      assert prev.keys[..|base.keys|] == base.keys;
      assert (set t | t in tasks :: t.rule) == (set t | t in init :: t.rule) + {last.rule};
    }
  }

  /** A pass whose rules all have a bucket already adds no rule key. */
  lemma {:induction false} RunKeysStable(base: Results, tasks: seq<Task>, run: Oracle)
    requires forall t :: t in tasks ==> t.rule in base.buckets
    ensures Run(base, tasks, run).keys == base.keys
    decreases |tasks|
  {
    if tasks != [] {
      var init, last := tasks[..|tasks| - 1], tasks[|tasks| - 1];
      assert forall t :: t in init ==> t in tasks;
      RunKeysStable(base, init, run);
      RunKeys(base, init, run);
      assert last in tasks;
    }
  }

  /** Repeating a pass changes nothing, whatever the validators answer the
      second time: every entry it could write was written by the first
      pass, and a stored entry is never replaced. */
  lemma RerunChangesNothing(base: Results, tasks: seq<Task>, first: Oracle, second: Oracle)
    ensures Run(Run(base, tasks, first), tasks, second) == Run(base, tasks, first)
  {
    var once := Run(base, tasks, first);
    var twice := Run(once, tasks, second);
    RunKeys(base, tasks, first);
    RunKeys(once, tasks, second);
    RunKeysStable(once, tasks, second);
    forall r, u ensures twice.Get(r, u) == once.Get(r, u) {
      RunCell(once, tasks, second, r, u);
      RunCell(base, tasks, first, r, u);
    }
    Extensionality(twice, once);
  }

  /** The rule keys after a pass, in order: a task's rule is appended when it
      is first stored, that is, unless it is a key already. */
  function NewKeys(keys: seq<Rule>, tasks: seq<Task>): seq<Rule>
    decreases |tasks|
  {
    if tasks == [] then keys
    else
      var prev := NewKeys(keys, tasks[..|tasks| - 1]);
      var r := tasks[|tasks| - 1].rule;
      if r in prev then prev else prev + [r]
  }

  /** A pass orders the rule keys as `NewKeys` does: old keys first, then
      each new rule at the point of its first store. */
  lemma {:induction false} RunKeyOrder(base: Results, tasks: seq<Task>, run: Oracle)
    requires base.Valid()
    ensures Run(base, tasks, run).keys == NewKeys(base.keys, tasks)
    decreases |tasks|
  {
    if tasks != [] {
      var init := tasks[..|tasks| - 1];
      RunKeyOrder(base, init, run);
      RunValid(base, init, run);
    }
  }

  /** Every key `NewKeys` gives is an old key or some task's rule. */
  lemma {:induction false} NewKeysFrom(keys: seq<Rule>, tasks: seq<Task>, r: Rule)
    requires r in NewKeys(keys, tasks)
    ensures r in keys || exists j :: 0 <= j < |tasks| && tasks[j].rule == r
    decreases |tasks|
  {
    if tasks != [] {
      var init := tasks[..|tasks| - 1];
      if r in NewKeys(keys, init) {
        NewKeysFrom(keys, init, r);
        if r !in keys {
          var j :| 0 <= j < |init| && init[j].rule == r;
          assert tasks[j] == init[j];
        }
      } else {
        assert tasks[|tasks| - 1].rule == r;
      }
    }
  }

  /** When no old key carries `id`, the first key with `id` after a pass is
      the rule of the first task whose rule carries `id`. */
  lemma {:induction false} NewKeysFirstId(keys: seq<Rule>, tasks: seq<Task>, id: string, i: nat)
    requires forall r :: r in keys ==> r.id != id
    requires i < |tasks| && tasks[i].rule.id == id
    requires forall j :: 0 <= j < i ==> tasks[j].rule.id != id
    ensures exists p :: 0 <= p < |NewKeys(keys, tasks)| && NewKeys(keys, tasks)[p] == tasks[i].rule
                        && forall q :: 0 <= q < p ==> NewKeys(keys, tasks)[q].id != id
    decreases |tasks|
  {
    var init := tasks[..|tasks| - 1];
    var prev := NewKeys(keys, init);
    var out := NewKeys(keys, tasks);
    assert out == prev || out == prev + [tasks[|tasks| - 1].rule];
    if i < |tasks| - 1 {
      NewKeysFirstId(keys, init, id, i);
      var p :| 0 <= p < |prev| && prev[p] == init[i].rule && forall q :: 0 <= q < p ==> prev[q].id != id;
      assert out[p] == tasks[i].rule && forall q :: 0 <= q < p ==> out[q].id != id;
    } else {
      forall q | 0 <= q < |prev|
        ensures prev[q].id != id
      {
        NewKeysFrom(keys, init, prev[q]);
      }
      assert tasks[i].rule !in prev;
      assert out == prev + [tasks[i].rule];
      assert out[|prev|] == tasks[i].rule;
    }
  }

  /** Lookup by id after a pass: when no rule key carried `id` before, the
      id resolves to the bucket of the rule of the first task whose rule
      carries `id`, whatever rules sharing that id the pass stores later. */
  lemma RunIdResolvesToFirstTask(base: Results, tasks: seq<Task>, run: Oracle, id: string, i: nat)
    requires base.Valid()
    requires forall r :: r in base.keys ==> r.id != id
    requires i < |tasks| && tasks[i].rule.id == id
    requires forall j :: 0 <= j < i ==> tasks[j].rule.id != id
    ensures Run(base, tasks, run).Valid() && tasks[i].rule in Run(base, tasks, run).buckets
    ensures Lookup(Run(base, tasks, run), ById(id)) == Ok(Run(base, tasks, run).buckets[tasks[i].rule])
  {
    var after := Run(base, tasks, run);
    RunValid(base, tasks, run);
    RunKeyOrder(base, tasks, run);
    NewKeysFirstId(base.keys, tasks, id, i);
    var p :| 0 <= p < |after.keys| && after.keys[p] == tasks[i].rule
             && forall q :: 0 <= q < p ==> after.keys[q].id != id;
    var out := Lookup(after, ById(id));
    assert out.Ok?;
    var k :| 0 <= k < |after.keys| && after.keys[k].id == id
             && (forall j :: 0 <= j < k ==> after.keys[j].id != id)
             && out.value == after.buckets[after.keys[k]];
    assert k == p;
  }

  // ---------------------------------------------------------------------
  // Evaluations of a model-wide pass, in the order of its four nested loops:
  // category, then type, then element of that type, then rule.
  // ---------------------------------------------------------------------

  /** Innermost loop: each rule of `rules` that passes the filter, on `obj`. */
  function RuleTasks(c: Category, obj: Element, rules: seq<Rule>, f: RuleFilter): seq<Task>
    decreases |rules|
  {
    if rules == [] then []
    else
      var init, last := rules[..|rules| - 1], rules[|rules| - 1];
      RuleTasks(c, obj, init, f) + (if Passes(f, last) then [Task(last, c, obj)] else [])
  }

  /** Element loop: the rule loop on every element of `objs`. */
  function ObjTasks(c: Category, objs: seq<Element>, rules: seq<Rule>, f: RuleFilter): seq<Task>
    decreases |objs|
  {
    if objs == [] then []
    else
      var init, last := objs[..|objs| - 1], objs[|objs| - 1];
      ObjTasks(c, init, rules, f) + RuleTasks(c, last, rules, f)
  }

  /** Type loop: for each type of `types`, the element loop over what the
      model's search returns for it, with that type's rules. */
  function TypeTasks(c: Category, table: TypeTable, types: seq<TypeRef>,
                     model: Model, f: RuleFilter): seq<Task>
    decreases |types|
  {
    if types == [] then []
    else
      var init, last := types[..|types| - 1], types[|types| - 1];
      TypeTasks(c, table, init, model, f) + ObjTasks(c, model.Search(last), table.RulesFor(last), f)
  }

  /** Category loop: the type loop over each category's table. */
  function CatTasks(reg: Registry, cats: seq<Category>, model: Model, f: RuleFilter)
    : seq<Task>
    decreases |cats|
  {
    if cats == [] then []
    else
      var init, last := cats[..|cats| - 1], cats[|cats| - 1];
      CatTasks(reg, init, model, f) + TypeTasks(last, reg.Table(last), reg.Table(last).types, model, f)
  }

  /** Every task of `ModelValidation.validate`, in the order it runs them. */
  function ModelTasks(reg: Registry, model: Model, f: RuleFilter): seq<Task> {
    CatTasks(reg, Categories, model, f)
  }

  // One iteration of each loop, as the engine's loops take it.

  /** One more rule: a task for it if the filter lets it through, none
      otherwise. */
  lemma RuleStep(c: Category, obj: Element, rules: seq<Rule>, f: RuleFilter, i: nat)
    requires i < |rules|
    ensures RuleTasks(c, obj, rules[..i + 1], f) ==
              RuleTasks(c, obj, rules[..i], f) + (if Passes(f, rules[i]) then [Task(rules[i], c, obj)] else [])
  {
    assert rules[..i + 1][..i] == rules[..i];
  }

  /** One more element: its whole rule loop. */
  lemma ObjStep(base: Results, c: Category, objs: seq<Element>, rules: seq<Rule>, f: RuleFilter, run: Oracle,
                i: nat, before: Results, after: Results)
    requires i < |objs|
    requires before == Run(base, ObjTasks(c, objs[..i], rules, f), run)
    requires after == Run(before, RuleTasks(c, objs[i], rules, f), run)
    ensures after == Run(base, ObjTasks(c, objs[..i + 1], rules, f), run)
  {
    assert objs[..i + 1][..i] == objs[..i];
    RunAppend(base, ObjTasks(c, objs[..i], rules, f), RuleTasks(c, objs[i], rules, f), run);
  }

  /** One more type: the element loop over what the model's search returns for it. */
  lemma TypeStep(base: Results, c: Category, table: TypeTable, types: seq<TypeRef>, model: Model,
                 f: RuleFilter, run: Oracle, i: nat, before: Results, after: Results)
    requires i < |types|
    requires before == Run(base, TypeTasks(c, table, types[..i], model, f), run)
    requires after == Run(before, ObjTasks(c, model.Search(types[i]), table.RulesFor(types[i]), f), run)
    ensures after == Run(base, TypeTasks(c, table, types[..i + 1], model, f), run)
  {
    assert types[..i + 1][..i] == types[..i];
    RunAppend(base, TypeTasks(c, table, types[..i], model, f),
              ObjTasks(c, model.Search(types[i]), table.RulesFor(types[i]), f), run);
  }

  /** One more category: the type loop over its table. */
  lemma CatStep(base: Results, reg: Registry, cats: seq<Category>, model: Model, f: RuleFilter,
                run: Oracle, i: nat, before: Results, after: Results)
    requires i < |cats|
    requires before == Run(base, CatTasks(reg, cats[..i], model, f), run)
    requires after == Run(before, TypeTasks(cats[i], reg.Table(cats[i]), reg.Table(cats[i]).types, model, f), run)
    ensures after == Run(base, CatTasks(reg, cats[..i + 1], model, f), run)
  {
    assert cats[..i + 1][..i] == cats[..i];
    RunAppend(base, CatTasks(reg, cats[..i], model, f),
              TypeTasks(cats[i], reg.Table(cats[i]), reg.Table(cats[i]).types, model, f), run);
  }

  /** The rule loop evaluates exactly the rules of `rules` that pass the
      filter, under `c`, on `obj`. */
  lemma {:induction false} RuleTasksMembers(c: Category, obj: Element, rules: seq<Rule>, f: RuleFilter)
    ensures forall t :: t in RuleTasks(c, obj, rules, f) <==>
              t.category == c && t.obj == obj && t.rule in rules && Passes(f, t.rule)
    decreases |rules|
  {
    if rules != [] {
      var init, last := rules[..|rules| - 1], rules[|rules| - 1];
      assert rules == init + [last];
      RuleTasksMembers(c, obj, init, f);
    }
  }

  lemma {:induction false} ObjTasksMembers(c: Category, objs: seq<Element>, rules: seq<Rule>, f: RuleFilter)
    ensures forall t :: t in ObjTasks(c, objs, rules, f) <==>
              t.category == c && t.obj in objs && t.rule in rules && Passes(f, t.rule)
    decreases |objs|
  {
    if objs != [] {
      var init, last := objs[..|objs| - 1], objs[|objs| - 1];
      assert objs == init + [last];
      ObjTasksMembers(c, init, rules, f);
      RuleTasksMembers(c, last, rules, f);
    }
  }

  lemma {:induction false} TypeTasksMembers(c: Category, table: TypeTable, types: seq<TypeRef>,
                                            model: Model, f: RuleFilter)
    ensures forall t :: t in TypeTasks(c, table, types, model, f) <==>
              && t.category == c && Passes(f, t.rule)
              && exists typ :: typ in types && t.obj in model.Search(typ) && t.rule in table.RulesFor(typ)
    decreases |types|
  {
    if types != [] {
      var init, last := types[..|types| - 1], types[|types| - 1];
      assert types == init + [last];
      TypeTasksMembers(c, table, init, model, f);
      ObjTasksMembers(c, model.Search(last), table.RulesFor(last), f);
    }
  }

  lemma {:induction false} CatTasksMembers(reg: Registry, cats: seq<Category>, model: Model,
                                           f: RuleFilter)
    ensures forall t :: t in CatTasks(reg, cats, model, f) <==>
              && t.category in cats && Passes(f, t.rule)
              && exists typ :: typ in reg.Table(t.category).types && t.obj in model.Search(typ)
                               && t.rule in reg.RulesFor(t.category, typ)
    decreases |cats|
  {
    if cats != [] {
      var init, last := cats[..|cats| - 1], cats[|cats| - 1];
      assert cats == init + [last];
      CatTasksMembers(reg, init, model, f);
      TypeTasksMembers(last, reg.Table(last), reg.Table(last).types, model, f);
    }
  }

  /** The model-wide pass evaluates exactly the registered (category, type,
      rule) triples that pass the filter, each on every element the model's search
      returns for the type. */
  lemma ModelTaskMembership(reg: Registry, model: Model, f: RuleFilter, t: Task)
    ensures t in ModelTasks(reg, model, f) <==>
              && Passes(f, t.rule)
              && exists typ :: typ in reg.Table(t.category).types && t.obj in model.Search(typ)
                               && t.rule in reg.RulesFor(t.category, typ)
  {
    CatTasksMembers(reg, Categories, model, f);
    CategoriesComplete(t.category);
  }

  /** Model-wide coverage: after the pass, every registered (category, type,
      rule) that passes the filter has an entry for every element the model's search
      returns for its type. */
  lemma ModelValidateCovers(reg: Registry, base: Results, model: Model, run: Oracle,
                            f: RuleFilter, c: Category, typ: TypeRef, obj: Element, rule: Rule)
    requires typ in reg.Table(c).types && obj in model.Search(typ) && rule in reg.RulesFor(c, typ)
    requires Passes(f, rule)
    ensures Run(base, ModelTasks(reg, model, f), run).Get(rule, obj.uuid).Some?
  {
    var tasks := ModelTasks(reg, model, f);
    var t := Task(rule, c, obj);
    ModelTaskMembership(reg, model, f, t);
    var i :| 0 <= i < |tasks| && tasks[i] == t;
    assert Hits(tasks[i], rule, obj.uuid);
    RunEntries(base, tasks, run, rule, obj.uuid);
  }

  /** Model-wide provenance: an entry the pass adds comes from a registered
      (category, type, rule) that passes the filter and an element the
      model's search returns for that type with the entry's uuid; it records that
      category and the rule's verdict on that element. */
  lemma ModelValidateProvenance(reg: Registry, base: Results, model: Model, run: Oracle,
                                f: RuleFilter, rule: Rule, uuid: Uuid)
    requires base.Get(rule, uuid).None?
    requires Run(base, ModelTasks(reg, model, f), run).Get(rule, uuid).Some?
    ensures Passes(f, rule)
    ensures exists c, typ, obj ::
              && typ in reg.Table(c).types && obj in model.Search(typ) && rule in reg.RulesFor(c, typ)
              && obj.uuid == uuid
              && Run(base, ModelTasks(reg, model, f), run).Get(rule, uuid)
                 == Some(Result(uuid, c, rule.Call(run, obj)))
  {
    var tasks := ModelTasks(reg, model, f);
    RunEntries(base, tasks, run, rule, uuid);
    var i :| 0 <= i < |tasks| && Hits(tasks[i], rule, uuid)
             && Run(base, tasks, run).Get(rule, uuid) == Some(Outcome(tasks[i], run));
    var t := tasks[i];
    ModelTaskMembership(reg, model, f, t);
    var typ :| typ in reg.Table(t.category).types && t.obj in model.Search(typ) && t.rule in reg.RulesFor(t.category, typ);
  }

  // ---------------------------------------------------------------------
  // Evaluations of an element-scoped pass: category, then the types kept by
  // `ElementRules`, skipping any not equal to the element's type, then rule.
  // ---------------------------------------------------------------------

  /** Type loop of the element scope over `types`, on the single element. */
  function ElemTypeTasks(c: Category, table: TypeTable, types: seq<TypeRef>, elem: Element, f: RuleFilter)
    : seq<Task>
    decreases |types|
  {
    if types == [] then []
    else
      var init, last := types[..|types| - 1], types[|types| - 1];
      ElemTypeTasks(c, table, init, elem, f)
        + (if last == elem.RuntimeType() then RuleTasks(c, elem, table.RulesFor(last), f) else [])
  }

  /** Category loop of the element scope over `scoped`, the registry as
      `ElementRules` gives it. */
  function ElemCatTasks(scoped: Registry, cats: seq<Category>, elem: Element, f: RuleFilter): seq<Task>
    decreases |cats|
  {
    if cats == [] then []
    else
      var init, last := cats[..|cats| - 1], cats[|cats| - 1];
      ElemCatTasks(scoped, init, elem, f) + ElemTypeTasks(last, scoped.Table(last), scoped.Table(last).types, elem, f)
  }

  /** One more type of the element scope, when it is the element's exact
      type: its rule loop on the element. */
  lemma ElemTypeStep(base: Results, c: Category, table: TypeTable, types: seq<TypeRef>, elem: Element,
                     f: RuleFilter, run: Oracle, i: nat, before: Results, after: Results)
    requires i < |types| && types[i] == elem.RuntimeType()
    requires before == Run(base, ElemTypeTasks(c, table, types[..i], elem, f), run)
    requires after == Run(before, RuleTasks(c, elem, table.RulesFor(types[i]), f), run)
    ensures after == Run(base, ElemTypeTasks(c, table, types[..i + 1], elem, f), run)
  {
    assert types[..i + 1][..i] == types[..i];
    RunAppend(base, ElemTypeTasks(c, table, types[..i], elem, f), RuleTasks(c, elem, table.RulesFor(types[i]), f), run);
  }

  /** One more type of the element scope, when it is not the element's
      exact type: skipped. */
  lemma ElemTypeSkip(base: Results, c: Category, table: TypeTable, types: seq<TypeRef>, elem: Element,
                     f: RuleFilter, run: Oracle, i: nat)
    requires i < |types| && types[i] != elem.RuntimeType()
    ensures Run(base, ElemTypeTasks(c, table, types[..i + 1], elem, f), run)
         == Run(base, ElemTypeTasks(c, table, types[..i], elem, f), run)
  {
    assert types[..i + 1][..i] == types[..i];
    var done := ElemTypeTasks(c, table, types[..i], elem, f);
    assert ElemTypeTasks(c, table, types[..i + 1], elem, f) == done + [];
    assert done + [] == done;
  }

  /** One more category of the element scope. */
  lemma ElemCatStep(base: Results, scoped: Registry, cats: seq<Category>, elem: Element, f: RuleFilter,
                    run: Oracle, i: nat, before: Results, after: Results)
    requires i < |cats|
    requires before == Run(base, ElemCatTasks(scoped, cats[..i], elem, f), run)
    requires after == Run(before, ElemTypeTasks(cats[i], scoped.Table(cats[i]), scoped.Table(cats[i]).types, elem, f), run)
    ensures after == Run(base, ElemCatTasks(scoped, cats[..i + 1], elem, f), run)
  {
    assert cats[..i + 1][..i] == cats[..i];
    RunAppend(base, ElemCatTasks(scoped, cats[..i], elem, f),
              ElemTypeTasks(cats[i], scoped.Table(cats[i]), scoped.Table(cats[i]).types, elem, f), run);
  }

  lemma {:induction false} ElemTypeTasksMembers(c: Category, table: TypeTable, types: seq<TypeRef>, elem: Element,
                                                f: RuleFilter)
    ensures forall t :: t in ElemTypeTasks(c, table, types, elem, f) <==>
              && t.category == c && t.obj == elem && Passes(f, t.rule)
              && elem.RuntimeType() in types && t.rule in table.RulesFor(elem.RuntimeType())
    decreases |types|
  {
    if types != [] {
      var init, last := types[..|types| - 1], types[|types| - 1];
      assert types == init + [last];
      ElemTypeTasksMembers(c, table, init, elem, f);
      RuleTasksMembers(c, elem, table.RulesFor(last), f);
    }
  }

  lemma {:induction false} ElemCatTasksMembers(scoped: Registry, cats: seq<Category>, elem: Element, f: RuleFilter)
    ensures forall t :: t in ElemCatTasks(scoped, cats, elem, f) <==>
              && t.category in cats && t.obj == elem && Passes(f, t.rule)
              && elem.RuntimeType() in scoped.Table(t.category).types
              && t.rule in scoped.RulesFor(t.category, elem.RuntimeType())
    decreases |cats|
  {
    if cats != [] {
      var init, last := cats[..|cats| - 1], cats[|cats| - 1];
      assert cats == init + [last];
      ElemCatTasksMembers(scoped, init, elem, f);
      ElemTypeTasksMembers(last, scoped.Table(last), scoped.Table(last).types, elem, f);
    }
  }

  /** Every task of `ElementValidation.validate`, in the order it runs them. */
  function ElementTasks(reg: Registry, elem: Element, f: RuleFilter): seq<Task> {
    ElemCatTasks(ElementRules(reg, elem), Categories, elem, f)
  }

  /** The element scope evaluates exactly the rules registered against the
      element's exact runtime type, under any category, that pass the
      filter, and only on the element itself. */
  lemma ElementTaskMembership(reg: Registry, elem: Element, f: RuleFilter, t: Task)
    requires reg.Valid()
    ensures t in ElementTasks(reg, elem, f) <==>
              && t.obj == elem && Passes(f, t.rule)
              && t.rule in reg.RulesFor(t.category, elem.RuntimeType())
  {
    CategoriesComplete(t.category);
    var scoped := ElementRules(reg, elem);
    var et := elem.RuntimeType();
    ElemCatTasksMembers(scoped, Categories, elem, f);
    if t.rule in reg.RulesFor(t.category, et) {
      assert et in reg.Table(t.category).rules;
      assert scoped.Table(t.category).types == [et];
    }
  }

  /** Element-scoped coverage: after the pass, every rule registered against
      the element's exact type that passes the filter has an entry for the
      element. */
  lemma ElementValidateCovers(reg: Registry, base: Results, elem: Element, run: Oracle, f: RuleFilter,
                              c: Category, rule: Rule)
    requires reg.Valid()
    requires rule in reg.RulesFor(c, elem.RuntimeType()) && Passes(f, rule)
    ensures Run(base, ElementTasks(reg, elem, f), run).Get(rule, elem.uuid).Some?
  {
    var tasks := ElementTasks(reg, elem, f);
    var t := Task(rule, c, elem);
    ElementTaskMembership(reg, elem, f, t);
    var i :| 0 <= i < |tasks| && tasks[i] == t;
    assert Hits(tasks[i], rule, elem.uuid);
    RunEntries(base, tasks, run, rule, elem.uuid);
  }

  /** Element-scoped provenance: an entry the pass adds is for the element's
      uuid and for a rule registered against its exact type; it records a
      category under which that rule is registered for the type and the
      rule's verdict on the element. Rules registered against any other type
      (a supertype, or a type name string) are never evaluated. */
  lemma ElementValidateProvenance(reg: Registry, base: Results, elem: Element, run: Oracle, f: RuleFilter,
                                  rule: Rule, uuid: Uuid)
    requires reg.Valid()
    requires base.Get(rule, uuid).None?
    requires Run(base, ElementTasks(reg, elem, f), run).Get(rule, uuid).Some?
    ensures uuid == elem.uuid && Passes(f, rule)
    ensures exists c :: rule in reg.RulesFor(c, elem.RuntimeType())
              && Run(base, ElementTasks(reg, elem, f), run).Get(rule, uuid)
                 == Some(Result(uuid, c, rule.Call(run, elem)))
  {
    var tasks := ElementTasks(reg, elem, f);
    RunEntries(base, tasks, run, rule, uuid);
    var i :| 0 <= i < |tasks| && Hits(tasks[i], rule, uuid)
             && Run(base, tasks, run).Get(rule, uuid) == Some(Outcome(tasks[i], run));
    ElementTaskMembership(reg, elem, f, tasks[i]);
  }

  /** With an id that no rule registered against the element's type
      carries, the element scope evaluates nothing and stores nothing. */
  lemma ElementValidateUnknownId(reg: Registry, base: Results, elem: Element, run: Oracle, id: string)
    requires reg.Valid()
    requires forall c, rule :: rule in reg.RulesFor(c, elem.RuntimeType()) ==> rule.id != id
    ensures ElementTasks(reg, elem, OnlyId(id)) == []
    ensures Run(base, ElementTasks(reg, elem, OnlyId(id)), run) == base
  {
    var tasks := ElementTasks(reg, elem, OnlyId(id));
    assert |tasks| == 0 || tasks[0] in tasks;
    forall t ensures t !in tasks {
      ElementTaskMembership(reg, elem, OnlyId(id), t);
    }
  }

  /** The same for the model-wide scope: an id that no registered rule
      carries evaluates nothing and stores nothing. */
  lemma ModelValidateUnknownId(reg: Registry, base: Results, model: Model, run: Oracle,
                               id: string)
    requires forall c, typ, rule :: rule in reg.RulesFor(c, typ) ==> rule.id != id
    ensures ModelTasks(reg, model, OnlyId(id)) == []
    ensures Run(base, ModelTasks(reg, model, OnlyId(id)), run) == base
  {
    ModelTasksNonEmpty(reg, model, OnlyId(id));
  }

  /** A model-wide pass has something to do only if some registered rule
      passes its filter. */
  lemma ModelTasksNonEmpty(reg: Registry, model: Model, f: RuleFilter)
    ensures ModelTasks(reg, model, f) != [] ==>
              exists c, typ, rule :: rule in reg.RulesFor(c, typ) && Passes(f, rule)
  {
    var tasks := ModelTasks(reg, model, f);
    if tasks != [] {
      var t := tasks[0];
      ModelTaskMembership(reg, model, f, t);
      var typ :| typ in reg.Table(t.category).types && t.obj in model.Search(typ) && t.rule in reg.RulesFor(t.category, typ);
      assert t.rule in reg.RulesFor(t.category, typ) && Passes(f, t.rule);
    }
  }

  /** Which of several rules sharing an id `results[id]` gives after a
      model-wide pass from a mapping in which no rule carried that id: the
      first the pass reaches in its loop order (category, type, element,
      rule), not any registered later. */
  lemma ModelValidateSharedId(reg: Registry, base: Results, model: Model, run: Oracle, f: RuleFilter,
                              id: string, i: nat)
    requires base.Valid()
    requires forall r :: r in base.keys ==> r.id != id
    requires i < |ModelTasks(reg, model, f)| && ModelTasks(reg, model, f)[i].rule.id == id
    requires forall j :: 0 <= j < i ==> ModelTasks(reg, model, f)[j].rule.id != id
    ensures var after := Run(base, ModelTasks(reg, model, f), run);
      && after.Valid() && ModelTasks(reg, model, f)[i].rule in after.buckets
      && Lookup(after, ById(id)) == Ok(after.buckets[ModelTasks(reg, model, f)[i].rule])
  {
    RunIdResolvesToFirstTask(base, ModelTasks(reg, model, f), run, id, i);
  }

  /** The same for the element scope: the first rule with the id in the
      pass's order (category, then rule). */
  lemma ElementValidateSharedId(reg: Registry, base: Results, elem: Element, run: Oracle, f: RuleFilter,
                                id: string, i: nat)
    requires base.Valid()
    requires forall r :: r in base.keys ==> r.id != id
    requires i < |ElementTasks(reg, elem, f)| && ElementTasks(reg, elem, f)[i].rule.id == id
    requires forall j :: 0 <= j < i ==> ElementTasks(reg, elem, f)[j].rule.id != id
    ensures var after := Run(base, ElementTasks(reg, elem, f), run);
      && after.Valid() && ElementTasks(reg, elem, f)[i].rule in after.buckets
      && Lookup(after, ById(id)) == Ok(after.buckets[ElementTasks(reg, elem, f)[i].rule])
  {
    RunIdResolvesToFirstTask(base, ElementTasks(reg, elem, f), run, id, i);
  }
}
