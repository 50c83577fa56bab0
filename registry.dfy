/** The process-wide rule registry: for every category, the rules registered
    against each target type, in registration order. */
module RuleRegistry {
  import opened Primitives

  /** One category's part of the registry: the target types in the order of
      their first registration, and each type's list of rules. */
  datatype TypeTable = TypeTable(types: seq<TypeRef>, rules: map<TypeRef, seq<Rule>>) {

    /** The types are distinct and are exactly those that have a list. */
    predicate Valid() {
      && Distinct(types)
      && (forall t :: t in rules ==> t in types)
      && (forall t :: t in types ==> t in rules)
    }

    /** The rules registered against `t`; none if `t` has no list yet. */
    function RulesFor(t: TypeRef): seq<Rule> {
      if t in rules then rules[t] else []
    }
  }

  const EmptyTable: TypeTable := TypeTable([], map[])

  datatype Registry = Registry(required: TypeTable, recommended: TypeTable, suggested: TypeTable) {

    function Table(c: Category): TypeTable {
      match c
      case Required => required
      case Recommended => recommended
      case Suggested => suggested
    }

    function WithTable(c: Category, table: TypeTable): Registry {
      match c
      case Required => this.(required := table)
      case Recommended => this.(recommended := table)
      case Suggested => this.(suggested := table)
    }

    predicate Valid() {
      required.Valid() && recommended.Valid() && suggested.Valid()
    }

    /** The rules registered under category `c` against type `t`. */
    function RulesFor(c: Category, t: TypeRef): seq<Rule> {
      Table(c).RulesFor(t)
    }
  }

  /** The registry at start-up: every category present, no rules. */
  const EmptyRegistry: Registry := Registry(EmptyTable, EmptyTable, EmptyTable)

  /** Appending `rule` to the list of `t` in one table, creating the list
      (and appending `t` to the type order) when `t` is new. */
  function Append(table: TypeTable, t: TypeRef, rule: Rule): (out: TypeTable)
    ensures out.RulesFor(t) == table.RulesFor(t) + [rule]
    ensures forall t' :: t' != t ==> out.RulesFor(t') == table.RulesFor(t')
    ensures out.types == if t in table.rules then table.types else table.types + [t]
    ensures table.Valid() ==> out.Valid()
  {
    if t in table.rules then TypeTable(table.types, table.rules[t := table.rules[t] + [rule]])
    else TypeTable(table.types + [t], table.rules[t := [rule]])
  }

  /** What a `register_rule` decorator does to the registry: the rule goes at
      the end of the list for (`c`, `t`); no list is checked for a rule of
      the same id; every other list is left alone. */
  function Register(reg: Registry, c: Category, t: TypeRef, rule: Rule): (out: Registry)
    ensures out.RulesFor(c, t) == reg.RulesFor(c, t) + [rule]
    ensures forall c', t' :: (c', t') != (c, t) ==> out.RulesFor(c', t') == reg.RulesFor(c', t')
    ensures out.Table(c).types ==
              if t in reg.Table(c).rules then reg.Table(c).types else reg.Table(c).types + [t]
    ensures forall c' :: c' != c ==> out.Table(c') == reg.Table(c')
    ensures reg.Valid() ==> out.Valid()
  {
    reg.WithTable(c, Append(reg.Table(c), t, rule))
  }

  /** Registration never forgets: every rule registered before is still
      registered, at the same position of the same list. */
  lemma RegisterKeeps(reg: Registry, c: Category, t: TypeRef, rule: Rule, c': Category, t': TypeRef, k: nat)
    requires k < |reg.RulesFor(c', t')|
    ensures k < |Register(reg, c, t, rule).RulesFor(c', t')|
    ensures Register(reg, c, t, rule).RulesFor(c', t')[k] == reg.RulesFor(c', t')[k]
  {
    if (c', t') == (c, t) {
      assert Register(reg, c, t, rule).RulesFor(c', t') == reg.RulesFor(c', t') + [rule];
    }
  }

  /** Registering the same fields twice gives two entries in the list, both
      equal to the one rule: there is no uniqueness check. */
  lemma RegisterTwice(reg: Registry, c: Category, t: TypeRef, rule: Rule)
    ensures var twice := Register(Register(reg, c, t, rule), c, t, rule);
      twice.RulesFor(c, t) == reg.RulesFor(c, t) + [rule, rule]
  {
    var once := Register(reg, c, t, rule);
    assert once.RulesFor(c, t) == reg.RulesFor(c, t) + [rule];
    assert Register(once, c, t, rule).RulesFor(c, t) == once.RulesFor(c, t) + [rule];
    assert reg.RulesFor(c, t) + [rule] + [rule] == reg.RulesFor(c, t) + [rule, rule];
  }

  // ---------------------------------------------------------------------
  // The registry as one element sees it
  // ---------------------------------------------------------------------

  /** The types of `types` that are equal to `et`, keeping their order. */
  function KeepExact(types: seq<TypeRef>, et: TypeRef): (out: seq<TypeRef>)
    ensures forall t :: t in out <==> t in types && t == et
    ensures Distinct(types) ==> out == if et in types then [et] else []
  {
    if types == [] then []
    else
      var init, last := types[..|types| - 1], types[|types| - 1];
      assert types == init + [last];
      var rest := KeepExact(init, et);
      assert Distinct(types) ==> Distinct(init) && last !in init;
      if last == et then rest + [last] else rest
  }

  /** One table cut down to the types equal to `et`. */
  function ExactTable(table: TypeTable, et: TypeRef): (out: TypeTable)
    ensures forall t :: out.RulesFor(t) == if t == et then table.RulesFor(t) else []
    ensures table.Valid() ==> out.Valid()
    ensures table.Valid() ==> out.types == if et in table.rules then [et] else []
  {
    TypeTable(KeepExact(table.types, et), map t | t in table.rules && t == et :: table.rules[t])
  }

  /** `ElementValidation.rules`: every category, each with only the type
      equal to the element's exact runtime type. A rule registered against a
      supertype, or against a type name given as a string, is left out. */
  function ElementRules(reg: Registry, elem: Element): (out: Registry)
    ensures forall c, t :: out.RulesFor(c, t) ==
              if t == elem.RuntimeType() then reg.RulesFor(c, t) else []
    ensures forall c, t: TypeRef :: t.Named? ==> out.RulesFor(c, t) == []
    ensures reg.Valid() ==> out.Valid()
    ensures reg.Valid() ==>
              forall c :: out.Table(c).types ==
                            if elem.RuntimeType() in reg.Table(c).rules then [elem.RuntimeType()] else []
  {
    var et := elem.RuntimeType();
    var out := Registry(ExactTable(reg.required, et), ExactTable(reg.recommended, et), ExactTable(reg.suggested, et));
    assert forall c :: out.Table(c) == ExactTable(reg.Table(c), et);
    out
  }
}
