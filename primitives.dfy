/** The leaf values of the validation engine: severities, model elements,
    rules, the record of one rule's outcome, and the error kinds the engine
    raises. */
module Primitives {

  datatype Option<T> = None | Some(value: T)

  /** No element of `s` occurs twice. */
  predicate Distinct<T(==)>(s: seq<T>) {
    forall i, j :: 0 <= i < j < |s| ==> s[i] != s[j]
  }

  /** A rule's severity. The source declares a flag enum with three members;
      every rule is registered under exactly one of them. */
  datatype Category = Required | Recommended | Suggested

  /** The order in which the rule registry holds, and so iterates, its
      categories: the order of its initialisation. */
  const Categories: seq<Category> := [Required, Recommended, Suggested]

  lemma CategoriesComplete(c: Category)
    ensures c in Categories
  {
    match c
    case Required => assert Categories[0] == c;
    case Recommended => assert Categories[1] == c;
    case Suggested => assert Categories[2] == c;
  }

  type Uuid = string

  /** What a rule is registered against: either a model class, or a type
      name given as a string (the source accepts both). */
  datatype TypeRef = Class(name: string) | Named(name: string)

  /** An element of the model graph as the engine sees it: its uuid and the
      name of its exact runtime class. Whatever else a validator reads of it
      is folded into the oracle that interprets validators. */
  datatype Element = Element(uuid: Uuid, cls: string) {
    /** The element's exact runtime type, as `type(element)` gives it. */
    function RuntimeType(): TypeRef {
      Class(cls)
    }
  }

  /** The model being validated, as far as the model-wide scope sees it:
      for each type, the elements the model's search returns for it, in the
      order it returns them. A type with no entry has no elements. */
  datatype Model = Model(extent: map<TypeRef, seq<Element>>) {
    function Search(t: TypeRef): seq<Element> {
      if t in extent then extent[t] else []
    }
  }

  /** A validator function, seen as an opaque token: two rules carry the same
      token exactly when they wrap the same function object. */
  type Validator = nat

  /** The meaning of every validator: total and free of side effects. */
  type Oracle = (Validator, Element) -> bool

  /** A rule: documentation fields plus the validator it wraps. Datatype
      equality compares every field, as the frozen dataclass does. */
  datatype Rule = Rule(
    id: string,
    name: string,
    rationale: string,
    actions: seq<string>,
    validator: Validator,
    furtherReading: Option<string>)
  {
    /** Calling a rule runs its validator on the element. */
    function Call(run: Oracle, obj: Element): bool {
      run(validator, obj)
    }

    /** The rule's hash, computed from its id alone, with `strHash` standing
        for the hash of a string. */
    function Hash(strHash: string -> int): int {
      strHash(id)
    }
  }

  /** Calling a rule depends on its validator only, never on its
      documentation fields. */
  lemma CallUsesValidatorOnly(r1: Rule, r2: Rule, run: Oracle, obj: Element)
    requires r1.validator == r2.validator
    ensures r1.Call(run, obj) == r2.Call(run, obj)
    ensures r1.Call(run, obj) == run(r1.validator, obj)
  {
  }

  /** Hashing and equality of rules: equal rules hash alike (so a rule is a
      well-behaved dictionary key), rules with the same id hash alike whatever
      their other fields, and equality still compares every field. */
  lemma RuleIdentity(r1: Rule, r2: Rule, strHash: string -> int)
    ensures r1 == r2 ==> r1.Hash(strHash) == r2.Hash(strHash)
    ensures r1.id == r2.id ==> r1.Hash(strHash) == r2.Hash(strHash)
    ensures r1 == r2 <==>
      && r1.id == r2.id && r1.name == r2.name && r1.rationale == r2.rationale
      && r1.actions == r2.actions && r1.validator == r2.validator
      && r1.furtherReading == r2.furtherReading
  {
  }

  /** Two rules can share an id and still be distinct keys: the hash
      collides, equality tells them apart. */
  lemma SharedIdDistinctRules()
    ensures exists r1: Rule, r2: Rule :: r1.id == r2.id && r1 != r2
  {
    var r1 := Rule("R", "first", "", [], 0, None);
    var r2 := Rule("R", "second", "", [], 0, None);
    assert r1.id == r2.id && r1 != r2;
  }

  /** One rule's outcome on one element, tagged with the category under
      which the rule was evaluated. */
  datatype Result = Result(uuid: Uuid, category: Category, value: bool)

  /** The optional `rule` argument of a validation pass: no restriction, one
      rule (compared by equality), or every rule with a given id. */
  datatype RuleFilter = AllRules | OnlyRule(rule: Rule) | OnlyId(id: string)

  /** Whether a validation pass with filter `f` evaluates rule `r`. */
  predicate Passes(f: RuleFilter, r: Rule) {
    match f
    case AllRules => true
    case OnlyRule(x) => x == r
    case OnlyId(s) => s == r.id
  }

  /** A key of the results mapping: a rule, or a rule id to be resolved. */
  datatype RuleRef = ByRule(rule: Rule) | ById(id: string)

  datatype Error =
    | KeyError(key: RuleRef)   // no bucket for this rule or rule id
    | ValueError               // a default that is not a result dictionary

  datatype Fallible<T> = Ok(value: T) | Err(error: Error)
}
