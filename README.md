# Rule-based model validation engine, modelled in Dafny

This project models the validation engine of capellambse, a Python library for
Capella system models. The engine has these parts:

- **Rules.** Each rule has documentation fields and a validator function that
  says whether a model element passes.
- **A process-wide rule registry.** It has one table per severity category. A
  table maps each target type to the list of rules registered against it.
- **A process-wide results store.** It maps each rule to a bucket, and each
  bucket maps element uuids to recorded results.
- **Two validation passes.** Both evaluate rules and record their outcomes.
  - The model-wide pass takes every category and every registered type, every
    element the model's search returns for that type, and every rule of that
    type.
  - The element-scoped pass takes only the rules registered against the exact
    runtime type of one element.
  - Either pass can be limited to one rule, given as a rule or as a rule id.

Storing is write-once: an entry that is already there is never replaced.

The project has five modules:

- `Primitives` (`primitives.dfy`): the categories, elements, rules and their
  identity, results, the rule filter of a pass, and error kinds.
- `ResultsStore` (`results.dfy`): the results mapping as a value. Its rule keys
  are kept in insertion order, because lookup by id returns the first match in
  that order. The module has the three filters, lookup by rule or by rule id
  (a linear search method and the function that specifies it), the guarded
  `setdefault`, and the write-once store.
- `RuleRegistry` (`registry.dfy`): the registry as a value. It covers
  registration and the registry as one element's scope sees it.
- `Execution` (`execution.dfy`): what a pass does, stated on values.
  - A pass is the sequence of evaluations (tasks) its nested loops perform, in
    loop order.
  - Its effect is the write-once store of each task's outcome, one after the
    other (`Run`).
  - The lemmas here state coverage, provenance, write-once behaviour and
    re-run idempotence for both passes.
- `Validate` (`engine.dfy`): the class `Engine`. Its two fields are the registry
  and the store, which the source keeps as module globals.
  - The methods change those fields as the source does: registration, the
    guarded default insertion, storing, and both passes as nested loops.
  - Each method is proved against the functions of the other modules.

Collaborators that are not part of this model are given as parameters:

- A validator is an opaque token, `Validator`. Its meaning is an oracle
  parameter `run: (Validator, Element) -> bool`.
- The model's search is a `Model` value. It gives, for each type, the elements
  the search returns for it, in the order it returns them.
- The hash of a string is a parameter `strHash`.

## Model

| member | source | states |
|---|---|---|
| Primitives.CategoriesComplete | capellambse/extensions/validation/_validate.py:33-38 | every category is one of the three the registry is initialised with, so iterating them in that order visits each one |
| Primitives.CallUsesValidatorOnly | capellambse/extensions/validation/_validate.py:75-76 | calling a rule on an element gives exactly its validator's verdict on that element, whatever the rule's other fields |
| Primitives.RuleIdentity | capellambse/extensions/validation/_validate.py:62-79 | equal rules hash alike; rules with the same id hash alike; rule equality holds exactly when every field is equal |
| Primitives.SharedIdDistinctRules | capellambse/extensions/validation/_validate.py:62-79 | two rules can share an id, and so a hash, and still be different keys |
| Primitives.Rule.Call | capellambse/extensions/validation/_validate.py:75-76 | no contract of its own: calling a rule is its validator applied to the element; CallUsesValidatorOnly states what follows |
| Primitives.Rule.Hash | capellambse/extensions/validation/_validate.py:78-79 | no contract of its own: the hash of the rule's id alone; RuleIdentity states what follows |
| Primitives.Passes | capellambse/extensions/validation/_validate.py:213-216 | no contract of its own: the two skip tests of both passes (also lines 252-255); a rule filter passes a rule unless it names another rule or another id |
| ResultsStore.Filter | capellambse/extensions/validation/_validate.py:96-123 | a filter keeps exactly the receiver's rule keys, in order, including buckets that end up empty; each entry survives exactly when it meets the criterion; well-formedness is kept |
| ResultsStore.ByUuid | capellambse/extensions/validation/_validate.py:96-103 | same rule keys; an entry survives exactly when its uuid is the given one |
| ResultsStore.ByCategory | capellambse/extensions/validation/_validate.py:105-114 | same rule keys; an entry survives exactly when its result's category is the given one |
| ResultsStore.ByValue | capellambse/extensions/validation/_validate.py:116-123 | same rule keys; an entry survives exactly when its result's value is the given one |
| ResultsStore.FilterChain | capellambse/extensions/validation/_validate.py:96-123 | filtering twice keeps the entries that meet both criteria, and the two filters commute |
| ResultsStore.FilterIdempotent | capellambse/extensions/validation/_validate.py:96-123 | the same filter applied twice gives what it gives once |
| ResultsStore.ByUuidAtMostOne | capellambse/extensions/validation/_validate.py:96-103 | after filtering by uuid, every bucket holds at most that one uuid |
| ResultsStore.ByValuePartition | capellambse/extensions/validation/_validate.py:116-123 | the buckets for value true and for value false are disjoint, and together they are the whole bucket |
| ResultsStore.FirstWithId | capellambse/extensions/validation/_validate.py:86-92 | finds the first rule key, in insertion order, that carries the id, or reports that none does |
| ResultsStore.Lookup | capellambse/extensions/validation/_validate.py:85-94 | a rule key succeeds exactly when the rule has a bucket; an id succeeds exactly when some key carries it, and gives the bucket of the first such key; otherwise the error is a KeyError naming the key |
| ResultsStore.GetItem | capellambse/extensions/validation/_validate.py:85-94 | the linear search over the rule keys, with its early exit and its error when nothing matches, returns what Lookup specifies |
| ResultsStore.LookupAfterFilter | capellambse/extensions/validation/_validate.py:85-123 | an id that resolves before a filter resolves to the same rule after it, because filters keep every key |
| ResultsStore.SharedIdResolvesToFirst | capellambse/extensions/validation/_validate.py:86-92 | when two keys share an id, lookup by that id gives the bucket of the earlier one |
| ResultsStore.SetDefault | capellambse/extensions/validation/_validate.py:125-132 | a missing default (anything but a result dictionary) is a ValueError and leaves the store unchanged; otherwise an existing bucket is returned unchanged, or the default is appended under a new key and returned; well-formedness is kept |
| ResultsStore.SetDefaultFirstWins | capellambse/extensions/validation/_validate.py:125-132 | a second setdefault for the same key returns the first bucket, whatever dictionary it is given as default, and changes nothing |
| ResultsStore.Store | capellambse/extensions/validation/_validate.py:168-171 | the entry for (rule, uuid) becomes the result only if it was absent; every other entry is unchanged; the rule is appended to the keys only if it had no bucket; well-formedness is kept |
| ResultsStore.StoreWriteOnce | capellambse/extensions/validation/_validate.py:168-171 | storing a second result for the same rule and uuid changes nothing, and the first one stays |
| RuleRegistry.Append | capellambse/extensions/validation/_validate.py:162 | the rule goes at the end of the type's list, which is created with the type appended to the type order if it was new; other lists are unchanged |
| RuleRegistry.Register | capellambse/extensions/validation/_validate.py:158-163 | exactly one rule goes at the end of the list for the (category, type) pair; every other list and every other category's table is unchanged; the type order gains the type only if it was new; well-formedness is kept |
| RuleRegistry.RegisterKeeps | capellambse/extensions/validation/_validate.py:162 | every rule registered before keeps its position in its list |
| RuleRegistry.RegisterTwice | capellambse/extensions/validation/_validate.py:158-163 | registering the same rule twice lists it twice, because there is no uniqueness check |
| RuleRegistry.KeepExact | capellambse/extensions/validation/_validate.py:232-235 | keeps exactly the types equal to the element's type, and so at most that one type |
| RuleRegistry.ExactTable | capellambse/extensions/validation/_validate.py:232-235 | a table cut down to the exact type: that type keeps its rules, every other type has none |
| RuleRegistry.ElementRules | capellambse/extensions/validation/_validate.py:228-238 | every category is kept, each with only the element's exact runtime type; rules registered against any other type, or against a type name string, are gone |
| Execution.RunValid | capellambse/extensions/validation/_validate.py:168-171 | a sequence of stores keeps the results mapping well formed |
| Execution.RunCell | capellambse/extensions/validation/_validate.py:168-171 | after a sequence of stores, an entry is the one that was there before if any, else the outcome of the first task that writes to it, else absent |
| Execution.RunEntries | capellambse/extensions/validation/_validate.py:168-171 | entries that existed keep their value; a new entry appears exactly when some task writes to it, and it is that task's outcome |
| Execution.RunKeys | capellambse/extensions/validation/_validate.py:168-171 | a sequence of stores keeps the old rule keys in place, and adds exactly those rules of its stores that had no bucket |
| Execution.RunKeysStable | capellambse/extensions/validation/_validate.py:168-171 | a sequence of stores whose rules all have buckets adds no key |
| Execution.RerunChangesNothing | capellambse/extensions/validation/_validate.py:168-171 | running the same tasks again changes nothing, even when the validators now answer differently |
| Execution.Run | capellambse/extensions/validation/_validate.py:168-171 | no contract of its own: the store after calling store_result for each task in order; RunValid, RunCell, RunKeys and RunKeyOrder state what follows |
| Execution.NewKeys | capellambse/extensions/validation/_validate.py:171 | no contract of its own: the order of rule keys after a pass, each new rule appended at its first store, as dictionary setdefault inserts it |
| Execution.RunKeyOrder | capellambse/extensions/validation/_validate.py:168-171 | the rule keys after a sequence of stores are exactly those NewKeys gives, in that order |
| Execution.NewKeysFrom | capellambse/extensions/validation/_validate.py:171 | every key after a pass is an old key or the rule of one of its tasks |
| Execution.NewKeysFirstId | capellambse/extensions/validation/_validate.py:171 | if no old key carries an id, the first key with that id after a pass is the rule of the first task whose rule carries it |
| Execution.RunIdResolvesToFirstTask | capellambse/extensions/validation/_validate.py:86-92 | after a sequence of stores from a mapping without the id, lookup by id gives the bucket of the first stored rule with that id, not of any later one sharing it |
| Execution.ModelTasks | capellambse/extensions/validation/_validate.py:209-221 | no contract of its own: the evaluations of the model-wide pass in loop order category, type, element, rule; ModelTaskMembership states which they are |
| Execution.ModelTaskMembership | capellambse/extensions/validation/_validate.py:207-222 | the model-wide pass evaluates exactly the registered (category, type, rule) triples that pass the filter, each on every element the search returns for the type |
| Execution.ModelValidateCovers | capellambse/extensions/validation/_validate.py:207-222 | after the model-wide pass, every such triple has an entry for every element the search returns for its type |
| Execution.ModelValidateProvenance | capellambse/extensions/validation/_validate.py:207-222 | a new entry comes from a registered triple that passes the filter and an element of that uuid; it records that triple's category and the rule's verdict |
| Execution.ModelValidateUnknownId | capellambse/extensions/validation/_validate.py:207-222 | with an id that no registered rule carries, the model-wide pass evaluates nothing and the store is unchanged |
| Execution.ElementTaskMembership | capellambse/extensions/validation/_validate.py:245-263 | the element-scoped pass evaluates exactly the rules registered against the element's exact type that pass the filter, and only on that element |
| Execution.ElementValidateCovers | capellambse/extensions/validation/_validate.py:245-263 | after the element-scoped pass, every such rule has an entry for the element |
| Execution.ElementValidateProvenance | capellambse/extensions/validation/_validate.py:245-263 | a new entry is for the element's uuid and for a rule registered against its exact type; it records a category the rule is registered under and the rule's verdict on the element |
| Execution.ElementValidateUnknownId | capellambse/extensions/validation/_validate.py:245-263 | with an id that no rule of the element's type carries, the element-scoped pass evaluates nothing and the store is unchanged |
| Execution.ElementTasks | capellambse/extensions/validation/_validate.py:247-262 | no contract of its own: the evaluations of the element-scoped pass in loop order category, type, rule; ElementTaskMembership states which they are |
| Execution.ModelValidateSharedId | capellambse/extensions/validation/_validate.py:207-222 | after a model-wide pass from a store where no rule carries the id, lookup by id gives the bucket of the first rule with that id in the pass's loop order |
| Execution.ElementValidateSharedId | capellambse/extensions/validation/_validate.py:245-263 | the same for the element-scoped pass |
| Validate.Engine.constructor | capellambse/extensions/validation/_validate.py:135-140 | start-up: every category present with an empty table, an empty store |
| Validate.Engine.RegisterRule | capellambse/extensions/validation/_validate.py:143-165 | builds the rule from the given fields and the validator, updates the registry as Register does and returns that rule; the store is unchanged |
| Validate.Engine.SetDefault | capellambse/extensions/validation/_validate.py:125-132 | the store and returned bucket are those the SetDefault function gives; the registry is unchanged; a well-formed state stays well formed |
| Validate.Engine.StoreResult | capellambse/extensions/validation/_validate.py:168-171 | setdefault of an empty bucket, then an insert only if the uuid is absent, leaves the store as Store gives it; the registry is unchanged; a well-formed state stays well formed |
| Validate.Engine.ValidateRules | capellambse/extensions/validation/_validate.py:212-221 | the rule loop, with both filter skips, leaves the store as running its tasks gives it |
| Validate.Engine.ValidateObjects | capellambse/extensions/validation/_validate.py:211-221 | the element loop leaves the store as running its tasks gives it |
| Validate.Engine.ValidateTypes | capellambse/extensions/validation/_validate.py:210-221 | the type loop over one category's table leaves the store as running its tasks gives it |
| Validate.Engine.ValidateCategories | capellambse/extensions/validation/_validate.py:209-221 | the category loop leaves the store as running the model-wide tasks gives it |
| Validate.Engine.ValidateModel | capellambse/extensions/validation/_validate.py:207-222 | the store ends as running the model-wide tasks of the registry gives it; the registry is unchanged; well-formedness is kept; the whole store is returned |
| Validate.Engine.ElementResults | capellambse/extensions/validation/_validate.py:240-243 | same rule keys as the store, in order, and a bucket for every rule that has one, even if it is now empty; exactly the entries for the element's uuid |
| Validate.Engine.ValidateElementTypes | capellambse/extensions/validation/_validate.py:248-262 | the type loop skips every type not equal to the element's exact type and leaves the store as running its tasks gives it |
| Validate.Engine.ValidateElementCategories | capellambse/extensions/validation/_validate.py:247-262 | the category loop of the element scope leaves the store as running its tasks gives it |
| Validate.Engine.ValidateElement | capellambse/extensions/validation/_validate.py:245-263 | the store ends as running the element-scoped tasks of the registry gives it; the registry is unchanged; well-formedness is kept; the store cut down to the element is returned |

## Left out

- Category combinations: the flag enum allows combined values such as
  REQUIRED|RECOMMENDED. `register_rule` with one raises a KeyError, because the
  registry has only the three single-flag keys. `Category` here has only the
  three single values, so that error is not modelled.
- Validators are total and free of side effects. An exception raised by a
  validator, which would stop a pass part-way, is not modelled.
- The hash of a string is an abstract parameter. Python's randomised string
  hash is not modelled.
- Aliasing is not modelled:
  - `setdefault` returns the stored bucket itself, and `store_result` relies on
    that. Here the bucket is a value and the store is written back
    explicitly.
  - The `ModelValidation.rules` and `ModelValidation.results` properties return
    the globals themselves, so a caller may change them in place. Here they are
    the fields `registry` and `results`, read directly, so these two
    properties have no member of their own.
- The order of entries inside one bucket is not kept, because the engine never
  reads it. The order of rule keys, types and categories is kept.
- `register_rule` is a decorator factory. Here it is one method that takes the
  rule's fields and the validator together.
- A target type is a model class or a type name string. An element's runtime
  type is always a class, so a rule registered under a string never matches it
  in the element scope.
- `Results.__getitem__` looks up any key that is neither a rule nor a string
  directly: a KeyError if it is absent, a TypeError if it cannot be hashed.
  Here a key is a rule or an id.
- `Results.setdefault` takes a key of any type. Here its key is a rule, the
  only kind that `store_result` uses. A non-rule key stored through
  `setdefault` is not modelled, and neither is finding such a key later with
  `__getitem__`.
- `Validation.from_model` and the constructor that refuses direct construction
  wrap lxml elements and are not part of this model. An element is its uuid and
  the name of its class.
- `MelodyModel.search` is not part of this model. A `Model` gives, for each type,
  the elements it returns.
- The four nested loops of `ModelValidation.validate` and the three of
  `ElementValidation.validate` are written one method per loop level.
