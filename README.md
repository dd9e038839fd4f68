# FluentComparator, modelled in Dafny

FluentComparator is a C# library that compares two objects property by
property. A comparator (`AbstractComparator<T>`) keeps a registry of
comparison rules, one per property. A rule is registered with `RuleFor(x => x.Prop)`
and configured fluently through a `RuleBuilder`:
- `Compare()`, `CompareTo(value)` or `Compare(func)` set the predicate;
- `WithMessage`, `WithoutMessage` and `WithMessageAsync` set the message;
- `Ignore()` excludes the rule.

The comparator offers these engines:
- `CompareWith(a, b)` reports every property whose predicate fails. The report holds the two labelled values and a message.
- A one-off `CompareWith(a, prop, value, message)` checks one property against a literal.
- `Exists(a, candidates)` finds the first candidate that satisfies every rule.
- A batch `Exists(subjects, candidates)` keeps the subjects that were not found.

## How the model is organised

| file | module | what it holds |
|---|---|---|
| `Wrappers.dfy` | `Wrappers`, `Errors` | `Option`, `Result`, and the exceptions the engine can throw, as values |
| `Extensions.dfy` | `Extensions` | the expression-tree shapes, the member resolver `GetMember` (a loop, as in the source) and `ExpandoObject.Add` |
| `PropertyRule.dfy` | `PropertyRules` | the mutable configuration record `PropertyData`, the rule class `PropertyRule`, the predicate and message semantics, and `Create` |
| `RuleBuilder.dfy` | `RuleBuilders` | the builder; each mutator writes one field of the shared record |
| `ComparatorResult.dfy` | `Results` | the result classes and the value `Report` a difference result holds |
| `Evaluation.dfy` | `Evaluation` | pure definitions of what each engine computes, over snapshots (`RuleView`) of the rules, with the lemmas about them |
| `AbstractComparator.dfy` | `AbstractComparators` | the `Comparator` class: the rule list, the labels, `RuleBaseFor`, and the loops of the engines, each proved against its function in `Evaluation` |

Modelling choices:
- **Exceptions become `Failure` values.** `Error` has one variant per exception the code can raise:
  - `NullPredicate`: a rule with no predicate is invoked;
  - `NullMessageProvider`: a null message function is invoked;
  - `NullMember` and `NotAProperty`: the two ways `Create` can fail, a null `MemberInfo` and a failed `PropertyInfo` cast;
  - `InvalidCast`: the `ToGeneric` cast of the second argument fails;
  - `DuplicateKey`: `Dictionary.Add` or `ExpandoObject.Add` is given a key that is already present.
- **`Comparison` is the stored delegate.** It is `Unset` (a null delegate), `Equality` (the compiled `EqualExpression`), `EqualTo(v)` (the compiled `EqualToExpression`) or `Custom(f)`.
- **`Eval` invokes the delegate on a subject or on a literal.** The wrapper built by `ToGeneric` (`Extensions.cs:20`) casts the second argument to the type the predicate was built for. For `CompareTo(value)` that type is the value's type `TX` (`RuleBuilder.cs:54-57`). So a `CompareTo` rule in the registry, handed a second subject, throws `InvalidCast` exactly when that subject fails the cast: it is not an instance of `TX`, and not null with a reference `TX`. Which subjects pass depends on their runtime types, so `CompareTo` takes that test as an argument `isInstance`, and the rule stores it. Where the cast passes, the second subject is ignored and the rule compares `prop(a)` with the value. The one-off path hands the rule the value itself, which always passes.
- **Property values have an abstract type `V` with equality.** They are the values after conversion to the property type. Subjects have a type `T` with equality.
- **A message is `Option<string>`.** `None` is a null string.
- **`ExpandoObject` becomes a map.** The data bag is a `map<string, map<string, V>>`.

Three behaviours of the code are easy to misread:
- An asynchronous message provider never takes effect. The `GetMessageAsync` getter wraps `GetMessage` whenever that is non-null, and no builder method makes it null. So `WithMessageAsync` stores a function that is never used, whether it is called before or after `WithMessage` (`PropertyRule.cs:14-22`).
- Ignored rules are not skipped by `Exists`. The conjunct is `!IsIgnored && Compare`, so once the scan reaches an ignored rule the candidate fails. With an ignored rule registered, `Exists` is therefore never found: it is false, or it throws when an earlier non-ignored rule cannot be evaluated (`AbstractComparator.cs:181`).
- A registered rule has no default predicate: the predicate starts null (`PropertyRule.cs:25`). A rule that is not ignored and never received `Compare()`, `CompareTo` or `Compare(func)` makes `CompareWith` throw (`AbstractComparator.cs:135`), and so does `Exists` once the scan reaches it.

## Model

| member | source | states |
|---|---|---|
| Extensions.RemoveUnary | FluentComparator/Internal/Extensions.cs:49-53 | exactly one unary layer is stripped; a node that is not unary comes back unchanged; the depth drops exactly for a unary node |
| Extensions.WalkEnd | FluentComparator/Internal/Extensions.cs:35-43 | the downward walk never stops at a member access |
| Extensions.RootedMember | FluentComparator/Internal/Extensions.cs:31-48 | the resolved member, when there is one, is the terminal member of the body after one unary strip; a body that is not a member access gives null |
| Extensions.GetMember | FluentComparator/Internal/Extensions.cs:31-48 | the `while (true)` walk returns exactly the rooted member of the body |
| Extensions.GetLambdaMember | FluentComparator/Internal/Extensions.cs:24-29 | the LambdaExpression overload gives a member exactly when the stripped body is a member access, with no root check |
| Extensions.WalkEndOfChain | FluentComparator/Internal/Extensions.cs:36-43 | the walk through a member chain ends where the walk through its root ends |
| Extensions.ResolveChain | FluentComparator/Internal/Extensions.cs:31-48 | a chain of accesses resolves to its outermost member exactly when its root walks to a parameter |
| Extensions.RootedIsChain | FluentComparator/Internal/Extensions.cs:35-45 | every inner expression whose walk ends at a parameter is a parameter-rooted chain |
| Extensions.RootedMemberIff | FluentComparator/Internal/Extensions.cs:31-48 | the resolver returns `m` if and only if the body is a parameter-rooted chain of one or more accesses, with at most one conversion per level, whose outermost member is `m` |
| Extensions.NonParameterRootRejected | FluentComparator/Internal/Extensions.cs:45 | chains rooted at a constant or closure, or at a static member, resolve to null |
| Extensions.DoubleConversionRejected | FluentComparator/Internal/Extensions.cs:38-45 | two stacked conversions at one level make resolution fail |
| Extensions.LambdaOverloadSkipsRootCheck | FluentComparator/Internal/Extensions.cs:24-29 | the unchecked overload agrees with the rooted one wherever that one succeeds, and it also accepts a closure-rooted access |
| Extensions.ExpandoAdd | FluentComparator/Internal/Extensions.cs:22 | the insertion fails with a duplicate key exactly when the key is present; otherwise it adds the key and keeps every other entry |
| PropertyRules.Eval | FluentComparator/Internal/RuleBuilder.cs:17-65 | an unset predicate throws; `Compare()` means `prop(a) == prop(b)`; `CompareTo(v)` means `prop(a) == v`, on the literal and on every second subject that passes the cast to the value's type, and throws on a subject that fails it; `Compare(f)` means `f(a, b)` |
| PropertyRules.SelectProvider | FluentComparator/Internal/PropertyRule.cs:14-22 | the getter yields the synchronous function whenever it is set, and the stored asynchronous one only when it is not |
| PropertyRules.ResolveMessage | FluentComparator/AbstractComparator.cs:144 | resolving the message throws exactly on a null provider; otherwise it is the provider's value on the first subject |
| PropertyRules.SyncMessageWins | FluentComparator/Internal/PropertyRule.cs:18 | while a synchronous function is set, the resolved message is its value, whatever the asynchronous slot holds |
| PropertyRules.PropertyData.constructor | FluentComparator/Internal/PropertyRule.cs:12-25 | a fresh record has the default "Difference found" message, no asynchronous function, both flags off and no predicate |
| PropertyRules.PropertyData.MessageProvider | FluentComparator/Internal/PropertyRule.cs:14-22 | the `GetMessageAsync` getter, as the precedence `SelectProvider` states |
| PropertyRules.PropertyRule.constructor | FluentComparator/Internal/PropertyRule.cs:35-42 | the identity fields hold the arguments, and the rule gets a fresh record of its own with defaults |
| PropertyRules.PropertyRule.View | FluentComparator/Internal/PropertyRule.cs:30-34 | the snapshot carries the rule's member and its current flag and predicate |
| PropertyRules.ResolveProperty | FluentComparator/Internal/PropertyRule.cs:47-49 | Create succeeds exactly when the resolver returns a property; it fails with a null member when the resolver returns null |
| PropertyRules.Create | FluentComparator/Internal/PropertyRule.cs:44-50 | the rule's member is the resolved property, its property type is that property's type, its accessor is the compiled lambda, and its record is fresh with defaults; a failed resolution is the error |
| RuleBuilders.RuleBuilder.constructor | FluentComparator/Internal/RuleBuilder.cs:11-15 | the builder wraps the given rule |
| RuleBuilders.RuleBuilder.Compare | FluentComparator/Internal/RuleBuilder.cs:47-52 | installs the equality predicate, changes only that field and returns the same builder |
| RuleBuilders.RuleBuilder.CompareTo | FluentComparator/Internal/RuleBuilder.cs:54-59 | installs "property equals value" together with the cast test of the second argument, replacing any earlier predicate; changes only that field and returns the same builder |
| RuleBuilders.RuleBuilder.CompareBy | FluentComparator/Internal/RuleBuilder.cs:61-65 | installs the caller's predicate, replacing any earlier one, and returns the same builder |
| RuleBuilders.RuleBuilder.WithMessage | FluentComparator/Internal/RuleBuilder.cs:67-71 | the message function gives the constant message for every subject; only that field changes |
| RuleBuilders.RuleBuilder.WithMessageFrom | FluentComparator/Internal/RuleBuilder.cs:78-82 | the message function becomes the caller's function; only that field changes |
| RuleBuilders.RuleBuilder.WithoutMessage | FluentComparator/Internal/RuleBuilder.cs:73-77 | only sets the flag to true |
| RuleBuilders.RuleBuilder.WithMessageAsync | FluentComparator/Internal/RuleBuilder.cs:83-87 | writes only the asynchronous slot; the provider the engine uses is still the synchronous one when that is set |
| RuleBuilders.RuleBuilder.Ignore | FluentComparator/Internal/RuleBuilder.cs:88-92 | only sets the flag to true |
| Results.DictAdd | FluentComparator/ComparatorResult.cs:14 | adding to the result dictionary fails exactly on a member already present and otherwise keeps every entry, so a result holds at most one message per member |
| Results.ComparatorExistsResult.constructor | FluentComparator/ComparatorResult.cs:8-12 | a new existence result is not found and holds no subject |
| Results.ComparatorResult.constructor | FluentComparator/ComparatorResult.cs:16-18 | a new result has no entries, no data and is not different |
| Results.ComparatorResult.FromDictionary | FluentComparator/ComparatorResult.cs:19 | the copy holds exactly the given entries |
| Results.ComparatorResult.Add | FluentComparator/ComparatorResult.cs:14 | the entries change exactly as `DictAdd` says; a duplicate member leaves them unchanged and is reported |
| Evaluation.MessageFor | FluentComparator/AbstractComparator.cs:144 | a suppressed message is null; otherwise it is the resolved provider's message for the first subject |
| Evaluation.Record | FluentComparator/AbstractComparator.cs:137-145 | recording a difference succeeds exactly when the labels differ, the name and member are new and the message resolves; the report then gains exactly both labelled values and the message; equal labels always fail |
| Evaluation.RuleStepEffect | FluentComparator/AbstractComparator.cs:135-146 | a rule that does not differ leaves the report as it was; a differing rule needs distinct labels, a new name and member and a resolvable message, and adds exactly its two labelled values and its message |
| Evaluation.CompareFromFlag | FluentComparator/AbstractComparator.cs:142 | after a successful run the flag is set exactly when it already was or some rule of the run differs |
| Evaluation.CompareFromKeys | FluentComparator/AbstractComparator.cs:137-145 | a successful run adds to the data and to the messages exactly the names and members of the differing rules |
| Evaluation.CompareFromSound | FluentComparator/AbstractComparator.cs:132-148 | a successful run keeps every earlier entry, and holds for each differing rule both labelled values and its message |
| Evaluation.CompareReport | FluentComparator/AbstractComparator.cs:127-151 | `IsDifferent` holds if and only if some non-ignored rule's predicate is false; the data and the messages hold exactly those rules, by name and by member, with both labelled values and the suppressed or resolved message; equal labels never yield a difference |
| Evaluation.EvalErrorAborts | FluentComparator/AbstractComparator.cs:135 | a non-ignored rule whose predicate is unset, or is a `CompareTo` predicate whose cast rejects the second subject, makes the whole comparison throw |
| Evaluation.CompareFromSucceeds | FluentComparator/AbstractComparator.cs:132-148 | with distinct labels, distinct names, and every rule ignored or holding a predicate that can be invoked on the second subject together with a message function or suppression, the comparison does not throw |
| Evaluation.OneOffReport | FluentComparator/AbstractComparator.cs:153-173 | the one-off report differs exactly when the property differs from the value; it then holds the value under the second label and the caller's message; equal labels throw only on a difference |
| Evaluation.AllMatchTrueIff | FluentComparator/AbstractComparator.cs:181 | the conjunction holds if and only if every rule is not ignored and its predicate holds |
| Evaluation.AllMatchTotal | FluentComparator/AbstractComparator.cs:181 | the conjunction does not throw when every rule it may reach holds a predicate that can be invoked on the candidate |
| Evaluation.FirstMatchTrueIff | FluentComparator/AbstractComparator.cs:178-183 | found if and only if some candidate satisfies the conjunction and every earlier candidate fails it |
| Evaluation.FirstMatchFalseIff | FluentComparator/AbstractComparator.cs:178-183 | not found without an exception if and only if every candidate fails the conjunction |
| Evaluation.ExistsEdgeCases | FluentComparator/AbstractComparator.cs:175-186 | no candidates gives not found; no rules makes the first candidate found; any ignored rule means nothing is ever found |
| Evaluation.NotFoundIsFilter | FluentComparator/AbstractComparator.cs:188-198 | the kept subjects are drawn from the subjects, no more often than they occur there, and `Exists` finds none of them |
| Evaluation.NotFoundMembers | FluentComparator/AbstractComparator.cs:188-198 | a subject is kept if and only if it is among the subjects and `Exists` does not find it |
| Evaluation.BatchIsNotFound | FluentComparator/AbstractComparator.cs:188-198 | a successful batch keeps exactly the not-found subjects, in their order |
| Evaluation.BatchTotal | FluentComparator/AbstractComparator.cs:188-198 | the batch does not throw when no single `Exists` throws |
| AbstractComparators.FindByName | FluentComparator/AbstractComparator.cs:114-115 | the index of the first rule with the given member name, or none exactly when no rule has it |
| AbstractComparators.ViewsOf | FluentComparator/AbstractComparator.cs:133 | one snapshot per rule, in registration order |
| AbstractComparators.Comparator.Views | FluentComparator/AbstractComparator.cs:133 | the snapshots keep the rules' members in order, and a valid registry has unique names |
| AbstractComparators.Comparator.constructor | FluentComparator/AbstractComparator.cs:66-69 | a new comparator has no rules and the labels "A" and "B" |
| AbstractComparators.Comparator.NameOfObject | FluentComparator/AbstractComparator.cs:102-108 | replaces both labels and nothing else |
| AbstractComparators.Comparator.RuleBaseFor | FluentComparator/AbstractComparator.cs:110-119 | with a rule of the same name registered, returns a builder over it and leaves the list unchanged; otherwise appends a fresh rule with defaults at the end; names stay unique and records unshared; a failed `Create` is the error |
| AbstractComparators.Comparator.ApplyRule | FluentComparator/AbstractComparator.cs:135-146 | one pass of the loop changes the result exactly as `RuleStep` does to the report |
| AbstractComparators.Comparator.CompareWith | FluentComparator/AbstractComparator.cs:127-151 | the returned result holds exactly `CompareSpec`'s report, and the exception is the one it gives |
| AbstractComparators.Comparator.CompareWithValue | FluentComparator/AbstractComparator.cs:153-173 | the returned result holds exactly `OneOffSpec`'s report; the registry is not touched |
| AbstractComparators.Comparator.AllRulesHold | FluentComparator/AbstractComparator.cs:181 | the short-circuit conjunction over the rules equals `AllMatch` |
| AbstractComparators.Comparator.Exists | FluentComparator/AbstractComparator.cs:175-186 | found equals `FirstMatch`, and Data holds the subject exactly when nothing was found |
| AbstractComparators.Comparator.ExistsAll | FluentComparator/AbstractComparator.cs:188-198 | one fresh not-found result per subject that `BatchSpec` keeps, in order, each holding that subject |

## Left out

- `RuleAllProperties` (`AbstractComparator.cs:72-88`) and the `all` constructor flag: they enumerate runtime type metadata by reflection, in an order the runtime does not specify.
- The static `Builder` entry points (`AbstractComparator.cs:48-60`) and the typed public `RuleFor` overloads: they only construct a comparator or forward to `RuleBaseFor`.
- `ToGeneric` (`Extensions.cs:12-20`): a type-erasing cast. The model uses typed functions. The one cast that can fail, on the second argument of a stored predicate, is modelled in `Eval`.
- `Expression.Compile`, `Expression.Invoke` and operator resolution in `Expression.Equal`: the accessor is a total function `T -> V`, predicates use `V`'s equality, and nothing ties the compiled accessor to the expression body.
- `Task` and the `.Result` blocking wait: messages are synchronous, and the asynchronous slot is stored but, as in the code, never read while a synchronous function is set.
- `ExpandoObject` dynamic typing and `MemberInfo` reference identity: the data bag is a map keyed by name, and a member is a value compared by name, kind and type.
- Exceptions thrown by user predicates, accessors or message functions: these are total functions in the model.
- `RuleBuilder.Configuration`: the back-reference to the comparator is never read.
- The second `PropertyRule.Create` overload (`PropertyRule.cs:52-58`): it performs the same steps on an `object`-typed lambda.
- The `internal` setters and visibility modifiers: Dafny has no equivalent.
- Null delegates passed to the builder methods, and the builder's null `Rule`: the model's functions are never null.
- Null labels: `NameOfObject` accepts null names (`AbstractComparator.cs:102-106`), and `ExpandoObject.Add` then throws on the first recorded difference. A label here is a `string`, which cannot be null.
- The order of entries: `Dictionary` and `ExpandoObject` list their entries in insertion order, which here is the registration order of the differing rules. The model's `entries` and `data` are maps, which have no order.
- A subject's runtime type: a `CompareTo` rule's cast test is supplied by the caller of `CompareTo` and is not derived from the subject's value or from `TX`. The one-off comparison installs a test that rejects every subject, which is never consulted because that rule is handed only the literal.
