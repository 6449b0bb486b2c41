# Aoite: IoC extension guards, `AutoMap`, and the SQL CE `varchar` rewrite

A Dafny model of two small pieces of the Aoite library.

- **`IocExtensions`.** These are generic extension methods on an `IIocContainer`.
  - The `Add`, `Remove`, `Get`, `GetFixed` and `Contains` overloads check the container for null. Each then forwards exactly one call to the container.
  - `Get<TService>` and `GetFixed<TService>` turn a null answer into `default(TService)`.
  - `AutoMap` walks the catalog of loaded types group by group. In each group it binds the first type the map filter accepts as an *expected type* to the *actual type* the filter finds for it. A missing actual type aborts the whole call.
- **`MsCeTestManager`.** SQL Server Compact supports neither `varchar` nor the `max` length. So before a non-query command runs, its text is rewritten: every standalone, lower-case `varchar` becomes `nvarchar`, then every `(max)`, in any letter case, becomes `(2000)`.

The container, the map filter and the type catalog are not part of this model.

- **The container** is an identity plus the append-only log of the interface calls it has received. Whatever it answers to a query, and whether its method throws instead, comes from a `Backend` record of uninterpreted functions. No `Add` semantics (last-write-wins, lifetimes, parent promotion) are assumed.
- **The map filter's three decisions** (`IsExpectType`, `FindActualType`, `IsSingletonMode`) are uninterpreted functions.
- **`ObjectFactory.AllTypes`** is an input sequence of groups.

The two regular expressions are written out as hand-made left-to-right scanners over `seq<char>`:

- `Scan` for `\bvarchar\b`;
- `ScanMax` for `\(max\)`.

Each scanner is checked against what it promises:

- the text is unchanged exactly when the pattern does not occur;
- no match survives the scanner;
- the text can be cut at boundaries and rewritten piece by piece.

The `varchar` scanner also has an independent word-by-word reference, `RewriteWords`, and is proved equal to it.

Modules, one file each:

| file | module | contents |
|---|---|---|
| `wrappers.dfy` | `Wrappers` | `Option`, `Result` |
| `strings.dfy` | `Strings` | sequence facts the scanners share |
| `clr.dfy` | `Clr` | the .NET exceptions thrown, `char.IsWhiteSpace`, `string.IsNullOrWhiteSpace` |
| `ioc_extensions.dfy` | `IocExtensions` | the container call log, the null-guarded forwarding overloads |
| `ioc_auto_map.dfy` | `IocAutoMap` | `AutoMap` and its string overload, the loop-free reference, the lemmas |
| `varchar_rewrite.dfy` | `VarcharRewrite` | `\bvarchar\b` → `nvarchar` |
| `max_rewrite.dfy` | `MaxRewrite` | `\(max\)` → `(2000)` |
| `ms_ce_test_manager.dfy` | `MsCeTestManager` | `ReplaceVarchar`, the `NoQuery` gate, idempotence |

## Model

| member | source | states |
|---|---|---|
| IocExtensions.Invoke | src/Aoite/System/Extensions/IocExtensions.cs:21-232 | A null container makes every overload throw before anything is forwarded, and only a null container does. On a non-null container, the container receives exactly the one forwarded call and nothing else. An exception the container's method throws propagates unchanged. When the method returns normally, only the typed `Get`/`GetFixed` cast can still throw, with `InvalidCastException`. The reply is the container itself exactly for the `Add`/`Remove` overloads. |
| IocExtensions.CastService | src/Aoite/System/Extensions/IocExtensions.cs:106-108 | A null answer becomes `default(TService)` and nothing else does. A non-null answer is returned as that same object, or throws `InvalidCastException` exactly when it is not a `TService`. |
| IocExtensions.NullContainerIsRejected | src/Aoite/System/Extensions/IocExtensions.cs:21-232 | Every guarded overload throws `ArgumentNullException("container")` on a null container. `GetAll`, which has no guard, fails with a `NullReferenceException`. |
| IocExtensions.ChainingReturnsSameContainer | src/Aoite/System/Extensions/IocExtensions.cs:21-203 | The `Add` and `Remove` overloads, typed and named, forward exactly one call, so the container's log grows by exactly that call. When the container's method returns normally they return the container they were given. When it throws, that exception propagates. |
| IocExtensions.TypedGetDefaultsOnNull | src/Aoite/System/Extensions/IocExtensions.cs:102-124 | When the container's method returns normally, `Get<TService>` and `GetFixed<TService>` return `default(TService)` exactly when the container answers null. Otherwise they return the container's object, or throw `InvalidCastException` exactly on a runtime type mismatch. When the container's method throws, that exception propagates. In every case the container has already received the forwarded call. |
| IocExtensions.QueriesPassAnswerThrough | src/Aoite/System/Extensions/IocExtensions.cs:134-232 | Both `Contains` overloads, `GetAll` and the named `Get` return the container's answer unchanged, or let its exception through unchanged. |
| IocAutoMap.AutoMap | src/Aoite/System/Extensions/IocExtensions.cs:297-321 | A null container, then a null map filter, is rejected before any effect. On success the same container comes back, and its log is the old log plus exactly the `Add` calls among the effects. |
| IocAutoMap.AutoMapNamespace | src/Aoite/System/Extensions/IocExtensions.cs:344-348 | A null or white-space namespace expression is rejected before the container is checked. A null container is rejected next. The walk then runs without a handler, so every effect is a container call. |
| IocAutoMap.FirstExpected | src/Aoite/System/Extensions/IocExtensions.cs:306-317 | A group has no expected type exactly when the filter accepts none of its types. Otherwise the result is a type the filter accepts with no accepted type before it. |
| IocAutoMap.MapGroupMatchesReference | src/Aoite/System/Extensions/IocExtensions.cs:306-317 | The inner loop does nothing on a group without an expected type. Otherwise it handles exactly the first expected type: it throws naming that type when it has no actual type, and registers it otherwise. |
| IocAutoMap.MapGroupStopsAtFirstExpected | src/Aoite/System/Extensions/IocExtensions.cs:309-316 | Types after the first expected type are never examined (the `break`). |
| IocAutoMap.MapGroupsFlattens | src/Aoite/System/Extensions/IocExtensions.cs:304-319 | The nested loop is one walk over the sequence of the groups' first expected types. |
| IocAutoMap.WalkTypesMatchesReference | src/Aoite/System/Extensions/IocExtensions.cs:311-315 | The walk over expected types succeeds exactly when every one has an actual type. It then makes their registrations in order. Otherwise it stops at the first unmapped one, after the registrations before it. |
| IocAutoMap.MapGroupsMatchesReference | src/Aoite/System/Extensions/IocExtensions.cs:304-319 | The loops equal the loop-free reference: success exactly when all first expected types are mapped; the registrations of those types, in catalog order; on failure, the first unmapped type and the registrations before it. |
| IocAutoMap.AutoMapSucceedsIffAllMapped | src/Aoite/System/Extensions/IocExtensions.cs:304-320 | `AutoMap` returns the container exactly when every catalog group's first expected type has an actual type. |
| IocAutoMap.AutoMapRegistersFirstExpectedTypes | src/Aoite/System/Extensions/IocExtensions.cs:297-321 | On success the same container comes back with one `Add` per group with an expected type appended, in catalog order and nothing else, so at most one per group. Each `Add` binds that type to its actual type with the filter's singleton decision. |
| IocAutoMap.AutoMapFailureKeepsEarlierRegistrations | src/Aoite/System/Extensions/IocExtensions.cs:311-314 | On failure `AutoMap` throws naming the first expected type without an actual type. The registrations and handler calls made before it remain, since there is no rollback. |
| IocAutoMap.HandlerFollowsEachAdd | src/Aoite/System/Extensions/IocExtensions.cs:303-315 | On success the handler, when given, is called exactly once per registered type, right after that type's `Add`. Without a handler there are only `Add` calls. |
| IocAutoMap.GroupWithoutExpectedTypeChangesNothing | src/Aoite/System/Extensions/IocExtensions.cs:306-309 | Inserting a group in which the filter accepts no type anywhere in the groups walked changes neither the effects nor the outcome. The catalog given to `FindActualType` is held unchanged. |
| IocAutoMap.WalkWithoutHandlerOnlyDelegates | src/Aoite/System/Extensions/IocExtensions.cs:303-315 | Without a handler, every effect of the walk is a container call. |
| VarcharRewrite.ScanUnchangedIffNoMatch | src/Aoite/Aoite/Data/MsCeTestManager.cs:52 | The `varchar` pass returns its input unchanged exactly when `\bvarchar\b` does not match it. |
| VarcharRewrite.ScanGrowsOnMatch | src/Aoite/Aoite/Data/MsCeTestManager.cs:52 | A match makes the text longer. |
| VarcharRewrite.ScanLeavesNoMatch | src/Aoite/Aoite/Data/MsCeTestManager.cs:52 | No standalone `varchar` remains after the pass. |
| VarcharRewrite.ScanSplit | src/Aoite/Aoite/Data/MsCeTestManager.cs:52 | A non-word character splits the text into two independently rewritten parts. |
| VarcharRewrite.ReplacesStandaloneVarchar | src/Aoite/Aoite/Data/MsCeTestManager.cs:52 | A `varchar` with a word boundary on both sides becomes `nvarchar`. The text around it is rewritten on its own. |
| VarcharRewrite.KeepsOtherWords | src/Aoite/Aoite/Data/MsCeTestManager.cs:52 | Any other whole word is kept as it is. |
| VarcharRewrite.KeepsOtherSpellings | src/Aoite/Aoite/Data/MsCeTestManager.cs:52 | `VARCHAR` and `VarChar` are kept: the match is case-sensitive. |
| VarcharRewrite.KeepsLongerWords | src/Aoite/Aoite/Data/MsCeTestManager.cs:52 | `nvarchar`, `varchar2` and `my_varchar` are kept: the match needs a word boundary on both sides. |
| VarcharRewrite.ScanIsRewriteWords | src/Aoite/Aoite/Data/MsCeTestManager.cs:52 | The regular-expression walk equals the word-by-word reference: cut the text into maximal words and replace exactly the words equal to `varchar`. |
| MaxRewrite.ScanMaxUnchangedIffNoToken | src/Aoite/Aoite/Data/MsCeTestManager.cs:53 | The `(max)` pass returns its input unchanged exactly when `\(max\)`, ignoring case, does not match it. |
| MaxRewrite.ScanMaxLeavesNoToken | src/Aoite/Aoite/Data/MsCeTestManager.cs:53 | No `(max)` token, in any case, remains after the pass. |
| MaxRewrite.ScanMaxConcat | src/Aoite/Aoite/Data/MsCeTestManager.cs:53 | The text can be cut in front of any `(` and rewritten piece by piece, since tokens never overlap. |
| MaxRewrite.ReplacesEveryMaxToken | src/Aoite/Aoite/Data/MsCeTestManager.cs:53 | Every token, in any mix of case, becomes `(2000)`. The text around it is rewritten on its own. |
| MaxRewrite.ReplacesMaxInAnyCase | src/Aoite/Aoite/Data/MsCeTestManager.cs:53 | `(MAX)`, `(Max)` and `(max)` all become `(2000)`. |
| MsCeTestManager.ReplaceVarchar | src/Aoite/Aoite/Data/MsCeTestManager.cs:60-63 | A null input throws `ArgumentNullException("input")`. Otherwise the result holds no standalone `varchar` and no `(max)` token. It equals the input exactly when the input holds neither. |
| MsCeTestManager.MaxPassKeepsNoMatch | src/Aoite/Aoite/Data/MsCeTestManager.cs:62 | The `(max)` pass, run second, cannot create a standalone `varchar`. |
| MsCeTestManager.ReplaceVarcharUnchangedIff | src/Aoite/Aoite/Data/MsCeTestManager.cs:60-63 | Both passes together leave a text alone exactly when it holds neither pattern. |
| MsCeTestManager.ReplaceVarcharIdempotent | src/Aoite/Aoite/Data/MsCeTestManager.cs:56-62 | Rewriting twice is the same as rewriting once. |
| MsCeTestManager.Executing | src/Aoite/Aoite/Data/MsCeTestManager.cs:45-50 | Only a `NoQuery` command has its text rewritten. Any other command text is left exactly as it is. A `NoQuery` command with null text throws. Rewritten text holds no standalone `varchar` and no `(max)` token. |
| MsCeTestManager.ExecutingTwiceIsExecutingOnce | src/Aoite/Aoite/Data/MsCeTestManager.cs:45-50 | A command text the handler has already processed passes through it again unchanged. |

## Left out

- Exceptions from collaborators in `AutoMap`: the model assumes that the map filter's three decisions, `container.Add` (IocExtensions.cs:314), the caller's `expectTypeHandler` (IocExtensions.cs:315) and the `MapFilter` constructor (IocExtensions.cs:347) all return normally. It also assumes the handler does not call the container itself, and the handler is recorded only as a notification. `AutoMapSucceedsIffAllMapped`, `AutoMap`'s statement about the log, and `AutoMapNamespace`'s order of rejections hold under this assumption. In C# any of these calls may throw, and the exception would propagate after the effects made so far.
- `IIocContainer`, `MapFilter` and `ObjectFactory.AllTypes`: their source is not part of this model. Their answers and decisions are uninterpreted inputs, and no registry semantics are modelled.
- `GetAll<TService>`'s lazy `Cast<TService>()` enumeration: the model returns the container's sequence as it is. A cast failure would only surface later, during enumeration by the caller. A null answer from `container.GetAll` cannot be expressed either, since `resolveAll` returns a sequence; in the source, `Cast<TService>()` would then throw `ArgumentNullException("source")` (IocExtensions.cs:135).
- The message text of the exception `AutoMap` throws: the model keeps only the assembly-qualified name it embeds (`MappingNotFound`).
- The three-argument `container.Add(expectType, actualType, singletonMode)` that `AutoMap` makes is recorded with `promote = false`. This assumes the default value of the container interface's parameter, which is not part of this model.
- The unused `expectType.Namespace` read in the `AutoMap` loop: it has no effect.
- The fluent binder extensions `Use`, `UseRange`, `Transient`, `Singleton`, `Scoped`, `As` (IocExtensions.cs:242-286): one-line forwards to interfaces that are not part of this model.
- `AutoMapFromConfig` (IocExtensions.cs:329-336): it reads application configuration.
- The commented-out `AutoMap(container, ContractDomain)` overload (IocExtensions.cs:349-378): it is not compiled.
- `MsCeTestManager`'s static and instance constructors and `DisposeManaged`: directory and file handling, the SQL CE engine and a retry loop that sleeps.
- `ExecutingEventArgs` and the engine's other execute types: only the `NoQuery` test is modelled. Every other type is one `OtherQuery` value, and the handler's effect is the returned command text.
- VarcharRewrite.IsWordChar: `\b` uses ASCII letters, digits and `_` as word characters, not .NET's full Unicode word class.
- MaxRewrite.IsMaxAt: case is ignored for the ASCII letters of `max` only, not by culture-sensitive case folding.
- `CompareResult.ToString` and `DefaultLogDescriptorTests`: not part of the modelled logic.
- `AutoMap` has no rollback: registrations made for earlier groups stay in the container when a later group fails (`AutoMapFailureKeepsEarlierRegistrations`).
