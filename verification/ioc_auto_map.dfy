/** `IocExtensions.AutoMap`: walks the catalog of all loaded types, group by
    group; in each group the first type the map filter accepts as an expected
    type is bound to the actual type the filter finds for it, and the walk
    moves on to the next group. A missing actual type aborts the whole call,
    leaving the registrations already made in place.

    The map filter, the catalog and the container are not part of this model:
    the filter's three decisions are uninterpreted functions, the catalog is
    an input, and the container is the call log of `IocExtensions`. */
module IocAutoMap {
  import opened Wrappers
  import opened Clr
  import opened IocExtensions

  /** One entry of `ObjectFactory.AllTypes`: a group of types, in order. */
  datatype Group = Group(origin: string, types: seq<TypeId>)

  /** `ObjectFactory.AllTypes`, in enumeration order. */
  type Catalog = seq<Group>

  /** An `IMapFilter`: its three decisions, left uninterpreted. */
  datatype MapFilter = MapFilter(
    isExpectType: TypeId -> bool,
    findActualType: (Catalog, TypeId) -> Option<TypeId>,
    isSingletonMode: (TypeId, TypeId) -> bool)

  /** An `Action<Type>` expected-type handler, by identity. */
  datatype Handler = Handler(handle: nat)

  /** An observable side effect of `AutoMap`, in the order it happens: a call
      forwarded to the container, or a call of the handler. */
  datatype Effect = Delegated(call: Call) | Notified(expectType: TypeId)

  /** The effects of a walk over some groups, and the exception that stopped
      it, if any. */
  datatype Walk = Walk(effects: seq<Effect>, failure: Option<Exception>)

  /** A complete `AutoMap` call: its side effects (which stay even when it
      throws), and what it returns or throws. */
  datatype Run = Run(effects: seq<Effect>, outcome: Result<Container, Exception>)

  /** The container calls among some effects, in order. */
  function CallsOf(effects: seq<Effect>): (calls: seq<Call>)
    ensures |calls| <= |effects|
    decreases |effects|
  {
    if |effects| == 0 then []
    else (if effects[0].Delegated? then [effects[0].call] else []) + CallsOf(effects[1..])
  }

  /** The effects of binding `expectType` to `actualType`: the `Add` call,
      then the handler call when a handler was given. */
  function Registration(filter: MapFilter, expectType: TypeId, actualType: TypeId, notify: bool): seq<Effect> {
    [Delegated(AddMapping(expectType, actualType, filter.isSingletonMode(expectType, actualType), false))]
    + (if notify then [Notified(expectType)] else [])
  }

  /** The inner loop over one group's types, ending at the first expected
      type (the `break`), or throwing when that type has no actual type. */
  function MapGroup(filter: MapFilter, allTypes: Catalog, notify: bool, types: seq<TypeId>): Result<seq<Effect>, Exception>
    decreases |types|
  {
    if |types| == 0 then Success([])
    else if filter.isExpectType(types[0]) then
      match filter.findActualType(allTypes, types[0])
      case None => Failure(MappingNotFound(types[0].assemblyQualifiedName))
      case Some(actualType) => Success(Registration(filter, types[0], actualType, notify))
    else MapGroup(filter, allTypes, notify, types[1..])
  }

  /** The outer loop over the groups; the first exception ends the walk. */
  function MapGroups(filter: MapFilter, allTypes: Catalog, notify: bool, groups: seq<Group>): Walk
    decreases |groups|
  {
    if |groups| == 0 then Walk([], None)
    else
      match MapGroup(filter, allTypes, notify, groups[0].types)
      case Failure(e) => Walk([], Some(e))
      case Success(effects) =>
        var rest := MapGroups(filter, allTypes, notify, groups[1..]);
        Walk(effects + rest.effects, rest.failure)
  }

  /** `AutoMap(container, mapFilter, expectTypeHandler)` over the catalog
      `allTypes`. */
  function AutoMap(container: Option<Container>, mapFilter: Option<MapFilter>, handler: Option<Handler>,
                   allTypes: Catalog): (r: Run)
    ensures container.None? ==> r == Run([], Failure(ArgumentNull("container")))
    ensures container.Some? && mapFilter.None? ==> r == Run([], Failure(ArgumentNull("mapFilter")))
    ensures r.outcome.Success? ==> r.outcome.value.handle == container.value.handle
    ensures r.outcome.Success? ==> r.outcome.value.calls == container.value.calls + CallsOf(r.effects)
  {
    if container.None? then Run([], Failure(ArgumentNull("container")))
    else if mapFilter.None? then Run([], Failure(ArgumentNull("mapFilter")))
    else
      var c := container.value;
      var walk := MapGroups(mapFilter.value, allTypes, handler.Some?, allTypes);
      match walk.failure
      case Some(e) => Run(walk.effects, Failure(e))
      case None => Run(walk.effects, Success(c.(calls := c.calls + CallsOf(walk.effects))))
  }

  /** `AutoMap(container, namespaceExpression, actualTypeFullNameFormat)`: a
      null or blank expression is rejected before the container is looked
      at; otherwise a map filter is built from the expression and format (by
      the `MapFilter` constructor, not part of this model) and the walk runs
      without a handler. */
  function AutoMapNamespace(container: Option<Container>, namespaceExpression: Option<string>,
                            actualTypeFullNameFormat: Option<string>,
                            newMapFilter: (string, Option<string>) -> MapFilter, allTypes: Catalog): (r: Run)
    ensures IsNullOrWhiteSpace(namespaceExpression) ==> r == Run([], Failure(ArgumentNull("namespaceExpression")))
    ensures !IsNullOrWhiteSpace(namespaceExpression) && container.None? ==> r == Run([], Failure(ArgumentNull("container")))
    ensures forall k :: 0 <= k < |r.effects| ==> r.effects[k].Delegated?
  {
    if IsNullOrWhiteSpace(namespaceExpression) then Run([], Failure(ArgumentNull("namespaceExpression")))
    else
      var filter := newMapFilter(namespaceExpression.value, actualTypeFullNameFormat);
      var r := AutoMap(container, Some(filter), None, allTypes);
      WalkWithoutHandlerOnlyDelegates(filter, allTypes, allTypes);
      r
  }

  // ---------------------------------------------------------------------
  // The reference: which types get bound, stated without the loops.
  // ---------------------------------------------------------------------

  /** `types[i]` is the first type of the group the filter accepts. */
  ghost predicate FirstExpectedAt(filter: MapFilter, types: seq<TypeId>, i: int) {
    && 0 <= i < |types|
    && filter.isExpectType(types[i])
    && forall j :: 0 <= j < i ==> !filter.isExpectType(types[j])
  }

  /** The filter accepts no type of the group. */
  ghost predicate NoExpectedType(filter: MapFilter, types: seq<TypeId>) {
    forall j :: 0 <= j < |types| ==> !filter.isExpectType(types[j])
  }

  /** The group's first expected type, if it has one. */
  function FirstExpected(filter: MapFilter, types: seq<TypeId>): (r: Option<TypeId>)
    ensures r.None? <==> NoExpectedType(filter, types)
    ensures r.Some? ==> exists i :: FirstExpectedAt(filter, types, i) && types[i] == r.value
    decreases |types|
  {
    if |types| == 0 then None
    else if filter.isExpectType(types[0]) then
      assert FirstExpectedAt(filter, types, 0);
      Some(types[0])
    else
      var r := FirstExpected(filter, types[1..]);
      assert r.Some? ==> exists i :: FirstExpectedAt(filter, types, i) && types[i] == r.value by {
        if r.Some? {
          var i :| FirstExpectedAt(filter, types[1..], i) && types[1..][i] == r.value;
          assert FirstExpectedAt(filter, types, i + 1);
        }
      }
      r
  }

  /** The expected types `AutoMap` would bind, one per group that has one, in
      catalog order. */
  function ExpectedTypes(filter: MapFilter, groups: seq<Group>): (es: seq<TypeId>)
    ensures |es| <= |groups|
    decreases |groups|
  {
    if |groups| == 0 then []
    else
      match FirstExpected(filter, groups[0].types)
      case None => ExpectedTypes(filter, groups[1..])
      case Some(e) => [e] + ExpectedTypes(filter, groups[1..])
  }

  /** Every type in `es` has an actual type. */
  ghost predicate AllMapped(filter: MapFilter, allTypes: Catalog, es: seq<TypeId>) {
    forall k :: 0 <= k < |es| ==> filter.findActualType(allTypes, es[k]).Some?
  }

  /** The registrations of the expected types `es`, in order. */
  function Registrations(filter: MapFilter, allTypes: Catalog, notify: bool, es: seq<TypeId>): (effects: seq<Effect>)
    requires AllMapped(filter, allTypes, es)
    decreases |es|
  {
    if |es| == 0 then []
    else
      Registration(filter, es[0], filter.findActualType(allTypes, es[0]).value, notify)
      + Registrations(filter, allTypes, notify, es[1..])
  }

  // ---------------------------------------------------------------------
  // The loops against the reference.
  // ---------------------------------------------------------------------

  /** One group: no expected type means no effect; otherwise only the first
      expected type is looked at, and it is either registered or named in
      the exception. */
  lemma {:induction false} MapGroupMatchesReference(filter: MapFilter, allTypes: Catalog, notify: bool,
                                                    types: seq<TypeId>)
    ensures NoExpectedType(filter, types) ==> MapGroup(filter, allTypes, notify, types) == Success([])
    ensures forall i :: FirstExpectedAt(filter, types, i) ==>
              MapGroup(filter, allTypes, notify, types) ==
                match filter.findActualType(allTypes, types[i])
                case None => Failure(MappingNotFound(types[i].assemblyQualifiedName))
                case Some(a) => Success(Registration(filter, types[i], a, notify))
    decreases |types|
  {
    if |types| > 0 && !filter.isExpectType(types[0]) {
      MapGroupMatchesReference(filter, allTypes, notify, types[1..]);
      forall i | FirstExpectedAt(filter, types, i)
        ensures FirstExpectedAt(filter, types[1..], i - 1)
      {
        assert i != 0;
      }
    }
  }

  /** The types after a group's first expected type are never examined. */
  lemma {:induction false} MapGroupStopsAtFirstExpected(filter: MapFilter, allTypes: Catalog, notify: bool,
                                                        types: seq<TypeId>, i: int)
    requires FirstExpectedAt(filter, types, i)
    ensures MapGroup(filter, allTypes, notify, types) == MapGroup(filter, allTypes, notify, types[..i + 1])
    decreases |types|
  {
    if i > 0 {
      assert types[..i + 1][1..] == types[1..][..i];
      MapGroupStopsAtFirstExpected(filter, allTypes, notify, types[1..], i - 1);
    }
  }

  /** The first expected type of a group decides its contribution. */
  lemma MapGroupByFirstExpected(filter: MapFilter, allTypes: Catalog, notify: bool, types: seq<TypeId>)
    ensures FirstExpected(filter, types).None? ==> MapGroup(filter, allTypes, notify, types) == Success([])
    ensures FirstExpected(filter, types).Some? ==>
              var e := FirstExpected(filter, types).value;
              MapGroup(filter, allTypes, notify, types) ==
                match filter.findActualType(allTypes, e)
                case None => Failure(MappingNotFound(e.assemblyQualifiedName))
                case Some(a) => Success(Registration(filter, e, a, notify))
  {
    MapGroupMatchesReference(filter, allTypes, notify, types);
    if FirstExpected(filter, types).Some? {
      var i :| FirstExpectedAt(filter, types, i) && types[i] == FirstExpected(filter, types).value;
    }
  }

  /** The walk over the expected types `es` alone: each is registered in turn
      until one has no actual type. */
  function WalkTypes(filter: MapFilter, allTypes: Catalog, notify: bool, es: seq<TypeId>): Walk
    decreases |es|
  {
    if |es| == 0 then Walk([], None)
    else
      match filter.findActualType(allTypes, es[0])
      case None => Walk([], Some(MappingNotFound(es[0].assemblyQualifiedName)))
      case Some(a) =>
        var rest := WalkTypes(filter, allTypes, notify, es[1..]);
        Walk(Registration(filter, es[0], a, notify) + rest.effects, rest.failure)
  }

  /** The nested loops are the walk over the expected types: groups without
      an expected type contribute nothing, and each other group contributes
      exactly its first expected type. */
  lemma {:induction false} MapGroupsFlattens(filter: MapFilter, allTypes: Catalog, notify: bool, groups: seq<Group>)
    ensures MapGroups(filter, allTypes, notify, groups) == WalkTypes(filter, allTypes, notify, ExpectedTypes(filter, groups))
    decreases |groups|
  {
    if |groups| > 0 {
      MapGroupByFirstExpected(filter, allTypes, notify, groups[0].types);
      MapGroupsFlattens(filter, allTypes, notify, groups[1..]);
      match FirstExpected(filter, groups[0].types)
      case None =>
      case Some(e) =>
        assert ([e] + ExpectedTypes(filter, groups[1..]))[1..] == ExpectedTypes(filter, groups[1..]);
    }
  }

  /** The walk over expected types against the reference: it succeeds exactly
      when every expected type has an actual type, and then performs all
      their registrations in order; otherwise it stops at the first one
      without, naming it, after the registrations of those before it. */
  lemma {:induction false} WalkTypesMatchesReference(filter: MapFilter, allTypes: Catalog, notify: bool, es: seq<TypeId>)
    ensures var w := WalkTypes(filter, allTypes, notify, es);
            && (w.failure.None? <==> AllMapped(filter, allTypes, es))
            && (w.failure.None? ==> w.effects == Registrations(filter, allTypes, notify, es))
            && (w.failure.Some? ==>
                  exists k :: && FirstUnmappedAt(filter, allTypes, es, k)
                              && w.failure.value == MappingNotFound(es[k].assemblyQualifiedName)
                              && w.effects == Registrations(filter, allTypes, notify, es[..k]))
    decreases |es|
  {
    if |es| > 0 {
      var rest := es[1..];
      WalkTypesMatchesReference(filter, allTypes, notify, rest);
      var w := WalkTypes(filter, allTypes, notify, rest);
      match filter.findActualType(allTypes, es[0])
      case None =>
        assert FirstUnmappedAt(filter, allTypes, es, 0);
        assert es[..0] == [];
      case Some(a) =>
        assert AllMapped(filter, allTypes, es) <==> AllMapped(filter, allTypes, rest) by {
          if AllMapped(filter, allTypes, rest) {
            forall k | 0 <= k < |es| ensures filter.findActualType(allTypes, es[k]).Some? {
              if k > 0 { assert es[k] == rest[k - 1]; }
            }
          }
          if AllMapped(filter, allTypes, es) {
            forall k | 0 <= k < |rest| ensures filter.findActualType(allTypes, rest[k]).Some? {
              assert rest[k] == es[k + 1];
            }
          }
        }
        if w.failure.Some? {
          var k :| && FirstUnmappedAt(filter, allTypes, rest, k)
                   && w.failure.value == MappingNotFound(rest[k].assemblyQualifiedName)
                   && w.effects == Registrations(filter, allTypes, notify, rest[..k]);
          assert FirstUnmappedAt(filter, allTypes, es, k + 1) by {
            forall j | 0 <= j < k + 1 ensures filter.findActualType(allTypes, es[j]).Some? {
              if j > 0 { assert es[j] == rest[j - 1]; }
            }
          }
          assert es[..k + 1][1..] == rest[..k];
        }
    }
  }

  /** `AutoMap`'s walk against the reference, over the catalog's expected
      types. */
  lemma MapGroupsMatchesReference(filter: MapFilter, allTypes: Catalog, notify: bool, groups: seq<Group>)
    ensures var w := MapGroups(filter, allTypes, notify, groups);
            var es := ExpectedTypes(filter, groups);
            && (w.failure.None? <==> AllMapped(filter, allTypes, es))
            && (w.failure.None? ==> w.effects == Registrations(filter, allTypes, notify, es))
            && (w.failure.Some? ==>
                  exists k :: && FirstUnmappedAt(filter, allTypes, es, k)
                              && w.failure.value == MappingNotFound(es[k].assemblyQualifiedName)
                              && w.effects == Registrations(filter, allTypes, notify, es[..k]))
  {
    MapGroupsFlattens(filter, allTypes, notify, groups);
    WalkTypesMatchesReference(filter, allTypes, notify, ExpectedTypes(filter, groups));
  }

  /** `es[k]` is the first of `es` without an actual type. */
  ghost predicate FirstUnmappedAt(filter: MapFilter, allTypes: Catalog, es: seq<TypeId>, k: int) {
    && 0 <= k < |es|
    && filter.findActualType(allTypes, es[k]).None?
    && forall j :: 0 <= j < k ==> filter.findActualType(allTypes, es[j]).Some?
  }

  /** Without a handler the walk only forwards calls to the container. */
  lemma {:induction false} WalkWithoutHandlerOnlyDelegates(filter: MapFilter, allTypes: Catalog, groups: seq<Group>)
    ensures forall k :: 0 <= k < |MapGroups(filter, allTypes, false, groups).effects| ==>
              MapGroups(filter, allTypes, false, groups).effects[k].Delegated?
    decreases |groups|
  {
    if |groups| > 0 {
      WalkWithoutHandlerOnlyDelegates(filter, allTypes, groups[1..]);
      MapGroupByFirstExpected(filter, allTypes, false, groups[0].types);
    }
  }

  // ---------------------------------------------------------------------
  // Consequences for callers of AutoMap.
  // ---------------------------------------------------------------------

  /** The number of effects one registration has. */
  function Width(notify: bool): nat {
    if notify then 2 else 1
  }

  /** The `Add` call that registers `e`, which must have an actual type. */
  function AddFor(filter: MapFilter, allTypes: Catalog, e: TypeId): Call
    requires filter.findActualType(allTypes, e).Some?
  {
    var a := filter.findActualType(allTypes, e).value;
    AddMapping(e, a, filter.isSingletonMode(e, a), false)
  }

  /** Registrations come in fixed-width blocks, one per expected type and in
      the same order: the `Add` call first, then (with a handler) the handler
      call for the same type. */
  lemma {:induction false} RegistrationsShape(filter: MapFilter, allTypes: Catalog, notify: bool, es: seq<TypeId>)
    requires AllMapped(filter, allTypes, es)
    ensures |Registrations(filter, allTypes, notify, es)| == |es| * Width(notify)
    ensures forall k :: 0 <= k < |es| ==>
              Registrations(filter, allTypes, notify, es)[k * Width(notify)] == Delegated(AddFor(filter, allTypes, es[k]))
    ensures notify ==> forall k :: 0 <= k < |es| ==>
              Registrations(filter, allTypes, notify, es)[k * 2 + 1] == Notified(es[k])
    decreases |es|
  {
    if |es| > 0 {
      var w := Width(notify);
      var rest := es[1..];
      assert AllMapped(filter, allTypes, rest) by {
        forall k | 0 <= k < |rest| ensures filter.findActualType(allTypes, rest[k]).Some? {
          assert rest[k] == es[k + 1];
        }
      }
      RegistrationsShape(filter, allTypes, notify, rest);
      var head := Registration(filter, es[0], filter.findActualType(allTypes, es[0]).value, notify);
      var tail := Registrations(filter, allTypes, notify, rest);
      assert Registrations(filter, allTypes, notify, es) == head + tail;
      assert |head| == w;
      forall k | 0 <= k < |es|
        ensures (head + tail)[k * w] == Delegated(AddFor(filter, allTypes, es[k]))
        ensures notify ==> (head + tail)[k * 2 + 1] == Notified(es[k])
      {
        if k > 0 {
          assert es[k] == rest[k - 1];
          assert k * w == w + (k - 1) * w;
        }
      }
    }
  }

  /** `CallsOf` distributes over concatenation. */
  lemma {:induction false} CallsOfAppend(a: seq<Effect>, b: seq<Effect>)
    ensures CallsOf(a + b) == CallsOf(a) + CallsOf(b)
    decreases |a|
  {
    if |a| > 0 {
      assert (a + b)[1..] == a[1..] + b;
      CallsOfAppend(a[1..], b);
    } else {
      assert a + b == b;
    }
  }

  /** The container calls of the registrations of `es` are exactly one `Add`
      per expected type, in order, whatever the handler. */
  lemma {:induction false} RegistrationCalls(filter: MapFilter, allTypes: Catalog, notify: bool, es: seq<TypeId>)
    requires AllMapped(filter, allTypes, es)
    ensures |CallsOf(Registrations(filter, allTypes, notify, es))| == |es|
    ensures forall k :: 0 <= k < |es| ==>
              CallsOf(Registrations(filter, allTypes, notify, es))[k] == AddFor(filter, allTypes, es[k])
    decreases |es|
  {
    if |es| > 0 {
      var rest := es[1..];
      assert AllMapped(filter, allTypes, rest) by {
        forall k | 0 <= k < |rest| ensures filter.findActualType(allTypes, rest[k]).Some? {
          assert rest[k] == es[k + 1];
        }
      }
      RegistrationCalls(filter, allTypes, notify, rest);
      var head := Registration(filter, es[0], filter.findActualType(allTypes, es[0]).value, notify);
      CallsOfAppend(head, Registrations(filter, allTypes, notify, rest));
      assert CallsOf(head) == [AddFor(filter, allTypes, es[0])] by {
        assert head[1..] == (if notify then [Notified(es[0])] else []);
        if notify {
          assert head[1..][1..] == [];
        }
      }
      forall k | 0 <= k < |es|
        ensures CallsOf(Registrations(filter, allTypes, notify, es))[k] == AddFor(filter, allTypes, es[k])
      {
        if k > 0 { assert es[k] == rest[k - 1]; }
      }
    }
  }

  /** `AutoMap` with a container and a filter returns the container exactly
      when every catalog group's first expected type has an actual type. */
  lemma AutoMapSucceedsIffAllMapped(c: Container, filter: MapFilter, handler: Option<Handler>, allTypes: Catalog)
    ensures AutoMap(Some(c), Some(filter), handler, allTypes).outcome.Success?
            <==> AllMapped(filter, allTypes, ExpectedTypes(filter, allTypes))
  {
    MapGroupsMatchesReference(filter, allTypes, handler.Some?, allTypes);
  }

  /** On success the container has received one `Add` per group with an
      expected type, in catalog order and nothing else, so at most one per
      group. */
  lemma AutoMapRegistersFirstExpectedTypes(c: Container, filter: MapFilter, handler: Option<Handler>, allTypes: Catalog)
    requires AutoMap(Some(c), Some(filter), handler, allTypes).outcome.Success?
    ensures var r := AutoMap(Some(c), Some(filter), handler, allTypes).outcome.value;
            var es := ExpectedTypes(filter, allTypes);
            && AllMapped(filter, allTypes, es)
            && r.handle == c.handle
            && |r.calls| == |c.calls| + |es| <= |c.calls| + |allTypes|
            && r.calls[..|c.calls|] == c.calls
            && forall k :: 0 <= k < |es| ==> r.calls[|c.calls| + k] == AddFor(filter, allTypes, es[k])
  {
    var es := ExpectedTypes(filter, allTypes);
    MapGroupsMatchesReference(filter, allTypes, handler.Some?, allTypes);
    RegistrationCalls(filter, allTypes, handler.Some?, es);
  }

  /** On failure `AutoMap` throws naming the first expected type without an
      actual type, and the registrations made before it remain: there is no
      rollback. */
  lemma AutoMapFailureKeepsEarlierRegistrations(c: Container, filter: MapFilter, handler: Option<Handler>, allTypes: Catalog)
    requires AutoMap(Some(c), Some(filter), handler, allTypes).outcome.Failure?
    ensures var r := AutoMap(Some(c), Some(filter), handler, allTypes);
            var es := ExpectedTypes(filter, allTypes);
            exists k :: && FirstUnmappedAt(filter, allTypes, es, k)
                        && r.outcome.error == MappingNotFound(es[k].assemblyQualifiedName)
                        && r.effects == Registrations(filter, allTypes, handler.Some?, es[..k])
  {
    MapGroupsMatchesReference(filter, allTypes, handler.Some?, allTypes);
  }

  /** The handler, when given, is called exactly once per registered expected
      type, right after that type's `Add`; without one, only `Add` calls
      happen. */
  lemma HandlerFollowsEachAdd(c: Container, filter: MapFilter, handler: Option<Handler>, allTypes: Catalog)
    requires AutoMap(Some(c), Some(filter), handler, allTypes).outcome.Success?
    ensures var r := AutoMap(Some(c), Some(filter), handler, allTypes);
            var es := ExpectedTypes(filter, allTypes);
            && AllMapped(filter, allTypes, es)
            && |r.effects| == |es| * Width(handler.Some?)
            && (forall k :: 0 <= k < |es| ==> r.effects[k * Width(handler.Some?)] == Delegated(AddFor(filter, allTypes, es[k])))
            && (handler.Some? ==> forall k :: 0 <= k < |es| ==> r.effects[k * 2 + 1] == Notified(es[k]))
  {
    MapGroupsMatchesReference(filter, allTypes, handler.Some?, allTypes);
    RegistrationsShape(filter, allTypes, handler.Some?, ExpectedTypes(filter, allTypes));
  }

  /** A group in which the filter accepts no type changes nothing, wherever it
      sits in the catalog. */
  lemma {:induction false} GroupWithoutExpectedTypeIsSkipped(filter: MapFilter, before: seq<Group>, g: Group, after: seq<Group>)
    requires NoExpectedType(filter, g.types)
    ensures ExpectedTypes(filter, before + [g] + after) == ExpectedTypes(filter, before + after)
    decreases |before|
  {
    if |before| == 0 {
      assert before + [g] + after == [g] + after;
      assert before + after == after;
      assert ([g] + after)[1..] == after;
    } else {
      assert (before + [g] + after)[1..] == before[1..] + [g] + after;
      assert (before + after)[1..] == before[1..] + after;
      GroupWithoutExpectedTypeIsSkipped(filter, before[1..], g, after);
    }
  }

  /** Hence the walk is unaffected by such a group among the groups walked:
      the same effects and the same outcome. The catalog `FindActualType`
      searches (`allTypes`) is held fixed; adding a group there can change
      which actual types are found. */
  lemma GroupWithoutExpectedTypeChangesNothing(filter: MapFilter, allTypes: Catalog, notify: bool,
                                               before: seq<Group>, g: Group, after: seq<Group>)
    requires NoExpectedType(filter, g.types)
    ensures MapGroups(filter, allTypes, notify, before + [g] + after) == MapGroups(filter, allTypes, notify, before + after)
  {
    GroupWithoutExpectedTypeIsSkipped(filter, before, g, after);
    MapGroupsFlattens(filter, allTypes, notify, before + [g] + after);
    MapGroupsFlattens(filter, allTypes, notify, before + after);
  }
}
