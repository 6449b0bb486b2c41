/** The generic extension methods on an IoC container (`IocExtensions`): each
    one checks its `container` argument for null and then forwards exactly one
    call to the container's own interface.

    The container itself is not part of this model. It is represented by its
    identity and the append-only log of interface calls it has received; what
    it answers to a query is an uninterpreted `Backend` input, so no storage
    or lifetime semantics are assumed. */
module IocExtensions {
  import opened Wrappers
  import opened Clr

  /** A `System.Type`; the modelled code only ever observes its
      assembly-qualified name. */
  datatype TypeId = TypeId(assemblyQualifiedName: string)

  /** A non-null object reference with its runtime type. */
  datatype Obj = Obj(handle: nat, runtimeType: TypeId)

  /** An `InstanceCreatorCallback` delegate, by identity. */
  datatype Callback = Callback(handle: nat)

  /** A `params object[] lastMappingValues` argument: the array may itself be
      null, and so may each of its elements. */
  type Args = Option<seq<Option<Obj>>>

  /** The calls the extension methods make on the container's interface. */
  datatype Call =
    | AddType(serviceType: TypeId, singletonMode: bool, promote: bool)
    | AddMapping(serviceType: TypeId, actualType: TypeId, singletonMode: bool, promote: bool)
    | AddInstance(serviceType: TypeId, instance: Option<Obj>, promote: bool)
    | AddCallback(serviceType: TypeId, callback: Option<Callback>, singletonMode: bool, promote: bool)
    | RemoveType(serviceType: TypeId, promote: bool)
    | GetService(serviceType: TypeId, lastMappingValues: Args)
    | GetFixedService(serviceType: TypeId, lastMappingValues: Args)
    | GetAllServices(serviceType: TypeId, lastMappingValues: Args)
    | ContainsType(serviceType: TypeId, promote: bool)
    | AddValue(serviceType: TypeId, name: Option<string>, value: Option<Obj>, promote: bool)
    | AddValueCallback(serviceType: TypeId, name: Option<string>, callback: Option<Callback>,
                       singletonMode: bool, promote: bool)
    | RemoveValue(serviceType: TypeId, name: Option<string>, promote: bool)
    | GetValue(serviceType: TypeId, name: Option<string>, lastMappingValues: Args)
    | ContainsValue(serviceType: TypeId, name: Option<string>, promote: bool)
  {
    /** Calls whose extension method returns the container for chaining. */
    predicate Chains() {
      AddType? || AddMapping? || AddInstance? || AddCallback? || RemoveType?
      || AddValue? || AddValueCallback? || RemoveValue?
    }

    /** Calls whose extension method casts the answer to `TService`. */
    predicate IsTypedGet() {
      GetService? || GetFixedService?
    }
  }

  /** A non-null container: its identity and every interface call it has
      received, oldest first. */
  datatype Container = Container(handle: nat, calls: seq<Call>)

  /** The container after it has received one more call. */
  function Receive(c: Container, call: Call): (c': Container)
    ensures c'.handle == c.handle && |c'.calls| == |c.calls| + 1
    ensures c'.calls[..|c.calls|] == c.calls && c'.calls[|c.calls|] == call
  {
    c.(calls := c.calls + [call])
  }

  /** What the unseen parts answer, as uninterpreted functions of the
      container (before the call) and the call: the exception, if any, the
      container's own method throws; the container's object and boolean
      queries; and the runtime's `is TService` test used by casts. */
  datatype Backend = Backend(
    throws: (Container, Call) -> Option<Exception>,
    resolve: (Container, Call) -> Option<Obj>,
    resolveAll: (Container, Call) -> seq<Option<Obj>>,
    contains: (Container, Call) -> bool,
    isInstanceOf: (Obj, TypeId) -> bool)

  /** A value of static type `TService`: `default(TService)` or an object. */
  datatype Typed = Default | Instance(obj: Obj)

  /** What an extension method hands back to its caller. */
  datatype Reply =
    | SameContainer
    | Service(service: Typed)
    | Value(value: Option<Obj>)
    | Services(services: seq<Option<Obj>>)
    | Found(found: bool)

  /** A call that reached the container: the container after the forwarded
      call, and what the extension method then returned or threw. The cast of
      `Get<TService>` runs after the container has answered, so a failed cast
      still leaves the call in the container's log. */
  datatype Forwarded = Forwarded(container: Container, outcome: Result<Reply, Exception>)

  /** `(TService)service` after the null test of `Get<TService>` and
      `GetFixed<TService>`: null becomes `default(TService)`, an object of the
      wrong runtime type throws. */
  function CastService(service: Option<Obj>, serviceType: TypeId, backend: Backend): (r: Result<Typed, Exception>)
    ensures r == Success(Default) <==> service.None?
    ensures r.Failure? <==> service.Some? && !backend.isInstanceOf(service.value, serviceType)
    ensures r.Failure? ==> r.error == InvalidCast
    ensures r.Success? && r.value.Instance? ==> service == Some(r.value.obj)
  {
    match service
    case None => Success(Default)
    case Some(o) => if backend.isInstanceOf(o, serviceType) then Success(Instance(o)) else Failure(InvalidCast)
  }

  /** The typed reply of `Get<TService>`, or the exception its cast threw. */
  function ServiceReply(cast: Result<Typed, Exception>): (r: Result<Reply, Exception>)
    ensures r.Success? <==> cast.Success?
    ensures r.Success? ==> r.value == Service(cast.value)
    ensures r.Failure? ==> r.error == cast.error
  {
    match cast
    case Success(typed) => Success(Service(typed))
    case Failure(e) => Failure(e)
  }

  /** The extension method that forwards `call`, applied to `container`.
      A failure of the outer result is an exception thrown before anything
      is forwarded: every overload except `GetAll<TService>` rejects a null
      container with `ArgumentNullException("container")`; `GetAll<TService>`
      has no guard and dereferences the null container. Otherwise the
      container has received the call, and the outcome is the reply, the
      exception the container's method threw (which the wrapper lets
      through unchanged), or the exception the cast threw afterwards. */
  function Invoke(container: Option<Container>, call: Call, backend: Backend): (r: Result<Forwarded, Exception>)
    ensures r.Failure? <==> container.None?
    ensures container.Some? ==> r.value.container == Receive(container.value, call)
    ensures container.Some? && backend.throws(container.value, call).Some? ==>
              r.value.outcome == Failure(backend.throws(container.value, call).value)
    ensures container.Some? && backend.throws(container.value, call).None? && r.value.outcome.Failure? ==>
              call.IsTypedGet() && r.value.outcome.error == InvalidCast
    ensures r.Success? && r.value.outcome.Success? ==>
              backend.throws(container.value, call).None? && (r.value.outcome.value.SameContainer? <==> call.Chains())
  {
    match container
    case None =>
      if call.GetAllServices? then Failure(NullReference) else Failure(ArgumentNull("container"))
    case Some(c) =>
      var after := Receive(c, call);
      match backend.throws(c, call)
      case Some(e) => Success(Forwarded(after, Failure(e)))
      case None =>
        var answer := backend.resolve(c, call);
        var outcome := match call
          case GetService(t, _) => ServiceReply(CastService(answer, t, backend))
          case GetFixedService(t, _) => ServiceReply(CastService(answer, t, backend))
          case GetValue(_, _, _) => Success(Value(answer))
          case GetAllServices(_, _) => Success(Services(backend.resolveAll(c, call)))
          case ContainsType(_, _) => Success(Found(backend.contains(c, call)))
          case ContainsValue(_, _, _) => Success(Found(backend.contains(c, call)))
          case _ => Success(SameContainer);
        Success(Forwarded(after, outcome))
  }

  /** A null container is rejected before anything is forwarded: the guarded
      overloads throw `ArgumentNullException("container")`, and `GetAll` fails
      with a `NullReferenceException`. */
  lemma NullContainerIsRejected(call: Call, backend: Backend)
    ensures call.GetAllServices? ==> Invoke(None, call, backend) == Failure(NullReference)
    ensures !call.GetAllServices? ==> Invoke(None, call, backend) == Failure(ArgumentNull("container"))
  {
  }

  /** A chaining overload (`Add`, `Remove`) on a non-null container returns that
      same container, which has received exactly the forwarded call and
      nothing else, unless the container's method throws, in which case
      that exception propagates. */
  lemma ChainingReturnsSameContainer(c: Container, call: Call, backend: Backend)
    requires call.Chains()
    ensures Invoke(Some(c), call, backend).Success?
    ensures backend.throws(c, call).None? ==> Invoke(Some(c), call, backend).value.outcome == Success(SameContainer)
    ensures backend.throws(c, call).Some? ==> Invoke(Some(c), call, backend).value.outcome == Failure(backend.throws(c, call).value)
    ensures Invoke(Some(c), call, backend).value.container.handle == c.handle
    ensures Invoke(Some(c), call, backend).value.container.calls == c.calls + [call]
  {
  }

  /** When the container's method returns normally, `Get<TService>` and
      `GetFixed<TService>` return `default(TService)` exactly when the
      container answers null, and otherwise that same object, or throw
      `InvalidCastException` when it is not a `TService`. When it throws, that
      exception propagates. Either way the container has already received the
      forwarded call. */
  lemma TypedGetDefaultsOnNull(c: Container, call: Call, backend: Backend)
    requires call.IsTypedGet()
    ensures var r := Invoke(Some(c), call, backend);
            var answer := backend.resolve(c, call);
            && r.Success? && r.value.container.calls == c.calls + [call]
            && (backend.throws(c, call).Some? ==> r.value.outcome == Failure(backend.throws(c, call).value))
            && (backend.throws(c, call).None? ==>
                  && (r.value.outcome == Success(Service(Default)) <==> answer.None?)
                  && (r.value.outcome.Success? ==> r.value.outcome.value.Service?)
                  && (r.value.outcome.Success? && r.value.outcome.value.service.Instance? ==>
                        answer == Some(r.value.outcome.value.service.obj))
                  && (r.value.outcome.Failure? <==>
                        answer.Some? && !backend.isInstanceOf(answer.value, call.serviceType)))
  {
  }

  /** `Get<TService>(name, …)`, `Contains<TService>(…)` and `GetAll<TService>`
      pass the container's answer, or its exception, through unchanged. */
  lemma QueriesPassAnswerThrough(c: Container, call: Call, backend: Backend)
    requires call.GetValue? || call.ContainsType? || call.ContainsValue? || call.GetAllServices?
    ensures var r := Invoke(Some(c), call, backend);
            && r.Success?
            && (backend.throws(c, call).Some? ==> r.value.outcome == Failure(backend.throws(c, call).value))
            && (backend.throws(c, call).None? && call.GetValue? ==> r.value.outcome == Success(Value(backend.resolve(c, call))))
            && (backend.throws(c, call).None? && (call.ContainsType? || call.ContainsValue?) ==> r.value.outcome == Success(Found(backend.contains(c, call))))
            && (backend.throws(c, call).None? && call.GetAllServices? ==> r.value.outcome == Success(Services(backend.resolveAll(c, call))))
  {
  }
}
