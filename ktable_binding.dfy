/**
 * `KTableBoundElementFactory`: the binding target for `KTable` inputs is a
 * proxy whose calls go to a `KTableWrapperHandler`. The handler's delegate
 * starts unset, is set once by `wrap`, and every `KTable` call is forwarded
 * to it. Outputs of type `KTable` are refused.
 */
module KTableBinding {
  import opened Wrappers

  /** A real `KTable` the proxy can delegate to; its behaviour is not modelled. */
  datatype KTable = KTable(id: nat)

  /** An argument of an intercepted call: null, a `KTable`, or any other object. */
  datatype Argument = NullArgument | TableArgument(table: KTable) | OtherArgument(id: nat)

  /** The interface that declares the intercepted method. */
  datatype DeclaringType = KTableInterface | KTableWrapperInterface | OtherType(name: string)

  /** An AOP `MethodInvocation`: the method (its declaring type and name) and its arguments. */
  datatype MethodInvocation = MethodInvocation(declaringType: DeclaringType, methodName: string, arguments: seq<Argument>)

  /** What a successful `invoke` did. */
  datatype Dispatch =
      /** The method was invoked reflectively on `target` with the same arguments. */
    | Forwarded(target: KTable, methodName: string, arguments: seq<Argument>)
      /** The method (`wrap`) was invoked on the handler itself; it returns `void`. */
    | HandledByWrapper

  /** The exceptions of the factory and the handler. */
  datatype BindingError =
      /** `Assert.notNull` in `wrap`: `IllegalArgumentException` "delegate cannot be null". */
    | NullDelegate
      /** `Assert.isNull` in `wrap`: `IllegalArgumentException` naming the delegate already set. */
    | DelegateAlreadySet(current: KTable)
      /** `Assert.notNull` in `invoke`: a `KTable` method called before any delegate was set. */
    | NoDelegate(methodName: string)
      /** `IllegalStateException` for a method declared on any other type. */
    | OnlyKStreamInvocations
      /** `Method.invoke` refusing arguments that do not fit `wrap(KTable)`: `IllegalArgumentException`. */
    | WrapArgumentMismatch
      /** `Method.invoke` wrapping what `wrap` threw in an `InvocationTargetException`. */
    | InvocationTarget(cause: BindingError)
      /** `createOutput`: `UnsupportedOperationException`. */
    | OutboundNotAllowed

  /** The handler's result together with its delegate afterwards. */
  datatype Transition<+T> = Transition(result: Result<T, BindingError>, delegate: Option<KTable>)

  /** `createOutput(name)`: outbound `KTable` bindings are never allowed. */
  function CreateOutput(name: string): (r: Result<KTable, BindingError>)
    ensures r.Err? && r.error == OutboundNotAllowed
  {
    Err(OutboundNotAllowed)
  }

  /** `wrap(d)` on a handler whose delegate is `current`. */
  function WrapStep(current: Option<KTable>, d: Option<KTable>): (t: Transition<()>)
    ensures t.result.Ok? <==> d.Some? && current.None?
    ensures t.result.Ok? ==> t.delegate == d
    ensures t.result.Err? ==> t.delegate == current
  {
    if d.None? then Transition(Err(NullDelegate), current)
    else if current.Some? then Transition(Err(DelegateAlreadySet(current.value)), current)
    else Transition(Ok(()), d)
  }

  /**
   * The argument `wrap` receives through `Method.invoke`: `Some(d)` when the
   * arguments are exactly one `KTable` or null, `None` when they do not fit.
   */
  function WrapArgument(arguments: seq<Argument>): Option<Option<KTable>> {
    if |arguments| != 1 then None
    else match arguments[0]
      case NullArgument => Some(None)
      case TableArgument(t) => Some(Some(t))
      case OtherArgument(_) => None
  }

  /** `invoke(invocation)` on a handler whose delegate is `current`. */
  function InvokeStep(current: Option<KTable>, invocation: MethodInvocation): (t: Transition<Dispatch>)
    ensures t.delegate != current ==>
      current.None? && invocation.declaringType == KTableWrapperInterface && t.result == Ok(HandledByWrapper)
    ensures invocation.declaringType == KTableInterface ==>
      (t.result.Ok? <==> current.Some?) &&
      (t.result.Ok? ==> t.result.value == Forwarded(current.value, invocation.methodName, invocation.arguments))
    ensures invocation.declaringType.OtherType? ==> t.result == Err(OnlyKStreamInvocations)
    ensures t.result.Ok? && t.result.value.Forwarded? ==> invocation.declaringType == KTableInterface
  {
    match invocation.declaringType
    case KTableInterface =>
      if current.None? then Transition(Err(NoDelegate(invocation.methodName)), current)
      else Transition(Ok(Forwarded(current.value, invocation.methodName, invocation.arguments)), current)
    case KTableWrapperInterface =>
      (match WrapArgument(invocation.arguments)
       case None => Transition(Err(WrapArgumentMismatch), current)
       case Some(d) =>
         var w := WrapStep(current, d);
         if w.result.Ok? then Transition(Ok(HandledByWrapper), w.delegate)
         else Transition(Err(InvocationTarget(w.result.error)), w.delegate))
    case OtherType(_) =>
      Transition(Err(OnlyKStreamInvocations), current)
  }

  /** The delegate after the proxy has received `invocations` in order, starting from `current`. */
  function DelegateAfter(current: Option<KTable>, invocations: seq<MethodInvocation>): Option<KTable>
    decreases |invocations|
  {
    if invocations == [] then current
    else DelegateAfter(InvokeStep(current, invocations[0]).delegate, invocations[1..])
  }

  /** The table passed to the first `KTableWrapper` call that carries a non-null `KTable`. */
  function FirstWrappedTable(invocations: seq<MethodInvocation>): Option<KTable> {
    if invocations == [] then None
    else if invocations[0].declaringType == KTableWrapperInterface && WrapArgument(invocations[0].arguments).Some?
         && WrapArgument(invocations[0].arguments).value.Some?
    then WrapArgument(invocations[0].arguments).value
    else FirstWrappedTable(invocations[1..])
  }

  /** Once set, the delegate never changes, whatever the proxy receives afterwards. */
  lemma {:induction false} DelegateSetAtMostOnce(t: KTable, invocations: seq<MethodInvocation>)
    ensures DelegateAfter(Some(t), invocations) == Some(t)
  {
    if invocations != [] {
      DelegateSetAtMostOnce(t, invocations[1..]);
    }
  }

  /** Starting unset, the delegate is the table of the first non-null `wrap`, or still unset if there was none. */
  lemma {:induction false} DelegateIsFirstWrappedTable(invocations: seq<MethodInvocation>)
    ensures DelegateAfter(None, invocations) == FirstWrappedTable(invocations)
  {
    if invocations != [] {
      var next := InvokeStep(None, invocations[0]).delegate;
      if next.Some? {
        DelegateSetAtMostOnce(next.value, invocations[1..]);
      } else {
        DelegateIsFirstWrappedTable(invocations[1..]);
      }
    }
  }

  /** The interceptor behind every `KTable` input proxy. */
  class KTableWrapperHandler {
    var delegate: Option<KTable>

    constructor ()
      ensures delegate == None
    {
      delegate := None;
    }

    /** `wrap(d)`: set the delegate, which must be non-null and not yet set. */
    method Wrap(d: Option<KTable>) returns (r: Result<(), BindingError>)
      modifies this
      ensures d.None? ==> r == Err(NullDelegate) && delegate == old(delegate)
      ensures d.Some? && old(delegate).Some? ==>
        r == Err(DelegateAlreadySet(old(delegate).value)) && delegate == old(delegate)
      ensures d.Some? && old(delegate).None? ==> r == Ok(()) && delegate == d
      ensures Transition(r, delegate) == WrapStep(old(delegate), d)
    {
      if d.None? {
        return Err(NullDelegate);
      }
      if delegate.Some? {
        return Err(DelegateAlreadySet(delegate.value));
      }
      delegate := d;
      r := Ok(());
    }

    /** `invoke(invocation)`: dispatch on the interface that declares the called method. */
    method Invoke(invocation: MethodInvocation) returns (r: Result<Dispatch, BindingError>)
      modifies this
      ensures Transition(r, delegate) == InvokeStep(old(delegate), invocation)
      ensures invocation.declaringType != KTableWrapperInterface ==> delegate == old(delegate)
      ensures invocation.declaringType == KTableInterface && old(delegate).None? ==>
        r == Err(NoDelegate(invocation.methodName))
      ensures invocation.declaringType == KTableInterface && old(delegate).Some? ==>
        r == Ok(Forwarded(old(delegate).value, invocation.methodName, invocation.arguments))
      ensures invocation.declaringType.OtherType? ==> r == Err(OnlyKStreamInvocations)
    {
      match invocation.declaringType {
        case KTableInterface =>
          if delegate.None? {
            return Err(NoDelegate(invocation.methodName));
          }
          return Ok(Forwarded(delegate.value, invocation.methodName, invocation.arguments));
        case KTableWrapperInterface =>
          var argument := WrapArgument(invocation.arguments);
          if argument.None? {
            return Err(WrapArgumentMismatch);
          }
          var w := Wrap(argument.value);
          if w.Ok? {
            return Ok(HandledByWrapper);
          }
          return Err(InvocationTarget(w.error));
        case OtherType(_) =>
          return Err(OnlyKStreamInvocations);
      }
    }
  }
}
