/**
 * Sending an os.Signal to an arbitrary value: the value is asked, by a
 * type assertion, whether it has the method the signal needs
 * (Interrupt() for os.Interrupt, Kill() for os.Kill), and the method is
 * called only when it is there.
 */
module Signal {
  import opened Wrappers

  /** An os.Signal: its number on a Unix system and the text its String method gives. */
  datatype OsSignal = OsSignal(number: int, name: string)

  /** os.Interrupt, which is syscall.SIGINT. */
  const OsInterrupt := OsSignal(2, "interrupt")

  /** os.Kill, which is syscall.SIGKILL. */
  const OsKill := OsSignal(9, "killed")

  /**
   * What a value offers, one field per optional method: None when it has
   * no such method (the type assertion fails), Some(e) when it has one
   * and calling it returns the error e (None for a nil error).
   */
  datatype Value<E> = Value(interrupt: Option<Option<E>>, kill: Option<Option<E>>)

  /** The methods that can be called on the value. */
  datatype Method = InterruptMethod | KillMethod

  /** The errors the signalling functions return: errors.NotSupported, or the method's own error. */
  datatype SignalError<E> = NotSupported(message: string) | Raised(cause: E)

  /** A `(bool, error)` answer together with the methods that were called on the value, in order. */
  datatype Sent<E> = Sent(supported: bool, err: Option<SignalError<E>>, calls: seq<Method>)

  /** The answer of a method the value has: (true, its error); none: (false, nil) and no call. */
  function Invoke<E>(capability: Option<Option<E>>, m: Method): (r: Sent<E>)
    ensures r.supported <==> capability.Some?
    ensures capability.None? ==> r.err.None? && r.calls == []
    ensures capability.Some? ==> r.calls == [m]
    ensures capability.Some? ==> (r.err.None? <==> capability.value.None?)
    ensures capability.Some? && capability.value.Some? ==> r.err == Some(Raised(capability.value.value))
  {
    match capability
    case None => Sent(false, None, [])
    case Some(None) => Sent(true, None, [m])
    case Some(Some(e)) => Sent(true, Some(Raised(e)), [m])
  }

  /** interrupt: Interrupt() if the value has it. */
  function Interrupt<E>(raw: Value<E>): (r: Sent<E>)
    ensures r.supported <==> raw.interrupt.Some?
    ensures r.calls == if raw.interrupt.Some? then [InterruptMethod] else []
  {
    Invoke(raw.interrupt, InterruptMethod)
  }

  /** kill: Kill() if the value has it. */
  function Kill<E>(raw: Value<E>): (r: Sent<E>)
    ensures r.supported <==> raw.kill.Some?
    ensures r.calls == if raw.kill.Some? then [KillMethod] else []
  {
    Invoke(raw.kill, KillMethod)
  }

  /**
   * KillIfSupported: nil and no call when the value has no Kill method,
   * otherwise one call of Kill and its error.
   */
  function KillIfSupported<E>(raw: Value<E>): (r: (Option<SignalError<E>>, seq<Method>))
    ensures raw.kill.None? ==> r == (None, [])
    ensures raw.kill.Some? ==> r.1 == [KillMethod]
    ensures raw.kill.Some? ==> (r.0.None? <==> raw.kill.value.None?)
    ensures raw.kill.Some? && raw.kill.value.Some? ==> r.0 == Some(Raised(raw.kill.value.value))
  {
    var s := Kill(raw);
    (s.err, s.calls)
  }

  /** recognizedSignals: which function each recognized signal is dispatched to. */
  const RecognizedSignals: map<OsSignal, Method> := map[OsInterrupt := InterruptMethod, OsKill := KillMethod]

  function Apply<E>(f: Method, raw: Value<E>): Sent<E> {
    match f
    case InterruptMethod => Interrupt(raw)
    case KillMethod => Kill(raw)
  }

  /** errors.NotSupportedf("signal %v", sig). */
  function NotSupportedSignal<E>(sig: OsSignal): SignalError<E> {
    NotSupported("signal " + sig.name + " not supported")
  }

  /**
   * signal as written: it looks the signal up in the package-level
   * recognizedSignals table, not in its own `recognized` parameter.
   */
  function SignalAsWritten<E>(raw: Value<E>, sig: OsSignal, recognized: map<OsSignal, Method>): (r: Sent<E>)
    ensures sig !in RecognizedSignals ==> r == Sent(false, Some(NotSupportedSignal(sig)), [])
    ensures sig in RecognizedSignals ==> r == Apply(RecognizedSignals[sig], raw)
  {
    if sig !in RecognizedSignals then Sent(false, Some(NotSupportedSignal(sig)), [])
    else Apply(RecognizedSignals[sig], raw)
  }

  /** With an empty table the signal as written still reaches Interrupt(): the parameter is never read. */
  lemma SignalAsWrittenIgnoresTable<E>(raw: Value<E>)
    requires raw.interrupt == Some(None)
    ensures SignalAsWritten(raw, OsInterrupt, map[]) == Sent(true, None, [InterruptMethod])
    ensures SignalWith(raw, OsInterrupt, map[]) == Sent(false, Some(NotSupportedSignal(OsInterrupt)), [])
  {
  }

  /** signal as intended: the lookup goes through the table it is given. */
  function SignalWith<E>(raw: Value<E>, sig: OsSignal, recognized: map<OsSignal, Method>): (r: Sent<E>)
    ensures sig !in recognized ==> r == Sent(false, Some(NotSupportedSignal(sig)), [])
    ensures sig in recognized ==> r == Apply(recognized[sig], raw)
  {
    if sig !in recognized then Sent(false, Some(NotSupportedSignal(sig)), [])
    else Apply(recognized[sig], raw)
  }

  /** Through the package table, the two versions agree: the defect has no effect on Signal. */
  lemma SignalWithPackageTable<E>(raw: Value<E>, sig: OsSignal, recognized: map<OsSignal, Method>)
    ensures SignalWith(raw, sig, RecognizedSignals) == SignalAsWritten(raw, sig, recognized)
  {
  }

  /**
   * Signal: os.Interrupt is answered by Interrupt(), os.Kill by Kill();
   * any other signal by (false, NotSupported) without a call on the value.
   */
  function Signal<E>(raw: Value<E>, sig: OsSignal): (r: Sent<E>)
    ensures sig == OsInterrupt ==> r == Interrupt(raw)
    ensures sig == OsKill ==> r == Kill(raw)
    ensures sig != OsInterrupt && sig != OsKill ==> r == Sent(false, Some(NotSupportedSignal(sig)), [])
  {
    SignalWith(raw, sig, RecognizedSignals)
  }

  /** At most one method is ever called, and `supported` says whether one was. */
  lemma SignalCallsAtMostOne<E>(raw: Value<E>, sig: OsSignal)
    ensures |Signal(raw, sig).calls| <= 1
    ensures Signal(raw, sig).supported <==> |Signal(raw, sig).calls| == 1
    ensures Signal(raw, sig).err.Some? && Signal(raw, sig).err.value.NotSupported? ==> !Signal(raw, sig).supported
  {
  }

  /** Only the method the signal names is consulted: changing the other one changes nothing. */
  lemma SignalIgnoresOtherMethod<E>(raw: Value<E>, sig: OsSignal, other: Option<Option<E>>)
    ensures sig == OsInterrupt ==> Signal(raw.(kill := other), sig) == Signal(raw, sig)
    ensures sig == OsKill ==> Signal(raw.(interrupt := other), sig) == Signal(raw, sig)
  {
  }
}
