/**
 * What one invocation of a header listener does: it sends a sequence of
 * commands, and it either returns normally or stops on an uncaught exception.
 * Commands sent before the exception stay sent.
 */
module Runs {
  import opened Wrappers
  import opened JsValue

  datatype Run<C> = Run(sent: seq<C>, fault: Option<Fault>)

  /** Sent nothing and returned normally. */
  function Quiet<C>(): Run<C> {
    Run([], None)
  }

  /** Sent nothing and threw. */
  function Throws<C>(f: Fault): Run<C> {
    Run([], Some(f))
  }

  /** A step that yields one command, or throws before sending anything. */
  function Emit<C>(r: Result<C, Fault>): Run<C> {
    match r
    case Success(c) => Run([c], None)
    case Failure(e) => Throws(e)
  }

  /** Run `first`, then `next` unless `first` threw. */
  function Then<C>(first: Run<C>, next: Run<C>): Run<C> {
    if first.fault.Some? then first else Run(first.sent + next.sent, next.fault)
  }

  lemma ThenAssociative<C>(a: Run<C>, b: Run<C>, c: Run<C>)
    ensures Then(Then(a, b), c) == Then(a, Then(b, c))
  {
    if a.fault.None? && b.fault.None? {
      assert a.sent + b.sent + c.sent == a.sent + (b.sent + c.sent);
    }
  }

  /** A run that threw ignores whatever was meant to follow it. */
  lemma ThenAfterFault<C>(a: Run<C>, b: Run<C>)
    requires a.fault.Some?
    ensures Then(a, b) == a
  {
  }

  /** Following a run with nothing leaves it as it is. */
  lemma ThenQuiet<C>(a: Run<C>)
    ensures Then(a, Quiet()) == a
  {
    assert a.sent + [] == a.sent;
  }
}
