/**
 * Policies and the fatal-check helper shared by the queue.
 *
 * WaitPolicy selects, at compile time in the source, which sides of the
 * queue may block: the producer (PushAwait), the consumer (PopAwait), both
 * or neither. Assert aborts the process with a diagnostic when its
 * condition is false; here an abort is an Outcome value, so that the order
 * in which a member's checks fire can be stated and proved.
 */
module Common {

  datatype WaitPolicy = NoWaits | PushAwait | PopAwait | BothAwait

  /** Await_Pushes: the producer side may block. */
  function AwaitPushes(waiting: WaitPolicy): (r: bool)
    ensures r <==> waiting != NoWaits && waiting != PopAwait
  {
    waiting == PushAwait || waiting == BothAwait
  }

  /** Await_Pops: the consumer side may block. */
  function AwaitPops(waiting: WaitPolicy): (r: bool)
    ensures r <==> waiting != NoWaits && waiting != PushAwait
  {
    waiting == PopAwait || waiting == BothAwait
  }

  /** The policy that has exactly the given blocking sides. */
  function PolicyOf(pushAwait: bool, popAwait: bool): (waiting: WaitPolicy)
    ensures AwaitPushes(waiting) == pushAwait && AwaitPops(waiting) == popAwait
  {
    if pushAwait && popAwait then BothAwait
    else if pushAwait then PushAwait
    else if popAwait then PopAwait
    else NoWaits
  }

  /**
   * The two capability flags determine the policy: NoWaits enables neither
   * blocking side, BothAwait both, and each of the other two exactly one.
   */
  lemma PolicyIsItsCapabilities(waiting: WaitPolicy)
    ensures PolicyOf(AwaitPushes(waiting), AwaitPops(waiting)) == waiting
    ensures !AwaitPushes(waiting) && !AwaitPops(waiting) <==> waiting == NoWaits
    ensures AwaitPushes(waiting) && AwaitPops(waiting) <==> waiting == BothAwait
  {
  }

  /** What a sequence of fatal checks leaves: either control continues or the process aborts. */
  datatype Outcome = Continue | Abort(message: string)

  /** Assert: continue when the condition holds, otherwise abort with the message. */
  function Assert(condition: bool, message: string): (r: Outcome)
    ensures r.Continue? <==> condition
    ensures r.Abort? ==> r.message == message
  {
    if condition then Continue else Abort(message)
  }

  /** One Assert call: its condition and its diagnostic. */
  datatype Check = Check(condition: bool, message: string)

  /** Asserts run one after the other; the first failing one aborts. */
  function RunChecks(checks: seq<Check>): (r: Outcome)
    ensures r.Continue? <==> forall i :: 0 <= i < |checks| ==> checks[i].condition
    ensures r.Abort? ==> exists i :: 0 <= i < |checks| && !checks[i].condition
                            && r.message == checks[i].message
                            && forall j :: 0 <= j < i ==> checks[j].condition
  {
    if checks == [] then Continue
    else match Assert(checks[0].condition, checks[0].message)
      case Abort(message) => Abort(message)
      case Continue =>
        var rest := RunChecks(checks[1..]);
        assert rest.Abort? ==> exists i :: 0 < i < |checks| && !checks[i].condition
                                   && rest.message == checks[i].message
                                   && forall j :: 0 <= j < i ==> checks[j].condition by {
          if rest.Abort? {
            var i :| 0 <= i < |checks| - 1 && !checks[1..][i].condition
                     && rest.message == checks[1..][i].message
                     && forall j :: 0 <= j < i ==> checks[1..][j].condition;
            assert forall j :: 0 <= j < i + 1 ==> checks[j].condition by {
              forall j | 0 <= j < i + 1 ensures checks[j].condition {
                if j > 0 { assert checks[j] == checks[1..][j - 1]; }
              }
            }
          }
        }
        rest
  }
}
