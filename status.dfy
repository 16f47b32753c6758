/** The four states of a coroutine and the integer codes the scheduler's
    public `status` query reports for them. */
module CoroutineStatus {

  /** A coroutine is Ready after creation, Running while it owns the shared
      stack, Suspend after it yielded, and Dead once its entry returned. */
  datatype Status = Dead | Ready | Running | Suspend

  /** The enumerator value of each state: DEAD 0, READY 1, RUNNING 2, SUSPEND 3. */
  function Code(s: Status): (c: int)
    ensures 0 <= c <= 3
    ensures FromCode(c) == s
  {
    match s
    case Dead => 0
    case Ready => 1
    case Running => 2
    case Suspend => 3
  }

  /** Reads a status code back as a state. */
  function FromCode(c: int): (s: Status)
    requires 0 <= c <= 3
  {
    if c == 0 then Dead
    else if c == 1 then Ready
    else if c == 2 then Running
    else Suspend
  }

  /** Every code in range names exactly one state, so the codes are a bijection. */
  lemma CodeRoundTrip(c: int)
    requires 0 <= c <= 3
    ensures Code(FromCode(c)) == c
  {
  }
}
