// The countdown service: a server-streaming countdown and a client-streaming
// countdown whose single reply depends on the last number the client sent.
module CountDownService {
  import opened Wire

  // ---------------------------------------------------------------------
  // StartServerCountDown (server streaming)
  // ---------------------------------------------------------------------

  /** The messages of a countdown from `seconds`: seconds, seconds - 1, ..., 0. */
  function Countdown(seconds: int): seq<int>
    decreases seconds + 1
  {
    if seconds < 0 then [] else [seconds] + Countdown(seconds - 1)
  }

  /** A countdown from S >= 0 has S + 1 messages, message i being S - i; from S < 0 it is empty. */
  lemma {:induction false} CountdownShape(seconds: int)
    ensures |Countdown(seconds)| == if seconds < 0 then 0 else seconds + 1
    ensures forall i :: 0 <= i < |Countdown(seconds)| ==> Countdown(seconds)[i] == seconds - i
    decreases seconds + 1
  {
    if seconds >= 0 {
      CountdownShape(seconds - 1);
      var rest := Countdown(seconds - 1);
      assert Countdown(seconds) == [seconds] + rest;
      forall i | 0 < i < |Countdown(seconds)|
        ensures Countdown(seconds)[i] == seconds - i
      {
        assert Countdown(seconds)[i] == rest[i - 1];
      }
    }
  }

  /** Consecutive messages differ by exactly one, and a non-empty countdown ends at 0. */
  lemma CountdownStepsAndEnd(seconds: int)
    ensures forall i :: 0 <= i < |Countdown(seconds)| - 1 ==> Countdown(seconds)[i + 1] == Countdown(seconds)[i] - 1
    ensures seconds >= 0 ==> Countdown(seconds)[|Countdown(seconds)| - 1] == 0
  {
    CountdownShape(seconds);
  }

  /**
   * The server-streaming countdown: `responses` is the response stream, one
   * message per loop iteration, from the requested number down to 0.
   */
  method StartServerCountDown(seconds: Int32) returns (responses: seq<Int32>)
    ensures responses == Countdown(seconds)
  {
    var remainingSeconds: int := seconds;
    responses := [];
    while remainingSeconds >= 0
      invariant remainingSeconds <= seconds
      invariant remainingSeconds >= -1 || remainingSeconds == seconds
      invariant responses + Countdown(remainingSeconds) == Countdown(seconds)
      decreases remainingSeconds + 1
    {
      ghost var rest := Countdown(remainingSeconds - 1);
      assert Countdown(remainingSeconds) == [remainingSeconds] + rest;
      assert (responses + [remainingSeconds]) + rest == responses + ([remainingSeconds] + rest);
      responses := responses + [remainingSeconds];
      remainingSeconds := remainingSeconds - 1;
    }
  }

  // ---------------------------------------------------------------------
  // StartClientCountDown (client streaming)
  // ---------------------------------------------------------------------

  const Finished: string := "Countdown finished!"
  const EndedPrematurely: string := "Countdown ended prematurely."

  /** The value `lastNumber` holds once the request stream has been read: -1 if it was empty. */
  function LastNumber(requests: seq<int>): int {
    if requests == [] then -1 else requests[|requests| - 1]
  }

  /** The reply chosen from the last number received. */
  function FinalMessage(lastNumber: int): (message: string)
    ensures message == Finished <==> lastNumber == 0
    ensures message == Finished || message == EndedPrematurely
  {
    if lastNumber == 0 then Finished else EndedPrematurely
  }

  /**
   * The client-streaming countdown: reads every number the client sends,
   * keeping only the last, and replies once the client half-closes.
   */
  method StartClientCountDown(requests: seq<Int32>) returns (message: string)
    ensures message == FinalMessage(LastNumber(requests))
    ensures message == Finished <==> |requests| > 0 && requests[|requests| - 1] == 0
    ensures requests == [] ==> message == EndedPrematurely
  {
    var lastNumber := -1;
    var i := 0;
    while i < |requests|
      invariant 0 <= i <= |requests|
      invariant lastNumber == LastNumber(requests[..i])
    {
      lastNumber := requests[i];
      i := i + 1;
    }
    assert requests[..i] == requests;
    message := FinalMessage(lastNumber);
  }

  /** Only the last number matters: [5, 0] and [0] get the same reply. */
  lemma ReplyDependsOnlyOnLast(earlier1: seq<int>, earlier2: seq<int>, last: int)
    ensures FinalMessage(LastNumber(earlier1 + [last])) == FinalMessage(LastNumber(earlier2 + [last]))
    ensures FinalMessage(LastNumber([5, 0])) == FinalMessage(LastNumber([0])) == Finished
  {
  }

  /**
   * The client's countdown sender emits the same shape as the server's
   * countdown, so a client that counts down from S >= 0 to the end gets
   * "Countdown finished!", and one started below 0 sends nothing and gets
   * "Countdown ended prematurely.".
   */
  lemma ClientCountdownOutcome(seconds: int)
    ensures FinalMessage(LastNumber(Countdown(seconds))) == if seconds >= 0 then Finished else EndedPrematurely
  {
    CountdownShape(seconds);
  }
}
