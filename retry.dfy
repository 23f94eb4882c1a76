/**
 * `retry_request` of mangadex.py: GET a URL again and again until a response
 * is ok or a counter of attempts runs out.
 *
 * The network is an oracle: the finite sequence of what successive
 * `requests.get` calls do. The loop consumes it from the front; when it is
 * used up before the source would return, the outcome is `Pending` (the
 * source would still be retrying).
 */
module Retry {

  /** What one `requests.get(url)` call does: raise, or answer with a status. */
  datatype Attempt = Raised | Status(code: int, ok: bool)

  /** What `retry_request` returns: an ok response, `None`, or nothing yet. */
  datatype Reply = Response(resp: Attempt) | NoResponse | Pending

  datatype Outcome = Outcome(reply: Reply, consumed: nat)

  predicate IsOk(a: Attempt) {
    a.Status? && a.ok
  }

  /** Index of the first ok answer in `net`, or `|net|` if there is none. */
  function FirstOk(net: seq<Attempt>): (k: nat)
    ensures k <= |net|
    ensures k < |net| ==> IsOk(net[k])
    ensures forall j :: 0 <= j < k ==> !IsOk(net[j])
  {
    if net == [] then 0
    else if IsOk(net[0]) then 0
    else 1 + FirstOk(net[1..])
  }

  /**
   * Reference outcome of `retry_request(url, times)` against `net`.
   *
   * After the attempt at index `i` fails the counter holds `times - (i + 1)`,
   * but it is compared with 0 only after a non-ok status, never after an
   * exception. So the call can give up only at index `times - 1`, and only
   * when that attempt is a status (not an exception) and no earlier one was ok.
   */
  function RetryOutcome(net: seq<Attempt>, times: int): (o: Outcome)
    ensures o.consumed <= |net|
    ensures o.reply.Response? ==>
              && 1 <= o.consumed
              && o.reply.resp == net[o.consumed - 1]
              && IsOk(o.reply.resp)
              && forall j :: 0 <= j < o.consumed - 1 ==> !IsOk(net[j])
    ensures o.reply.NoResponse? ==>
              && 1 <= times == o.consumed
              && net[times - 1].Status? && !net[times - 1].ok
              && forall j :: 0 <= j < times ==> !IsOk(net[j])
    ensures o.reply.Pending? ==>
              && o.consumed == |net|
              && forall j :: 0 <= j < |net| ==> !IsOk(net[j])
  {
    var f := FirstOk(net);
    if 1 <= times && times - 1 < f && times - 1 < |net| && net[times - 1].Status? then
      Outcome(NoResponse, times)
    else if f < |net| then
      Outcome(Response(net[f]), f + 1)
    else
      Outcome(Pending, |net|)
  }

  /** The loop of `retry_request`, consuming attempts from the front of `net`. */
  method RetryRequest(net: seq<Attempt>, times: int) returns (reply: Reply, consumed: nat)
    ensures Outcome(reply, consumed) == RetryOutcome(net, times)
  {
    var left := times;
    var i := 0;
    while i < |net|
      invariant 0 <= i <= |net|
      invariant left == times - i
      invariant forall j :: 0 <= j < i ==> !IsOk(net[j])
      invariant !(1 <= times <= i && net[times - 1].Status?)
    {
      var attempt := net[i];
      i := i + 1;
      if attempt.Raised? {
        left := left - 1;
        continue;
      }
      if attempt.ok {
        return Response(attempt), i;
      }
      left := left - 1;
      if left == 0 {
        return NoResponse, i;
      }
    }
    return Pending, |net|;
  }

  /** With a budget of N > 0 and only non-ok statuses, exactly N attempts are made and `None` returned. */
  lemma AllFailingStatusesExhaust(net: seq<Attempt>, n: int)
    requires 0 < n <= |net|
    requires forall j :: 0 <= j < n ==> net[j].Status? && !net[j].ok
    ensures RetryOutcome(net, n) == Outcome(NoResponse, n)
  {
    assert !IsOk(net[n - 1]);
  }

  /**
   * An ok answer on attempt k, with no exhaustion before it (k <= times, or
   * times <= 0, which the countdown never brings to zero), is returned after
   * exactly k attempts.
   */
  lemma SucceedsOnAttempt(net: seq<Attempt>, times: int, k: nat)
    requires 1 <= k <= |net|
    requires times <= 0 || k <= times
    requires IsOk(net[k - 1])
    requires forall j :: 0 <= j < k - 1 ==> !IsOk(net[j])
    ensures RetryOutcome(net, times) == Outcome(Response(net[k - 1]), k)
  {
    assert FirstOk(net) == k - 1;
  }

  /** `times == 0` (or below) never returns `None`: only an ok answer ends the call. */
  lemma UnboundedNeverGivesUp(net: seq<Attempt>, times: int)
    requires times <= 0
    ensures RetryOutcome(net, times).reply != NoResponse
  {
  }

  /**
   * `retry_request` never hands back a non-ok response, and consumes no
   * attempt after the first ok one.
   */
  lemma NeverReturnsFailure(net: seq<Attempt>, times: int)
    ensures var o := RetryOutcome(net, times);
            o.reply.Response? ==> IsOk(o.reply.resp) && o.consumed == FirstOk(net) + 1
  {
  }

  /**
   * As written, an exception decrements the counter but skips the test for
   * zero: with a budget of one attempt, an exception followed by any number
   * of non-ok statuses never returns `None`.
   */
  lemma ExceptionOutlastsBudget(net: seq<Attempt>)
    requires 2 <= |net| && net[0] == Raised
    requires forall j :: 1 <= j < |net| ==> net[j].Status? && !net[j].ok
    ensures RetryOutcome(net, 1) == Outcome(Pending, |net|)
  {
  }

  /**
   * The evidently intended loop: every failed attempt, exception or non-ok
   * status, uses one unit of the budget, and a bounded budget stops the call
   * after at most `times` attempts.
   */
  method BoundedRetryRequest(net: seq<Attempt>, times: int) returns (reply: Reply, consumed: nat)
    ensures consumed <= |net|
    ensures 1 <= times ==> consumed <= times
    ensures reply.Response? ==>
              && 1 <= consumed
              && reply.resp == net[consumed - 1] && IsOk(reply.resp)
              && forall j :: 0 <= j < consumed - 1 ==> !IsOk(net[j])
    ensures reply.NoResponse? <==>
              && 1 <= times <= |net|
              && forall j :: 0 <= j < times ==> !IsOk(net[j])
    ensures reply.NoResponse? ==> consumed == times
    ensures reply.Pending? ==> consumed == |net| && forall j :: 0 <= j < |net| ==> !IsOk(net[j])
  {
    var left := times;
    var i := 0;
    while i < |net|
      invariant 0 <= i <= |net|
      invariant left == times - i
      invariant 1 <= times ==> i < times
      invariant forall j :: 0 <= j < i ==> !IsOk(net[j])
    {
      var attempt := net[i];
      i := i + 1;
      if IsOk(attempt) {
        return Response(attempt), i;
      }
      left := left - 1;
      if left == 0 {
        return NoResponse, i;
      }
    }
    return Pending, |net|;
  }
}
