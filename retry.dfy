/** The bounded retry loop `_try_open` shared by the change-log
    backends. The outcome of each attempt to (close and re)open the
    store is an oracle: `outcomes[i]` says whether attempt `i` succeeds,
    and attempts past the end of the oracle fail. The 10 ms sleep
    between attempts is not modelled. */
module Retry {
  import opened Values

  /** `Changes._retry`. */
  const RetryLimit: nat := 10

  predicate Opens(outcomes: seq<bool>, i: nat) {
    i < |outcomes| && outcomes[i]
  }

  /** The first attempt at or after `from` and before the limit that
      opens the store, if there is one. */
  function FirstOpening(outcomes: seq<bool>, from: nat): (r: Option<nat>)
    ensures r.Some? ==> from <= r.value < RetryLimit && Opens(outcomes, r.value)
    decreases RetryLimit - from
  {
    if from >= RetryLimit then None
    else if Opens(outcomes, from) then Some(from)
    else FirstOpening(outcomes, from + 1)
  }

  /** `FirstOpening` finds exactly the first successful attempt within
      the limit, and finds nothing only when every attempt fails. */
  lemma {:induction false} FirstOpeningIsFirst(outcomes: seq<bool>, from: nat)
    ensures FirstOpening(outcomes, from).Some? ==>
      var k := FirstOpening(outcomes, from).value;
      from <= k < RetryLimit && Opens(outcomes, k) &&
      forall j :: from <= j < k ==> !Opens(outcomes, j)
    ensures FirstOpening(outcomes, from).None? <==>
      forall j :: from <= j < RetryLimit ==> !Opens(outcomes, j)
    decreases RetryLimit - from
  {
    if from < RetryLimit && !Opens(outcomes, from) {
      FirstOpeningIsFirst(outcomes, from + 1);
    }
  }

  /** `_try_open`: at most `RetryLimit` attempts, `true` at the first
      success, `false` only after every attempt failed. */
  method TryOpen(outcomes: seq<bool>) returns (ok: bool, attempts: nat)
    ensures 1 <= attempts <= RetryLimit
    ensures ok <==> FirstOpening(outcomes, 0).Some?
    ensures ok ==> attempts == FirstOpening(outcomes, 0).value + 1
    ensures !ok ==> attempts == RetryLimit
    ensures ok ==> Opens(outcomes, attempts - 1)
    ensures forall j :: 0 <= j < attempts - 1 ==> !Opens(outcomes, j)
  {
    FirstOpeningIsFirst(outcomes, 0);
    attempts := 0;
    while attempts < RetryLimit
      invariant 0 <= attempts <= RetryLimit
      invariant forall j :: 0 <= j < attempts ==> !Opens(outcomes, j)
    {
      attempts := attempts + 1;
      if Opens(outcomes, attempts - 1) {
        return true, attempts;
      }
    }
    return false, attempts;
  }
}
