/**
 * The callback protocol of the scanners in kmod/update.c: results are handed to a callback one at a
 * time, and the first call that it answers with false stops the scan. A callback is the function
 * `accept`, its answer to its `k`-th call.
 */
module Callback {

  /** The calls made so far were all answered with true, and `rest` is still to be reported. */
  ghost predicate Going<T>(calls: seq<T>, rest: seq<T>, all: seq<T>, accept: nat -> bool) {
    calls + rest == all && forall k | 0 <= k < |calls| :: accept(k)
  }

  /**
   * The scan is over. Either everything was reported and accepted, or the last call made is the
   * first one that was refused.
   */
  ghost predicate Done<T>(ok: bool, calls: seq<T>, all: seq<T>, accept: nat -> bool) {
    && calls <= all
    && (ok ==> calls == all)
    && (!ok ==> calls != [])
    && forall k | 0 <= k < |calls| :: accept(k) == (ok || k < |calls| - 1)
  }

  method Report<T>(calls: seq<T>, x: T, accept: nat -> bool, ghost rest: seq<T>, ghost all: seq<T>)
    returns (ok: bool, calls': seq<T>)
    requires Going(calls, [x] + rest, all, accept)
    ensures ok ==> Going(calls', rest, all, accept)
    ensures !ok ==> Done(false, calls', all, accept)
    ensures calls' == calls + [x] && ok == accept(|calls|)
  {
    calls' := calls + [x];
    ok := accept(|calls|);
    assert calls' + rest == calls + ([x] + rest);
  }

  /** A callback that never refuses sees everything. */
  lemma NeverRefused<T>(ok: bool, calls: seq<T>, all: seq<T>, accept: nat -> bool)
    requires Done(ok, calls, all, accept) && forall k :: accept(k)
    ensures ok && calls == all
  {
    var last := if calls == [] then 0 else |calls| - 1;
    assert accept(last);
  }
}
