/** Optional values: the model's stand-in for a Python call that may raise or return None. */
module Wrappers {
  datatype Option<+T> = None | Some(value: T)

  /** The first present value at or after `i`. */
  function FirstSome<T>(ys: seq<Option<T>>, i: nat): (r: Option<T>)
    requires i <= |ys|
    decreases |ys| - i
  {
    if i == |ys| then None
    else if ys[i].Some? then ys[i]
    else FirstSome(ys, i + 1)
  }

  /**
   * The scan takes the first present value: absent ones are skipped, and with
   * none present the result is absent.
   */
  lemma {:induction false} FirstSomeIsFirst<T>(ys: seq<Option<T>>, i: nat)
    requires i <= |ys|
    ensures FirstSome(ys, i).None? <==> forall j :: i <= j < |ys| ==> ys[j].None?
    ensures FirstSome(ys, i).Some? ==>
              exists j :: i <= j < |ys| && ys[j] == FirstSome(ys, i) && forall k :: i <= k < j ==> ys[k].None?
    decreases |ys| - i
  {
    if i < |ys| && ys[i].None? {
      FirstSomeIsFirst(ys, i + 1);
    }
  }
}
