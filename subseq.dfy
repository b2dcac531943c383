/** Positions of a sequence picked out by a test, as a Python list
    comprehension with an `if` or a loop with `continue` visits them. */
module Subseq {

  /** The positions `j` of `s` with `p(s[j])`, in increasing order. */
  function Selected<T>(s: seq<T>, p: T -> bool): (idx: seq<nat>)
    ensures forall k :: 0 <= k < |idx| ==> idx[k] < |s| && p(s[idx[k]])
    ensures forall k, l :: 0 <= k < l < |idx| ==> idx[k] < idx[l]
    ensures forall j :: 0 <= j < |s| && p(s[j]) ==> j in idx
    decreases |s|
  {
    if s == [] then []
    else
      var init := s[..|s| - 1];
      var rest := Selected(init, p);
      assert forall k :: 0 <= k < |rest| ==> s[rest[k]] == init[rest[k]];
      if p(s[|s| - 1]) then rest + [|s| - 1] else rest
  }

  /** Extending the sequence by one element extends the selection by at most
      that element's position. */
  lemma SelectedSnoc<T>(s: seq<T>, x: T, p: T -> bool)
    ensures Selected(s + [x], p) == Selected(s, p) + (if p(x) then [|s|] else [])
    ensures forall k :: 0 <= k < |Selected(s, p)| ==>
      (s + [x])[Selected(s, p)[k]] == s[Selected(s, p)[k]]
  {
    assert (s + [x])[..|s|] == s;
  }
}
