/**
 * The shape shared by the two loops of generate_rss.py: walk a list in order,
 * skip some elements, and append a value computed from each of the others.
 */
module FilterMaps {

  import opened Optional

  /** The values f gives for the elements of xs it does not reject (None), in the order of xs. */
  function FilterMap<A, B>(f: A -> Option<B>, xs: seq<A>): (r: seq<B>)
    ensures |r| <= |xs|
  {
    if xs == [] then []
    else
      FilterMap(f, xs[..|xs| - 1]) + match f(xs[|xs| - 1]) case Some(b) => [b] case None => []
  }

  /** The positions of the elements of xs that f does not reject, increasing. */
  function Kept<A, B>(f: A -> Option<B>, xs: seq<A>): (r: seq<nat>)
    ensures forall k :: 0 <= k < |r| ==> r[k] < |xs|
    ensures forall k, l :: 0 <= k < l < |r| ==> r[k] < r[l]
  {
    if xs == [] then []
    else Kept(f, xs[..|xs| - 1]) + if f(xs[|xs| - 1]).Some? then [|xs| - 1] else []
  }

  /** Extending the list by one element appends at most that element's value. */
  lemma FilterMapSnoc<A, B>(f: A -> Option<B>, xs: seq<A>, x: A)
    ensures FilterMap(f, xs + [x]) == FilterMap(f, xs) + match f(x) case Some(b) => [b] case None => []
  {
    assert (xs + [x])[..|xs|] == xs;
  }

  /**
   * FilterMap loses nothing and invents nothing: its k-th value is f's value for
   * the element at the k-th kept position, the kept positions increase, and a
   * position is kept exactly when f does not reject its element.
   */
  lemma {:induction false} FilterMapKeepsOrder<A, B>(f: A -> Option<B>, xs: seq<A>)
    ensures |Kept(f, xs)| == |FilterMap(f, xs)|
    ensures forall k :: 0 <= k < |Kept(f, xs)| ==> f(xs[Kept(f, xs)[k]]) == Some(FilterMap(f, xs)[k])
    ensures forall i :: 0 <= i < |xs| ==> (f(xs[i]).Some? <==> i in Kept(f, xs))
  {
    if xs != [] {
      var init := xs[..|xs| - 1];
      FilterMapKeepsOrder(f, init);
      assert forall i :: 0 <= i < |init| ==> init[i] == xs[i];
    }
  }
}
