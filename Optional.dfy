/** An optional value: the outcome of a decoding step that can fail. */
module Optional {
  datatype Option<T> = None | Some(value: T)

  /** The values present in xs, in order. */
  function Present<T>(xs: seq<Option<T>>): (r: seq<T>)
    ensures |r| <= |xs|
  {
    if xs == [] then []
    else
      var last := xs[|xs| - 1];
      Present(xs[..|xs| - 1]) + (if last.Some? then [last.value] else [])
  }

  /** Nothing is dropped exactly when every outcome is present, and then the k-th
      value kept is the k-th outcome. */
  lemma {:induction false} PresentAll<T>(xs: seq<Option<T>>)
    ensures |Present(xs)| == |xs| <==> forall k :: 0 <= k < |xs| ==> xs[k].Some?
    ensures |Present(xs)| == |xs| ==> forall k :: 0 <= k < |xs| ==> xs[k] == Some(Present(xs)[k])
  {
    if xs != [] {
      var n := |xs| - 1;
      var init := xs[..n];
      PresentAll(init);
      assert forall k :: 0 <= k < n ==> init[k] == xs[k];
      if |Present(xs)| == |xs| {
        assert |Present(init)| == n;
        assert forall k :: 0 <= k < n ==> Present(xs)[k] == Present(init)[k];
      }
    }
  }
}
