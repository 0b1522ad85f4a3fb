/** The optional-value datatype shared by the rest of the model: a JavaScript
    value that may be `undefined`, a search that may find nothing. */
module Options {

  datatype Option<+T> = None | Some(value: T)

  /** Applies `f` to every element, in order, and gives up with `None` as
      soon as one application does: a `map` whose callback may throw. */
  function MapAll<A, B>(f: A -> Option<B>, xs: seq<A>): (r: Option<seq<B>>)
    ensures r.None? <==> exists j :: 0 <= j < |xs| && f(xs[j]).None?
    ensures r.Some? ==> |r.value| == |xs|
    ensures r.Some? ==> forall j :: 0 <= j < |xs| ==> f(xs[j]) == Some(r.value[j])
  {
    if xs == [] then Some([])
    else
      var head := f(xs[0]);
      var rest := MapAll(f, xs[1..]);
      assert forall j :: 1 <= j < |xs| ==> xs[j] == xs[1..][j - 1];
      if head.None? || rest.None? then None
      else Some([head.value] + rest.value)
  }
}
