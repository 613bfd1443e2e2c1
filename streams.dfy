/** `list.stream().map(f).collect(...)` and `.toList()` on a sequence. */
module Streams {

  /** Maps `f` over `s`, keeping the length and the order of the elements. */
  function Map<A, B>(f: A -> B, s: seq<A>): (r: seq<B>)
    ensures |r| == |s|
    ensures forall i :: 0 <= i < |s| ==> r[i] == f(s[i])
  {
    if s == [] then [] else [f(s[0])] + Map(f, s[1..])
  }

  /** Mapping a concatenation maps each part in turn. */
  lemma MapAppend<A, B>(f: A -> B, s: seq<A>, t: seq<A>)
    ensures Map(f, s + t) == Map(f, s) + Map(f, t)
  {
    assert |Map(f, s + t)| == |Map(f, s) + Map(f, t)|;
    forall i | 0 <= i < |s + t|
      ensures Map(f, s + t)[i] == (Map(f, s) + Map(f, t))[i]
    {
      if i >= |s| {
        assert (s + t)[i] == t[i - |s|];
      }
    }
  }
}
