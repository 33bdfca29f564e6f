/** Loading a text that was printed, on the heap. */
module JsonLoading {
  import opened JsonLoader
  import opened JsonReader
  import opened JsonRoundTrip
  import opened JsonValue
  import opened Wrappers

  // Loading a legal text whose objects have distinct names. If white space alone follows it, that
  // leaves on the heap an object that is some tree; it is the tree the text denotes if and only if
  // there is no surrogate-pair escape. If anything else follows, it is a syntax error.
  method LoadText(before: string, d: Doc, after: string, pf: string -> Option<real>)
    returns (r: Outcome<Obj>, l: Loader)
    requires Legal(d, pf) && DistinctNames(d) && IsWs(before) && EndsNumber(after)
    ensures r.Ok? <==> OnlySpace(after)
    ensures r.Fail? ==> r.error == SyntaxError
    ensures r.Ok? ==>
              && Ordered(l.heap) && Later(l.heap, r.value, -1)
              && ObjTree(l.heap, r.value, -1) == ReadsAs(d, pf)
              && (ObjTree(l.heap, r.value, -1) == Denotes(d, pf) <==> NoPairs(d))
  {
    hide Legal, DistinctNames, Text, ReadsAs, Denotes, NoPairs, Meaning, ObjTree, Ordered, Later, OnlySpace;
    NothingAfterValue(before, d, after, pf);
    ReadAgrees(d, pf);
    var s := new JsonStream(before + Text(d, after, pf));
    r, l := Load(s, pf);
  }
}
