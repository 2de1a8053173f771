/** The `std::priority_queue<Item, std::vector<Item>, std::greater<Item>>` of
    single_source_dijkstra, seen as a sequence of (distance, vertex) entries
    whose extract-min removes the lexicographically smallest pair. */
module MinHeap {

  /** A heap entry: (tentative distance, vertex). */
  type Item = (int, int)

  /** The pair order of `std::greater<std::pair<double, int>>`: by distance,
      ties by vertex id. */
  predicate ItemLe(a: Item, b: Item)
  {
    a.0 < b.0 || (a.0 == b.0 && a.1 <= b.1)
  }

  /** `heap.top(); heap.pop();`: the smallest entry and the entries left. */
  method PopMin(h: seq<Item>) returns (top: Item, rest: seq<Item>)
    requires |h| > 0
    ensures top in h
    ensures forall x :: x in h ==> ItemLe(top, x)
    ensures multiset(rest) == multiset(h) - multiset{top}
    ensures |rest| == |h| - 1
  {
    var k := 0;
    for i := 1 to |h|
      invariant 0 <= k < |h|
      invariant forall j :: 0 <= j < i ==> ItemLe(h[k], h[j])
    {
      if !ItemLe(h[k], h[i]) {
        k := i;
      }
    }
    top := h[k];
    rest := h[..k] + h[k + 1..];
    assert h == h[..k] + [top] + h[k + 1..];
  }
}
