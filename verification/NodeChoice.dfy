/**
 Choosing a relay node (dchat-tuna/nkn-tuna-session/node.go): faster nodes are more likely to come first, and
 the others follow by weight. Measurements and random draws are real numbers.
 */
module NodeChoice {

  type NonNegative = r: real | 0.0 <= r

  datatype Node = Node(bandwidth: NonNegative, delay: NonNegative, address: string)

  function Weight(n: Node): (w: real)
    ensures w > 0.0
  {
    var ratio := (n.bandwidth + 1.0) / (n.delay + 1.0);
    ProductIsPositive(ratio, ratio);
    ProductIsPositive(ratio * ratio, ratio * ratio);
    ratio * ratio * (ratio * ratio)
  }

  lemma ProductIsPositive(a: real, b: real)
    requires a > 0.0 && b > 0.0
    ensures a * b > 0.0
  {
  }

  /** A faster node never weighs less: more bandwidth or less delay, other things equal. */
  lemma WeightGrows(a: Node, b: Node)
    requires a.bandwidth <= b.bandwidth && b.delay <= a.delay
    ensures Weight(a) <= Weight(b)
  {
    var x, y := (a.bandwidth + 1.0) / (a.delay + 1.0), (b.bandwidth + 1.0) / (b.delay + 1.0);
    RatioGrows(a.bandwidth + 1.0, a.delay + 1.0, b.bandwidth + 1.0, b.delay + 1.0);
    SquareGrows(x, y);
    SquareGrows(x * x, y * y);
  }

  /** A node with twice the bandwidth or half the delay, each counted from one, is sixteen times as likely. */
  lemma TwiceAsGoodSixteenfold(a: Node, b: Node)
    requires (b.bandwidth + 1.0) * (a.delay + 1.0) == 2.0 * (a.bandwidth + 1.0) * (b.delay + 1.0)
    ensures Weight(b) == 16.0 * Weight(a)
  {
    var x, y := (a.bandwidth + 1.0) / (a.delay + 1.0), (b.bandwidth + 1.0) / (b.delay + 1.0);
    assert y == 2.0 * x;
    assert y * y == 4.0 * (x * x);
  }

  lemma RatioGrows(a: real, b: real, c: real, d: real)
    requires 0.0 < a <= c && 0.0 < d <= b
    ensures 0.0 < a / b <= c / d
  {
  }

  lemma SquareGrows(x: real, y: real)
    requires 0.0 <= x <= y
    ensures 0.0 <= x * x <= y * y
  {
  }

  /** The weight of the first `k` nodes together. */
  function Cumulative(nodes: seq<Node>, k: nat): real
    requires k <= |nodes|
  {
    if k == 0 then 0.0 else Cumulative(nodes, k - 1) + Weight(nodes[k - 1])
  }

  lemma {:induction false} CumulativeGrows(nodes: seq<Node>, i: nat, j: nat)
    requires i < j <= |nodes|
    ensures 0.0 <= Cumulative(nodes, i) < Cumulative(nodes, j)
  {
    if i < j - 1 {
      CumulativeGrows(nodes, i, j - 1);
    } else if i > 0 {
      CumulativeGrows(nodes, i - 1, i);
    }
  }

  /** The point `v` of the weight line lies in the stretch of node `i`. */
  predicate Hits(nodes: seq<Node>, v: real, i: nat) {
    i < |nodes| && Cumulative(nodes, i) <= v < Cumulative(nodes, i + 1)
  }

  /** The stretches do not overlap, so the point decides the node. */
  lemma HitIsUnique(nodes: seq<Node>, v: real, i: nat, j: nat)
    requires Hits(nodes, v, i) && Hits(nodes, v, j)
    ensures i == j
  {
    if i < j - 1 {
      CumulativeGrows(nodes, i + 1, j);
    } else if j < i - 1 {
      CumulativeGrows(nodes, j + 1, i);
    }
  }

  /** The point of the weight line that a draw from 0 to 1 stands for. */
  function Point(draw: real, total: real): (v: real)
    requires 0.0 <= draw < 1.0 && total > 0.0
    ensures 0.0 <= v < total
  {
    ProductIsPositive(1.0 - draw, total);
    draw * total
  }

  function Total(nodes: seq<Node>): (t: real)
    ensures nodes != [] ==> t > 0.0
  {
    if nodes != [] then CumulativeGrows(nodes, 0, |nodes|); Cumulative(nodes, |nodes|) else 0.0
  }

  /** A draw picks node `i` exactly in a range of draws whose length is the node's share of the weight. */
  lemma ShareOfDraws(nodes: seq<Node>, draw: real, i: nat)
    requires i < |nodes| && 0.0 <= draw < 1.0
    ensures Hits(nodes, Point(draw, Total(nodes)), i)
            <==> Cumulative(nodes, i) / Total(nodes) <= draw < Cumulative(nodes, i + 1) / Total(nodes)
    ensures Cumulative(nodes, i + 1) / Total(nodes)
            == Cumulative(nodes, i) / Total(nodes) + Weight(nodes[i]) / Total(nodes)
  {
    PointCompares(Cumulative(nodes, i), draw, Total(nodes));
    PointCompares(Cumulative(nodes, i + 1), draw, Total(nodes));
    ShareAdds(Cumulative(nodes, i), Weight(nodes[i]), Total(nodes));
  }

  lemma PointCompares(x: real, draw: real, total: real)
    requires 0.0 <= draw < 1.0 && total > 0.0
    ensures x <= Point(draw, total) <==> x / total <= draw
  {
  }

  lemma ShareAdds(x: real, y: real, total: real)
    requires total > 0.0
    ensures (x + y) / total == x / total + y / total
  {
  }

  /** `sort.Search`: the first position whose value exceeds `v`, by halving. */
  method Search(cdf: array<real>, v: real) returns (i: nat)
    requires forall a, b :: 0 <= a < b < cdf.Length ==> cdf[a] < cdf[b]
    ensures i <= cdf.Length
    ensures forall k :: 0 <= k < i ==> cdf[k] <= v
    ensures forall k :: i <= k < cdf.Length ==> cdf[k] > v
  {
    i := 0;
    var j := cdf.Length;
    while i < j
      invariant 0 <= i <= j <= cdf.Length
      invariant forall k :: 0 <= k < i ==> cdf[k] <= v
      invariant forall k :: j <= k < cdf.Length ==> cdf[k] > v
    {
      var h := (i + j) / 2;
      if cdf[h] > v {
        j := h;
      } else {
        i := h + 1;
      }
    }
  }

  /** The cumulative weights, filled in from the front. */
  method FillCdf(nodes: array<Node>) returns (cdf: array<real>)
    requires nodes.Length > 0
    ensures fresh(cdf) && cdf.Length == nodes.Length
    ensures forall k :: 0 <= k < cdf.Length ==> cdf[k] == Cumulative(nodes[..], k + 1)
    ensures forall a, b :: 0 <= a < b < cdf.Length ==> cdf[a] < cdf[b]
  {
    cdf := new real[nodes.Length];
    cdf[0] := Weight(nodes[0]);
    for i := 1 to nodes.Length
      invariant forall k :: 0 <= k < i ==> cdf[k] == Cumulative(nodes[..], k + 1)
    {
      cdf[i] := cdf[i - 1] + Weight(nodes[i]);
    }
    forall a, b | 0 <= a < b < cdf.Length
      ensures cdf[a] < cdf[b]
    {
      CumulativeGrows(nodes[..], a + 1, b + 1);
    }
  }

  /** `draw` is what the random source returned. The final remainder never wraps around. */
  method WeightedRandomChoice(nodes: array<Node>, draw: real) returns (choice: int)
    requires 0.0 <= draw < 1.0
    ensures nodes.Length == 0 ==> choice == -1
    ensures nodes.Length > 0 ==> choice >= 0 && Hits(nodes[..], Point(draw, Total(nodes[..])), choice)
  {
    if nodes.Length == 0 {
      return -1;
    }
    var cdf := FillCdf(nodes);
    assert cdf[cdf.Length - 1] == Total(nodes[..]);
    var v := Point(draw, cdf[cdf.Length - 1]);
    var found := Search(cdf, v);
    assert found < cdf.Length;
    SmallRemainder(found, cdf.Length);
    choice := found % cdf.Length;
    FoundHits(nodes[..], cdf[..], v, choice);
  }

  lemma SmallRemainder(x: nat, n: nat)
    requires x < n
    ensures x % n == x
  {
  }

  lemma FoundHits(nodes: seq<Node>, cdf: seq<real>, v: real, i: nat)
    requires i < |nodes| == |cdf| && 0.0 <= v < cdf[i]
    requires forall k :: 0 <= k < |cdf| ==> cdf[k] == Cumulative(nodes, k + 1)
    requires i > 0 ==> cdf[i - 1] <= v
    ensures Hits(nodes, v, i)
  {
  }

  // --- The order in which nodes are tried ---

  ghost predicate ByWeight(nodes: seq<Node>) {
    forall i, j :: 0 <= i < j < |nodes| ==> Weight(nodes[i]) >= Weight(nodes[j])
  }

  /** The element at `c` moved to the front. */
  function Fronted<T>(s: seq<T>, c: nat): seq<T>
    requires c < |s|
  {
    [s[c]] + s[..c] + s[c + 1..]
  }

  /** Moving one element to the front loses none and leaves the others in their order. */
  lemma FrontedKeepsOthers(nodes: seq<Node>, c: nat)
    requires c < |nodes| && ByWeight(nodes)
    ensures multiset(Fronted(nodes, c)) == multiset(nodes)
    ensures ByWeight(Fronted(nodes, c)[1..])
  {
    assert nodes == nodes[..c] + [nodes[c]] + nodes[c + 1..];
    assert Fronted(nodes, c)[1..] == nodes[..c] + nodes[c + 1..];
  }

  /** Swaps the chosen element forward, one place at a time. */
  method MoveToFront<T>(a: array<T>, choice: int)
    requires choice < a.Length
    modifies a
    ensures a[..] == if choice < 0 then old(a[..]) else Fronted(old(a[..]), choice)
  {
    ghost var s := a[..];
    var i := choice;
    while i > 0
      invariant if choice < 0 then i == choice && a[..] == s else 0 <= i <= choice && HalfMoved(a[..], s, choice, i)
    {
      a[i - 1], a[i] := a[i], a[i - 1];
      i := i - 1;
    }
  }

  /** The chosen element has got as far forward as position `i`. */
  ghost predicate HalfMoved<T>(t: seq<T>, s: seq<T>, choice: nat, i: nat) {
    && i <= choice < |s| == |t|
    && t[i] == s[choice]
    && (forall k :: 0 <= k < i || choice < k < |s| ==> t[k] == s[k])
    && (forall k :: i < k <= choice ==> t[k] == s[k - 1])
  }

  /** What the library sort may make of the nodes: any order by weight, since it is not stable. */
  ghost predicate IsSortOf(order: seq<Node>, nodes: seq<Node>) {
    multiset(order) == multiset(nodes) && |order| == |nodes| && ByWeight(order)
  }

  /** `sortMeasuredNodes`, for every outcome of the sort and of the draw. */
  method SortMeasuredNodes(nodes: array<Node>, order: seq<Node>, draw: real) returns (choice: int)
    requires IsSortOf(order, nodes[..]) && 0.0 <= draw < 1.0
    modifies nodes
    ensures multiset(nodes[..]) == multiset(old(nodes[..]))
    ensures nodes.Length > 0 ==>
              choice >= 0 && Hits(order, Point(draw, Total(order)), choice) && nodes[..] == Fronted(order, choice)
    ensures nodes.Length > 0 ==> ByWeight(nodes[..][1..])
  {
    forall k | 0 <= k < nodes.Length {
      nodes[k] := order[k];
    }
    assert nodes[..] == order;
    choice := WeightedRandomChoice(nodes, draw);
    MoveToFront(nodes, choice);
    if choice >= 0 {
      FrontedKeepsOthers(order, choice);
    }
  }
}
