/** swap_pop: removing an element from a vector in constant time by moving the
    last element into its place, used by the server to drop a client. */
module Algorithm {

  /** The container after swap_pop(container, i). A container of fewer than
      two elements is cleared; otherwise the last element is moved into slot i
      and the last slot is dropped. */
  function SwapPopped<T>(c: seq<T>, i: nat): (r: seq<T>)
    requires |c| < 2 || i < |c|
    ensures |c| < 2 ==> r == []
    ensures |c| >= 2 ==> |r| == |c| - 1
    ensures i < |r| ==> r[i] == c[|c| - 1]
    ensures forall j :: 0 <= j < |r| && j != i ==> r[j] == c[j]
    ensures i == |c| - 1 ==> r == c[..|c| - 1]
  {
    if |c| < 2 then []
    else if i == |c| - 1 then c[..|c| - 1]
    else c[..|c| - 1][i := c[|c| - 1]]
  }

  /** swap_pop, statement by statement: clear, or iter_swap with the last
      element unless `i` is last, then pop_back. */
  method SwapPop<T>(c: seq<T>, i: nat) returns (r: seq<T>)
    requires |c| < 2 || i < |c|
    ensures r == SwapPopped(c, i)
  {
    if |c| < 2 {
      r := [];
      return;
    }
    r := c;
    var last := |r| - 1;
    if i != last {
      var moved := r[i];
      r := r[i := r[last]][last := moved];
    }
    r := r[..last];
  }

  /** The elements left are the original ones less the one removed. */
  lemma SwapPopMultiset<T>(c: seq<T>, i: nat)
    requires i < |c|
    ensures multiset(SwapPopped(c, i)) == multiset(c) - multiset{c[i]}
  {
    var last := |c| - 1;
    if |c| >= 2 && i != last {
      var before, between := c[..i], c[i + 1..last];
      assert c == before + [c[i]] + between + [c[last]];
      var r := SwapPopped(c, i);
      assert r == before + [c[last]] + between;
      assert multiset(c) == multiset(before) + multiset{c[i]} + multiset(between) + multiset{c[last]};
      assert multiset(r) == multiset(before) + multiset{c[last]} + multiset(between);
    } else {
      var r := SwapPopped(c, i);
      assert c == r + [c[i]];
      assert multiset(c) == multiset(r) + multiset{c[i]};
    }
  }

  /** Every element other than the one removed is still present, and the
      removed one is present only if it occurred twice. */
  lemma SwapPopKeeps<T>(c: seq<T>, i: nat, x: T)
    requires i < |c|
    ensures x in SwapPopped(c, i) <==> multiset(c)[x] > (if x == c[i] then 1 else 0)
  {
    SwapPopMultiset(c, i);
    assert x in SwapPopped(c, i) <==> x in multiset(SwapPopped(c, i));
  }
}
