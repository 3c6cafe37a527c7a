/** The bubble sort that puts the pads in the order of their DAC codes. */
module Sorting {

  /** Sorted by code, and by pad among equal codes. */
  ghost predicate Sorted(codes: seq<nat>, order: seq<nat>, n: nat)
    requires n <= |codes| && n <= |order|
  {
    forall i, j | 0 <= i < j < n :: codes[i] < codes[j] || (codes[i] == codes[j] && order[i] < order[j])
  }

  /** Entry k holds the code of the pad it names. */
  ghost predicate Belongs(code: seq<nat>, codes: seq<nat>, order: seq<nat>, n: nat)
    requires n <= |codes| && n <= |order|
  {
    forall k | 0 <= k < n :: order[k] < |code| && codes[k] == code[order[k]]
  }

  /** Pads with the same code stand in the order of their numbers. */
  ghost predicate TiesInOrder(codes: seq<nat>, order: seq<nat>, n: nat)
    requires n <= |codes| && n <= |order|
  {
    forall i, j | 0 <= i < j < n && codes[i] == codes[j] :: order[i] < order[j]
  }

  /** Everything about the two arrays that the sort keeps. */
  ghost predicate Together(code: seq<nat>, codes: seq<nat>, order: seq<nat>, n: nat)
    requires n <= |codes| && n <= |order|
  {
    Belongs(code, codes, order, n) && TiesInOrder(codes, order, n)
  }

  function Swap(s: seq<nat>, j: nat): seq<nat>
    requires 0 < j < |s|
  {
    s[j - 1 := s[j]][j := s[j - 1]]
  }

  lemma SwapKeepsTogether(code: seq<nat>, codes: seq<nat>, order: seq<nat>, n: nat, j: nat)
    requires 0 < j < n <= |codes| && n <= |order| && codes[j - 1] > codes[j] && Together(code, codes, order, n)
    ensures Together(code, Swap(codes, j), Swap(order, j), n)
    ensures multiset(Swap(order, j)) == multiset(order)
  {
    var cs, os := Swap(codes, j), Swap(order, j);
    forall a, b | 0 <= a < b < n && cs[a] == cs[b] ensures os[a] < os[b] {
      var a' := if a == j - 1 then j else if a == j then j - 1 else a;
      var b' := if b == j - 1 then j else if b == j then j - 1 else b;
      assert codes[a'] == codes[b'] && a' < b';
    }
  }

  /** The body of the inner loop: the larger of two neighbours moves up. */
  method Exchange(codes: array<nat>, order: array<nat>, j: nat, n: nat, ghost code: seq<nat>)
    requires codes != order && 0 < j < n <= codes.Length && n <= order.Length
    requires Together(code, codes[..], order[..], n)
    modifies codes, order
    ensures Together(code, codes[..], order[..], n)
    ensures codes[..] == if old(codes[j - 1] > codes[j]) then Swap(old(codes[..]), j) else old(codes[..])
    ensures multiset(order[..]) == old(multiset(order[..]))
    ensures order[n..] == old(order[n..])
  {
    if codes[j - 1] > codes[j] {
      SwapKeepsTogether(code, codes[..], order[..], n, j);
      codes[j - 1], codes[j] := codes[j], codes[j - 1];
      order[j - 1], order[j] := order[j], order[j - 1];
      assert codes[..] == Swap(old(codes[..]), j) && order[..] == Swap(old(order[..]), j);
    }
  }

  /** From i on up, the codes are sorted and no smaller than any code below. */
  ghost predicate SortedFrom(codes: seq<nat>, i: nat, n: nat)
    requires n <= |codes|
  {
    forall a, b | 0 <= a < b < n && i <= b :: codes[a] <= codes[b]
  }

  lemma ExchangeKeepsTop(codes: seq<nat>, j: nat, i: nat, n: nat)
    requires 0 < j < i <= n <= |codes| && SortedFrom(codes, i, n)
    ensures SortedFrom(Swap(codes, j), i, n)
  {
  }

  /** The larger of two neighbours moves up, so the last one looked at is the largest so far. */
  lemma ExchangeCarries(codes: seq<nat>, j: nat)
    requires 0 < j < |codes| && forall a | 0 <= a < j :: codes[a] <= codes[j - 1]
    ensures var cs := if codes[j - 1] > codes[j] then Swap(codes, j) else codes;
      forall a | 0 <= a < j + 1 :: cs[a] <= cs[j]
  {
  }

  ghost predicate LargestLast(codes: seq<nat>, j: nat)
    requires 0 < j <= |codes|
  {
    forall a | 0 <= a < j :: codes[a] <= codes[j - 1]
  }

  lemma TopGrows(codes: seq<nat>, i: nat, n: nat)
    requires i < n <= |codes| && SortedFrom(codes, i + 1, n) && LargestLast(codes, i + 1)
    ensures SortedFrom(codes, i, n)
  {
  }

  /** One pass of the outer loop brings the largest of the codes up to i to its place. */
  method Pass(codes: array<nat>, order: array<nat>, i: nat, n: nat, ghost code: seq<nat>)
    requires codes != order && 0 < i < n <= codes.Length && n <= order.Length
    requires Together(code, codes[..], order[..], n) && SortedFrom(codes[..], i + 1, n)
    modifies codes, order
    ensures Together(code, codes[..], order[..], n) && SortedFrom(codes[..], i, n)
    ensures multiset(order[..]) == old(multiset(order[..]))
    ensures codes[n..] == old(codes[n..]) && order[n..] == old(order[n..])
  {
    var j := 1;
    while j <= i
      invariant 1 <= j <= i + 1
      invariant LargestLast(codes[..], j)
      invariant Together(code, codes[..], order[..], n) && SortedFrom(codes[..], i + 1, n)
      invariant multiset(order[..]) == old(multiset(order[..]))
      invariant codes[n..] == old(codes[n..]) && order[n..] == old(order[n..])
    {
      ExchangeKeepsTop(codes[..], j, i + 1, n);
      ExchangeCarries(codes[..], j);
      Exchange(codes, order, j, n, code);
      j := j + 1;
    }
    TopGrows(codes[..], i, n);
  }

  lemma SortedWithTies(code: seq<nat>, codes: seq<nat>, order: seq<nat>, n: nat)
    requires n <= |codes| && n <= |order| && SortedFrom(codes, 1, n) && Together(code, codes, order, n)
    ensures Sorted(codes, order, n)
  {
    forall i, j | 0 <= i < j < n ensures codes[i] < codes[j] || (codes[i] == codes[j] && order[i] < order[j]) {
      assert codes[i] <= codes[j];
    }
  }

  /** code gives each pad's code; both arrays are sorted together. */
  method BubbleSort(codes: array<nat>, order: array<nat>, n: nat, ghost code: seq<nat>)
    requires codes != order && 0 < n <= codes.Length && n <= order.Length
    requires Together(code, codes[..], order[..], n)
    modifies codes, order
    ensures Sorted(codes[..], order[..], n) && Belongs(code, codes[..], order[..], n)
    ensures multiset(order[..]) == old(multiset(order[..]))
    ensures codes[n..] == old(codes[n..]) && order[n..] == old(order[n..])
  {
    var i := n - 1;
    while i > 0
      invariant 0 <= i < n
      invariant Together(code, codes[..], order[..], n) && SortedFrom(codes[..], i + 1, n)
      invariant multiset(order[..]) == old(multiset(order[..]))
      invariant codes[n..] == old(codes[n..]) && order[n..] == old(order[n..])
    {
      Pass(codes, order, i, n, code);
      i := i - 1;
    }
    SortedWithTies(code, codes[..], order[..], n);
  }
}
