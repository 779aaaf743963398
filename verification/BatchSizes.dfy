// Sequences of batch sizes, as both readers are asked for.

module BatchSizes {
  function Least(a: nat, b: nat): nat {
    if a <= b then a else b
  }

  function Sum(sizes: seq<nat>): nat {
    if sizes == [] then 0 else sizes[0] + Sum(sizes[1..])
  }

  lemma {:induction false} SumAppend(sizes: seq<nat>, n: nat)
    ensures Sum(sizes + [n]) == Sum(sizes) + n
  {
    if sizes != [] {
      assert (sizes + [n])[1..] == sizes[1..] + [n];
      SumAppend(sizes[1..], n);
    }
  }

  lemma {:induction false} SumGrows(sizes: seq<nat>, n: nat)
    requires n <= |sizes|
    ensures Sum(sizes[..n]) <= Sum(sizes)
  {
    if n > 0 {
      assert sizes[..n][1..] == sizes[1..][..n - 1];
      SumGrows(sizes[1..], n - 1);
    }
  }
}
