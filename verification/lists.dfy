/**
 * The benchmark's input generators (`gerarListaCrescente`, `gerarListaDecrescente`,
 * `gerarListaAleatoria`), as functions from the list length to the filled array.
 */
module Lists {
  import opened Arrays

  /** `gerarListaCrescente`: `A[i] = i`. */
  function Ascending(n: nat): seq<int> {
    seq(n, i => i)
  }

  /** `gerarListaDecrescente`: `A[i] = n - i`, the values `n` down to `1`. */
  function Descending(n: nat): seq<int> {
    seq(n, i => n - i)
  }

  /** `gerarListaAleatoria` with the successive results of `rand()` passed in as `draws`
      (each in `[0, RAND_MAX]`, so C's `%` and Dafny's agree): `A[i] = draws[i] % n`. */
  function RandomList(draws: seq<nat>): (r: seq<int>)
    ensures |r| == |draws|
    ensures forall i :: 0 <= i < |r| ==> 0 <= r[i] < |draws|
  {
    seq(|draws|, i requires 0 <= i < |draws| => draws[i] % |draws|)
  }

  /** The ascending list is sorted with distinct entries. */
  lemma AscendingIsStrictlySorted(n: nat)
    ensures Sorted(Ascending(n))
    ensures forall k, l :: 0 <= k < l < n ==> Ascending(n)[k] < Ascending(n)[l]
  {
  }

  /** Every generator meets counting sort's requirement of non-negative values. */
  lemma GeneratedListsAreNonNegative(n: nat, draws: seq<nat>)
    ensures forall i :: 0 <= i < n ==> Ascending(n)[i] >= 0 && Descending(n)[i] >= 1
    ensures forall i :: 0 <= i < |draws| ==> RandomList(draws)[i] >= 0
  {
  }
}
