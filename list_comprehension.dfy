/** `Comprehension/2-list-comprehension-v2.py`: the doubles of the even numbers below 10,
    built once by a list comprehension and once by an explicit loop. */
module ListComprehension {
  import opened Seqs

  /** The bound of `range(10)`. */
  const Limit: nat := 10

  /** `[i * 2 for i in range(n) if i % 2 == 0]`. */
  function DobrosDosPares(n: nat): seq<int> {
    if n == 0 then []
    else DobrosDosPares(n - 1) + (if (n - 1) % 2 == 0 then [(n - 1) * 2] else [])
  }

  /** The j-th element comes from the j-th even number 2j, so it is 2 * 2j = 4j, and
      there is one element per even number below n. */
  lemma {:induction false} DobrosDosParesShape(n: nat)
    ensures |DobrosDosPares(n)| == (n + 1) / 2
    ensures forall j :: 0 <= j < |DobrosDosPares(n)| ==> DobrosDosPares(n)[j] == 2 * (2 * j) && 2 * j < n
  {
    if n > 0 {
      DobrosDosParesShape(n - 1);
    }
  }

  /** Every element is a multiple of 4, and the elements follow `range` upward. */
  lemma DobrosDosParesIncreasing(n: nat)
    ensures StrictlyIncreasing(DobrosDosPares(n))
    ensures forall j :: 0 <= j < |DobrosDosPares(n)| ==> DobrosDosPares(n)[j] % 4 == 0
  {
    DobrosDosParesShape(n);
  }

  /** For `range(10)`: exactly `[0, 4, 8, 12, 16]`. */
  lemma DobrosDosParesOfTen()
    ensures DobrosDosPares(Limit) == [0, 4, 8, 12, 16]
  {
    DobrosDosParesShape(Limit);
  }

  /** The loop version: `for i in range(10): if i % 2 == 0: dobros_dos_pares.append(i * 2)`.
      It appends once per even `i` and builds the same list as the comprehension. */
  method DobrosDosParesLoop() returns (dobrosDosPares: seq<int>)
    ensures dobrosDosPares == DobrosDosPares(Limit)
    ensures dobrosDosPares == [0, 4, 8, 12, 16]
  {
    dobrosDosPares := [];
    for i := 0 to Limit
      invariant dobrosDosPares == DobrosDosPares(i)
    {
      if i % 2 == 0 {
        dobrosDosPares := dobrosDosPares + [i * 2];
      }
    }
    DobrosDosParesOfTen();
  }
}
