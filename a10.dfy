/** `lista1-grupo5/A10.py`: the central tendency of the second column of a table --
    mean, median (`mediana`) and every mode (`moda`) of the sorted values. */
module A10 {
  import opened Seqs
  import opened PyBuiltins
  import opened PyDict
  import opened Table

  // ---------------------------------------------------------------------------
  // mediana
  // ---------------------------------------------------------------------------

  /** The position the odd branch of `mediana` reads, `round(n / 2)`: for n = 2k + 1
      Python rounds k + 0.5 to the even neighbour, so this is k for even k and k + 1
      for odd k. It is always a valid position. */
  function OddMedianIndex(n: nat): (i: nat)
    requires n % 2 == 1
    ensures i < n
    ensures i == PyRound(n as real / 2.0)
  {
    var k := n / 2;
    assert n as real / 2.0 == k as real + 0.5;
    if k % 2 == 0 then k else k + 1
  }

  /** `mediana(lista)`. An even length averages the two cells around the middle (on the
      empty list the slice `lista[-1:1]` is empty, so the result is 0); an odd length
      reads the cell at `round(n / 2)`. */
  function Mediana(lista: seq<int>): (r: real)
    ensures lista == [] ==> r == 0.0
    ensures |lista| > 0 && |lista| % 2 == 0 ==> r == (lista[|lista| / 2 - 1] + lista[|lista| / 2]) as real / 2.0
    ensures |lista| % 2 == 1 ==> r == lista[OddMedianIndex(|lista|)] as real
  {
    var n := |lista|;
    if n % 2 == 0 then
      var indexMid := PyInt(n as real / 2.0) - 1;
      assert indexMid == n / 2 - 1;
      var mid := PySlice(lista, indexMid, indexMid + 2);
      assert n > 0 ==> mid == [lista[n / 2 - 1], lista[n / 2]];
      assert n > 0 ==> Sum(mid) == lista[n / 2 - 1] + lista[n / 2] by {
        if n > 0 {
          SumOfTwo(lista[n / 2 - 1], lista[n / 2]);
        }
      }
      Sum(mid) as real / 2.0
    else
      var i := PyRound(n as real / 2.0);
      assert i == OddMedianIndex(n);
      lista[i] as real
  }

  /** How many cells of `s` are at most `m`, and at least `m`. */
  function CountAtMost(s: seq<int>, m: real): nat {
    if s == [] then 0 else (if s[0] as real <= m then 1 else 0) + CountAtMost(s[1..], m)
  }

  function CountAtLeast(s: seq<int>, m: real): nat {
    if s == [] then 0 else (if s[0] as real >= m then 1 else 0) + CountAtLeast(s[1..], m)
  }

  /** `m` is a median of `s`: at least half of the cells are at most `m` and at least
      half are at least `m`. */
  predicate IsMedian(s: seq<int>, m: real) {
    2 * CountAtMost(s, m) >= |s| && 2 * CountAtLeast(s, m) >= |s|
  }

  lemma {:induction false} AtMostFromPrefix(s: seq<int>, j: nat, m: real)
    requires j <= |s|
    requires forall i :: 0 <= i < j ==> s[i] as real <= m
    ensures CountAtMost(s, m) >= j
  {
    if j > 0 {
      AtMostFromPrefix(s[1..], j - 1, m);
    }
  }

  lemma {:induction false} AtLeastFromSuffix(s: seq<int>, j: nat, m: real)
    requires j <= |s|
    requires forall i :: j <= i < |s| ==> s[i] as real >= m
    ensures CountAtLeast(s, m) >= |s| - j
  {
    if s != [] {
      AtLeastFromSuffix(s[1..], if j > 0 then j - 1 else 0, m);
    }
  }

  lemma {:induction false} AtLeastBelowPrefix(s: seq<int>, j: nat, m: real)
    requires j <= |s|
    requires forall i :: 0 <= i < j ==> (s[i] as real) < m
    ensures CountAtLeast(s, m) <= |s| - j
  {
    if s != [] {
      AtLeastBelowPrefix(s[1..], if j > 0 then j - 1 else 0, m);
    }
  }

  /** The median the exercise evidently intends: the same even rule, and the middle cell
      `lista[n // 2]` for an odd length. */
  function CorrectedMediana(lista: seq<int>): real {
    if |lista| % 2 == 0 then Mediana(lista) else lista[|lista| / 2] as real
  }

  /** On a sorted non-empty list, the corrected median is a median. */
  lemma CorrectedMedianaIsMedian(lista: seq<int>)
    requires Sorted(lista) && |lista| > 0
    ensures IsMedian(lista, CorrectedMediana(lista))
  {
    var n, h := |lista|, |lista| / 2;
    var m := CorrectedMediana(lista);
    if n % 2 == 0 {
      assert lista[h - 1] <= lista[h];
      AtMostFromPrefix(lista, h, m);
      AtLeastFromSuffix(lista, h, m);
    } else {
      AtMostFromPrefix(lista, h + 1, m);
      AtLeastFromSuffix(lista, h, m);
    }
  }

  /** `mediana` agrees with the corrected median except on lengths 3, 7, 11, ...,
      where it reads the cell just after the middle. */
  lemma MedianaVersusCorrected(lista: seq<int>)
    ensures |lista| % 4 != 3 ==> Mediana(lista) == CorrectedMediana(lista)
    ensures |lista| % 4 == 3 ==> Mediana(lista) == lista[|lista| / 2 + 1] as real
  {
    var n := |lista|;
    if n % 2 == 1 {
      var k := n / 2;
      assert n == 2 * k + 1;
      assert (k % 2 == 1) == (n % 4 == 3);
    }
  }

  /** On a strictly increasing list whose length is 3 modulo 4, `mediana` returns a value
      that is not a median: fewer than half of the cells are at least that large. */
  lemma MedianaNotMedianWhenThreeModFour(lista: seq<int>)
    requires StrictlyIncreasing(lista) && |lista| % 4 == 3
    ensures !IsMedian(lista, Mediana(lista))
  {
    var h := |lista| / 2;
    MedianaVersusCorrected(lista);
    AtLeastBelowPrefix(lista, h + 1, lista[h + 1] as real);
  }

  /** The smallest such input: `mediana([1, 2, 3])` is 3, not 2. */
  lemma MedianaMissesMiddle()
    ensures Sorted([1, 2, 3]) && Mediana([1, 2, 3]) == 3.0
    ensures !IsMedian([1, 2, 3], Mediana([1, 2, 3]))
  {
    MedianaNotMedianWhenThreeModFour([1, 2, 3]);
  }

  // ---------------------------------------------------------------------------
  // moda
  // ---------------------------------------------------------------------------

  /** The assignments `contagem[item] = lista.count(item)`, one per item in list order. */
  function CountPairs<T(==)>(lista: seq<T>): seq<(T, int)> {
    seq(|lista|, i requires 0 <= i < |lista| => (lista[i], Count(lista, lista[i])))
  }

  /** What `moda` returns on a non-empty list: the keys of `contagem` whose count is the
      largest count, in the dict's order. */
  function Modes<T(==)>(lista: seq<T>): (r: seq<T>)
    requires |lista| > 0
    ensures forall i :: 0 <= i < |r| ==> r[i] in lista
  {
    var d := FromPairs(CountPairs(lista));
    FromPairsKeys(CountPairs(lista));
    assert Firsts(CountPairs(lista)) == lista;
    ArgMaxKeys(d)
  }

  /** No element of `lista` occurs more often than `x`. */
  predicate MostFrequent<T(==)>(lista: seq<T>, x: T) {
    forall y :: y in lista ==> Count(lista, y) <= Count(lista, x)
  }

  /** The dict `contagem` after the counting loop: its keys are the distinct items in
      first-occurrence order and each maps to its number of occurrences. */
  lemma CountDict<T>(lista: seq<T>)
    ensures FromPairs(CountPairs(lista)).keys == Dedup(lista)
    ensures forall k :: k in FromPairs(CountPairs(lista)).vals ==> k in lista && FromPairs(CountPairs(lista)).vals[k] == Count(lista, k)
  {
    var ps := CountPairs(lista);
    var d := FromPairs(ps);
    assert Firsts(ps) == lista;
    FromPairsKeys(ps);
    FromPairsDomain(ps);
    forall k | k in d.vals
      ensures k in lista && d.vals[k] == Count(lista, k)
    {
      FromPairsLastWriteWins(ps, k);
    }
  }

  /** The modes are exactly the most frequent elements; there is at least one, and none
      is listed twice. */
  lemma ModesAreMostFrequent<T>(lista: seq<T>)
    requires |lista| > 0
    ensures Modes(lista) != [] && NoDups(Modes(lista))
    ensures forall x :: x in Modes(lista) ==> x in lista && MostFrequent(lista, x)
    ensures forall x :: x in lista && MostFrequent(lista, x) ==> x in Modes(lista)
  {
    var d := FromPairs(CountPairs(lista));
    CountDict(lista);
    ArgMaxKeysMaximal(d);
    ArgMaxKeysOrdered(d);
    forall x | x in Modes(lista)
      ensures x in lista && MostFrequent(lista, x)
    {
      assert x in d.vals;
      forall y | y in lista
        ensures Count(lista, y) <= Count(lista, x)
      {
        assert y in d.keys;
        assert y in d.vals;
        assert d.vals[y] <= d.vals[x];
      }
    }
    forall x | x in lista && MostFrequent(lista, x)
      ensures x in Modes(lista)
    {
      var i :| 0 <= i < |d.keys| && d.keys[i] == x;
      assert x in d.vals && d.vals[x] == Count(lista, x);
      forall k | k in d.vals
        ensures d.vals[k] <= d.vals[x]
      {
        assert k in lista && d.vals[k] == Count(lista, k);
      }
    }
  }

  /** The modes come in the order of their first occurrence in the list. */
  lemma ModesFirstOccurrenceOrder<T>(lista: seq<T>)
    requires |lista| > 0
    ensures forall i, j :: 0 <= i < j < |Modes(lista)| ==> IndexOf(lista, Modes(lista)[i]) < IndexOf(lista, Modes(lista)[j])
  {
    var d := FromPairs(CountPairs(lista));
    var r := Modes(lista);
    CountDict(lista);
    ArgMaxKeysOrdered(d);
    DedupFirstOccurrenceOrder(lista);
    forall i, j | 0 <= i < j < |r|
      ensures IndexOf(lista, r[i]) < IndexOf(lista, r[j])
    {
      var p, q := IndexOf(d.keys, r[i]), IndexOf(d.keys, r[j]);
      assert p < q;
    }
  }

  /** On a sorted list -- as `tedenciaCentral` passes it -- the modes are strictly ascending. */
  lemma ModesAscendingWhenSorted(lista: seq<int>)
    requires |lista| > 0 && Sorted(lista)
    ensures StrictlyIncreasing(Modes(lista))
  {
    var d := FromPairs(CountPairs(lista));
    var r := Modes(lista);
    CountDict(lista);
    ArgMaxKeysOrdered(d);
    DedupOfSortedIncreasing(lista);
    forall i, j | 0 <= i < j < |r|
      ensures r[i] < r[j]
    {
      var p, q := IndexOf(d.keys, r[i]), IndexOf(d.keys, r[j]);
      assert p < q;
    }
  }

  /** `moda(lista)`: count every item into `contagem`, then keep the items whose count is
      `max(contagem.values())`. On the empty list `max` raises `ValueError`. */
  method Moda<T(==)>(lista: seq<T>) returns (r: Result<seq<T>>)
    ensures lista == [] ==> r == Err(ValueError)
    ensures lista != [] ==> r == Ok(Modes(lista))
  {
    ghost var ps := CountPairs(lista);
    var contagem: Dict<T, int> := Dict([], map[]);
    for i := 0 to |lista|
      invariant contagem == FromPairs(ps[..i])
    {
      var item := lista[i];
      assert ps[..i + 1][..i] == ps[..i];
      contagem := contagem.Put(item, Count(lista, item));
    }
    assert ps[..|lista|] == ps;
    CountDict(lista);
    r := ArgMaxAll(contagem);
  }

  // ---------------------------------------------------------------------------
  // tedenciaCentral
  // ---------------------------------------------------------------------------

  /** The three figures `tedenciaCentral` reports (the model keeps the numbers, not the
      text they are formatted into). */
  datatype Summary = Summary(mean: real, median: real, modes: seq<int>)

  /** Sorting does not change how often a value occurs, so the most frequent values of
      the sorted column are those of the column. */
  lemma MostFrequentSorted(c: seq<int>, x: int)
    ensures x in Sort(c) <==> x in c
    ensures MostFrequent(Sort(c), x) <==> MostFrequent(c, x)
  {
    var s := Sort(c);
    assert forall y :: y in s <==> y in multiset(s);
    assert forall y :: y in c <==> y in multiset(c);
    assert forall y :: Count(s, y) == Count(c, y);
  }

  /** `tedenciaCentral(date)`: gather `row[1]` of every row, sort, and report the mean
      `sum / len`, `mediana` and `moda` of the sorted list. The mean is evaluated first,
      so an empty table raises `ZeroDivisionError`. */
  method TedenciaCentral<K>(date: seq<Row<K>>) returns (r: Result<Summary>)
    ensures date == [] <==> r == Err(ZeroDivisionError)
    ensures date != [] ==> r.Ok?
    ensures r.Ok? ==> r.value.mean == Sum(ColumnOne(date)) as real / |date| as real
    ensures r.Ok? ==> r.value.median == Mediana(Sort(ColumnOne(date)))
    ensures r.Ok? ==> r.value.modes == Modes(Sort(ColumnOne(date)))
    ensures r.Ok? ==> StrictlyIncreasing(r.value.modes)
    ensures r.Ok? ==> forall x :: x in r.value.modes <==> x in ColumnOne(date) && MostFrequent(ColumnOne(date), x)
  {
    var listaDados: seq<int> := [];
    for i := 0 to |date|
      invariant |listaDados| == i
      invariant forall j :: 0 <= j < i ==> listaDados[j] == date[j].col1
    {
      listaDados := listaDados + [date[i].col1];
    }
    assert listaDados == ColumnOne(date);
    listaDados := Sort(listaDados);
    if |listaDados| == 0 {
      return Err(ZeroDivisionError);
    }
    var media := Sum(listaDados) as real / |listaDados| as real;
    var mediana := Mediana(listaDados);
    var moda := Moda(listaDados);
    ModesAscendingWhenSorted(listaDados);
    ModesAreMostFrequent(listaDados);
    forall x
      ensures x in moda.value <==> x in ColumnOne(date) && MostFrequent(ColumnOne(date), x)
    {
      MostFrequentSorted(ColumnOne(date), x);
    }
    r := Ok(Summary(media, mediana, moda.value));
  }
}
