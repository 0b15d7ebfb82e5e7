/** `lista1-grupo5/A9.py`: the median of the second column of a table
    (`verificarMediana`) and the modes of a frequency table whose first column holds the
    value and whose second column holds its frequency (`verificarModa`). */
module A9 {
  import opened Seqs
  import opened PyBuiltins
  import opened PyDict
  import opened Table
  import opened A10

  /** `verificarMediana(data)`: gather `row[1]` of every row, sort, then the same
      even/odd rule as `mediana` -- so it is `mediana` of the sorted column, and 0 on an
      empty table. */
  method VerificarMediana<K>(data: seq<Row<K>>) returns (mediana: real)
    ensures mediana == Mediana(Sort(ColumnOne(data)))
    ensures data == [] ==> mediana == 0.0
  {
    var lista: seq<int> := [];
    for i := 0 to |data|
      invariant |lista| == i
      invariant forall j :: 0 <= j < i ==> lista[j] == data[j].col1
    {
      lista := lista + [data[i].col1];
    }
    assert lista == ColumnOne(data);
    lista := Sort(lista);
    var lenList := |lista|;
    if lenList % 2 == 0 {
      var indexMid := PyInt(lenList as real / 2.0) - 1;
      assert indexMid == lenList / 2 - 1;
      var mid := PySlice(lista, indexMid, indexMid + 2);
      if lenList > 0 {
        assert mid == [lista[lenList / 2 - 1], lista[lenList / 2]];
        SumOfTwo(lista[lenList / 2 - 1], lista[lenList / 2]);
      }
      mediana := Sum(mid) as real / 2.0;
      assert mediana == Mediana(lista);
    } else {
      var i := PyRound(lenList as real / 2.0);
      assert i == OddMedianIndex(lenList);
      mediana := lista[i] as real;
      assert mediana == Mediana(lista);
    }
  }

  /** The assignments `DictData[row[0]] = row[1]`, one per row in row order. */
  function RowPairs<K>(data: seq<Row<K>>): seq<(K, int)> {
    seq(|data|, i requires 0 <= i < |data| => (data[i].col0, data[i].col1))
  }

  /** `DictData` after its loop. */
  function DictData<K(==)>(data: seq<Row<K>>): Dict<K, int> {
    FromPairs(RowPairs(data))
  }

  /** The frequency the table finally records for key `k`: `row[1]` of the LAST row whose
      `row[0]` is `k`. */
  function Latest<K(==)>(data: seq<Row<K>>, k: K): int
    requires k in ColumnZero(data)
  {
    data[LastIndex(ColumnZero(data), k)].col1
  }

  /** `DictData` holds every key of the first column, in first-appearance order, and
      each key the frequency of the last row that names it: a repeated key is
      overwritten, not summed. */
  lemma DictDataLastWriteWins<K>(data: seq<Row<K>>)
    ensures DictData(data).keys == Dedup(ColumnZero(data))
    ensures forall k :: k in DictData(data).vals <==> k in ColumnZero(data)
    ensures forall k :: k in ColumnZero(data) ==> DictData(data).vals[k] == Latest(data, k)
  {
    var ps := RowPairs(data);
    assert Firsts(ps) == ColumnZero(data);
    FromPairsKeys(ps);
    FromPairsDomain(ps);
    forall k | k in ColumnZero(data)
      ensures k in DictData(data).vals && DictData(data).vals[k] == Latest(data, k)
    {
      FromPairsLastWriteWins(ps, k);
    }
  }

  /** What `verificarModa` computes on a non-empty table: the keys of `DictData` whose
      frequency is `max(DictData.values())`, in the dict's order. */
  function KeyModes<K(==)>(data: seq<Row<K>>): (r: seq<K>)
    requires |data| > 0
    ensures forall i :: 0 <= i < |r| ==> r[i] in ColumnZero(data)
  {
    DictDataLastWriteWins(data);
    assert data[0].col0 in ColumnZero(data);
    ArgMaxKeys(DictData(data))
  }

  /** No key of the table has a larger recorded frequency than `k`. */
  predicate HasMaxFrequency<K(==)>(data: seq<Row<K>>, k: K)
    requires k in ColumnZero(data)
  {
    forall k' :: k' in ColumnZero(data) ==> Latest(data, k') <= Latest(data, k)
  }

  /** A key is in `DictData` exactly when some row names it. */
  lemma DictDataHasKey<K>(data: seq<Row<K>>, k: K)
    ensures k in DictData(data).vals <==> k in ColumnZero(data)
  {
    assert Firsts(RowPairs(data)) == ColumnZero(data);
    FromPairsHasKey(RowPairs(data), k);
  }

  /** The recorded frequency of a key is the one `Latest` names. */
  lemma DictDataLatest<K>(data: seq<Row<K>>, k: K)
    requires k in ColumnZero(data)
    ensures k in DictData(data).vals && DictData(data).vals[k] == Latest(data, k)
  {
    assert Firsts(RowPairs(data)) == ColumnZero(data);
    FromPairsLastWriteWins(RowPairs(data), k);
  }

  /** The returned keys are exactly the keys with the largest recorded frequency; there is
      at least one and none is listed twice. */
  lemma KeyModesAreMaximal<K>(data: seq<Row<K>>)
    requires |data| > 0
    ensures KeyModes(data) != [] && NoDups(KeyModes(data))
    ensures forall k :: k in KeyModes(data) ==> HasMaxFrequency(data, k)
    ensures forall k :: k in ColumnZero(data) && HasMaxFrequency(data, k) ==> k in KeyModes(data)
  {
    var d := DictData(data);
    ArgMaxKeysMaximal(d);
    ArgMaxKeysOrdered(d);
    forall k | k in KeyModes(data)
      ensures HasMaxFrequency(data, k)
    {
      DictDataLatest(data, k);
      forall k' | k' in ColumnZero(data)
        ensures Latest(data, k') <= Latest(data, k)
      {
        DictDataLatest(data, k');
      }
    }
    forall k | k in ColumnZero(data) && HasMaxFrequency(data, k)
      ensures k in KeyModes(data)
    {
      DictDataLastWriteWins(data);
      var i :| 0 <= i < |d.keys| && d.keys[i] == k;
      DictDataLatest(data, k);
      forall k' | k' in d.vals
        ensures d.vals[k'] <= d.vals[k]
      {
        DictDataHasKey(data, k');
        DictDataLatest(data, k');
      }
    }
  }

  /** The returned keys keep the order in which their keys first appear in the table. */
  lemma KeyModesInsertionOrder<K>(data: seq<Row<K>>)
    requires |data| > 0
    ensures forall i, j :: 0 <= i < j < |KeyModes(data)| ==>
      IndexOf(ColumnZero(data), KeyModes(data)[i]) < IndexOf(ColumnZero(data), KeyModes(data)[j])
  {
    var d := DictData(data);
    var r := KeyModes(data);
    DictDataLastWriteWins(data);
    ArgMaxKeysOrdered(d);
    DedupFirstOccurrenceOrder(ColumnZero(data));
    forall i, j | 0 <= i < j < |r|
      ensures IndexOf(ColumnZero(data), r[i]) < IndexOf(ColumnZero(data), r[j])
    {
      var p, q := IndexOf(d.keys, r[i]), IndexOf(d.keys, r[j]);
      assert p < q;
    }
  }

  /** `verificarModa(data)`: fill `DictData` from the rows, then keep the keys whose
      frequency is `max(DictData.values())`. An empty table makes `max` raise
      `ValueError`. */
  method VerificarModa<K(==)>(data: seq<Row<K>>) returns (r: Result<seq<K>>)
    ensures data == [] ==> r == Err(ValueError)
    ensures data != [] ==> r == Ok(KeyModes(data))
  {
    ghost var ps := RowPairs(data);
    var dictData: Dict<K, int> := Dict([], map[]);
    for i := 0 to |data|
      invariant dictData == FromPairs(ps[..i])
    {
      assert ps[..i + 1][..i] == ps[..i];
      dictData := dictData.Put(data[i].col0, data[i].col1);
    }
    assert ps[..|data|] == ps;
    DictDataLastWriteWins(data);
    r := ArgMaxAll(dictData);
  }
}
