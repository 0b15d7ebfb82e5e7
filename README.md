# Central tendency exercises, modelled in Dafny

This project models three small Python programs from a data-analysis course:

- `lista1-grupo5/A10.py` takes the second column of a spreadsheet, sorts it, and reports three things:
  - the mean;
  - the median (`mediana`);
  - every mode (`moda`).
- `lista1-grupo5/A9.py` has two functions:
  - `verificarMediana` computes the median of the second column the same way.
  - `verificarModa` reads the table as a frequency table (first column: value, second column: frequency) and returns the values with the largest frequency.
- `Comprehension/2-list-comprehension-v2.py` builds the doubles of the even numbers below 10 twice, once with a list comprehension and once with a loop.

The Python built-ins these programs rely on are modelled with the behaviour that matters here:

- `round` rounds half to even.
- `int()` truncates.
- Slices clamp negative and out-of-range bounds.
- `max` of nothing raises `ValueError`.
- `list.count` and `list.sort`.
- `dict`: assignment keeps insertion order, and `items()` iterates in that order.

The modules are:

- `Seqs`: sequence predicates, first and last index, duplicate removal.
- `PyBuiltins`: the built-ins above, plus `Result` for the exceptions.
- `PyDict`: the insertion-ordered dict and the shared "keys with the largest value" scan.
- `Table`: rows of a spreadsheet.
- `A10`, `A9` and `ListComprehension`: one module per program.

Cells of the second column are integers. The mean and the median are exact rationals (`real`).

## Model

| member | source | states |
|---|---|---|
| PyBuiltins.PyRound | Analise_de_dados-USJT/Exercicios/lista1-grupo5/A10.py:28 | `round(x)` is an integer within 1/2 of x; on a tie it is the even neighbour |
| PyBuiltins.PyInt | Analise_de_dados-USJT/Exercicios/lista1-grupo5/A10.py:24 | `int(x)` truncates toward zero |
| PyBuiltins.PySlice | Analise_de_dados-USJT/Exercicios/lista1-grupo5/A10.py:25 | an in-range slice is the subsequence between the bounds; a slice is never longer than the list; any slice of the empty list is empty |
| PyBuiltins.MaxOf | Analise_de_dados-USJT/Exercicios/lista1-grupo5/A10.py:36 | `max` returns an element no smaller than any element |
| PyBuiltins.Count | Analise_de_dados-USJT/Exercicios/lista1-grupo5/A10.py:33 | `lista.count(x)` is the multiplicity of x, and it is positive exactly when x occurs |
| PyBuiltins.SumOfTwo | Analise_de_dados-USJT/Exercicios/lista1-grupo5/A10.py:25 | `sum` (modelled by `PyBuiltins.Sum`) of the two-cell middle slice is the sum of the two cells |
| PyBuiltins.Sort | Analise_de_dados-USJT/Exercicios/lista1-grupo5/A10.py:17 | the sorted list is ordered, a permutation of the input, and has the same `sum` (`PyBuiltins.Sum`) |
| PyBuiltins.SortedPermutationUnique | Analise_de_dados-USJT/Exercicios/lista1-grupo5/A10.py:17 | two sorted permutations of the same list are equal, so any correct sort yields `Sort(s)` |
| PyDict.Dict.Put | Analise_de_dados-USJT/Exercicios/lista1-grupo5/A9.py:31 | `d[k] = v`: the new mapping is the old one with k mapped to v; the key list is unchanged when k was present, else the old list with k appended; the dict stays well formed |
| PyDict.Dict.Values | Analise_de_dados-USJT/Exercicios/lista1-grupo5/A10.py:36 | `d.values()` has one value per key, the value of the i-th key at position i |
| PyDict.FromPairs | Analise_de_dados-USJT/Exercicios/lista1-grupo5/A9.py:29-31 | the dict left by `d = {}` and a loop of `d[k] = v` is well formed and has no more keys than assignments; its keys, domain and values are stated by the three lemmas below |
| PyDict.FromPairsKeys | Analise_de_dados-USJT/Exercicios/lista1-grupo5/A9.py:29-31 | after a loop of assignments, the dict's keys are the distinct assigned keys in order of first assignment |
| PyDict.FromPairsHasKey | Analise_de_dados-USJT/Exercicios/lista1-grupo5/A9.py:29-31 | a key is in the dict exactly when some assignment names it |
| PyDict.FromPairsLastWriteWins | Analise_de_dados-USJT/Exercicios/lista1-grupo5/A9.py:29-31 | each key holds the value of its last assignment |
| PyDict.MappedKeysListed | Analise_de_dados-USJT/Exercicios/lista1-grupo5/A10.py:37 | every key of the dict is visited by `items()` |
| PyDict.SelectKeysOrder | Analise_de_dados-USJT/Exercicios/lista1-grupo5/A10.py:37-39 | the filtering loop keeps the selected keys in iteration order, without repeats |
| PyDict.SelectKeys | Analise_de_dados-USJT/Exercicios/lista1-grupo5/A10.py:37-39 | the filter loop keeps only keys whose value is m, and keeps every such key |
| PyDict.ArgMaxKeysMaximal | Analise_de_dados-USJT/Exercicios/lista1-grupo5/A10.py:35-39 | `ArgMaxKeys(d)`, the filter loop run with `max(d.values())`, collects exactly the keys whose value no other key exceeds; on a non-empty dict there is at least one |
| PyDict.ArgMaxKeysOrdered | Analise_de_dados-USJT/Exercicios/lista1-grupo5/A10.py:37-39 | the collected keys follow the dict's insertion order and repeat no key |
| PyDict.ArgMaxAll | Analise_de_dados-USJT/Exercicios/lista1-grupo5/A10.py:35-41 | `max(d.values())` then the filtering loop; an empty dict gives `ValueError`; otherwise the result is the arg-max keys characterised above |
| Table.ColumnOne | Analise_de_dados-USJT/Exercicios/lista1-grupo5/A10.py:13-15 | the list gathered by appending `row[1]` of each row has one cell per row, the i-th row's at position i |
| Table.ColumnZero | Analise_de_dados-USJT/Exercicios/lista1-grupo5/A9.py:30-31 | the first cells of the rows, one per row, in row order |
| A10.OddMedianIndex | Analise_de_dados-USJT/Exercicios/lista1-grupo5/A10.py:28 | for odd n, `round(n/2)` is a valid index: n/2 when n/2 is even, n/2 + 1 when it is odd |
| A10.Mediana | Analise_de_dados-USJT/Exercicios/lista1-grupo5/A10.py:22-28 | even length: the mean of the two middle cells; empty list: 0; odd length: the cell at `round(n/2)` |
| A10.CorrectedMedianaIsMedian | Analise_de_dados-USJT/Exercicios/lista1-grupo5/A10.py:22-28 | the intended rule yields a median of any sorted non-empty list: at least half the cells lie on each side |
| A10.MedianaVersusCorrected | Analise_de_dados-USJT/Exercicios/lista1-grupo5/A10.py:27-28 | the code agrees with the intended median unless n % 4 == 3; then it reads the cell after the middle |
| A10.MedianaNotMedianWhenThreeModFour | Analise_de_dados-USJT/Exercicios/lista1-grupo5/A10.py:28 | on a strictly increasing list with n % 4 == 3 the result is not a median |
| A10.MedianaMissesMiddle | Analise_de_dados-USJT/Exercicios/lista1-grupo5/A10.py:28 | `mediana([1, 2, 3])` is 3, which is not a median |
| A10.Modes | Analise_de_dados-USJT/Exercicios/lista1-grupo5/A10.py:30-41 | every returned mode is a cell of the list |
| A10.CountDict | Analise_de_dados-USJT/Exercicios/lista1-grupo5/A10.py:31-33 | `contagem` has the distinct cells in order of first appearance, each mapped to its number of occurrences |
| A10.ModesAreMostFrequent | Analise_de_dados-USJT/Exercicios/lista1-grupo5/A10.py:30-41 | the modes are exactly the cells that no other cell outnumbers; there is at least one and none repeats |
| A10.ModesFirstOccurrenceOrder | Analise_de_dados-USJT/Exercicios/lista1-grupo5/A10.py:37-39 | the modes appear in order of their first occurrence in the list |
| A10.ModesAscendingWhenSorted | Analise_de_dados-USJT/Exercicios/lista1-grupo5/A10.py:17-20 | on the sorted list `tedenciaCentral` passes in, the modes are strictly increasing |
| A10.Moda | Analise_de_dados-USJT/Exercicios/lista1-grupo5/A10.py:30-41 | an empty list raises `ValueError`; otherwise the loop builds `contagem` and returns `Modes(lista)` |
| A10.MostFrequentSorted | Analise_de_dados-USJT/Exercicios/lista1-grupo5/A10.py:17 | sorting changes neither which values occur nor which are most frequent |
| A10.TedenciaCentral | Analise_de_dados-USJT/Exercicios/lista1-grupo5/A10.py:12-20 | an empty table raises `ZeroDivisionError`, and only it does; a non-empty table always yields a summary, in which: the mean is the column sum over the row count; the median is `Mediana` of the sorted column; the modes are strictly increasing and are exactly the most frequent values of the column |
| A9.VerificarMediana | Analise_de_dados-USJT/Exercicios/lista1-grupo5/A9.py:12-26 | the result is `Mediana` of the sorted second column; an empty table gives 0 |
| A9.DictDataLastWriteWins | Analise_de_dados-USJT/Exercicios/lista1-grupo5/A9.py:29-31 | `A9.DictData` (the dict after the loop) has the first-column keys in first-appearance order; each key holds `A9.Latest`, the second cell of the last row naming it, so a repeated key is overwritten, not summed |
| A9.DictDataHasKey | Analise_de_dados-USJT/Exercicios/lista1-grupo5/A9.py:30-31 | a key is in `DictData` exactly when some row names it |
| A9.DictDataLatest | Analise_de_dados-USJT/Exercicios/lista1-grupo5/A9.py:30-31 | a named key holds the frequency of the last row naming it |
| A9.KeyModes | Analise_de_dados-USJT/Exercicios/lista1-grupo5/A9.py:33-37 | every returned key is a first-column cell |
| A9.KeyModesAreMaximal | Analise_de_dados-USJT/Exercicios/lista1-grupo5/A9.py:33-37 | the returned keys are exactly the keys whose recorded frequency no other key exceeds; there is at least one and none repeats |
| A9.KeyModesInsertionOrder | Analise_de_dados-USJT/Exercicios/lista1-grupo5/A9.py:35-37 | the returned keys keep the order in which they first appear in the table |
| A9.VerificarModa | Analise_de_dados-USJT/Exercicios/lista1-grupo5/A9.py:28-39 | an empty table raises `ValueError`; otherwise the loop fills `DictData` and the result is `KeyModes(data)` |
| ListComprehension.DobrosDosParesShape | Python/Comprehension/2-list-comprehension-v2.py:3 | one element per even number below n, and the j-th is twice the j-th even number |
| ListComprehension.DobrosDosParesIncreasing | Python/Comprehension/2-list-comprehension-v2.py:3 | the elements are strictly increasing multiples of 4 |
| ListComprehension.DobrosDosParesOfTen | Python/Comprehension/2-list-comprehension-v2.py:3 | for `range(10)` the list is `[0, 4, 8, 12, 16]` |
| ListComprehension.DobrosDosParesLoop | Python/Comprehension/2-list-comprehension-v2.py:8-12 | the explicit loop builds the same list as the comprehension, `[0, 4, 8, 12, 16]` |

## Left out

- Reading the spreadsheet with pandas (`read_excel`, `iterrows`): a table is a sequence of rows. Only the first two cells of a row are modelled, since those are the only ones used.
- `print` calls, and the f-strings in which the results are returned: the model returns the values themselves.
- Floating point: `/` yields an exact `real`, so rounding in IEEE arithmetic is not modelled.
- Cells that are not integers (floats or strings in the spreadsheet) are not modelled.
- A10.TedenciaCentral: the Python evaluates `mediana` and `moda` only after the mean. On an empty table only the `ZeroDivisionError` is observable, and that is what the model returns.
- A9.VerificarModa: the debug `print(DictData.items())` is not modelled.
- PyBuiltins.Sort: the model specifies the result of `list.sort()` and does not reproduce Timsort's steps. Any sorted permutation equals it, by `SortedPermutationUnique`.
- The other programs of the repository are not part of this model.

## Findings

| source | as written | input that shows it | evidently intended | confidence | as-written member | corrected member |
|---|---|---|---|---|---|---|
| Analise_de_dados-USJT/Exercicios/lista1-grupo5/A10.py:28 | the odd branch reads `lista[round(len(lista)/2)]`; because `round` rounds half to even, this is the cell after the middle when n % 4 == 3 | `mediana([1, 2, 3])` returns 3 | the middle cell `lista[len(lista)//2]`, here 2 | high (proved; not executed) | A10.MedianaMissesMiddle | A10.CorrectedMedianaIsMedian |

`A9.py:26` repeats the same rule. `A10.TedenciaCentral` and `A9.VerificarMediana` deliberately keep the as-written `A10.Mediana`, because they model what the programs return. `A10.MedianaVersusCorrected` states where the two rules differ.
