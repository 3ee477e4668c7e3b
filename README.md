# pyDiffMap utilities, modelled in Dafny

pyDiffMap computes diffusion maps. Its utilities module, `src/pydiffmap/utils.py`, provides two helpers used to build bandwidth and weight functions. This project models both helpers and proves what they promise.

- **`lookup_fxn(x, vals)`** (module `Lookup`, `lookup.dfy`). A loop fills a dictionary: key `str(x[i])`, value `vals[i]`, for each `i` in order. The function returns a closure `lf` that reads the dictionary.
  - `str` is modelled as an arbitrary key function `key: T -> K`. It is not assumed injective.
  - The dictionary is a `map<K, V>`.
  - The closure's `KeyError` is the `KeyError` case of a `Result`.
  - `TableOf` is the reference definition of the finished dictionary. Its keys are the keys of `x`. Each key holds the value of the last element of `x` with that key.
  - `BuildTable` is the loop, proved to produce `TableOf`. `LookupFxn` returns the closure and is proved to agree with `Lf` on that table.
- **`sparse_from_fxn(neighbors, function, Y)`** (module `Sparse`, `sparse.dfy`). It takes a fitted neighbour index over reference data `X` and query points `Y` (default `X`). It evaluates `function(Y[i], X[j])` once per edge of the k-nearest-neighbour connectivity graph, in edge order. It then packs the values into a sparse matrix with the graph's shape.
  - The neighbour index is a value `Neighbors(fitX, kneighborsGraph)`. `fitX` is the fitted data. `kneighborsGraph` is the foreign search, as a function from query points to a COO graph (shape plus parallel `row`/`col` index sequences).
  - The caller's precondition is what that search guarantees: the shape is `|Y|` by `|X|`, the indices are in range, and no pair appears twice.
  - The sparse matrix is its coordinate triples plus its shape. Its entry `(i, j)` is the sum of the values stored at `(i, j)`, because the sparse-matrix constructor sums duplicate coordinates. With the graph's distinct pairs, each edge's entry is that edge's value, and every other entry is zero.

The code and its docstring disagree on one point. The docstring of `sparse_from_fxn` (`src/pydiffmap/utils.py:51-53`) says `Y` supplies the values for the matrix's columns. The code builds the graph from `Y`, so `Y` indexes the rows and `X` the columns. The docstring at lines 40-41 and 58-60 also says this. The model follows the code.

## Model

| member | source | states |
|---|---|---|
| `Lookup.LastIndexOf` | src/pydiffmap/utils.py:28-29 | the index is -1 exactly when no element of `x` has key `k`; otherwise it is in range, its element has key `k`, and no later element does |
| `Lookup.TableSnoc` | src/pydiffmap/utils.py:29 | one step of the loop: the table of a one-longer prefix is the shorter prefix's table with `key(x[i])` overwritten by `vals[i]` |
| `Lookup.BuildTable` | src/pydiffmap/utils.py:27-29 | the dictionary filled by the loop equals the reference table: the key set of `x`; each key bound to the value of its last occurrence |
| `Lookup.LookupFxn` | src/pydiffmap/utils.py:8-35 | the returned closure gives, for every input, the lookup of that input's key in the reference table |
| `Lookup.KeysOfSize` | src/pydiffmap/utils.py:27-29 | `x` produces at most `|x|` distinct keys |
| `Lookup.TableKeys` | src/pydiffmap/utils.py:27-29 | a key is in the dictionary iff it is the key of some `x[i]`; the dictionary has at most `|x|` entries |
| `Lookup.LookupLastWins` | src/pydiffmap/utils.py:28-33 | last write wins: `lf(x[i])` is `vals[j]` for the largest `j` whose key equals that of `x[i]`, and `j >= i` |
| `Lookup.LookupDistinct` | src/pydiffmap/utils.py:21-29 | when the keys of `x` are pairwise distinct, `lf(x[i]) == vals[i]` for every `i` |
| `Lookup.LookupSucceedsIff` | src/pydiffmap/utils.py:32-33 | `lf(xi)` succeeds iff the key of `xi` is the key of some `x[i]`, and gives `KeyError` iff it is not |
| `Lookup.LookupRespectsKey` | src/pydiffmap/utils.py:32-33 | two inputs with the same string form get the same answer from `lf` |
| `Lookup.DuplicateKeyExample` | src/pydiffmap/utils.py:27-33 | with `x = [1, 2, 1]`, `vals = ["a", "b", "c"]`: `lf(1)` is `"c"`, `lf(2)` is `"b"`, `lf(3)` is `KeyError` |
| `Lookup.TableIgnoresExtraVals` | src/pydiffmap/utils.py:18-29 | entries of `vals` beyond `|x|` do not affect the dictionary |
| `Sparse.SumAtAbsent` | src/pydiffmap/utils.py:74 | a coordinate with no stored triple holds zero in the assembled matrix |
| `Sparse.SumAtStored` | src/pydiffmap/utils.py:74 | when no coordinate is stored twice, the entry at the coordinate of triple `t` is exactly triple `t`'s value |
| `Sparse.Assembly` | src/pydiffmap/utils.py:74 | packing one value per graph edge: every edge's entry is its value, and every position off the graph's pattern is zero |
| `Sparse.EvaluateEdges` | src/pydiffmap/utils.py:69-72 | one value per edge of `zip(row, col)`, in edge order: `vals[t] == f(Y[row[t]], X[col[t]])`, query point first, reference point second |
| `Sparse.SparseFromFxn` | src/pydiffmap/utils.py:38-74 | the result has the graph's shape (`|Y|` by `|X|`) and its pattern; entry `(row[t], col[t])` is `f(Y[row[t]], X[col[t]])`; every position off the pattern is zero; with `Y` omitted the matrix is square over the fitted points and `f` is applied to pairs of fitted points |

## Left out

- Python's `str` conversion is an abstract key function. Float formatting and the collisions it can cause are not modelled beyond "keys may collide".
- LookupFxn: requires `|vals| >= |x|`, which the loop needs in order to read `vals[i]`. The docstring asks for equal lengths. A shorter `vals` makes Python raise `IndexError` part-way through the loop, and that error path is not modelled.
- BuildTable: has the same `|vals| >= |x|` precondition, for the same reason.
- The nearest-neighbour search (`neighbors._fit_X`, `kneighbors_graph`, `tocoo`) is foreign code. It is taken as a given function whose output meets the shape, range and distinctness conditions. The k-nearest-neighbour selection itself is not modelled.
- The sparse-matrix constructor is modelled by the matrix it denotes (entries summed per coordinate). Its CSR storage layout (index pointers, sorted column indices) is not modelled.
- Matrix values are Dafny `real`s. Floating-point rounding does not arise, because no arithmetic is done on the values; the duplicate summation applies only to graphs with repeated pairs, which the precondition excludes.
- Conversion of the value list to a NumPy array is treated as the identity on the sequence.
- `src/pydiffmap/visualization.py` only draws plots and has no computable behaviour to model.
- The diffusion-map estimator itself is not part of this model: kernel construction, bandwidth selection, symmetrization, normalization, the eigensolver and out-of-sample extension.
