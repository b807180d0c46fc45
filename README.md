# Monte Carlo dice: the constructors with logic

This project models the part of the Monte Carlo dice library that does real
work: the `Die` constructor and the `Analyzer` constructor in
`montecarlo/montecarlo.py`.

`Die(faces)` first checks that `faces` is a numpy array. If it is not, it
raises TypeError. It then compares `len(faces)` with `len(np.unique(faces))`
and raises ValueError when they differ, i.e. when some face repeats. If both
checks pass, it builds its weight table from the dict comprehension
`{face: 1.0 for face in faces}`. The table has one row per face, in input
order, and every weight is 1.0.

`Analyzer(game)` calls `isinstance(game, Game)` inside a `try` and throws the
answer away. The constructor therefore accepts every argument that
`isinstance` can answer for, including one that is not a Game. The bare
`except` turns an exception into ValueError("Please input a Game."). This
only happens when `isinstance` itself raises, which it does when the
argument's `__class__` lookup raises something other than AttributeError.

The model is made of values and functions, like the source:

- `pydict.dfy` (module `PyDict`) models a Python dict as an ordered sequence
  of `Entry(key, value)` with no key repeated. `Insert` is the assignment
  `d[k] = v` and `FromKeys` is the comprehension.
- `montecarlo.dfy` (module `Montecarlo`) models the argument kinds, the
  exceptions with their messages, the `Die` value (its weight table) and the
  two constructors.

Faces are a generic type with equality. The test "is a numpy array" is a tag
on the argument (`NdArray` or `NotAnArray`). `len(np.unique(faces))` is the
number of distinct elements.

The constructor accepts an empty array and gives it an empty table
(`NewDieAcceptsEmpty`).

## Model

| member | source | states |
|---|---|---|
| `Montecarlo.NewDie` | montecarlo/montecarlo.py:6-13 | A non-array argument raises TypeError with its message, even when it holds repeated faces, because the type check runs first. For an array, construction succeeds exactly when no face repeats, and otherwise raises ValueError with its message. On success the table's faces are the input faces in input order and every weight is 1.0. |
| `Montecarlo.NewDieTableShape` | montecarlo/montecarlo.py:10-13 | The table of a constructed die lists no face twice. Its face set equals the set of input faces, with none missing or extra. It has exactly `len(faces)` rows, which equals `len(np.unique(faces))`. |
| `Montecarlo.NewDieAcceptsEmpty` | montecarlo/montecarlo.py:10-13 | An empty array passes both checks and gives an empty table. |
| `Montecarlo.NewDieTestCases` | montecarlo_test.py:8-21 | Tests 1 and 2 hold. A list `[1..6]` raises TypeError, and an array `[1,1,2,3,4,5]` raises ValueError. An array `[1..6]` is accepted, and every weight in its table is 1.0. That is the table test 3 checks, but test 3 itself reads the table through the `current_state` stub. |
| `PyDict.DistinctIffNoCollapse` | montecarlo/montecarlo.py:10 | A sequence never has more distinct values than positions. The two counts are equal exactly when no value repeats, so the length comparison is a distinctness test. |
| `PyDict.Insert` | montecarlo/montecarlo.py:13 | Assigning `d[k] = v` keeps keys unique and adds `k` to the key set. An existing key keeps its position and gets the new value, with every other entry unchanged. A new key is appended at the end. |
| `PyDict.FromKeys` | montecarlo/montecarlo.py:13 | The comprehension `{key: v for key in keys}` gives a dict with unique keys. Its key set is the set of `keys` and every value is `v`. |
| `PyDict.FromKeysCount` | montecarlo/montecarlo.py:10-13 | The comprehension has one entry per distinct key. It reaches `len(keys)` entries exactly when no key repeats, and otherwise collapses to fewer. |
| `PyDict.FromKeysOfDistinct` | montecarlo/montecarlo.py:13 | Over keys that do not repeat, the comprehension keeps insertion order: entry `i` is `(keys[i], v)`. |
| `Montecarlo.NewAnalyzer` | montecarlo/montecarlo.py:40-44 | As written, construction succeeds exactly when `isinstance` does not raise, whether or not the argument is a Game. When it raises, because the argument's `__class__` lookup raises, the result is ValueError("Please input a Game."). |
| `Montecarlo.NewAnalyzerChecked` | montecarlo/montecarlo.py:40-44 | Corrected constructor: it succeeds exactly when the argument is a Game, and otherwise raises ValueError("Please input a Game."). |
| `Montecarlo.AnalyzerAcceptsNonGame` | montecarlo_test.py:98-101 | The string "not a game" is accepted by the constructor as written, but refused with ValueError by the corrected one that the test expects. |

## Findings

| source | as written | input that shows it | evidently intended | confidence | as-written member | corrected member |
|---|---|---|---|---|---|---|
| montecarlo/montecarlo.py:40-44 | `isinstance(game, Game)` runs inside `try` and its result is discarded, so a non-Game is never rejected; ValueError comes only from an exception inside `isinstance` | `Analyzer("not a game")` constructs an analyzer | raise ValueError("Please input a Game.") when the argument is not a Game, as montecarlo_test.py:98-101 expects | high, not executed | `Montecarlo.NewAnalyzer` with `Montecarlo.AnalyzerAcceptsNonGame` | `Montecarlo.NewAnalyzerChecked` |

## Left out

- `Die.change_weight`, `Die.roll` and `Die.current_state` (montecarlo/montecarlo.py:16-23) are `pass` stubs with no behaviour to model. The tests that exercise them describe behaviour the code does not have. Test 3 (montecarlo_test.py:18-21) fails on the code as written, because `current_state()` returns None and indexing None raises TypeError.
- `Game.__init__`, `Game.play` and `Game.recent_play` (montecarlo/montecarlo.py:25-34) are stubs. A `Game` is therefore a value with no state.
- `Analyzer.jackpot`, `face_counts_per_roll`, `combo_count` and `permutation_count` (montecarlo/montecarlo.py:46-56) are stubs. The analyzer stores nothing, so it is a value with no state.
- Random sampling is left out: it is nondeterministic, and `roll` is unimplemented.
- `print(self.__df)` (montecarlo/montecarlo.py:14) is I/O and is left out.
- The pandas DataFrame becomes a sequence of (face, weight) rows in index order, and numpy array-ness becomes a tag on the argument.
- The weight 1.0 is a `real` constant; floating-point behaviour is not modelled.
- `NewDie`: only one-dimensional arrays are modelled. For a multi-dimensional array `len` counts rows while `np.unique` flattens, and the comprehension would fail on unhashable rows.
- `NewDie`: numpy's own failures inside `np.unique` are not modelled, because they depend on foreign library semantics. Examples are a TypeError when sorting incomparable object faces, and NaN faces, which compare unequal to themselves.
