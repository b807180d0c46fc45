/**
 The two constructors of the Monte Carlo dice library that carry logic:
 `Die(faces)` validates its face array and sets up a weight table with
 every face at weight 1.0; `Analyzer(game)` is meant to reject anything
 that is not a `Game`. Python exceptions are modelled as the `Err` branch
 of a `Result`.
 */
module Montecarlo {
  import opened PyDict

  /**
   Python exceptions with their messages: the two the constructors raise,
   and any other one raised from inside a builtin.
   */
  datatype Exception =
    | TypeError(message: string)
    | ValueError(message: string)
    | OtherException(name: string, message: string)

  datatype Result<T> = Ok(value: T) | Err(error: Exception)

  const NotAnArrayMessage := "Please input a numpy array of faces."
  const NotDistinctMessage := "Faces must be distinct."
  const NotAGameMessage := "Please input a Game."

  /** Every face starts with this weight. */
  const InitialWeight: real := 1.0

  /**
   The argument handed to `Die(faces)`: a one-dimensional numpy array of
   faces, or any other Python object. For a plain list, `elements` is what the
   list holds; for an object that is no sequence at all it is empty.
   */
  datatype FaceArg<T> = NdArray(elements: seq<T>) | NotAnArray(elements: seq<T>)

  /**
   A constructed die: its weight table, one row per face in face order with
   the face as index and its weight in the single "Weight" column.
   */
  datatype Die<T> = Die(table: seq<Entry<T, real>>)

  /** The die's faces, in the order of its table. */
  function Faces<T>(d: Die<T>): seq<T> {
    KeysOf(d.table)
  }

  /** `len(np.unique(faces))`: the number of distinct faces. */
  function UniqueCount<T(==)>(faces: seq<T>): nat {
    |Elements(faces)|
  }

  /**
   `Die(faces)`. A non-array argument raises TypeError whatever it holds;
   an array with a repeated face raises ValueError; otherwise the die's table
   lists exactly the input faces, in input order, each with weight 1.0.
   */
  function NewDie<T(==)>(faces: FaceArg<T>): (r: Result<Die<T>>)
    ensures faces.NotAnArray? ==> r == Err(TypeError(NotAnArrayMessage))
    ensures faces.NdArray? ==> (r.Ok? <==> Distinct(faces.elements))
    ensures faces.NdArray? && r.Err? ==> r == Err(ValueError(NotDistinctMessage))
    ensures r.Ok? ==> Faces(r.value) == faces.elements
    ensures r.Ok? ==> forall i :: 0 <= i < |r.value.table| ==> r.value.table[i].value == InitialWeight
  {
    if faces.NotAnArray? then
      Err(TypeError(NotAnArrayMessage))
    else if |faces.elements| != UniqueCount(faces.elements) then
      DistinctIffNoCollapse(faces.elements);
      Err(ValueError(NotDistinctMessage))
    else
      DistinctIffNoCollapse(faces.elements);
      FromKeysOfDistinct(faces.elements, InitialWeight);
      Ok(Die(FromKeys(faces.elements, InitialWeight)))
  }

  /**
   A constructed die's table has one row per input face, no more and no
   fewer: its index is the set of input faces, no face is listed twice, and
   its row count is the number of faces given.
   */
  lemma NewDieTableShape<T>(faces: seq<T>)
    requires NewDie(NdArray(faces)).Ok?
    ensures Elements(Faces(NewDie(NdArray(faces)).value)) == Elements(faces)
    ensures Distinct(Faces(NewDie(NdArray(faces)).value))
    ensures |NewDie(NdArray(faces)).value.table| == |faces| == UniqueCount(faces)
  {
    DistinctIffNoCollapse(faces);
  }

  /** An empty array is accepted: there is no repeated face in it. */
  lemma NewDieAcceptsEmpty<T>()
    ensures NewDie<T>(NdArray([])) == Ok(Die([]))
  {
  }

  /**
   The constructor's side of the library's first three tests: a list is
   refused with TypeError, an array with a repeated 1 with ValueError, and
   the faces 1..6 each get weight 1.0 in the die's table.
   */
  lemma NewDieTestCases()
    ensures NewDie(NotAnArray([1, 2, 3, 4, 5, 6])).Err?
    ensures NewDie(NotAnArray([1, 2, 3, 4, 5, 6])).error.TypeError?
    ensures NewDie(NdArray([1, 1, 2, 3, 4, 5])).Err?
    ensures NewDie(NdArray([1, 1, 2, 3, 4, 5])).error.ValueError?
    ensures NewDie(NdArray([1, 2, 3, 4, 5, 6])).Ok?
    ensures forall e :: e in NewDie(NdArray([1, 2, 3, 4, 5, 6])).value.table ==> e.value == 1.0
  {
    var dup := [1, 1, 2, 3, 4, 5];
    assert dup[0] == dup[1];
  }

  /** `Game()`: its constructor is a stub, so a game carries no state. */
  datatype Game = Game

  /**
   The argument handed to `Analyzer(game)`: a `Game`, an ordinary object
   that is not one (a string, say), or an object whose `__class__` lookup
   raises an exception other than AttributeError, which is the one way
   `isinstance` itself raises.
   */
  datatype AnalyzerArg =
    | AGame(game: Game)
    | NotAGame(description: string)
    | ClassLookupRaises(raised: Exception)

  /** `Analyzer(game)`: its constructor stores nothing. */
  datatype Analyzer = Analyzer

  /**
   Python's `isinstance(x, Game)`: the answer, or the exception raised by the
   lookup of `x.__class__` once the quick type test has failed.
   */
  function IsInstanceOfGame(x: AnalyzerArg): Result<bool> {
    match x
    case AGame(_) => Ok(true)
    case NotAGame(_) => Ok(false)
    case ClassLookupRaises(e) => Err(e)
  }

  /**
   `Analyzer(game)` as written: the type test sits inside `try` and its
   answer is discarded. Any argument that can be asked the question is
   accepted, a non-Game included; only an exception from inside
   `isinstance` reaches the bare `except`, which turns it into ValueError.
   */
  function NewAnalyzer(game: AnalyzerArg): (r: Result<Analyzer>)
    ensures r.Ok? <==> !game.ClassLookupRaises?
    ensures r.Err? ==> r.error == ValueError(NotAGameMessage)
  {
    match IsInstanceOfGame(game)
    case Err(_) => Err(ValueError(NotAGameMessage))
    case Ok(_) => Ok(Analyzer)
  }

  /**
   `Analyzer(game)` as the error message and the tests intend it:
   ValueError exactly when the argument is not a `Game`.
   */
  function NewAnalyzerChecked(game: AnalyzerArg): (r: Result<Analyzer>)
    ensures r.Ok? <==> game.AGame?
    ensures r.Err? ==> r.error == ValueError(NotAGameMessage)
  {
    match IsInstanceOfGame(game)
    case Err(_) => Err(ValueError(NotAGameMessage))
    case Ok(isGame) => if isGame then Ok(Analyzer) else Err(ValueError(NotAGameMessage))
  }

  /**
   The string "not a game" is accepted by the constructor as written, while
   the intended constructor refuses it with ValueError.
   */
  lemma AnalyzerAcceptsNonGame()
    ensures NewAnalyzer(NotAGame("not a game")).Ok?
    ensures NewAnalyzerChecked(NotAGame("not a game")) == Err(ValueError(NotAGameMessage))
  {
  }
}
