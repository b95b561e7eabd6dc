/** The exceptions the tabulated-library container raises
    (spitfire/chemistry/library.py), and the result type through which every
    operation of the model returns either a value or the exception that
    Python would raise at the same point. The reason datatypes name which of
    the source's checks fired, so that contracts can speak about it. */
module PyResult {

  /** Why a ValueError was raised. */
  datatype ValueReason =
    | EmptyValues          // np.min / np.max of a zero-size array
    | NotIdentifier        // Dimension name fails str.isidentifier()
    | NotOneDimensional    // Dimension values are not a 1-D array
    | DuplicateValues      // structured Dimension with repeated values
    | MixedStructure       // Library given structured and unstructured dimensions
    | UnstructuredShapes   // unstructured dimensions of different lengths
    | UnstructuredNotFlat  // unstructured dimensions that are not flat arrays
    | GridNotSettable      // grid assigned on a Dimension no Library owns
    | ShapeMismatch        // property array shaped unlike the grid
    | ReshapeMismatch      // ndarray.reshape to a shape of another size
    | ZeroStep             // a slice whose step is zero

  /** Why a LibraryIndexError was raised by Library.__getitem__. */
  datatype IndexReason =
    | StringWithExtraArguments
    | UnstructuredSlicing
    | SliceCount

  /** The Python exceptions the container can raise. IndexError and TypeError
      are the built-in ones numpy and the interpreter raise; AttributeError is
      the one raised on a Library that never received a grid shape. */
  datatype Error =
    | ValueError(reason: ValueReason)
    | KeyError(key: string)
    | LibraryIndexError(why: IndexReason)
    | IndexError
    | TypeError
    | AttributeError

  /** A value, or the exception raised instead of producing it. */
  datatype Result<+T> = Ok(value: T) | Fail(error: Error) {

    predicate IsFailure()
    {
      Fail?
    }

    function PropagateFailure<U>(): Result<U>
      requires Fail?
    {
      Fail(error)
    }

    function Extract(): T
      requires Ok?
    {
      value
    }
  }

  datatype Option<+T> = None | Some(value: T)
}
