/** Small failure-carrying datatypes shared by every other module. */
module Base {

  /** Python's `None` or a value. */
  datatype Option<+T> = None | Some(value: T)

  /** The exception that aborts a generator run. Each one ends the whole run:
      the generator catches none of them outside the enum scan. */
  datatype Fault =
    /** `element.attrib[attr]` raised `KeyError`. */
    | MissingAttribute(tag: string, attr: string)
    /** A `None` text was stripped or concatenated (`AttributeError` / `TypeError`). */
    | MissingText(tag: string)
    /** `find(child)` returned `None` and the result was iterated (`TypeError`). */
    | MissingChild(tag: string, child: string)
    /** A dict lookup `d[key]` raised `KeyError`. */
    | MissingKey(key: string)

  /** A value, or the fault that stopped the computation. */
  datatype Result<+T> = Success(value: T) | Failure(fault: Fault)
}
