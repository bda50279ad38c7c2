/** The optional value wrapper of the engine (Option<T>): a value that is either
    empty or holds one payload. Assignments replace the whole payload, so the
    wrapper is modelled as a value. */
module Options {

  datatype Option<T> = None | Some(value: T)
  {
    /** `operator bool` and `hasValue()`. */
    predicate HasValue() { Some? }
  }

  /** A default-constructed or nullptr-constructed Option. */
  function Empty<T>(): (r: Option<T>)
    ensures !r.HasValue()
  {
    None
  }

  /** Construction from a payload. */
  function Of<T>(data: T): (r: Option<T>)
    ensures r.HasValue() && r.value == data
  {
    Some(data)
  }

  /** The move constructor: the new Option takes the payload and the moved-from
      one is left empty. The result is the pair (new, moved-from). */
  function MoveConstruct<T>(other: Option<T>): (r: (Option<T>, Option<T>))
    ensures r.0 == other
    ensures !r.1.HasValue()
  {
    if other.HasValue() then (Some(other.value), None) else (None, None)
  }

  /** `operator=(nullptr)`. */
  function AssignNull<T>(target: Option<T>): (r: Option<T>)
    ensures !r.HasValue()
  {
    if !target.HasValue() then target else None
  }

  /** `operator=(const Data&)`: overwrite or place the payload. */
  function AssignValue<T>(target: Option<T>, data: T): (r: Option<T>)
    ensures r.HasValue() && r.value == data
  {
    if target.HasValue() then target.(value := data) else Some(data)
  }

  /** `operator=(const Option&)` for two distinct objects. */
  function AssignCopy<T>(target: Option<T>, other: Option<T>): (r: Option<T>)
    ensures r.HasValue() <==> other.HasValue()
    ensures other.HasValue() ==> r.value == other.value
  {
    if other.HasValue() then
      (if target.HasValue() then target.(value := other.value) else Some(other.value))
    else
      (if target.HasValue() then None else target)
  }

  /** `operator=(Option&&)` for two distinct objects: the pair (target, source)
      after the move. */
  function AssignMove<T>(target: Option<T>, other: Option<T>): (r: (Option<T>, Option<T>))
    ensures r.0 == other
    ensures !r.1.HasValue()
  {
    if other.HasValue() then
      (AssignValue(target, other.value), AssignNull(other))
    else
      (if target.HasValue() then None else target, other)
  }

  /** `operator==` between two Options of the same payload type. */
  function Equal<T(==)>(o1: Option<T>, o2: Option<T>): (r: bool)
    ensures r <==> o1 == o2
  {
    if !o1.HasValue() && !o2.HasValue() then true
    else if !o1.HasValue() || !o2.HasValue() then false
    else o1.value == o2.value
  }

  /** `operator!=` between two Options. */
  function NotEqual<T(==)>(o1: Option<T>, o2: Option<T>): (r: bool)
    ensures r <==> !Equal(o1, o2)
  {
    if !o1.HasValue() && !o2.HasValue() then false
    else if !o1.HasValue() || !o2.HasValue() then true
    else o1.value != o2.value
  }

  /** `operator==` between an Option and a payload. */
  function EqualValue<T(==)>(o: Option<T>, data: T): (r: bool)
    ensures r <==> o == Some(data)
  {
    if !o.HasValue() then false else o.value == data
  }

  /** `operator==(Option, nullptr)` as written: an empty Option answers false
      from the first test and a full one answers `!hasValue()`, so the result is
      false for every Option. */
  function EqualNullAsWritten<T>(o: Option<T>): (r: bool)
    ensures !r
  {
    if !o.HasValue() then false else !o.HasValue()
  }

  /** `operator!=(Option, nullptr)` as written: true for every Option. */
  function NotEqualNullAsWritten<T>(o: Option<T>): (r: bool)
    ensures r
  {
    if !o.HasValue() then true else o.HasValue()
  }

  /** The comparison against nullptr as its callers intend it: emptiness. */
  function IsNull<T>(o: Option<T>): (r: bool)
    ensures r <==> o == None
  {
    !o.HasValue()
  }

  /** An empty Option compares unequal to nullptr as written, although it is
      exactly the Option that the intended test reports as null. */
  lemma EmptyIsNotNullAsWritten<T>(o: Option<T>)
    requires o == None
    ensures IsNull(o) && !EqualNullAsWritten(o)
  {
  }
}
