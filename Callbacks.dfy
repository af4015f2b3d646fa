/** The read and write callbacks the wrappers build: the pointer callbacks
    over a `T* value_ptr` and the fixed-value callbacks over a std::string,
    in both their free-function form and their Characteristic static form. */
module Callbacks {
  import opened Gatt

  /** The object behind a `T* value_ptr`: `width` is sizeof(T) and `bytes`
      its object representation. */
  class ValueCell {
    const width: nat
    var bytes: seq<byte>

    ghost predicate Valid()
      reads this
    {
      |bytes| == width
    }

    constructor (initial: seq<byte>)
      ensures Valid() && width == |initial| && bytes == initial
    {
      width := |initial|;
      bytes := initial;
    }
  }

  /** A std::string variable that a callback captured by reference. */
  class StringCell {
    var value: seq<byte>

    constructor (initial: seq<byte>)
      ensures value == initial
    {
      value := initial;
    }
  }

  /** A ReadCallback (std::function<std::string()>). */
  datatype ReadCallback =
    | PointerRead(cell: ValueCell)   // copies sizeof(T) bytes from *value_ptr
    | FixedRead(value: seq<byte>)    // returns a string captured by copy
  {
    function Footprint(): set<object> {
      match this
      case PointerRead(c) => {c}
      case FixedRead(_) => {}
    }

    /** The string the callback returns when it is called now. */
    function Invoke(): seq<byte>
      reads Footprint()
    {
      match this
      case PointerRead(c) => c.bytes
      case FixedRead(v) => v
    }
  }

  /** A WriteCallback (std::function<void(const std::string&)>). */
  datatype WriteCallback =
    | PointerWrite(cell: ValueCell)    // memcpy into *value_ptr when the size matches
    | StringWrite(target: StringCell)  // assigns the captured string
  {
    function Footprint(): set<object> {
      match this
      case PointerWrite(c) => {c}
      case StringWrite(s) => {s}
    }
  }

  /** What calling `cb` with `data` did to the state it writes. */
  twostate predicate WriteApplied(cb: WriteCallback, data: seq<byte>)
    reads cb.Footprint()
  {
    match cb
    case PointerWrite(c) => c.bytes == if |data| == c.width then data else old(c.bytes)
    case StringWrite(s) => s.value == data
  }

  /** Calls a write callback. */
  method CallWrite(cb: WriteCallback, data: seq<byte>)
    modifies cb.Footprint()
    ensures WriteApplied(cb, data)
  {
    match cb
    case PointerWrite(c) =>
      if |data| == c.width {
        c.bytes := data;
      }
    case StringWrite(s) =>
      s.value := data;
  }

  /** make_pointer_read_callback */
  function MakePointerReadCallback(cell: ValueCell): (cb: ReadCallback)
    ensures cb.Footprint() == {cell}
  {
    PointerRead(cell)
  }

  /** make_pointer_write_callback */
  function MakePointerWriteCallback(cell: ValueCell): (cb: WriteCallback)
    ensures cb.Footprint() == {cell}
  {
    PointerWrite(cell)
  }

  /** make_fixed_read_callback: the value is captured by copy. */
  function MakeFixedReadCallback(value: seq<byte>): (cb: ReadCallback)
    ensures cb.Footprint() == {}
    ensures cb.Invoke() == value
  {
    FixedRead(value)
  }

  /** make_fixed_write_callback: the string is captured by reference. */
  function MakeFixedWriteCallback(target: StringCell): (cb: WriteCallback)
    ensures cb.Footprint() == {target}
  {
    StringWrite(target)
  }

  /** The pointer read callback returns exactly sizeof(T) bytes, the current
      bytes of *value_ptr. */
  lemma PointerReadMirrorsObject(cell: ValueCell)
    requires cell.Valid()
    ensures |MakePointerReadCallback(cell).Invoke()| == cell.width
    ensures MakePointerReadCallback(cell).Invoke() == cell.bytes
  {
  }

  /** The pointer write callback copies the data only when it has exactly
      sizeof(T) bytes, and the object keeps its size either way. */
  method PointerWriteOnlyWholeObject(cell: ValueCell, data: seq<byte>)
    requires cell.Valid()
    modifies cell
    ensures cell.Valid()
    ensures |data| == cell.width ==> cell.bytes == data
    ensures |data| != cell.width ==> cell.bytes == old(cell.bytes)
  {
    CallWrite(MakePointerWriteCallback(cell), data);
  }

  /** A sizeof(T)-byte write followed by a read through the pointer
      callbacks of the same object returns the written bytes. */
  method PointerRoundTrip(cell: ValueCell, data: seq<byte>) returns (read: seq<byte>)
    requires cell.Valid() && |data| == cell.width
    modifies cell
    ensures read == data
  {
    CallWrite(MakePointerWriteCallback(cell), data);
    read := MakePointerReadCallback(cell).Invoke();
  }

  /** The fixed read callback keeps returning the value it captured after the
      source string changes; the fixed write callback sets the referenced
      string to exactly the written data. */
  method FixedCallbacks(source: StringCell, data: seq<byte>) returns (read: seq<byte>)
    modifies source
    ensures source.value == data
    ensures read == old(source.value)
  {
    var reader := MakeFixedReadCallback(source.value);
    CallWrite(MakeFixedWriteCallback(source), data);
    read := reader.Invoke();
  }
}
