/**
 * The typed value box of gflags_value.cc: a FlagValue is a binding of a
 * kind to a storage cell that it reads and writes in place. Several boxes
 * can share one cell (the flag's own variable is shared by the registry
 * and the program), so the cell is an object of its own.
 */
module FlagValues {
  import opened Wrappers
  import opened Values

  /** The variable a flag's value lives in; its identity is the storage address. */
  class Storage {
    var value: Value

    constructor (v: Value)
      ensures value == v
    {
      value := v;
    }
  }

  /** A FlagValue: the kind tag and the cell it points at (value_buffer_). */
  class FlagValue {
    const buffer: Storage
    const kind: Kind

    /** The box over an existing cell takes its kind from what the cell holds. */
    constructor (buffer: Storage)
      ensures this.buffer == buffer && kind == buffer.value.KindOf()
    {
      this.buffer := buffer;
      kind := buffer.value.KindOf();
    }

    /** The cell holds a value of the box's kind. */
    ghost predicate Valid()
      reads buffer
    {
      buffer.value.KindOf() == kind
    }

    /**
     * ParseFrom: on success the cell holds what the grammar reads from the
     * text; on failure the cell is not written at all.
     */
    method ParseFrom(text: string) returns (ok: bool)
      requires Valid()
      modifies buffer
      ensures Valid()
      ensures ok == ParseValue(kind, text).Some?
      ensures buffer.value == if ok then ParseValue(kind, text).value else old(buffer.value)
    {
      if kind == Bool {
        ok := ParseBool(text);
        return;
      } else if kind == String {
        buffer.value := StringValue(text);
        return true;
      }
      if text == [] {
        return false;
      }
      var base := if |text| >= 2 && text[0] == '0' && (text[1] == 'x' || text[1] == 'X') then 16 else 10;
      assert base == NumericBase(text);
      if kind == Int32 || kind == Int64 {
        ok := ParseSignedText(text, base);
      } else if kind == UInt32 || kind == UInt64 {
        ok := ParseUnsignedText(text, base);
      } else {
        ok := false;
      }
    }

    /** The int32 and int64 branches: strtoll, then the 32-bit range check. */
    method ParseSignedText(text: string, base: nat) returns (ok: bool)
      requires kind == Int32 || kind == Int64
      requires Valid()
      modifies buffer
      ensures Valid()
      ensures ok == ParseSigned(kind, text, base).Some?
      ensures buffer.value == if ok then ParseSigned(kind, text, base).value else old(buffer.value)
    {
      var r := StrToInt64(text, base);
      if r.None? {
        return false;
      }
      if kind == Int64 {
        buffer.value := Int64Value(r.value as int64);
        return true;
      }
      if !(-TWO_31 <= r.value < TWO_31) {
        return false;
      }
      buffer.value := Int32Value(r.value as int32);
      return true;
    }

    /**
     * The uint32 and uint64 branches: skip blanks, refuse a '-', strtoull,
     * then the 32-bit range check.
     */
    method ParseUnsignedText(text: string, base: nat) returns (ok: bool)
      requires kind == UInt32 || kind == UInt64
      requires Valid()
      modifies buffer
      ensures Valid()
      ensures ok == ParseUnsigned(kind, text, base).Some?
      ensures buffer.value == if ok then ParseUnsigned(kind, text, base).value else old(buffer.value)
    {
      var rest := SkipLeadingBlanks(text);
      if rest != [] && rest[0] == '-' {
        return false;
      }
      var r := StrToUInt64(rest, base);
      if r.None? {
        return false;
      }
      if kind == UInt64 {
        buffer.value := UInt64Value(r.value as uint64);
        return true;
      }
      if r.value >= TWO_32 {
        return false;
      }
      buffer.value := UInt32Value(r.value as uint32);
      return true;
    }

    /** The bool branch of ParseFrom: one pass over the paired word tables. */
    method ParseBool(text: string) returns (ok: bool)
      requires kind == Bool && Valid()
      modifies buffer
      ensures Valid()
      ensures ok == ParseValue(kind, text).Some?
      ensures buffer.value == if ok then ParseValue(kind, text).value else old(buffer.value)
    {
      BoolWordMatchesTables(text);
      var i := 0;
      while i < |TrueWords|
        invariant 0 <= i <= |TrueWords|
        invariant forall k :: 0 <= k < i ==>
          !EqualsIgnoreCase(text, TrueWords[k]) && !EqualsIgnoreCase(text, FalseWords[k])
        invariant buffer.value == old(buffer.value)
      {
        if EqualsIgnoreCase(text, TrueWords[i]) {
          buffer.value := BoolValue(true);
          return true;
        } else if EqualsIgnoreCase(text, FalseWords[i]) {
          buffer.value := BoolValue(false);
          return true;
        }
        i := i + 1;
      }
      return false;
    }

    /** ToString: the text form of the value in the cell. */
    function ToString(): (r: string)
      reads buffer
      ensures kind != Double && Valid() ==> ParseValue(kind, r) == Some(buffer.value)
    {
      if buffer.value.KindOf() != Double then
        RoundTrip(buffer.value);
        Show(buffer.value)
      else
        Show(buffer.value)
    }

    /** TypeName: the C++ name of the box's kind. */
    function TypeName(): (r: string)
      ensures |r| > 0
    {
      Values.TypeName(kind)
    }

    /**
     * Equal: false when the kinds differ, otherwise the cells hold the same
     * value. Between well-formed boxes the kind check is implied, so Equal
     * is exactly equality of the held values.
     */
    predicate Equal(x: FlagValue): (r: bool)
      reads buffer, x.buffer
      ensures r ==> kind == x.kind
      ensures Valid() && x.Valid() ==> (r <==> buffer.value == x.buffer.value)
    {
      kind == x.kind && buffer.value == x.buffer.value
    }

    /** New: a box of the same kind over a fresh cell holding false, 0 or "". */
    method New() returns (r: FlagValue)
      ensures fresh(r) && fresh(r.buffer)
      ensures r.kind == kind && r.buffer.value == Zero(kind) && r.Valid()
    {
      var cell := new Storage(Zero(kind));
      r := new FlagValue(cell);
    }

    /** CopyFrom: only between boxes of one kind; afterwards the two are Equal. */
    method CopyFrom(x: FlagValue)
      requires kind == x.kind
      modifies buffer
      ensures buffer.value == old(x.buffer.value)
      ensures Equal(x)
      ensures x.Valid() ==> Valid()
    {
      buffer.value := x.buffer.value;
    }
  }

  /** The `while (*value == ' ') value++` loop of the unsigned branches. */
  method SkipLeadingBlanks(text: string) returns (rest: string)
    ensures rest == SkipBlanks(text)
  {
    var j := 0;
    while j < |text| && text[j] == ' '
      invariant 0 <= j <= |text|
      invariant SkipBlanks(text[j..]) == SkipBlanks(text)
    {
      assert text[j..][1..] == text[j + 1..];
      j := j + 1;
    }
    rest := text[j..];
  }
}
