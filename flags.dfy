/**
 * The flag descriptor of gflags_commandline.cc (CommandLineFlag): a name,
 * help text and defining file fixed at construction, a current and a
 * default value box, the modified bit and an optional validator.
 */
module Flags {
  import opened Wrappers
  import opened Values
  import opened FlagValues

  /**
   * A validator: the C function pointer, kept as its address (two
   * validators are the same function exactly when the addresses agree),
   * and the verdict it gives for a flag name and a candidate value. The
   * model takes one function per address: two validators with the same
   * address are assumed to give the same verdicts.
   */
  datatype ValidatorFn = ValidatorFn(address: nat, accepts: (string, Value) -> bool)

  /** Two optional validators are the same function pointer (NULL equals NULL). */
  predicate SameValidator(a: Option<ValidatorFn>, b: Option<ValidatorFn>) {
    match a
    case None => b.None?
    case Some(f) => b.Some? && b.value.address == f.address
  }

  /** CommandLineFlag::Validate on a value: no validator accepts everything. */
  predicate Accepts(validator: Option<ValidatorFn>, name: string, v: Value) {
    match validator
    case None => true
    case Some(f) => f.accepts(name, v)
  }

  /** The parts of a flag fixed at construction. */
  datatype FlagInfo = FlagInfo(name: string, help: string, file: string, kind: Kind)

  /** The parts of a flag that change: both values, the modified bit, the validator. */
  datatype FlagState = FlagState(
    current: Value, default: Value, modified: bool, validator: Option<ValidatorFn>)

  class CommandLineFlag {
    const name: string
    const help: string
    const file: string
    const current: FlagValue
    const defvalue: FlagValue
    var modified: bool
    var validator: Option<ValidatorFn>

    /** A new flag is unmodified and has no validator. */
    constructor (name: string, help: string, file: string, current: FlagValue, defvalue: FlagValue)
      ensures this.name == name && this.help == help && this.file == file
      ensures this.current == current && this.defvalue == defvalue
      ensures !modified && validator.None?
    {
      this.name := name;
      this.help := help;
      this.file := file;
      this.current := current;
      this.defvalue := defvalue;
      modified := false;
      validator := None;
    }

    /** The objects a flag's operations write: the flag and its two cells. */
    ghost function Repr(): set<object> {
      {this, current.buffer, defvalue.buffer}
    }

    /** Both boxes have the flag's kind and hold values of it, in distinct cells. */
    ghost predicate Valid()
      reads current.buffer, defvalue.buffer
    {
      current.kind == defvalue.kind && current.buffer != defvalue.buffer &&
      current.Valid() && defvalue.Valid()
    }

    /** Type(): the kind of the default box. */
    function Kind(): Kind {
      defvalue.kind
    }

    /** type_name(): the C++ name of the flag's kind. */
    function TypeName(): (r: string)
      ensures r == Values.TypeName(Kind())
    {
      defvalue.TypeName()
    }

    function Info(): FlagInfo {
      FlagInfo(name, help, file, Kind())
    }

    ghost function State(): FlagState
      reads this, current.buffer, defvalue.buffer
    {
      FlagState(current.buffer.value, defvalue.buffer.value, modified, validator)
    }

    /** Validate: true without a validator, otherwise the validator's verdict on the value. */
    function Validate(v: FlagValue): (r: bool)
      reads this, v.buffer
      ensures validator.None? ==> r
      ensures validator.Some? ==> r == validator.value.accepts(name, v.buffer.value)
    {
      validator.None? || validator.value.accepts(name, v.buffer.value)
    }

    /** ValidateCurrent: Validate applied to the current value. */
    function ValidateCurrent(): (r: bool)
      reads this, current.buffer
      ensures r == Accepts(validator, name, current.buffer.value)
    {
      Validate(current)
    }

    /** current_value(): the text of the current value. */
    function CurrentValue(): (r: string)
      reads current.buffer
      ensures r == Show(current.buffer.value)
    {
      current.ToString()
    }

    /**
     * UpdateModifiedBit: a write that bypassed the API (current differs
     * from default) sets the bit; the bit is never cleared.
     */
    method UpdateModifiedBit()
      requires Valid()
      modifies this
      ensures modified == (old(modified) || current.buffer.value != defvalue.buffer.value)
      ensures validator == old(validator)
    {
      if !modified && !current.Equal(defvalue) {
        modified := true;
      }
    }

    /** CopyFrom: afterwards every non-constant part equals the source's. */
    method CopyFrom(src: CommandLineFlag)
      requires current.kind == src.current.kind && defvalue.kind == src.defvalue.kind
      requires Valid() && (src == this || Repr() !! src.Repr())
      modifies this, current.buffer, defvalue.buffer
      ensures modified == old(src.modified) && validator == old(src.validator)
      ensures current.buffer.value == old(src.current.buffer.value)
      ensures defvalue.buffer.value == old(src.defvalue.buffer.value)
      ensures src.Valid() ==> Valid() && State() == old(src.State())
    {
      if modified != src.modified {
        modified := src.modified;
      }
      if !current.Equal(src.current) {
        current.CopyFrom(src.current);
      }
      if !defvalue.Equal(src.defvalue) {
        defvalue.CopyFrom(src.defvalue);
      }
      validator := src.validator;
    }
  }
}
