/**
 * TryParseLocked of gflags_util.cc: the all-or-nothing assignment of a
 * text to a value box. The text is parsed into a fresh box, the flag's
 * validator judges that candidate, and only an accepted candidate is
 * copied into the target.
 */
module Util {
  import opened Wrappers
  import opened Values
  import opened Messages
  import opened FlagValues
  import opened Flags

  /** How a tentative assignment ends. */
  datatype TryOutcome =
    | Committed(value: Value)     // parsed and accepted: the target now holds value
    | Illegal                     // the text does not parse as the kind
    | Refused(candidate: Value)   // parsed, but the validator said no

  /**
   * The outcome of assigning text to a box of the given kind for the named
   * flag: the validator is asked about the freshly parsed candidate, never
   * about the value the target held before.
   */
  function TryParse(kind: Kind, validator: Option<ValidatorFn>, name: string, text: string): (r: TryOutcome)
    ensures r.Illegal? <==> ParseValue(kind, text).None?
    ensures r.Committed? <==>
      ParseValue(kind, text).Some? && Accepts(validator, name, ParseValue(kind, text).value)
    ensures r.Committed? ==> Some(r.value) == ParseValue(kind, text)
    ensures r.Refused? ==> Some(r.candidate) == ParseValue(kind, text)
  {
    match ParseValue(kind, text)
    case None => Illegal
    case Some(v) => if Accepts(validator, name, v) then Committed(v) else Refused(v)
  }

  /** The line TryParseLocked appends to its message for each outcome. */
  function TryParseMessage(info: FlagInfo, text: string, outcome: TryOutcome): Message {
    match outcome
    case Illegal => IllegalValue(text, info.kind, info.name)
    case Refused(c) => FailedValidation(c, info.name)
    case Committed(v) => SetTo(info.name, v, true)
  }

  /** The message after one call: untouched when there is none, else one line longer. */
  function AppendMessage(msg: Option<seq<Message>>, m: Message): (r: Option<seq<Message>>)
    ensures r.None? <==> msg.None?
    ensures msg.Some? ==>
      && |r.value| == |msg.value| + 1
      && r.value[..|msg.value|] == msg.value
      && r.value[|msg.value|..] == [m]
  {
    match msg
    case None => None
    case Some(lines) => Some(lines + [m])
  }

  /**
   * TryParseLocked: on success the target holds the accepted candidate; on
   * failure the target is exactly as before. A message line is appended
   * only when a message is given.
   */
  method TryParseLocked(flag: CommandLineFlag, target: FlagValue, text: string, msg: Option<seq<Message>>)
    returns (ok: bool, msgOut: Option<seq<Message>>)
    requires target.Valid() && target.kind == flag.Kind()
    modifies target.buffer
    ensures target.Valid()
    ensures var outcome := TryParse(target.kind, flag.validator, flag.name, text);
      && ok == outcome.Committed?
      && target.buffer.value == (if ok then outcome.value else old(target.buffer.value))
      && msgOut == AppendMessage(msg, TryParseMessage(flag.Info(), text, outcome))
  {
    var tentative := target.New();
    var parsed := tentative.ParseFrom(text);
    if !parsed {
      msgOut := AppendMessage(msg, IllegalValue(text, flag.Kind(), flag.name));
      return false, msgOut;
    } else if !flag.Validate(tentative) {
      msgOut := AppendMessage(msg, FailedValidation(tentative.buffer.value, flag.name));
      return false, msgOut;
    } else {
      target.CopyFrom(tentative);
      msgOut := AppendMessage(msg, SetTo(flag.name, target.buffer.value, true));
      return true, msgOut;
    }
  }
}
