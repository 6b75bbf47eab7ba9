/**
 * The flag registry of gflags_regist.cc: every flag by name and by the
 * address of its current-value cell, name lookup with '-' read as '_',
 * the `name=value` / `noname` splitting of an option, and the three
 * setting modes.
 */
module Registry {
  import opened Wrappers
  import opened Values
  import opened Messages
  import opened FlagValues
  import opened Flags
  import opened Util

  // ---------------------------------------------------------------------
  // Name lookup
  // ---------------------------------------------------------------------

  /** The name with every '-' replaced by '_'. */
  function Underscored(s: string): (r: string)
    ensures |r| == |s|
    ensures forall k :: 0 <= k < |s| ==> r[k] == (if s[k] == '-' then '_' else s[k])
    ensures '-' !in r
  {
    seq(|s|, k requires 0 <= k < |s| => if s[k] == '-' then '_' else s[k])
  }

  /**
   * FindFlagLocked over any name-keyed map: an exact hit first; on a miss,
   * a name holding a '-' is looked up again with every '-' replaced by '_'.
   * The result is the key that was found.
   */
  function FindName<T>(m: map<string, T>, name: string): (r: Option<string>)
    ensures name in m ==> r == Some(name)
    ensures name !in m ==> r == (if Underscored(name) in m then Some(Underscored(name)) else None)
    decreases if '-' in name then 1 else 0
  {
    if name in m then Some(name)
    else if '-' !in name then
      assert Underscored(name) == name;
      None
    else FindName(m, Underscored(name))
  }

  /** The position strchr finds: the first occurrence of c, if any. */
  function FirstIndex(s: string, c: char): (r: Option<nat>)
    ensures r.None? <==> c !in s
    ensures r.Some? ==> r.value < |s| && s[r.value] == c && c !in s[..r.value]
  {
    if s == [] then None
    else if s[0] == c then Some(0)
    else match FirstIndex(s[1..], c)
      case None => None
      case Some(k) =>
        assert s[..k + 1] == [s[0]] + s[1..][..k];
        Some(k + 1)
  }

  // ---------------------------------------------------------------------
  // Splitting an option
  // ---------------------------------------------------------------------

  /**
   * What SplitArgumentLocked reports: the flag found (by its registry
   * name), the key, the value text (None for a missing "=value") and the
   * error message when no flag is found.
   */
  datatype SplitResult = SplitResult(
    flag: Option<string>, key: string, value: Option<string>, error: Option<Message>)

  /** "no" followed by at least one more character... or nothing: strcmp-style check of two chars. */
  predicate HasNoPrefix(key: string) {
    |key| >= 2 && key[0] == 'n' && key[1] == 'o'
  }

  /** The text before the first '=', or all of it. */
  function KeyPart(arg: string): (key: string)
    ensures '=' !in key && |key| <= |arg| && key == arg[..|key|]
  {
    match FirstIndex(arg, '=')
    case None => arg
    case Some(k) => arg[..k]
  }

  /** The text after the first '=', or None when there is no '='. */
  function ValuePart(arg: string): (value: Option<string>)
    ensures value.None? <==> '=' !in arg
    ensures value.Some? ==> arg == KeyPart(arg) + "=" + value.value
  {
    match FirstIndex(arg, '=')
    case None => None
    case Some(k) =>
      assert arg == arg[..k] + "=" + arg[k + 1..];
      Some(arg[k + 1..])
  }

  /** The flag lookup of SplitArgumentLocked once the key and value are cut apart. */
  function Resolve(infos: map<string, FlagInfo>, key: string, value: Option<string>): (r: SplitResult)
    ensures r.flag.Some? <==> r.error.None?
    ensures r.flag.Some? ==> r.flag.value in infos
    ensures r.flag.Some? && infos[r.flag.value].kind == Bool ==> r.value.Some?
  {
    match FindName(infos, key)
    case Some(f) =>
      SplitResult(Some(f), key, if value.None? && infos[f].kind == Bool then Some("1") else value, None)
    case None =>
      if !HasNoPrefix(key) then SplitResult(None, key, value, Some(UnknownFlag(key)))
      else match FindName(infos, key[2..])
        case None => SplitResult(None, key, value, Some(UnknownFlag(key)))
        case Some(f) =>
          if infos[f].kind != Bool then
            SplitResult(None, key, value, Some(BoolValueForNonBool(key, infos[f].kind)))
          else SplitResult(Some(f), key[2..], Some("0"), None)
  }

  /**
   * SplitArgumentLocked as a function of the registered flags: the key is
   * the text before the first '=', the value the text after it. An
   * unknown "noX" naming a bool flag X selects X with value "0"; a bool
   * flag given without '=' gets "1".
   */
  function Split(infos: map<string, FlagInfo>, arg: string): (r: SplitResult)
    ensures r.flag.Some? <==> r.error.None?
    ensures r.flag.Some? ==> r.flag.value in infos
    ensures r.flag.Some? && infos[r.flag.value].kind == Bool ==> r.value.Some?
  {
    Resolve(infos, KeyPart(arg), ValuePart(arg))
  }

  /** Cutting key + rest, where key holds no '=' and rest is empty or starts with one. */
  lemma Cut(key: string, rest: string)
    requires '=' !in key
    requires rest == [] || rest[0] == '='
    ensures KeyPart(key + rest) == key
    ensures ValuePart(key + rest) == if rest == [] then None else Some(rest[1..])
  {
    var arg := key + rest;
    if rest == [] {
      assert arg == key;
    } else {
      assert arg[|key|] == '=';
      assert arg[..|key|] == key;
      assert arg[|key| + 1..] == rest[1..];
    }
  }

  /** The key is the text before the first '=' and the value the text after it. */
  lemma SplitKeyValue(infos: map<string, FlagInfo>, key: string, value: string)
    requires '=' !in key
    requires FindName(infos, key).Some?
    ensures Split(infos, key + "=" + value).key == key
    ensures Split(infos, key + "=" + value).value == Some(value)
    ensures Split(infos, key + "=" + value).flag == FindName(infos, key)
  {
    assert key + "=" + value == key + ("=" + value);
    Cut(key, "=" + value);
    assert ("=" + value)[1..] == value;
  }

  /** "--noX" or "--noX=anything" for a bool flag X that "noX" does not name: X with value "0". */
  lemma SplitNegation(infos: map<string, FlagInfo>, x: string, rest: string)
    requires '=' !in x && FindName(infos, "no" + x).None?
    requires FindName(infos, x).Some? && infos[FindName(infos, x).value].kind == Bool
    requires rest == [] || rest[0] == '='
    ensures Split(infos, "no" + x + rest) == SplitResult(FindName(infos, x), x, Some("0"), None)
  {
    var key := "no" + x;
    NoPrefixed(x);
    Cut(key, rest);
  }

  /** "no" + x holds an '=' only where x does, starts with "no", and drops back to x. */
  lemma NoPrefixed(x: string)
    ensures '=' in "no" + x <==> '=' in x
    ensures HasNoPrefix("no" + x) && ("no" + x)[2..] == x
  {
    var key := "no" + x;
    assert forall k :: 2 <= k < |key| ==> key[k] == x[k - 2];
    assert key == ['n', 'o'] + x;
  }

  /** An option without '=' naming a flag directly: bool gets "1", others no value. */
  lemma SplitBare(infos: map<string, FlagInfo>, key: string)
    requires '=' !in key && FindName(infos, key).Some?
    ensures var r := Split(infos, key);
      r.key == key && r.flag == FindName(infos, key) &&
      r.value == (if infos[r.flag.value].kind == Bool then Some("1") else None)
  {
  }

  // ---------------------------------------------------------------------
  // The setting modes
  // ---------------------------------------------------------------------

  /** FlagSettingMode. */
  datatype FlagSettingMode = SetFlagsValue | SetFlagIfDefault | SetFlagsDefault

  /** The result of SetFlagLocked: the verdict, the flag's new state and the message. */
  datatype SetOutcome = SetOutcome(ok: bool, state: FlagState, msg: seq<Message>)

  /** UpdateModifiedBit on a flag state. */
  function Touch(st: FlagState): (r: FlagState)
    ensures r.current == st.current && r.default == st.default && r.validator == st.validator
    ensures r.modified <==> st.modified || st.current != st.default
  {
    st.(modified := st.modified || st.current != st.default)
  }

  /** The value-setting branch: TryParseLocked on the current value, then modified. */
  function SetCurrent(info: FlagInfo, st: FlagState, text: string, msg: seq<Message>): (r: SetOutcome)
    ensures var out := TryParse(info.kind, st.validator, info.name, text);
      && r.ok == out.Committed?
      && r.state == (if r.ok then st.(current := out.value, modified := true) else st)
      && r.msg == msg + [TryParseMessage(info, text, out)]
  {
    var out := TryParse(info.kind, st.validator, info.name, text);
    var m := msg + [TryParseMessage(info, text, out)];
    if out.Committed? then SetOutcome(true, st.(current := out.value, modified := true), m)
    else SetOutcome(false, st, m)
  }

  /**
   * SetFlagLocked on a flag's state. The modified bit is brought up to
   * date first; then SET_FLAGS_VALUE sets the current value,
   * SET_FLAG_IF_DEFAULT does so only for an unmodified flag and otherwise
   * reports the current value, and SET_FLAGS_DEFAULT sets the default and,
   * for an unmodified flag, the current value as well.
   */
  function SetFlagSpec(info: FlagInfo, st: FlagState, text: string, mode: FlagSettingMode, msg: seq<Message>)
    : (r: SetOutcome)
    ensures r.state.validator == st.validator
    ensures st.modified ==> r.state.modified
    ensures mode == SetFlagsDefault ==> r.state.modified == Touch(st).modified
    ensures !r.ok ==> r.state == Touch(st)
    ensures mode != SetFlagsDefault ==> r.state.default == st.default
    ensures r.state.current != st.current ==>
      Some(r.state.current) == ParseValue(info.kind, text) && Accepts(st.validator, info.name, r.state.current)
    ensures r.state.default != st.default ==>
      Some(r.state.default) == ParseValue(info.kind, text) && Accepts(st.validator, info.name, r.state.default)
  {
    var st1 := Touch(st);
    match mode
    case SetFlagsValue => SetCurrent(info, st1, text, msg)
    case SetFlagIfDefault =>
      if !st1.modified then SetCurrent(info, st1, text, msg)
      else SetOutcome(true, st1, [SetTo(info.name, st1.current, false)])
    case SetFlagsDefault =>
      var out := TryParse(info.kind, st.validator, info.name, text);
      var m := msg + [TryParseMessage(info, text, out)];
      if !out.Committed? then SetOutcome(false, st1, m)
      else SetOutcome(true, st1.(default := out.value, current := if st1.modified then st1.current else out.value), m)
  }

  /**
   * SET_FLAGS_VALUE succeeds exactly when the text parses and the
   * validator accepts it; then the current value is the parsed one and
   * the flag is modified.
   */
  lemma SetValueMode(info: FlagInfo, st: FlagState, text: string, msg: seq<Message>)
    ensures var r := SetFlagSpec(info, st, text, SetFlagsValue, msg);
      && (r.ok <==> ParseValue(info.kind, text).Some? && Accepts(st.validator, info.name, ParseValue(info.kind, text).value))
      && (r.ok ==> r.state.current == ParseValue(info.kind, text).value && r.state.modified)
  {
  }

  /**
   * SET_FLAG_IF_DEFAULT updates only a flag not yet modified: once set (or
   * written directly, so that current differs from default) it succeeds
   * without touching the value.
   */
  lemma IfDefaultMode(info: FlagInfo, st: FlagState, text: string, msg: seq<Message>)
    ensures var r := SetFlagSpec(info, st, text, SetFlagIfDefault, msg);
      && (Touch(st).modified ==> r.ok && r.state == Touch(st))
      && (!Touch(st).modified ==> r == SetFlagSpec(info, st, text, SetFlagsValue, msg))
  {
  }

  /**
   * SET_FLAGS_DEFAULT sets the default and, when the flag is unmodified,
   * moves the current value along; it never sets the modified bit.
   */
  lemma DefaultMode(info: FlagInfo, st: FlagState, text: string, msg: seq<Message>)
    ensures var r := SetFlagSpec(info, st, text, SetFlagsDefault, msg);
      && (r.ok <==> ParseValue(info.kind, text).Some? && Accepts(st.validator, info.name, ParseValue(info.kind, text).value))
      && (r.ok ==> r.state.default == ParseValue(info.kind, text).value)
      && (r.ok ==> r.state.current == if Touch(st).modified then st.current else r.state.default)
      && r.state.modified == Touch(st).modified
  {
  }

  /** Setting the same text twice in SET_FLAGS_VALUE mode leaves the state of setting it once. */
  lemma SetValueIdempotent(info: FlagInfo, st: FlagState, text: string, msg: seq<Message>, msg2: seq<Message>)
    ensures var r := SetFlagSpec(info, st, text, SetFlagsValue, msg);
      SetFlagSpec(info, r.state, text, SetFlagsValue, msg2).state == r.state
  {
  }

  // ---------------------------------------------------------------------
  // The registry object
  // ---------------------------------------------------------------------

  /** The flags of a name map and their cells. */
  ghost function ObjectsOf(flags: map<string, CommandLineFlag>): set<object> {
    (set n | n in flags :: flags[n] as object) +
    (set n | n in flags :: flags[n].current.buffer as object) +
    (set n | n in flags :: flags[n].defvalue.buffer as object)
  }

  /** The objects of a name map are flags and cells, never an object of another class. */
  lemma ObjectsAreFlagsAndCells(flags: map<string, CommandLineFlag>)
    ensures forall o :: o in ObjectsOf(flags) ==> o is CommandLineFlag || o is Storage
  {
  }

  /**
   * The registry's invariant: each flag is registered under its own name
   * and is Valid; distinct names hold distinct flags over distinct cells;
   * the pointer map indexes exactly the registered flags by their
   * current-value cell.
   */
  ghost predicate WellFormed(
    flags: map<string, CommandLineFlag>, byPtr: map<Storage, CommandLineFlag>, owner: map<object, string>)
    reads ObjectsOf(flags)
  {
    Indexed(flags, byPtr, owner) && AllValid(flags)
  }

  /** The fixed parts of every flag of a name map. */
  function InfosOf(flags: map<string, CommandLineFlag>): (r: map<string, FlagInfo>)
    ensures r.Keys == flags.Keys
  {
    map n | n in flags :: flags[n].Info()
  }

  /** Adding a flag under a new name adds its info at that name only. */
  lemma InfosOfInsert(flags: map<string, CommandLineFlag>, flag: CommandLineFlag)
    requires flag.name !in flags
    ensures InfosOf(flags[flag.name := flag]) == InfosOf(flags)[flag.name := flag.Info()]
  {
  }

  /** Adding a flag under a new name adds its state at that name only. */
  lemma StatesOfInsert(flags: map<string, CommandLineFlag>, flag: CommandLineFlag)
    requires flag.name !in flags
    ensures StatesOf(flags[flag.name := flag]) == StatesOf(flags)[flag.name := flag.State()]
  {
  }

  /** The changing parts of every flag of a name map. */
  ghost function StatesOf(flags: map<string, CommandLineFlag>): (r: map<string, FlagState>)
    reads ObjectsOf(flags)
    ensures r.Keys == flags.Keys
  {
    map n | n in flags :: flags[n].State()
  }

  /** When only one flag's state moved, the map of states moves at that name only. */
  lemma OneStateChanged(flags: map<string, CommandLineFlag>, before: map<string, FlagState>, name: string)
    requires name in flags && before.Keys == flags.Keys
    requires forall n :: n in flags && n != name ==> flags[n].State() == before[n]
    ensures StatesOf(flags) == before[name := flags[name].State()]
  {
  }

  /** When no flag's state moved, neither did the map of states. */
  lemma NoStateChanged(flags: map<string, CommandLineFlag>, before: map<string, FlagState>)
    requires before.Keys == flags.Keys
    requires forall n :: n in flags ==> flags[n].State() == before[n]
    ensures StatesOf(flags) == before
  {
  }

  /** Every registered flag is Valid. */
  ghost predicate AllValid(flags: map<string, CommandLineFlag>)
    reads ObjectsOf(flags)
  {
    forall n :: n in flags ==> flags[n].Valid()
  }

  /** The flag and both its cells are recorded as belonging to the name. */
  ghost predicate Owns(owner: map<object, string>, flag: CommandLineFlag, name: string) {
    && flag in owner && owner[flag] == name
    && flag.current.buffer in owner && owner[flag.current.buffer] == name
    && flag.defvalue.buffer in owner && owner[flag.defvalue.buffer] == name
  }

  /** An owner map with a flag's objects recorded under its name. */
  ghost function Claim(owner: map<object, string>, flag: CommandLineFlag): (r: map<object, string>)
    ensures Owns(r, flag, flag.name)
    ensures forall o :: o in owner && o !in flag.Repr() ==> o in r && r[o] == owner[o]
  {
    owner[flag := flag.name][flag.current.buffer := flag.name][flag.defvalue.buffer := flag.name]
  }

  /**
   * The part of the invariant about names, cells and the two maps. Every
   * object of a flag is owned by the flag's name, so distinct names hold
   * distinct flags over distinct cells.
   */
  ghost predicate Indexed(
    flags: map<string, CommandLineFlag>, byPtr: map<Storage, CommandLineFlag>, owner: map<object, string>)
  {
    && (forall n :: n in flags ==> flags[n].name == n && Owns(owner, flags[n], n))
    && (forall p :: p in byPtr ==>
          && byPtr[p].current.buffer == p
          && byPtr[p].name in flags
          && flags[byPtr[p].name] == byPtr[p])
    && (forall n :: n in flags ==>
          flags[n].current.buffer in byPtr && byPtr[flags[n].current.buffer] == flags[n])
  }

  /** Two registered flags share no object. */
  lemma Disjoint(
    flags: map<string, CommandLineFlag>, byPtr: map<Storage, CommandLineFlag>, owner: map<object, string>,
    n: string, m: string)
    requires Indexed(flags, byPtr, owner) && n in flags && m in flags && n != m
    ensures flags[n].Repr() !! flags[m].Repr()
  {
    assert Owns(owner, flags[n], n) && Owns(owner, flags[m], m);
  }

  /** The objects of a map with one more flag are the old ones and the new flag's. */
  lemma ObjectsOfInsert(flags: map<string, CommandLineFlag>, flag: CommandLineFlag)
    requires flag.name !in flags
    ensures ObjectsOf(flags[flag.name := flag]) == ObjectsOf(flags) + flag.Repr()
  {
    var flags' := flags[flag.name := flag];
    forall o | o in ObjectsOf(flags) + flag.Repr()
      ensures o in ObjectsOf(flags')
    {
      if o in flag.Repr() {
        assert flags'[flag.name] == flag;
      } else if o in (set n | n in flags :: flags[n] as object) {
        var n :| n in flags && o == flags[n];
        assert flags'[n] == flags[n];
      } else if o in (set n | n in flags :: flags[n].current.buffer as object) {
        var n :| n in flags && o == flags[n].current.buffer;
        assert flags'[n] == flags[n];
      } else {
        var n :| n in flags && o == flags[n].defvalue.buffer;
        assert flags'[n] == flags[n];
      }
    }
  }

  /** Adding a flag with a new name over new cells keeps names, cells and maps consistent. */
  lemma IndexedInsert(
    flags: map<string, CommandLineFlag>, byPtr: map<Storage, CommandLineFlag>, owner: map<object, string>,
    flag: CommandLineFlag)
    requires Indexed(flags, byPtr, owner) && flag.Valid()
    requires flag.name !in flags && flag.Repr() !! ObjectsOf(flags)
    ensures flag.current.buffer !in byPtr
    ensures Indexed(flags[flag.name := flag], byPtr[flag.current.buffer := flag], Claim(owner, flag))
  {
    forall p | p in byPtr
      ensures p != flag.current.buffer
    {
      assert p == flags[byPtr[p].name].current.buffer;
    }
    forall n | n in flags
      ensures flags[n].Repr() !! flag.Repr()
    {
      assert flags[n] in ObjectsOf(flags);
      assert flags[n].current.buffer in ObjectsOf(flags);
      assert flags[n].defvalue.buffer in ObjectsOf(flags);
    }
  }

  /** Adding a Valid flag with a new name over new cells keeps the invariant. */
  lemma InsertKeepsWellFormed(
    flags: map<string, CommandLineFlag>, byPtr: map<Storage, CommandLineFlag>, owner: map<object, string>,
    flag: CommandLineFlag)
    requires WellFormed(flags, byPtr, owner) && flag.Valid()
    requires flag.name !in flags && flag.Repr() !! ObjectsOf(flags)
    ensures flag.current.buffer !in byPtr
    ensures ObjectsOf(flags[flag.name := flag]) == ObjectsOf(flags) + flag.Repr()
    ensures WellFormed(flags[flag.name := flag], byPtr[flag.current.buffer := flag], Claim(owner, flag))
  {
    ObjectsOfInsert(flags, flag);
    IndexedInsert(flags, byPtr, owner, flag);
  }

  /** What SplitArgumentLocked hands back: the flag found, the key, the value and the error. */
  datatype Lookup = Lookup(
    flag: Option<CommandLineFlag>, key: string, value: Option<string>, error: Option<Message>)

  /** RegisterFlag either inserts the flag or reports a fatal duplicate. */
  datatype Registration = Registered | Fatal(message: Message)

  class FlagRegistry {
    var flags: map<string, CommandLineFlag>
    var flagsByPtr: map<Storage, CommandLineFlag>
    /** The name of the flag each registered object belongs to. */
    ghost var owner: map<object, string>

    constructor ()
      ensures flags == map[] && flagsByPtr == map[]
    {
      flags := map[];
      flagsByPtr := map[];
      owner := map[];
    }

    /** Every object a registered flag's operations may write. */
    ghost function Objects(): set<object>
      reads this
    {
      ObjectsOf(flags)
    }

    ghost predicate Valid()
      reads this, Objects()
    {
      WellFormed(flags, flagsByPtr, owner)
    }

    /** The fixed parts of every registered flag, by name. */
    function Infos(): (r: map<string, FlagInfo>)
      reads this
      ensures r.Keys == flags.Keys
    {
      InfosOf(flags)
    }

    /** The changing parts of every registered flag, by name. */
    ghost function View(): (r: map<string, FlagState>)
      reads this, Objects()
      ensures r.Keys == flags.Keys
    {
      StatesOf(flags)
    }

    /**
     * RegisterFlag: a new name is added to both maps; a name already
     * present is fatal, and the message names both defining files when they
     * differ.
     */
    method RegisterFlag(flag: CommandLineFlag) returns (r: Registration)
      requires Valid() && flag.Valid() && flag.Repr() !! Objects()
      modifies this
      ensures Valid()
      ensures old(flag.name in flags) ==> flags == old(flags) && flagsByPtr == old(flagsByPtr)
      ensures old(flag.name in flags) ==> r == Fatal(
        if old(flags[flag.name].file) != flag.file then DefinedTwice(flag.name, old(flags[flag.name].file), flag.file)
        else LinkedTwice(flag.name, flag.file))
      ensures old(flag.name !in flags) ==> r == Registered && flags == old(flags)[flag.name := flag]
      ensures old(flag.name !in flags) ==> flagsByPtr == old(flagsByPtr)[flag.current.buffer := flag]
      ensures r == Registered ==>
        FindFlagLocked(flag.name) == Some(flag) && FindFlagViaPtrLocked(flag.current.buffer) == Some(flag)
      ensures old(flag.name in flags) ==> View() == old(View())
      ensures old(flag.name !in flags) ==>
        View() == old(View())[flag.name := old(flag.State())] && Infos() == old(Infos())[flag.name := flag.Info()]
    {
      if flag.name in flags {
        var existing := flags[flag.name];
        if existing.file != flag.file {
          return Fatal(DefinedTwice(flag.name, existing.file, flag.file));
        } else {
          return Fatal(LinkedTwice(flag.name, flag.file));
        }
      }
      ghost var before, states := flags, View();
      Insert(flag);
      assert View() == states[flag.name := flag.State()] by {
        ObjectsAreFlagsAndCells(before);
        assert StatesOf(before) == states;
        StatesOfInsert(before, flag);
      }
      assert Infos() == InfosOf(before)[flag.name := flag.Info()] by {
        InfosOfInsert(before, flag);
      }
      r := Registered;
    }

    /** The insertion RegisterFlag makes for a new name: both maps gain the flag. */
    method Insert(flag: CommandLineFlag)
      requires Valid() && flag.Valid() && flag.Repr() !! Objects() && flag.name !in flags
      modifies this
      ensures Valid()
      ensures flags == old(flags)[flag.name := flag] && flagsByPtr == old(flagsByPtr)[flag.current.buffer := flag]
    {
      InsertKeepsWellFormed(flags, flagsByPtr, owner, flag);
      flags, flagsByPtr, owner := flags[flag.name := flag], flagsByPtr[flag.current.buffer := flag], Claim(owner, flag);
    }

    /** FindFlagLocked: exact name first, then the name with '-' read as '_'. */
    function FindFlagLocked(name: string): (r: Option<CommandLineFlag>)
      reads this
      ensures name in flags ==> r == Some(flags[name])
      ensures r.None? <==> name !in flags && Underscored(name) !in flags
      ensures name !in flags && r.Some? ==> r == Some(flags[Underscored(name)])
    {
      match FindName(flags, name)
      case None => None
      case Some(key) => Some(flags[key])
    }

    /** FindFlagViaPtrLocked: the flag whose current value lives in the given cell. */
    function FindFlagViaPtrLocked(ptr: Storage): (r: Option<CommandLineFlag>)
      reads this
      ensures Valid() ==> (r.Some? <==> exists n :: n in flags && flags[n].current.buffer == ptr)
      ensures Valid() && r.Some? ==> r.value.current.buffer == ptr && r.value.name in flags && flags[r.value.name] == r.value
    {
      if ptr in flagsByPtr then Some(flagsByPtr[ptr]) else None
    }

    /**
     * SplitArgumentLocked: the flag Split selects, with the key, the value
     * and the error it reports.
     */
    function SplitArgumentLocked(arg: string): (r: Lookup)
      reads this
      ensures var s := Split(Infos(), arg);
        && r.key == s.key && r.value == s.value && r.error == s.error
        && (r.flag.Some? <==> s.flag.Some?)
        && (r.flag.Some? ==> r.flag.value == flags[s.flag.value])
    {
      var eq := FirstIndex(arg, '=');
      var key := if eq.None? then arg else arg[..eq.value];
      var value := if eq.None? then None else Some(arg[eq.value + 1..]);
      assert key == KeyPart(arg) && value == ValuePart(arg);
      match FindFlagLocked(key)
      case Some(flag) =>
        Lookup(Some(flag), key, if value.None? && flag.Kind() == Bool then Some("1") else value, None)
      case None =>
        if !HasNoPrefix(key) then Lookup(None, key, value, Some(UnknownFlag(key)))
        else
          match FindFlagLocked(key[2..])
          case None => Lookup(None, key, value, Some(UnknownFlag(key)))
          case Some(flag) =>
            if flag.Kind() != Bool then Lookup(None, key, value, Some(BoolValueForNonBool(key, flag.Kind())))
            else Lookup(Some(flag), key[2..], Some("0"), None)
    }

    /**
     * SetFlagLocked: the flag's state becomes the one SetFlagSpec gives;
     * no other flag changes.
     */
    method SetFlagLocked(flag: CommandLineFlag, text: string, mode: FlagSettingMode, msg: seq<Message>)
      returns (ok: bool, msgOut: seq<Message>)
      requires Valid() && flag.name in flags && flags[flag.name] == flag
      modifies flag, flag.current.buffer, flag.defvalue.buffer
      ensures Valid() && flags == old(flags)
      ensures ok == SetFlagSpec(flag.Info(), old(flag.State()), text, mode, msg).ok
      ensures msgOut == SetFlagSpec(flag.Info(), old(flag.State()), text, mode, msg).msg
      ensures View() == old(View())[flag.name := SetFlagSpec(flag.Info(), old(flag.State()), text, mode, msg).state]
    {
      ghost var before := View();
      ok, msgOut := SetFlagOnly(flag, text, mode, msg);
      forall n | n in flags && n != flag.name
        ensures flags[n].State() == before[n] && flags[n].Valid()
      {
        Disjoint(flags, flagsByPtr, owner, n, flag.name);
      }
      assert AllValid(flags);
      OneStateChanged(flags, before, flag.name);
    }

    /**
     * The store RegisterFlagValidator makes: the registered flag's validator
     * becomes fn and nothing else changes.
     */
    method SetValidator(flag: CommandLineFlag, fn: Option<ValidatorFn>)
      requires Valid() && flag.name in flags && flags[flag.name] == flag
      modifies flag
      ensures Valid() && flags == old(flags)
      ensures View() == old(View())[flag.name := old(View()[flag.name]).(validator := fn)]
    {
      ghost var before := View();
      flag.validator := fn;
      forall n | n in flags && n != flag.name
        ensures flags[n].State() == before[n]
      {
        Disjoint(flags, flagsByPtr, owner, n, flag.name);
      }
      OneStateChanged(flags, before, flag.name);
    }

    /** The flag-local part of SetFlagLocked. */
    method SetFlagOnly(flag: CommandLineFlag, text: string, mode: FlagSettingMode, msg: seq<Message>)
      returns (ok: bool, msgOut: seq<Message>)
      requires flag.Valid()
      modifies flag, flag.current.buffer, flag.defvalue.buffer
      ensures flag.Valid()
      ensures var out := SetFlagSpec(flag.Info(), old(flag.State()), text, mode, msg);
        ok == out.ok && msgOut == out.msg && flag.State() == out.state
    {
      flag.UpdateModifiedBit();
      var m: Option<seq<Message>>;
      match mode {
        case SetFlagsValue =>
          ok, m := TryParseLocked(flag, flag.current, text, Some(msg));
          msgOut := m.value;
          if !ok {
            return;
          }
          flag.modified := true;
        case SetFlagIfDefault =>
          if !flag.modified {
            ok, m := TryParseLocked(flag, flag.current, text, Some(msg));
            msgOut := m.value;
            if !ok {
              return;
            }
            flag.modified := true;
          } else {
            msgOut := [SetTo(flag.name, flag.current.buffer.value, false)];
            ok := true;
          }
        case SetFlagsDefault =>
          ok, m := TryParseLocked(flag, flag.defvalue, text, Some(msg));
          msgOut := m.value;
          if !ok {
            return;
          }
          if !flag.modified {
            var _, _ := TryParseLocked(flag, flag.current, text, None);
          }
      }
    }
  }
}
