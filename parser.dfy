/**
 * CommandLineFlagParser of gflags_commandline.cc: the pass over argv that
 * sets flags and permutes program arguments to the end, and the
 * validation pass over flags the command line did not set.
 */
module Parser {
  import opened Wrappers
  import opened Values
  import opened Messages
  import opened Flags
  import opened Registry
  import opened Scan

  // ---------------------------------------------------------------------
  // The validation pass, as a function of the flags' states
  // ---------------------------------------------------------------------

  /** A flag ValidateFlags complains about: in scope (all, or unmodified) and its current value refused. */
  predicate Fails(name: string, st: FlagState, all: bool) {
    (all || !st.modified) && !Accepts(st.validator, name, st.current)
  }

  /** No error is on record for the name (a missing entry reads as the empty message). */
  predicate Unreported(errors: map<string, seq<Message>>, name: string) {
    name !in errors || errors[name] == []
  }

  /** error_flags_ after ValidateFlags has visited the names in done. */
  function ValidateOn(errors: map<string, seq<Message>>, states: map<string, FlagState>, all: bool, done: set<string>)
    : (r: map<string, seq<Message>>)
    ensures r.Keys == errors.Keys + set n | n in done && n in states && Fails(n, states[n], all)
  {
    map n | n in errors.Keys + (set n | n in done && n in states && Fails(n, states[n], all)) ::
      if n in done && n in states && Fails(n, states[n], all) && Unreported(errors, n)
      then [MustBeSet(n, !states[n].modified)]
      else errors[n]
  }

  /**
   * ValidateFlags over every flag: an existing non-empty message is never
   * replaced; a message changes only for a failing flag, and then says
   * "must be set", with the default-value remark exactly when the flag is
   * unmodified; every failing flag ends with a non-empty message.
   */
  function ValidateSpec(errors: map<string, seq<Message>>, states: map<string, FlagState>, all: bool)
    : (r: map<string, seq<Message>>)
    ensures r.Keys == errors.Keys + set n | n in states && Fails(n, states[n], all)
    ensures forall n :: n in errors && errors[n] != [] ==> r[n] == errors[n]
    ensures forall n :: n in r && (n !in errors || r[n] != errors[n]) ==>
      n in states && Fails(n, states[n], all) && r[n] == [MustBeSet(n, !states[n].modified)]
    ensures forall n :: n in states && Fails(n, states[n], all) ==> r[n] != []
  {
    ValidateOn(errors, states, all, states.Keys)
  }

  /**
   * Visiting one more name changes at most that name's entry: a failing
   * flag with no message on record gets "must be set".
   */
  lemma ValidateOne(errors: map<string, seq<Message>>, states: map<string, FlagState>, all: bool,
                    done: set<string>, n: string)
    requires n in states && n !in done
    ensures var cur := ValidateOn(errors, states, all, done);
      ValidateOn(errors, states, all, done + {n}) ==
        if Fails(n, states[n], all) && Unreported(cur, n) then cur[n := [MustBeSet(n, !states[n].modified)]]
        else cur
  {
    if Fails(n, states[n], all) && Unreported(ValidateOn(errors, states, all, done), n) {
      ValidateAdds(errors, states, all, done, n);
    } else {
      ValidateKeeps(errors, states, all, done, n);
    }
  }

  lemma ValidateAdds(errors: map<string, seq<Message>>, states: map<string, FlagState>, all: bool,
                     done: set<string>, n: string)
    requires n in states && n !in done
    requires Fails(n, states[n], all) && Unreported(ValidateOn(errors, states, all, done), n)
    ensures ValidateOn(errors, states, all, done + {n}) ==
      ValidateOn(errors, states, all, done)[n := [MustBeSet(n, !states[n].modified)]]
  {
    var cur := ValidateOn(errors, states, all, done);
    var nxt := ValidateOn(errors, states, all, done + {n});
    assert n in cur ==> cur[n] == errors[n];
    assert nxt.Keys == cur.Keys + {n};
  }

  lemma ValidateKeeps(errors: map<string, seq<Message>>, states: map<string, FlagState>, all: bool,
                      done: set<string>, n: string)
    requires n in states && n !in done
    requires !(Fails(n, states[n], all) && Unreported(ValidateOn(errors, states, all, done), n))
    ensures ValidateOn(errors, states, all, done + {n}) == ValidateOn(errors, states, all, done)
  {
    var cur := ValidateOn(errors, states, all, done);
    var nxt := ValidateOn(errors, states, all, done + {n});
    assert n in cur ==> cur[n] == errors[n];
    assert nxt.Keys == cur.Keys;
  }

  // ---------------------------------------------------------------------
  // The memmove rotation
  // ---------------------------------------------------------------------

  /** memmove of argv[i+1..] down by one, then the token from i written last. */
  method RotateToEnd(a: array<string>, i: nat)
    requires i < a.Length
    modifies a
    ensures a[..] == Rotate(old(a[..]), i)
  {
    var arg := a[i];
    var k := i;
    while k < a.Length - 1
      invariant i <= k <= a.Length - 1
      invariant forall m :: 0 <= m < i ==> a[m] == old(a[m])
      invariant forall m :: i <= m < k ==> a[m] == old(a[m + 1])
      invariant forall m :: k <= m < a.Length ==> a[m] == old(a[m])
    {
      a[k] := a[k + 1];
      k := k + 1;
    }
    a[a.Length - 1] := arg;
    assert a[..] == Rotate(old(a[..]), i) by {
      var r := Rotate(old(a[..]), i);
      forall m | 0 <= m < a.Length
        ensures a[m] == r[m]
      {
        if m < i {
          assert r[m] == r[..i][m];
        }
      }
    }
  }

  class CommandLineFlagParser {
    const registry: FlagRegistry
    var errorFlags: map<string, seq<Message>>
    var undefinedNames: set<string>

    /** A new parser has no errors and no undefined names on record. */
    constructor (registry: FlagRegistry)
      ensures this.registry == registry && errorFlags == map[] && undefinedNames == {}
    {
      this.registry := registry;
      errorFlags := map[];
      undefinedNames := {};
    }

    /** The scan state the loop variables and the object state stand for. */
    ghost function ScanView(argv: seq<string>, i: nat, fno: nat, stop: Stop): ScanState
      reads this, registry, registry.Objects()
    {
      ScanState(argv, i, fno, stop, errorFlags, undefinedNames, registry.View())
    }

    /** Every registered flag answers to its name and has the state the view gives it. */
    lemma Viewed()
      requires registry.Valid()
      ensures forall n :: n in registry.flags ==>
        registry.flags[n].name == n && registry.flags[n].State() == registry.View()[n]
    {
    }

    /** States the registry's flags still have: then the view is unchanged. */
    lemma Unmoved(before: map<string, FlagState>)
      requires before.Keys == registry.flags.Keys
      requires forall n :: n in registry.flags ==> registry.flags[n].State() == before[n]
      ensures registry.View() == before
    {
      NoStateChanged(registry.flags, before);
    }

    /**
     * ProcessSingleOptionLocked: with a value, SetFlagLocked; a failure is
     * recorded under the flag's name and gives the empty message, success
     * gives SetFlagLocked's message. Without a value nothing happens.
     */
    method ProcessSingleOptionLocked(flag: CommandLineFlag, value: Option<string>, mode: FlagSettingMode)
      returns (msg: seq<Message>)
      requires registry.Valid() && flag.name in registry.flags && registry.flags[flag.name] == flag
      modifies this, flag, flag.current.buffer, flag.defvalue.buffer
      ensures registry.Valid() && registry.flags == old(registry.flags)
      ensures undefinedNames == old(undefinedNames)
      ensures value.None? ==>
        msg == [] && errorFlags == old(errorFlags) && registry.View() == old(registry.View())
      ensures value.Some? ==>
        var out := SetFlagSpec(flag.Info(), old(flag.State()), value.value, mode, []);
        && registry.View() == old(registry.View())[flag.name := out.state]
        && errorFlags == (if out.ok then old(errorFlags) else old(errorFlags)[flag.name := out.msg])
        && msg == (if out.ok then out.msg else [])
    {
      if value.Some? {
        var ok, m := registry.SetFlagLocked(flag, value.value, mode, []);
        if !ok {
          RecordError(flag.name, m);
          return [];
        }
        return m;
      }
      return [];
    }

    /** error_flags_[name] = message; the registry is not touched. */
    method RecordError(name: string, message: seq<Message>)
      requires registry.Valid()
      modifies this
      ensures errorFlags == old(errorFlags)[name := message] && undefinedNames == old(undefinedNames)
      ensures registry.Valid() && registry.flags == old(registry.flags) && registry.View() == old(registry.View())
    {
      ghost var before := registry.View();
      errorFlags := errorFlags[name := message];
      Unmoved(before);
    }

    /** One iteration of the scan loop: exactly Step on the state it stands for. */
    method ScanOne(argv: array<string>, i: nat, fno: nat) returns (next: nat, fnoOut: nat, halt: Stop)
      requires registry.Valid() && 1 <= i < fno <= argv.Length
      modifies this, argv, registry.Objects()
      ensures registry.Valid() && registry.flags == old(registry.flags)
      ensures ScanView(argv[..], next, fnoOut, halt) ==
        Step(old(registry.Infos()), old(ScanView(argv[..], i, fno, Running)))
    {
      ghost var st := ScanView(argv[..], i, fno, Running);
      var arg := argv[i];
      if IsPositional(arg) {
        StepPositional(registry.Infos(), st);
        RotateToEnd(argv, i);
        Unmoved(st.states);
        return i, fno - 1, Running;
      }
      var name := arg[1..];
      if name != [] && name[0] == '-' {
        name := name[1..];
      }
      assert name == StripDashes(arg);
      if name == [] {
        StepDashDash(registry.Infos(), st);
        return i, fno, DashDash;
      }
      next, fnoOut, halt := ScanFlag(argv, i, fno, name);
    }

    /** The rest of an iteration, for an option whose name (dashes stripped) is not empty. */
    method ScanFlag(argv: array<string>, i: nat, fno: nat, name: string) returns (next: nat, fnoOut: nat, halt: Stop)
      requires registry.Valid() && 1 <= i < fno <= argv.Length
      requires !IsPositional(argv[i]) && name == StripDashes(argv[i]) && name != []
      modifies this, registry.Objects()
      ensures registry.Valid() && registry.flags == old(registry.flags)
      ensures ScanView(argv[..], next, fnoOut, halt) ==
        Step(old(registry.Infos()), old(ScanView(argv[..], i, fno, Running)))
    {
      ghost var infos := registry.Infos();
      ghost var args := argv[..];
      ghost var st := ScanState(args, i, fno, Running, errorFlags, undefinedNames, registry.View());
      var found := registry.SplitArgumentLocked(name);
      var flag, key, value, error := found.flag, found.key, found.value, found.error;
      if flag.None? {
        StepUnknown(infos, st, name);
        RecordUnknown(key, error.value);
        return i + 1, fno, Running;
      }
      if value.None? && i + 1 >= fno {
        StepMissing(infos, st, name);
        RecordError(key, [MissingArgument(argv[i], Description(flag.value.help))]);
        return i, fno, MissingValue(key);
      }
      assert flag.value.name == Split(infos, name).flag.value;
      next := ScanFound(args, argv, i, fno, name, flag.value, value);
      fnoOut, halt := fno, Running;
    }

    /** A flag found: its value is the text after '=' or, failing that, the next token. */
    method ScanFound(ghost args: seq<string>, argv: array<string>, i: nat, fno: nat, name: string,
                     flag: CommandLineFlag, value: Option<string>)
      returns (next: nat)
      requires registry.Valid() && flag.name in registry.flags && registry.flags[flag.name] == flag
      requires args == argv[..] && 1 <= i < fno <= argv.Length && (value.None? ==> i + 1 < fno)
      requires !IsPositional(args[i]) && name == StripDashes(args[i]) && name != []
      requires Split(registry.Infos(), name).flag == Some(flag.name) && Split(registry.Infos(), name).value == value
      modifies this, flag, flag.current.buffer, flag.defvalue.buffer
      ensures registry.Valid() && registry.flags == old(registry.flags)
      ensures ScanView(args, next, fno, Running) == Step(old(registry.Infos()), old(ScanView(args, i, fno, Running)))
    {
      ghost var st := ScanState(args, i, fno, Running, errorFlags, undefinedNames, registry.View());
      var text;
      if value.None? {
        text, next := argv[i + 1], i + 2;
      } else {
        text, next := value.value, i + 1;
      }
      StepAssign(registry.Infos(), st, name, text, next);
      AssignFlag(args, i, fno, flag, text, next);
    }

    /** An undefined name: recorded with its error; the registry is not touched. */
    method RecordUnknown(key: string, error: Message)
      requires registry.Valid()
      modifies this
      ensures errorFlags == old(errorFlags)[key := [error]] && undefinedNames == old(undefinedNames) + {key}
      ensures registry.Valid() && registry.flags == old(registry.flags) && registry.View() == old(registry.View())
    {
      ghost var before := registry.View();
      undefinedNames := undefinedNames + {key};
      errorFlags := errorFlags[key := [error]];
      Unmoved(before);
    }

    /** The assignment that ends an iteration: ProcessSingleOptionLocked in SET_FLAGS_VALUE mode. */
    method AssignFlag(ghost args: seq<string>, i: nat, fno: nat, f: CommandLineFlag, text: string, next: nat)
      requires registry.Valid() && f.name in registry.flags && registry.flags[f.name] == f
      requires 1 <= i < next <= fno <= |args|
      modifies this, f, f.current.buffer, f.defvalue.buffer
      ensures registry.Valid() && registry.flags == old(registry.flags)
      ensures ScanView(args, next, fno, Running) ==
        Assign(old(registry.Infos()), old(ScanView(args, i, fno, Running)), f.name, text, next)
    {
      ghost var st := ScanView(args, i, fno, Running);
      ghost var infos := registry.Infos();
      assert infos[f.name] == f.Info() && st.states[f.name] == f.State();
      var _ := ProcessSingleOptionLocked(f, Some(text), SetFlagsValue);
    }

    /**
     * ParseNewCommandLineFlags: argv, error_flags_, undefined_names_, the
     * flags' states and the return value are those of ParseSpec; the
     * registry's invariant holds throughout.
     */
    method ParseNewCommandLineFlags(argv: array<string>, removeFlags: bool) returns (result: nat, start: nat)
      requires argv.Length >= 1 && registry.Valid()
      modifies this, argv, registry.Objects()
      ensures registry.Valid() && registry.flags == old(registry.flags)
      ensures var out := ParseSpec(registry.Infos(), old(argv[..]), old(errorFlags), old(undefinedNames),
                                   old(registry.View()), removeFlags);
        && result == out.result && start == out.start && argv[..] == out.argv
        && errorFlags == out.scan.errors && undefinedNames == out.scan.undefined
        && registry.View() == out.scan.states
    {
      ghost var infos := registry.Infos();
      ghost var init := ScanView(argv[..], 1, argv.Length, Running);
      StopKept(infos, init);
      var i, fno, halt := ScanLoop(argv);
      if halt == DashDash {
        fno := i + 1;
      }
      if removeFlags {
        MoveProgramName(argv, fno - 1);
        start, result := fno - 1, 1;
      } else {
        start, result := 0, fno;
      }
    }

    /** With remove_flags: argv[first_nonopt - 1] = argv[0]; the parser and the flags are untouched. */
    method MoveProgramName(argv: array<string>, k: nat)
      requires registry.Valid() && k < argv.Length
      modifies argv
      ensures argv[..] == old(argv[..])[k := old(argv[0])]
      ensures registry.Valid() && registry.View() == old(registry.View())
    {
      ghost var states := registry.View();
      argv[k] := argv[0];
      Unmoved(states);
    }

    /**
     * The scan loop: i runs from 1 towards first_nonopt, each iteration
     * one Step, until i meets first_nonopt or the scan stops early.
     */
    method ScanLoop(argv: array<string>) returns (i: nat, fno: nat, halt: Stop)
      requires argv.Length >= 1 && registry.Valid()
      modifies this, argv, registry.Objects()
      ensures registry.Valid() && registry.flags == old(registry.flags)
      ensures ScanView(argv[..], i, fno, halt) ==
        ScanFrom(old(registry.Infos()), old(ScanView(argv[..], 1, argv.Length, Running)))
    {
      ghost var infos := registry.Infos();
      ghost var fin := ScanFrom(infos, ScanView(argv[..], 1, argv.Length, Running));
      i, fno, halt := 1, argv.Length, Running;
      while halt.Running? && i < fno
        invariant 1 <= i <= fno <= argv.Length
        invariant registry.Valid() && registry.flags == old(registry.flags)
        invariant ScanFrom(infos, ScanView(argv[..], i, fno, halt)) == fin
        decreases fno - i, if halt.Running? then 1 else 0
      {
        i, fno, halt := ScanOne(argv, i, fno);
      }
    }

    /**
     * ValidateFlags: error_flags_ becomes ValidateSpec of itself and the
     * flags' states; nothing else changes.
     */
    method ValidateFlags(all: bool)
      requires registry.Valid()
      modifies this
      ensures errorFlags == ValidateSpec(old(errorFlags), registry.View(), all)
      ensures undefinedNames == old(undefinedNames)
      ensures registry.Valid() && registry.View() == old(registry.View())
    {
      ghost var states := registry.View();
      Viewed();
      ValidateAll(all, states);
      Unmoved(states);
    }

    /** The loop of ValidateFlags over flags whose states are given. */
    method ValidateAll(all: bool, ghost states: map<string, FlagState>)
      requires states.Keys == registry.flags.Keys
      requires forall n :: n in registry.flags ==> registry.flags[n].name == n && registry.flags[n].State() == states[n]
      modifies this
      ensures errorFlags == ValidateSpec(old(errorFlags), states, all)
      ensures undefinedNames == old(undefinedNames)
    {
      ghost var errors := errorFlags;
      ghost var done: set<string> := {};
      var names := registry.flags.Keys;
      while names != {}
        invariant names !! done && names + done == states.Keys
        invariant errorFlags == ValidateOn(errors, states, all, done)
        invariant undefinedNames == old(undefinedNames)
        decreases names
      {
        var n :| n in names;
        ValidateFlag(registry.flags[n], all, errors, states, done);
        done, names := done + {n}, names - {n};
      }
      assert done == states.Keys;
    }

    /**
     * One flag of ValidateFlags: a failing flag with no message on record
     * gets "must be set"; error_flags_ moves from the pass over done to the
     * pass over done and this flag.
     */
    method ValidateFlag(flag: CommandLineFlag, all: bool, ghost errors: map<string, seq<Message>>,
                        ghost states: map<string, FlagState>, ghost done: set<string>)
      requires flag.name in states && flag.name !in done && flag.State() == states[flag.name]
      requires errorFlags == ValidateOn(errors, states, all, done)
      modifies this
      ensures errorFlags == ValidateOn(errors, states, all, done + {flag.name})
      ensures undefinedNames == old(undefinedNames)
    {
      ValidateOne(errors, states, all, done, flag.name);
      if (all || !flag.modified) && !flag.ValidateCurrent() {
        if flag.name !in errorFlags || errorFlags[flag.name] == [] {
          errorFlags := errorFlags[flag.name := [MustBeSet(flag.name, !flag.modified)]];
        }
      }
    }

    /** ValidateUnmodifiedFlags: ValidateFlags over the flags not yet modified. */
    method ValidateUnmodifiedFlags()
      requires registry.Valid()
      modifies this
      ensures errorFlags == ValidateSpec(old(errorFlags), registry.View(), false)
      ensures undefinedNames == old(undefinedNames)
      ensures registry.Valid() && registry.View() == old(registry.View())
    {
      ValidateFlags(false);
    }
  }
}
