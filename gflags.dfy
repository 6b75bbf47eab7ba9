/**
 * The Gflags facade of gflags.cc and gflags.h: the one-time capture of
 * argv (the space-joined command line and its character checksum), the
 * program name, usage and version strings, the lookup of a flag's current
 * value, the parse entry point, and the two static registration helpers.
 */
module Facade {
  import opened Wrappers
  import opened Values
  import opened Messages
  import opened FlagValues
  import opened Flags
  import opened Registry
  import opened Scan
  import opened Parser

  /** The text ProgramUsage answers before SetUsageMessage has been given one. */
  const USAGE_WARNING: string := "Warning: SetUsageMessage() never called"

  // ---------------------------------------------------------------------
  // The captured command line
  // ---------------------------------------------------------------------

  /** The arguments joined with single spaces. */
  function Join(args: seq<string>): string {
    if args == [] then ""
    else if |args| == 1 then args[0]
    else Join(args[..|args| - 1]) + " " + args[|args| - 1]
  }

  /** The sum of the lengths of the arguments. */
  function TotalLength(args: seq<string>): nat {
    if args == [] then 0 else TotalLength(args[..|args| - 1]) + |args[|args| - 1]|
  }

  /** Read from the front, the joined line is the first argument, then a space and the rest joined. */
  lemma {:induction false} JoinFront(a: string, rest: seq<string>)
    ensures Join([a] + rest) == if rest == [] then a else a + " " + Join(rest)
    decreases |rest|
  {
    if |rest| > 1 {
      var all := [a] + rest;
      assert all[..|all| - 1] == [a] + rest[..|rest| - 1];
      JoinFront(a, rest[..|rest| - 1]);
    } else if |rest| == 1 {
      assert ([a] + rest)[..1] == [a];
    }
  }

  /** The joined line holds every character of the arguments and one space between neighbours. */
  lemma {:induction false} JoinLength(args: seq<string>)
    ensures |Join(args)| == TotalLength(args) + (if args == [] then 0 else |args| - 1)
  {
    if |args| > 1 {
      JoinLength(args[..|args| - 1]);
      assert args[..|args| - 1][..|args| - 2] == args[..|args| - 2];
    } else if |args| == 1 {
      assert args[..0] == [];
    }
  }

  /** The exact (unbounded) sum of the signed values of the characters. */
  function CharSum(s: string): int {
    if s == [] then 0 else CharSum(s[..|s| - 1]) + SignedChar(s[|s| - 1])
  }

  /** The checksum of a concatenation is the sum of the parts' checksums. */
  lemma {:induction false} CharSumAppend(a: string, b: string)
    ensures CharSum(a + b) == CharSum(a) + CharSum(b)
    decreases |b|
  {
    if b != [] {
      assert (a + b)[..|a + b| - 1] == a + b[..|b| - 1];
      CharSumAppend(a, b[..|b| - 1]);
    } else {
      assert a + b == a;
    }
  }

  /** The sum of the checksums of the arguments. */
  function ArgsSum(args: seq<string>): int {
    if args == [] then 0 else ArgsSum(args[..|args| - 1]) + CharSum(args[|args| - 1])
  }

  /** The checksum of the joined line: the arguments' own, plus a space (32) between neighbours. */
  lemma {:induction false} CharSumJoin(args: seq<string>)
    ensures CharSum(Join(args)) == ArgsSum(args) + 32 * (if args == [] then 0 else |args| - 1)
  {
    if |args| > 1 {
      var init := args[..|args| - 1];
      CharSumJoin(init);
      CharSumAppend(Join(init) + " ", args[|args| - 1]);
      CharSumAppend(Join(init), " ");
      assert CharSum(" ") == 32 by {
        assert " "[..0] == [];
      }
    } else if |args| == 1 {
      assert args[..0] == [];
      assert Join(args) == args[0];
    }
  }

  /** argv_sum: the character sum in a 32-bit unsigned accumulator. */
  function ArgvSum(s: string): (r: uint32)
    ensures r as int == CharSum(s) % TWO_32
  {
    (CharSum(s) % TWO_32) as uint32
  }

  /** Reducing the accumulator before an addition does not change the sum modulo 2^32. */
  lemma ModAdd(x: int, y: int)
    ensures (x % TWO_32 + y) % TWO_32 == (x + y) % TWO_32
  {
  }

  /** The position of the last '/' (string::rfind), if any. */
  function LastSlash(s: string): (r: Option<nat>)
    ensures r.None? <==> '/' !in s
    ensures r.Some? ==> r.value < |s| && s[r.value] == '/' && '/' !in s[r.value + 1..]
  {
    if s == [] then None
    else if s[|s| - 1] == '/' then Some(|s| - 1)
    else
      var r := LastSlash(s[..|s| - 1]);
      assert s == s[..|s| - 1] + [s[|s| - 1]];
      if r.Some? then
        assert s[r.value + 1..] == s[..|s| - 1][r.value + 1..] + [s[|s| - 1]];
        r
      else r
  }

  // ---------------------------------------------------------------------
  // RegisterFlagValidator's rule
  // ---------------------------------------------------------------------

  /** The verdict of RegisterFlagValidator and the validator the flag holds afterwards. */
  datatype Attach = Attach(ok: bool, validator: Option<ValidatorFn>)

  /**
   * The rule for attaching fn to a flag that holds current: the same
   * function again is accepted and changes nothing; a second, different
   * function is refused; anything else, clearing with NULL included, is
   * stored.
   */
  function AttachValidator(current: Option<ValidatorFn>, fn: Option<ValidatorFn>): (r: Attach)
    ensures !r.ok <==> fn.Some? && current.Some? && !SameValidator(fn, current)
    ensures r.ok ==> SameValidator(r.validator, fn)
    ensures !r.ok ==> r.validator == current
    ensures current.Some? && fn.Some? ==> SameValidator(r.validator, current)
  {
    if SameValidator(fn, current) then Attach(true, current)
    else if fn.Some? && current.Some? then Attach(false, current)
    else Attach(true, fn)
  }

  /** Attaching the same function again after a success is accepted and keeps the validator. */
  lemma AttachAgain(current: Option<ValidatorFn>, fn: Option<ValidatorFn>)
    requires AttachValidator(current, fn).ok
    ensures var once := AttachValidator(current, fn);
      AttachValidator(once.validator, fn) == Attach(true, once.validator)
  {
    var once := AttachValidator(current, fn);
    assert SameValidator(fn, once.validator);
  }

  // ---------------------------------------------------------------------
  // The facade
  // ---------------------------------------------------------------------

  /**
   * The function-static called_set_argv of SetArgv: one per process,
   * shared by every Gflags object.
   */
  class ArgvLatch {
    var called: bool

    constructor ()
      ensures !called
    {
      called := false;
    }
  }

  class Gflags {
    var argv0: string
    var cmdline: string
    var argvs: seq<string>
    var argvSum: uint32
    var programUsage: string
    var versionString: string

    /** A new facade: program "UNKNOWN", empty command line, usage and version, checksum 0. */
    constructor ()
      ensures argv0 == "UNKNOWN" && cmdline == "" && argvs == [] && argvSum == 0
      ensures programUsage == "" && versionString == ""
    {
      argv0 := "UNKNOWN";
      cmdline := "";
      argvs := [];
      argvSum := 0;
      programUsage := "";
      versionString := "";
    }

    method SetUsageMessage(usage: string)
      modifies this
      ensures programUsage == usage && versionString == old(versionString)
      ensures argv0 == old(argv0) && cmdline == old(cmdline) && argvs == old(argvs) && argvSum == old(argvSum)
    {
      programUsage := usage;
    }

    /** ProgramUsage: the usage text, or a warning while none has been set. */
    function ProgramUsage(): (r: string)
      reads this
      ensures r != []
      ensures programUsage != [] ==> r == programUsage
      ensures programUsage == [] ==> r == USAGE_WARNING
    {
      if programUsage == [] then USAGE_WARNING else programUsage
    }

    method SetVersionString(version: string)
      modifies this
      ensures VersionString() == version && programUsage == old(programUsage)
      ensures argv0 == old(argv0) && cmdline == old(cmdline) && argvs == old(argvs) && argvSum == old(argvSum)
    {
      versionString := version;
    }

    /** VersionString: the text last given to SetVersionString, "" before any. */
    function VersionString(): (r: string)
      reads this
      ensures r == versionString
    {
      versionString
    }

    /**
     * ProgramInvocationShortName: argv0 after its last '/', that is its
     * longest suffix without a '/'.
     */
    function ProgramInvocationShortName(): (r: string)
      reads this
      ensures '/' !in r
      ensures |r| <= |argv0| && r == argv0[|argv0| - |r|..]
      ensures |r| < |argv0| ==> argv0[|argv0| - |r| - 1] == '/'
    {
      match LastSlash(argv0)
      case None => argv0
      case Some(pos) => argv0[pos + 1..]
    }

    /**
     * SetArgv: the first call in the process records argv[0], the joined
     * command line, the arguments and the checksum; every later call, on
     * any facade, changes nothing.
     */
    method SetArgv(latch: ArgvLatch, argv: seq<string>)
      requires latch.called || |argv| >= 1
      modifies this, latch
      ensures latch.called
      ensures programUsage == old(programUsage) && versionString == old(versionString)
      ensures old(latch.called) ==>
        argv0 == old(argv0) && cmdline == old(cmdline) && argvs == old(argvs) && argvSum == old(argvSum)
      ensures !old(latch.called) ==>
        argv0 == argv[0] && cmdline == Join(argv) && argvs == old(argvs) + argv && argvSum == ArgvSum(Join(argv))
    {
      if latch.called {
        return;
      }
      latch.called := true;
      argv0 := argv[0];
      JoinArgs(argv);
      SumCommandLine();
    }

    /** The first loop of SetArgv: cmdline is the join of argv, and argvs gains argv. */
    method JoinArgs(argv: seq<string>)
      modifies this
      ensures cmdline == Join(argv) && argvs == old(argvs) + argv
      ensures argv0 == old(argv0) && argvSum == old(argvSum)
      ensures programUsage == old(programUsage) && versionString == old(versionString)
    {
      cmdline := "";
      var i := 0;
      while i < |argv|
        invariant 0 <= i <= |argv|
        invariant cmdline == Join(argv[..i]) && argvs == old(argvs) + argv[..i]
        invariant argv0 == old(argv0) && argvSum == old(argvSum)
        invariant programUsage == old(programUsage) && versionString == old(versionString)
      {
        assert argv[..i + 1][..i] == argv[..i];
        if i != 0 {
          cmdline := cmdline + " ";
        }
        cmdline := cmdline + argv[i];
        argvs := argvs + [argv[i]];
        i := i + 1;
      }
      assert argv[..i] == argv;
    }

    /** The second loop of SetArgv: argv_sum accumulates every char of cmdline, wrapping at 2^32. */
    method SumCommandLine()
      modifies this
      ensures argvSum == ArgvSum(cmdline)
      ensures argv0 == old(argv0) && cmdline == old(cmdline) && argvs == old(argvs)
      ensures programUsage == old(programUsage) && versionString == old(versionString)
    {
      argvSum := 0;
      var k := 0;
      while k < |cmdline|
        invariant 0 <= k <= |cmdline|
        invariant argvSum as int == CharSum(cmdline[..k]) % TWO_32
        invariant argv0 == old(argv0) && cmdline == old(cmdline) && argvs == old(argvs)
        invariant programUsage == old(programUsage) && versionString == old(versionString)
      {
        assert cmdline[..k + 1][..k] == cmdline[..k];
        ModAdd(CharSum(cmdline[..k]), SignedChar(cmdline[k]));
        argvSum := ((argvSum as int + SignedChar(cmdline[k])) % TWO_32) as uint32;
        k := k + 1;
      }
      assert cmdline[..k] == cmdline;
    }

    /**
     * GetCommandLineOption: no name, or a name no flag answers to (with '-'
     * read as '_'), gives false and leaves the output as it was; otherwise
     * the output is the text of the flag's current value.
     */
    method GetCommandLineOption(registry: FlagRegistry, name: Option<string>, value: string)
      returns (found: bool, valueOut: string)
      ensures name.None? ==> !found
      ensures name.Some? ==>
        (found <==> name.value in registry.flags || Underscored(name.value) in registry.flags)
      ensures found ==> valueOut == Show(registry.FindFlagLocked(name.value).value.current.buffer.value)
      ensures found && name.value in registry.flags ==>
        valueOut == Show(registry.flags[name.value].current.buffer.value)
      ensures !found ==> valueOut == value
    {
      if name.None? {
        return false, value;
      }
      var flag := registry.FindFlagLocked(name.value);
      if flag.None? {
        return false, value;
      }
      return true, flag.value.CurrentValue();
    }

    /**
     * ParseCommandLineFlagsInternal: capture argv, scan it with a fresh
     * parser, then validate the flags still unmodified; the result is the
     * scan's. The parser's error record is handed back as errors.
     */
    method ParseCommandLineFlagsInternal(latch: ArgvLatch, registry: FlagRegistry, argv: array<string>,
                                         removeFlags: bool, doReport: bool)
      returns (result: nat, start: nat, ghost errors: map<string, seq<Message>>)
      requires argv.Length >= 1 && registry.Valid()
      modifies this, latch, argv, registry.Objects()
      ensures registry.Valid() && registry.flags == old(registry.flags)
      ensures latch.called
      ensures programUsage == old(programUsage) && versionString == old(versionString)
      ensures old(latch.called) ==>
        argv0 == old(argv0) && cmdline == old(cmdline) && argvs == old(argvs) && argvSum == old(argvSum)
      ensures !old(latch.called) ==>
        && argv0 == old(argv[0]) && cmdline == Join(old(argv[..])) && argvs == old(argvs) + old(argv[..])
        && argvSum == ArgvSum(Join(old(argv[..])))
      ensures var out := ParseSpec(registry.Infos(), old(argv[..]), map[], {}, old(registry.View()), removeFlags);
        && result == out.result && start == out.start && argv[..] == out.argv
        && registry.View() == out.scan.states
        && errors == ValidateSpec(out.scan.errors, out.scan.states, false)
    {
      ghost var states := registry.View();
      SetArgv(latch, argv[..]);
      NoStateChanged(registry.flags, states);
      ObjectsAreFlagsAndCells(registry.flags);
      assert this !in registry.Objects() && latch !in registry.Objects();
      result, start, errors := ScanAndValidate(registry, argv, removeFlags);
    }

    /** The steps after the capture: the scan with a fresh parser, then the unmodified-flag validation. */
    static method ScanAndValidate(registry: FlagRegistry, argv: array<string>, removeFlags: bool)
      returns (result: nat, start: nat, ghost errors: map<string, seq<Message>>)
      requires argv.Length >= 1 && registry.Valid()
      modifies argv, registry.Objects()
      ensures registry.Valid() && registry.flags == old(registry.flags)
      ensures var out := ParseSpec(registry.Infos(), old(argv[..]), map[], {}, old(registry.View()), removeFlags);
        && result == out.result && start == out.start && argv[..] == out.argv
        && registry.View() == out.scan.states
        && errors == ValidateSpec(out.scan.errors, out.scan.states, false)
    {
      ghost var infos, states, args := registry.Infos(), registry.View(), argv[..];
      var parser := new CommandLineFlagParser(registry);
      assert registry.View() == states && registry.Valid();
      result, start := parser.ParseNewCommandLineFlags(argv, removeFlags);
      assert registry.Infos() == infos;
      ghost var out := ParseSpec(infos, args, map[], {}, states, removeFlags);
      ghost var scanned := registry.View();
      assert scanned == out.scan.states && parser.errorFlags == out.scan.errors;
      parser.ValidateUnmodifiedFlags();
      errors := parser.errorFlags;
    }

    /**
     * RegisterCommandLineFlag: a NULL help text becomes ""; two boxes over
     * the given cells make a new, unmodified flag without a validator, which
     * is registered. A duplicate name is the registry's fatal error.
     */
    static method RegisterCommandLineFlag(registry: FlagRegistry, name: string, help: Option<string>,
                                          filename: string, currentStorage: Storage, defvalueStorage: Storage)
      returns (r: Registration)
      requires registry.Valid()
      requires currentStorage != defvalueStorage
      requires currentStorage.value.KindOf() == defvalueStorage.value.KindOf()
      requires currentStorage !in registry.Objects() && defvalueStorage !in registry.Objects()
      modifies registry
      ensures registry.Valid()
      ensures name in old(registry.flags) ==> r.Fatal? && registry.flags == old(registry.flags)
      ensures name !in old(registry.flags) ==> r == Registered && registry.flags.Keys == old(registry.flags.Keys) + {name}
      ensures r == Registered ==>
        && registry.FindFlagLocked(name) == registry.FindFlagViaPtrLocked(currentStorage)
        && registry.FindFlagLocked(name).Some?
        && registry.Infos() == old(registry.Infos())[name :=
             FlagInfo(name, if help.None? then "" else help.value, filename, currentStorage.value.KindOf())]
      ensures registry.View() ==
        if r.Fatal? then old(registry.View())
        else old(registry.View())[name := FlagState(currentStorage.value, defvalueStorage.value, false, None)]
    {
      ghost var states := registry.View();
      var flag := NewFlag(name, if help.None? then "" else help.value, filename, currentStorage, defvalueStorage);
      assert registry.View() == states;
      r := registry.RegisterFlag(flag);
    }

    /** The flag RegisterCommandLineFlag builds: fresh boxes over the caller's two cells. */
    static method NewFlag(name: string, help: string, filename: string, currentStorage: Storage, defvalueStorage: Storage)
      returns (flag: CommandLineFlag)
      requires currentStorage != defvalueStorage
      requires currentStorage.value.KindOf() == defvalueStorage.value.KindOf()
      ensures fresh(flag) && flag.Valid()
      ensures flag.name == name && flag.current.buffer == currentStorage && flag.defvalue.buffer == defvalueStorage
      ensures flag.Info() == FlagInfo(name, help, filename, currentStorage.value.KindOf())
      ensures flag.State() == FlagState(currentStorage.value, defvalueStorage.value, false, None)
    {
      var current := new FlagValue(currentStorage);
      var defvalue := new FlagValue(defvalueStorage);
      flag := new CommandLineFlag(name, help, filename, current, defvalue);
    }

    /**
     * RegisterFlagValidator: false when no flag lives at ptr; otherwise
     * AttachValidator's verdict, and the flag's validator becomes the one
     * AttachValidator gives. No other part of any flag changes.
     */
    static method RegisterFlagValidator(registry: FlagRegistry, ptr: Storage, fn: Option<ValidatorFn>)
      returns (ok: bool)
      requires registry.Valid()
      modifies registry.Objects()
      ensures registry.Valid() && registry.flags == old(registry.flags)
      ensures old(registry.FindFlagViaPtrLocked(ptr)).None? ==> !ok && registry.View() == old(registry.View())
      ensures old(registry.FindFlagViaPtrLocked(ptr)).Some? ==>
        var name := old(registry.FindFlagViaPtrLocked(ptr)).value.name;
        var a := AttachValidator(old(registry.View())[name].validator, fn);
        ok == a.ok && registry.View() == old(registry.View())[name := old(registry.View())[name].(validator := a.validator)]
    {
      var flag := registry.FindFlagViaPtrLocked(ptr);
      if flag.None? {
        return false;
      }
      var f := flag.value;
      assert registry.View()[f.name] == f.State();
      if SameValidator(fn, f.validator) {
        ok := true;
      } else if fn.Some? && f.validator.Some? {
        ok := false;
      } else {
        registry.SetValidator(f, fn);
        ok := true;
      }
    }
  }
}
