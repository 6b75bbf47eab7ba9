# gflags core in Dafny

This project models the core of a small C++ command-line flags library (a
gflags derivative). A program declares typed, named flags and registers
them in a process-wide registry. It then parses them out of `argv`,
assigning values through a validator, and finally validates the flags the
command line left untouched. The model covers:

- **values.dfy** (`Values`): the seven value kinds and the text grammar of
  `FlagValue::ParseFrom` and `FlagValue::ToString`. Bool words are
  compared case-insensitively. `strtoll`/`strtoull` are modelled as a
  grammar: C white space, an optional sign, `0x` in base 16, digits, the
  whole text, and the 64-bit range check. The narrowing to 32 bits is
  modelled as range checks.
- **flag_value.dfy** (`FlagValues`): the `FlagValue` box.
  - It is a binding of a kind to a `Storage` cell, which stands for the
    address a flag variable lives at.
  - `ParseFrom` writes the cell only on success.
  - `New`, `CopyFrom`, `Equal`, `ToString` and `TypeName` are included.
- **flags.dfy** (`Flags`): `CommandLineFlag`.
  - Its fields are the name, the help, the file, the modified bit, the
    current and default boxes, and the validator.
  - A validator is a value with an address, compared the way C compares
    function pointers, and a predicate.
- **util.dfy** (`Util`): `TryParseLocked`.
  - It parses into a fresh box, validates that candidate, and commits
    only on acceptance.
  - It appends one message line when a message is given.
- **registry.dfy** (`Registry`): `FlagRegistry`.
  - It keeps the name map and the storage-address map, with
    `RegisterFlag`, `FindFlagLocked` (dash-to-underscore retry) and
    `FindFlagViaPtrLocked`.
  - `SplitArgumentLocked` handles `key=value`, `--nox` for bools, and an
    implicit `1` for bools.
  - `SetFlagLocked` covers the three `FlagSettingMode`s. Each is
    specified by a pure function on a flag's state (`SetFlagSpec`).
- **scan.dfy** (`Scan`): the argument scan of `ParseNewCommandLineFlags`
  as a pure state machine (`Step`, `ScanFrom`, `ParseSpec`). It has
  lemmas for each branch, for argv being permuted with order kept, for
  the early stops, and for how flag states may evolve.
- **parser.dfy** (`Parser`): `CommandLineFlagParser`.
  - The imperative scan does the rotation by shifting an `array`, and is
    proved equal to `ParseSpec`.
  - `ProcessSingleOptionLocked` is included.
  - `ValidateFlags` and `ValidateUnmodifiedFlags` are proved equal to
    `ValidateSpec`.
- **gflags.dfy** (`Facade`): the `Gflags` facade.
  - It covers the usage and version strings, `ProgramInvocationShortName`
    and `SetArgv`: the one-shot latch, the joined command line, and the
    32-bit wrapping character sum.
  - It covers `ParseCommandLineFlagsInternal` and `GetCommandLineOption`.
  - It covers the two registration entry points of `gflags.h`,
    `RegisterCommandLineFlag` and `RegisterFlagValidator`.

Behaviour kept as the code has it:

- **Partition with removal.** With `remove_flags`,
  `[prog, --a=1, pos1, --b=2, pos2]` returns 1 and the caller's argv
  becomes `[prog, pos1, pos2]` (gflags_commandline.cc:202-209); without
  removal it returns 3 (`Scan.ParseSpec`).
- **Hex after a blank.** The base is picked from the raw text before any
  blank is skipped. So `" 0x1F"` is refused by every numeric kind
  (`Values.LeadingBlankHex`).
- **Blank-only unsigned text.** The unsigned branches skip the blanks
  and hand `strtoull` the empty rest, which converts nothing and leaves
  the end at the start, which is the end of the text. So `" "` is stored
  as 0 by uint32 and uint64 (`Values.BlankOnlyUnsigned`), while the
  signed kinds refuse it (`Values.BlankOnlySigned`).
- **Tab before a minus.** The unsigned branches skip only `' '` before
  refusing a `'-'`, but `strtoull` skips all C white space and negates.
  So `"\t-m"` is accepted by uint64 as 2^64 - m (`Values.TabMinusWraps`).
- **Appended messages.** `error_flags_` entries are message sequences;
  the empty sequence is the empty string. Messages are tagged values
  rather than formatted text.

## Model

| member | source | states |
|---|---|---|
| Values.TypeName | gflags_value.cc:225-240 | every kind has a non-empty type name |
| Values.Zero | gflags_value.cc:266-286 | the fresh value of a kind has that kind and prints as "false", "0" or "" |
| Values.NatToDecimal | gflags_value.cc:172-183 | decimal printing yields non-empty digits, with a leading 0 only for zero |
| Values.DecimalValue | gflags_value.cc:172-183 | reading the printed digits back gives the number |
| Values.Show | gflags_value.cc:167-188 | a bool prints as a word that reads back as itself; unsigned kinds print as plain decimal digits, signed kinds with a '-' exactly when negative; a string prints verbatim (the full round trip is Values.RoundTrip) |
| Values.SignedChar | gflags.cc:82-84 | a char read as a signed byte lies in [-128, 128) and agrees with the char modulo 256 |
| Values.LowerText | gflags_value.cc:86 | ASCII lower-casing keeps the length and lowers every character |
| Values.BoolWordMatchesTables | gflags_value.cc:82-94 | a bool text reads as true iff it equals, ignoring case, a word of the true table; false likewise with the false table |
| Values.SkipCSpace | gflags_value.cc:114 | skipping C white space leaves no white space at the front, keeps the last character and never lengthens the text |
| Values.SkipBlanks | gflags_value.cc:123-124 | skipping blanks leaves no ' ' at the front, keeps the last character and never lengthens the text |
| Values.ScanNumber | gflags_value.cc:114-115 | an accepted number ends in a digit of the base; with ScanNumberAccepts and ScanNumberShape, it accepts exactly the texts of white space, sign, optional 0x and digits |
| Values.StrToInt64 | gflags_value.cc:114-116 | a signed scan succeeds only within the int64 range; the empty text reads as 0 |
| Values.StrToUInt64 | gflags_value.cc:127-129 | an unsigned scan succeeds only within [0, 2^64); the empty text reads as 0 |
| Values.NumericBase | gflags_value.cc:105-109 | the base is 16 or 10 |
| Values.ParseSigned | gflags_value.cc:113-141 | an accepted signed text yields a value of the asked kind |
| Values.ParseUnsigned | gflags_value.cc:122-152 | an accepted unsigned text yields a value of the asked kind, and text that looks negative is refused |
| Values.ParseValue | gflags_value.cc:81-165 | the value has the asked kind; string text is taken verbatim; empty text is refused for non-strings; unsigned kinds refuse text that looks negative |
| Values.BlankOnlyUnsigned | gflags_value.cc:122-152 | a non-empty text of blanks only is stored as 0 by uint32 and uint64 |
| Values.BlankOnlySigned | gflags_value.cc:113-121 | a non-empty text of blanks only is refused by int32 and int64 |
| Values.Int32Range | gflags_value.cc:113-121 | int32 accepts a text iff strtoll accepts it and the result lies in [-2^31, 2^31), and then stores that result |
| Values.UInt32Range | gflags_value.cc:122-134 | uint32 accepts a text iff it has no leading '-', strtoull accepts the rest past blanks and the result is below 2^32, and then stores that result |
| Values.Int32Overflow | gflags_value.cc:113-121 | a decimal in [2^31, 2^63) is refused by int32 and stored by int64 |
| Values.UInt32Overflow | gflags_value.cc:122-152 | a decimal in [2^32, 2^64) is refused by uint32 and stored by uint64 |
| Values.LeadingZeroValue | gflags_value.cc:105-109 | a leading zero does not change the value of a digit string |
| Values.LeadingZeroDecimal | gflags_value.cc:105-109 | a leading 0 keeps base 10 (no octal): "0" + the decimal of n reads as n |
| Values.HexValue | gflags_value.cc:105-109 | "0x" or "0X" followed by hex digits reads as their base-16 value |
| Values.ScanNumberShape | gflags_value.cc:113-152 | every text the grammar accepts is white space, a sign, an optional 0x and digits, and reads as those digits with that sign |
| Values.ScanNumberAccepts | gflags_value.cc:113-152 | white space, a sign, a 0x prefix in base 16 and digits scan to the digits' value with that sign |
| Values.SignedRoundTrip | gflags_value.cc:135-141 | the decimal text of any int64 scans back to it |
| Values.UnsignedRoundTrip | gflags_value.cc:142-152 | the decimal text of any uint64 scans back to it |
| Values.Int32RoundTrip | gflags_value.cc:113-121 | an int32 printed then parsed is itself |
| Values.Int64RoundTrip | gflags_value.cc:135-141 | an int64 printed then parsed is itself |
| Values.UInt32RoundTrip | gflags_value.cc:122-134 | a uint32 printed then parsed is itself |
| Values.UInt64RoundTrip | gflags_value.cc:142-152 | a uint64 printed then parsed is itself |
| Values.RoundTrip | gflags_value.cc:167-193 | for every non-double value, ParseFrom of ToString gives the value back |
| Values.LeadingBlankHex | gflags_value.cc:105-109 | a blank before "0x" makes every numeric kind refuse the text |
| Values.TabMinusWraps | gflags_value.cc:142-152 | "\t-m" is accepted as the uint64 2^64 - m |
| FlagValues.Storage.constructor | gflags.h:324-325 | a storage cell holds its initial value |
| FlagValues.FlagValue.constructor | gflags_value.cc:47-50 | the box is bound to the given cell and takes the kind of its value |
| FlagValues.FlagValue.ParseFrom | gflags_value.cc:81-165 | succeeds iff the text parses as the box's kind; the cell then holds the parsed value, else it is unchanged |
| FlagValues.FlagValue.ParseBool | gflags_value.cc:82-94 | the word-table loop succeeds iff the text is a bool word, storing its meaning |
| FlagValues.FlagValue.ParseSignedText | gflags_value.cc:113-141 | the int32/int64 branches store the value iff the text scans and fits |
| FlagValues.FlagValue.ParseUnsignedText | gflags_value.cc:122-152 | the uint32/uint64 branches store the value iff the text, past blanks, has no '-', scans and fits; nothing but blanks stores 0 |
| FlagValues.FlagValue.ToString | gflags_value.cc:167-193 | the printed text parses back to the held value for every non-double kind |
| FlagValues.FlagValue.TypeName | gflags_value.cc:225-240 | the type name is non-empty |
| FlagValues.FlagValue.New | gflags_value.cc:266-286 | a fresh box on a fresh cell of the same kind, holding that kind's zero |
| FlagValues.FlagValue.Equal | gflags_value.cc:242-264 | different kinds are never Equal; between well-formed boxes Equal is exactly equality of the held values |
| FlagValues.FlagValue.CopyFrom | gflags_value.cc:288-315 | after the copy the box holds the source's value and is Equal to it |
| FlagValues.SkipLeadingBlanks | gflags_value.cc:123-124 | the skip loop stops at the first non-blank |
| Flags.CommandLineFlag.constructor | gflags_commandline.cc:28-32 | a new flag holds the given name, help, file and boxes, is unmodified and has no validator |
| Flags.CommandLineFlag.TypeName | gflags_commandline.cc:60 | the flag's type name is that of its kind |
| Flags.CommandLineFlag.Validate | gflags_commandline.cc:72-77 | with no validator every value passes; otherwise the validator decides for the flag's name |
| Flags.CommandLineFlag.ValidateCurrent | gflags_commandline.cc:79 | the validator's verdict on the current value |
| Flags.CommandLineFlag.CurrentValue | gflags_commandline.cc:56 | the current value in its printed form |
| Flags.CommandLineFlag.UpdateModifiedBit | gflags_commandline.cc:95-101 | modified becomes true once current differs from default, and never goes back to false |
| Flags.CommandLineFlag.CopyFrom | gflags_commandline.cc:83-93 | the mutable state (modified, values, validator) equals the source's |
| Util.TryParse | gflags_util.cc:77-105 | illegal iff the text does not parse; committed iff it parses and the validator accepts the candidate |
| Util.AppendMessage | gflags_util.cc:82-100 | no message stays none; a message gains exactly one final line |
| Util.TryParseLocked | gflags_util.cc:77-105 | ok iff committed; the target holds the candidate on success and is untouched on failure; one line is appended to the message |
| Registry.Underscored | gflags_regist.cc:88-89 | every '-' is replaced by '_' and nothing else changes |
| Registry.FindName | gflags_regist.cc:81-94 | the exact name wins; otherwise the dash-to-underscore spelling, if registered |
| Registry.FirstIndex | gflags_regist.cc:110 | strchr: the first occurrence, absent iff the character is not there |
| Registry.KeyPart | gflags_regist.cc:110-119 | the key is the '='-free prefix of the argument |
| Registry.ValuePart | gflags_regist.cc:110-118 | a value exists iff the argument has '=', and key '=' value rebuilds the argument |
| Registry.Resolve | gflags_regist.cc:121-159 | a flag is found iff there is no error; a found bool flag always gets a value |
| Registry.Split | gflags_regist.cc:105-160 | a flag is found iff there is no error; a found bool flag always gets a value |
| Registry.SplitKeyValue | gflags_regist.cc:110-118 | "key=value" of a known flag splits into that key, value and flag |
| Registry.SplitNegation | gflags_regist.cc:123-152 | "noX" for an unregistered noX and a bool flag X resolves to X with the value "0" |
| Registry.SplitBare | gflags_regist.cc:154-157 | a bare known name gets the value "1" for a bool flag and none otherwise |
| Registry.Touch | gflags_commandline.cc:95-101 | the modified bit is set iff it was set or current differs from default; nothing else changes |
| Registry.SetCurrent | gflags_regist.cc:166-171 | ok iff TryParseLocked commits, which also sets modified; the message gains that call's line |
| Registry.SetFlagSpec | gflags_regist.cc:162-203 | the validator is kept; modified never goes back; failure only updates the modified bit; a changed value was parsed from the text and accepted |
| Registry.SetValueMode | gflags_regist.cc:166-172 | SET_FLAGS_VALUE succeeds iff the text parses and is accepted, then sets current and modified |
| Registry.IfDefaultMode | gflags_regist.cc:173-184 | SET_FLAG_IF_DEFAULT leaves a modified flag alone with success, and otherwise acts as SET_FLAGS_VALUE |
| Registry.DefaultMode | gflags_regist.cc:185-194 | SET_FLAGS_DEFAULT sets the default and, when unmodified, the current value; modified is untouched |
| Registry.SetValueIdempotent | gflags_regist.cc:166-172 | setting the same text twice leaves the state of setting it once |
| Registry.InsertKeepsWellFormed | gflags_regist.cc:57-79 | adding a new flag to both maps keeps them consistent with each other and with ownership |
| Registry.FlagRegistry.constructor | gflags_regist.cc:28 | a new registry has two empty maps |
| Registry.FlagRegistry.RegisterFlag | gflags_regist.cc:57-79 | a duplicate name is fatal (defined twice or linked twice) with the maps and every flag state unchanged; otherwise the flag is in both maps, found by both lookups, and the registry's infos and states gain exactly that flag's |
| Registry.FlagRegistry.Insert | gflags_regist.cc:59-77 | both maps gain the flag and stay consistent |
| Registry.FlagRegistry.FindFlagLocked | gflags_regist.cc:81-94 | the exact name first, then the underscored spelling; none iff neither is registered |
| Registry.FlagRegistry.FindFlagViaPtrLocked | gflags_regist.cc:96-103 | found iff some flag's current storage is that address, and it is that flag |
| Registry.FlagRegistry.SplitArgumentLocked | gflags_regist.cc:105-160 | key, value, error and flag are those of the pure split over the registry |
| Registry.FlagRegistry.SetFlagLocked | gflags_regist.cc:162-203 | the named flag's state becomes the one SetFlagSpec gives, and every other flag is unchanged |
| Registry.FlagRegistry.SetValidator | gflags.h:377 | only the named flag's validator changes |
| Registry.FlagRegistry.SetFlagOnly | gflags_regist.cc:162-203 | the flag's own state follows SetFlagSpec |
| Scan.StripDashes | gflags_commandline.cc:141-143 | the stripped token is empty iff the token is "--" |
| Scan.Description | gflags_commandline.cc:170-173 | a description is added only for a help whose first char exceeds '\001', and it is the help |
| Scan.Rotate | gflags_commandline.cc:132-140 | the token at i moves to the end, the rest shift left, and the prefix and multiset are kept |
| Scan.Assign | gflags_commandline.cc:198 | setting one flag advances the index and leaves argv, the boundary and undefined names as they were |
| Scan.Step | gflags_commandline.cc:128-199 | each step shrinks the unscanned range or stops; a positional rotates, any other token leaves argv as is |
| Scan.StepPositional | gflags_commandline.cc:132-140 | a positional goes to the end and the boundary drops by one |
| Scan.StepDashDash | gflags_commandline.cc:145-149 | "--" stops option parsing |
| Scan.StepUnknown | gflags_commandline.cc:155-161 | an unknown key records its error and is marked undefined |
| Scan.StepMissing | gflags_commandline.cc:163-175 | a non-bool flag with nothing after it records the missing-argument error and stops |
| Scan.StepAssign | gflags_commandline.cc:176-198 | a known flag with a value (inline or the next token) is set in SET_FLAGS_VALUE mode |
| Scan.ScanFrom | gflags_commandline.cc:128-199 | the scan runs to the boundary unless it stops early |
| Scan.ParseSpec | gflags_commandline.cc:123-210 | the boundary lies in argv, and with remove_flags the result is 1 |
| Scan.StopKept | gflags_commandline.cc:145-175 | the scan stops early only at "--" or at a flag missing its value, with that error recorded |
| Scan.ScanPermutes | gflags_commandline.cc:131-140 | the final argv is a permutation of the input that keeps the order of both options and positionals |
| Scan.RemovedView | gflags_commandline.cc:202-209 | with removal, argv from start is the program name followed by the positionals |
| Scan.StepKeeps | gflags_commandline.cc:155-198 | one step only moves flag states forward and only adds errors |
| Scan.ScanKeeps | gflags_commandline.cc:128-199 | during the scan modified never resets, validator and default are kept, every new current value was accepted, and errors and undefined names only grow |
| Parser.ValidateSpec | gflags_commandline.cc:223-243 | a non-empty message is never overwritten; only failing flags change, to "must be set" (noting a failing default when unmodified); every failing flag ends with a message |
| Parser.ValidateOne | gflags_commandline.cc:227-241 | visiting one more flag changes at most its own entry: a failing flag with no message gets "must be set" |
| Parser.RotateToEnd | gflags_commandline.cc:134-136 | the memmove and the store rotate the array exactly as Rotate |
| Parser.CommandLineFlagParser.constructor | gflags_commandline.cc:118-119 | a new parser has no errors and no undefined names |
| Parser.CommandLineFlagParser.ProcessSingleOptionLocked | gflags_commandline.cc:212-221 | no value does nothing; on failure the flag's error is the message and "" is returned, else the message |
| Parser.CommandLineFlagParser.RecordError | gflags_commandline.cc:216 | exactly one error entry changes |
| Parser.CommandLineFlagParser.ScanOne | gflags_commandline.cc:128-199 | one iteration of the scan loop equals one Step |
| Parser.CommandLineFlagParser.ScanFlag | gflags_commandline.cc:151-198 | the flag-token iteration equals one Step |
| Parser.CommandLineFlagParser.ScanFound | gflags_commandline.cc:163-198 | a resolved flag's iteration equals one Step |
| Parser.CommandLineFlagParser.RecordUnknown | gflags_commandline.cc:157-160 | the key is marked undefined and its only error is the split's message |
| Parser.CommandLineFlagParser.AssignFlag | gflags_commandline.cc:198 | setting the found flag equals Assign |
| Parser.CommandLineFlagParser.ParseNewCommandLineFlags | gflags_commandline.cc:123-210 | argv, result, start, errors, undefined names and all flag states are those of ParseSpec |
| Parser.CommandLineFlagParser.MoveProgramName | gflags_commandline.cc:203 | argv[k] becomes the program name and nothing else changes |
| Parser.CommandLineFlagParser.ScanLoop | gflags_commandline.cc:128-199 | the loop's final state is ScanFrom of the initial state |
| Parser.CommandLineFlagParser.ValidateFlags | gflags_commandline.cc:223-243 | the errors become ValidateSpec of the old errors and the flag states; no flag changes |
| Parser.CommandLineFlagParser.ValidateAll | gflags_commandline.cc:225-242 | the loop over all flags gives ValidateSpec |
| Parser.CommandLineFlagParser.ValidateFlag | gflags_commandline.cc:227-241 | one loop body adds the flag to the validated set |
| Parser.CommandLineFlagParser.ValidateUnmodifiedFlags | gflags_commandline.cc:245 | only unmodified flags are judged (ValidateSpec with all = false); no flag changes |
| Facade.JoinFront | gflags.cc:72-78 | joining an argv puts single spaces between its words |
| Facade.JoinLength | gflags.cc:72-78 | the command line is as long as the words plus one space between each pair |
| Facade.CharSumAppend | gflags.cc:80-84 | the character sum of a concatenation is the sum of the parts |
| Facade.CharSumJoin | gflags.cc:80-84 | the character sum of the command line is the words' sums plus 32 per separating space |
| Facade.LastSlash | gflags.cc:59 | rfind('/'): absent iff there is no '/', else the last one |
| Facade.AttachValidator | gflags.h:366-379 | refused iff both validators exist and differ; on success the flag holds the given one; on refusal it keeps its own |
| Facade.AttachAgain | gflags.h:370-371 | registering the same validator again succeeds and changes nothing |
| Facade.ArgvLatch.constructor | gflags.cc:64 | the static latch starts unset |
| Facade.Gflags.constructor | gflags.cc:17-24 | argv0 "UNKNOWN", an empty command line, argvs and sum, and empty usage and version |
| Facade.Gflags.SetUsageMessage | gflags.cc:26 | only the usage changes |
| Facade.Gflags.ProgramUsage | gflags.cc:28-33 | the usage when set, else the never-called warning; never empty |
| Facade.Gflags.SetVersionString | gflags.cc:35-37 | VersionString then returns the given text; nothing else changes |
| Facade.Gflags.VersionString | gflags.cc:39 | the text last given to SetVersionString, "" before any |
| Facade.Gflags.ProgramInvocationShortName | gflags.cc:58-61 | the suffix of argv0 after its last '/', with no '/' in it |
| Facade.Gflags.SetArgv | gflags.cc:63-85 | once the latch is set nothing changes; the first call records argv0, the joined line, the argv list and its 32-bit character sum |
| Facade.Gflags.JoinArgs | gflags.cc:72-78 | the join loop builds the space-joined line and appends every word to argvs |
| Facade.Gflags.SumCommandLine | gflags.cc:80-84 | the sum loop gives the signed-char sum of the line modulo 2^32 |
| Facade.Gflags.GetCommandLineOption | gflags.cc:106-120 | found iff a name is given and the registry finds it; then the value is that flag's printed current value, else it is untouched |
| Facade.Gflags.ParseCommandLineFlagsInternal | gflags.cc:87-102 | SetArgv (on the first call argv0, the joined line, argvs and its character sum; later calls change none of them), then the outcome of ParseSpec on the registry, then the unmodified flags validated as ValidateSpec says; usage and version are unchanged |
| Facade.Gflags.ScanAndValidate | gflags.cc:92-99 | the scan equals ParseSpec and the errors equal ValidateSpec on its result |
| Facade.Gflags.RegisterCommandLineFlag | gflags.h:321-338 | a duplicate name is fatal with the names and flag states unchanged; a new name adds exactly that flag, found by name and by storage: the infos gain its name, help ("" for a null help), file and kind, and the states gain its two values, unmodified and without a validator |
| Facade.Gflags.NewFlag | gflags.h:329-333 | a fresh, well-formed flag over the two given cells, with the given name, help, file and the cells' kind, unmodified and without a validator |
| Facade.Gflags.RegisterFlagValidator | gflags.h:351-380 | an unknown address is refused with nothing changed; otherwise the result and the flag's new validator are AttachValidator's |

## Left out

- The registry mutex, `FlagRegistryLock` and the global-registry singleton: the model is sequential and the registry is a parameter.
- Doubles: `ParseValue` refuses every text for the double kind and `Show` prints a double as "", since floating-point conversion (`strtod`, `%.17g`) is not modelled; `Values.RoundTrip` excludes doubles.
- FlagValues.FlagValue.Equal: doubles are compared by bit pattern, so NaN and ±0 do not follow IEEE equality.
- Messages are tagged values, not the formatted strings (no `kError` prefix or `StringAppendF` formatting).
- The `cout` lines: the string-flag heuristic (gflags_commandline.cc:189-193) and the validator notices in `RegisterFlagValidator`.
- Destructors, ownership flags (`owns_value_`), `ShutDownCommandLineFlags`, the `DEFINE_*` macros and main.cc.
- NUL-terminated C strings: a text is a whole sequence, so embedded NUL bytes are not modelled.
- Registry.FlagRegistry.SetFlagLocked: the message is always given; a null `msg` is not modelled, because the only caller passes one.
- The parser's unused `enter_` back pointer and the unused `do_report` argument.
- Registry.FlagRegistry.RegisterFlag: `ReportError(DIE)` is the `Fatal` outcome with the registry unchanged, not a process exit.
- Facade.Gflags.RegisterCommandLineFlag: returns a `Registration` instead of `true`, so that the fatal path is visible, and requires the two storage cells to be distinct and unregistered, as the macros that call it arrange.
- Parser.CommandLineFlagParser.ValidateFlags: iterates the flags in an order of its choosing instead of `std::map` order; `Parser.ValidateSpec` shows the result does not depend on it.
- Registry.FlagRegistry.SplitArgumentLocked: a function returning the key, value and error, not out-parameters.
- Facade.Gflags: `GetArgvs`, `GetArgv`, `GetArgv0`, `GetArgvSum` and `ProgramInvocationName` are the plain fields.
- Facade.Gflags.ParseCommandLineFlagsInternal: `argv` is an array and the start is an offset into it; the pointer arithmetic on `*argv` and `*argc` is not modelled.
- Facade.Gflags.ParseCommandLineFlagsInternal: the source discards the parser's error map; the model returns it as a ghost `errors`.
- Values.SignedChar: a character counts as its low byte read as a signed `char`. The library's strings are C byte strings while the model's are sequences of `char`, one `char` per byte: a UTF-8 argv is given byte by byte, and a `char` above 255 has no counterpart in the library (`SignedChar` and `LowerAscii` read only its low byte or its ASCII letters).
- Facade.ArgvLatch: the function-static `called_set_argv` of `SetArgv` (gflags.cc:64) is an object the caller passes in; "later calls change nothing" holds across facades only when every caller passes the same latch, as the one per-process static guarantees.
- Registry ownership: the `owner` map is a proof device for footprints, not part of the library.
