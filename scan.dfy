/**
 * The argument scan of CommandLineFlagParser::ParseNewCommandLineFlags
 * (gflags_commandline.cc) as a function of the registered flags: one
 * step per loop iteration, the whole scan, and what the caller sees
 * afterwards. The imperative scan in parser.dfy is proved equal to it.
 */
module Scan {
  import opened Wrappers
  import opened Values
  import opened Messages
  import opened Flags
  import opened Registry

  // ---------------------------------------------------------------------
  // Tokens
  // ---------------------------------------------------------------------

  /** A program argument rather than an option: it does not start with '-', or it is "-". */
  predicate IsPositional(t: string) {
    t == [] || t[0] != '-' || |t| == 1
  }

  /** An option with its leading "-" or "--" removed. */
  function StripDashes(t: string): (r: string)
    requires !IsPositional(t)
    ensures r == [] <==> t == "--"
  {
    var u := t[1..];
    if u != [] && u[0] == '-' then u[1..] else u
  }

  /** The help text shown with a missing-argument error: only when it starts with a char above '\001'. */
  function Description(help: string): (r: Option<string>)
    ensures r.Some? ==> r.value == help && help != []
  {
    if help != [] && SignedChar(help[0]) > 1 then Some(help) else None
  }

  /** The memmove rotation: the token at i goes last, the ones after it move up by one. */
  function Rotate(s: seq<string>, i: nat): (r: seq<string>)
    requires i < |s|
    ensures |r| == |s| && r[..i] == s[..i] && r[|s| - 1] == s[i]
    ensures forall k :: i <= k < |s| - 1 ==> r[k] == s[k + 1]
    ensures multiset(r) == multiset(s)
  {
    assert s == s[..i] + [s[i]] + s[i + 1..];
    s[..i] + s[i + 1..] + [s[i]]
  }

  // ---------------------------------------------------------------------
  // Scan states
  // ---------------------------------------------------------------------

  /** Why the scan ended early, if it did. */
  datatype Stop = Running | DashDash | MissingValue(key: string)

  /**
   * The loop's variables: argv, the index i, first_nonopt, and the early
   * stop; the parser's error_flags_ and undefined_names_; and the state of
   * every registered flag.
   */
  datatype ScanState = ScanState(
    argv: seq<string>, i: nat, fno: nat, stop: Stop,
    errors: map<string, seq<Message>>, undefined: set<string>,
    states: map<string, FlagState>)

  /** The shape every state of the scan keeps. */
  predicate Ready(infos: map<string, FlagInfo>, st: ScanState) {
    1 <= st.i <= st.fno <= |st.argv| && st.states.Keys == infos.Keys
  }

  /** The message recorded for a flag with no value and nothing left to take it from. */
  function MissingMessage(info: FlagInfo, token: string): Message {
    MissingArgument(token, Description(info.help))
  }

  /** What a stopped state records about the token it stopped at. */
  predicate StopExplained(st: ScanState) {
    && (st.stop == DashDash ==> st.i < |st.argv| && st.argv[st.i] == "--")
    && (st.stop.MissingValue? ==>
          && st.i + 1 == st.fno && st.i < |st.argv|
          && st.stop.key in st.errors && |st.errors[st.stop.key]| == 1
          && st.errors[st.stop.key][0].MissingArgument?
          && st.errors[st.stop.key][0].token == st.argv[st.i])
  }

  /** A flag option with its value: SET_FLAGS_VALUE, and on failure the message under the flag's name. */
  function Assign(infos: map<string, FlagInfo>, st: ScanState, f: string, text: string, next: nat): (r: ScanState)
    requires Ready(infos, st) && f in infos && st.i < next <= st.fno
    ensures Ready(infos, r) && r.argv == st.argv && r.fno == st.fno && r.stop == st.stop
    ensures r.i == next && r.undefined == st.undefined
  {
    var out := SetFlagSpec(infos[f], st.states[f], text, SetFlagsValue, []);
    st.(i := next, states := st.states[f := out.state],
        errors := if out.ok then st.errors else st.errors[infos[f].name := out.msg])
  }

  /** One iteration of the scan loop on a running state with i < first_nonopt. */
  function Step(infos: map<string, FlagInfo>, st: ScanState): (r: ScanState)
    requires Ready(infos, st) && st.stop.Running? && st.i < st.fno
    ensures Ready(infos, r) && |r.argv| == |st.argv|
    ensures r.fno - r.i < st.fno - st.i || (r.fno - r.i == st.fno - st.i && !r.stop.Running?)
    ensures IsPositional(st.argv[st.i]) ==> r.argv == Rotate(st.argv, st.i) && r.i == st.i && r.fno == st.fno - 1
    ensures !IsPositional(st.argv[st.i]) ==> r.argv == st.argv && r.fno == st.fno && st.i <= r.i <= st.i + 2
  {
    var arg := st.argv[st.i];
    if IsPositional(arg) then
      st.(argv := Rotate(st.argv, st.i), fno := st.fno - 1)
    else
      var name := StripDashes(arg);
      if name == [] then st.(stop := DashDash)
      else
        var sp := Split(infos, name);
        match sp.flag
        case None =>
          st.(i := st.i + 1, undefined := st.undefined + {sp.key},
              errors := st.errors[sp.key := [sp.error.value]])
        case Some(f) =>
          if sp.value.None? && st.i + 1 >= st.fno then
            st.(stop := MissingValue(sp.key),
                errors := st.errors[sp.key := [MissingMessage(infos[f], arg)]])
          else
            var text := if sp.value.Some? then sp.value.value else st.argv[st.i + 1];
            Assign(infos, st, f, text, if sp.value.Some? then st.i + 1 else st.i + 2)
  }

  // The five cases of a step, one lemma each.

  /** A program argument is rotated to the end and first_nonopt drops by one. */
  lemma StepPositional(infos: map<string, FlagInfo>, st: ScanState)
    requires Ready(infos, st) && st.stop.Running? && st.i < st.fno && IsPositional(st.argv[st.i])
    ensures Step(infos, st) == st.(argv := Rotate(st.argv, st.i), fno := st.fno - 1)
  {
  }

  /** A bare "--" stops the scan at i. */
  lemma StepDashDash(infos: map<string, FlagInfo>, st: ScanState)
    requires Ready(infos, st) && st.stop.Running? && st.i < st.fno && st.argv[st.i] == "--"
    ensures Step(infos, st) == st.(stop := DashDash)
  {
  }

  /** A name no flag answers to is recorded as undefined and with its error; the scan goes on. */
  lemma StepUnknown(infos: map<string, FlagInfo>, st: ScanState, name: string)
    requires Ready(infos, st) && st.stop.Running? && st.i < st.fno
    requires !IsPositional(st.argv[st.i]) && name == StripDashes(st.argv[st.i]) && name != []
    requires Split(infos, name).flag.None?
    ensures var sp := Split(infos, name);
      Step(infos, st) == st.(i := st.i + 1, undefined := st.undefined + {sp.key},
                             errors := st.errors[sp.key := [sp.error.value]])
  {
  }

  /** A flag that needs a value, with none left before first_nonopt, stops the scan with an error. */
  lemma StepMissing(infos: map<string, FlagInfo>, st: ScanState, name: string)
    requires Ready(infos, st) && st.stop.Running? && st.i < st.fno
    requires !IsPositional(st.argv[st.i]) && name == StripDashes(st.argv[st.i]) && name != []
    requires Split(infos, name).flag.Some? && Split(infos, name).value.None? && st.i + 1 >= st.fno
    ensures var sp := Split(infos, name);
      Step(infos, st) == st.(stop := MissingValue(sp.key),
                             errors := st.errors[sp.key := [MissingMessage(infos[sp.flag.value], st.argv[st.i])]])
  {
  }

  /** A flag with a value, after '=' or in the next token, is set with SET_FLAGS_VALUE. */
  lemma StepAssign(infos: map<string, FlagInfo>, st: ScanState, name: string, text: string, next: nat)
    requires Ready(infos, st) && st.stop.Running? && st.i < st.fno
    requires !IsPositional(st.argv[st.i]) && name == StripDashes(st.argv[st.i]) && name != []
    requires Split(infos, name).flag.Some?
    requires Split(infos, name).value.Some? ==> text == Split(infos, name).value.value && next == st.i + 1
    requires Split(infos, name).value.None? ==> st.i + 1 < st.fno && text == st.argv[st.i + 1] && next == st.i + 2
    ensures Step(infos, st) == Assign(infos, st, Split(infos, name).flag.value, text, next)
  {
    var sp := Split(infos, name);
    var text' := if sp.value.Some? then sp.value.value else st.argv[st.i + 1];
    var next' := if sp.value.Some? then st.i + 1 else st.i + 2;
    assert text' == text && next' == next;
    assert Step(infos, st) == Assign(infos, st, sp.flag.value, text', next');
  }

  /** The rest of the scan from a state: steps until i reaches first_nonopt or a stop. */
  function ScanFrom(infos: map<string, FlagInfo>, st: ScanState): (r: ScanState)
    requires Ready(infos, st)
    ensures Ready(infos, r) && |r.argv| == |st.argv|
    ensures r.stop.Running? ==> r.i == r.fno
    decreases st.fno - st.i, if st.stop.Running? then 1 else 0
  {
    if !st.stop.Running? || st.i >= st.fno then st
    else ScanFrom(infos, Step(infos, st))
  }

  /** first_nonopt when the loop ends: one past "--" after a bare "--", else where it stood. */
  function FirstNonOpt(fin: ScanState): nat {
    if fin.stop == DashDash then fin.i + 1 else fin.fno
  }

  /** The scan's starting state over an argv. */
  function Start(argv: seq<string>, errors: map<string, seq<Message>>, undefined: set<string>,
                 states: map<string, FlagState>): ScanState
  {
    ScanState(argv, 1, |argv|, Running, errors, undefined, states)
  }

  /** The whole of ParseNewCommandLineFlags: the return value, where the caller's argv now starts, and argv. */
  datatype ParseOutcome = ParseOutcome(result: nat, start: nat, argv: seq<string>, scan: ScanState)

  function ParseSpec(infos: map<string, FlagInfo>, argv: seq<string>, errors: map<string, seq<Message>>,
                     undefined: set<string>, states: map<string, FlagState>, removeFlags: bool): (r: ParseOutcome)
    requires |argv| >= 1 && states.Keys == infos.Keys
    ensures r.start < |r.argv| == |argv|
    ensures removeFlags ==> r.result == 1
  {
    var fin := ScanFrom(infos, Start(argv, errors, undefined, states));
    var fno := FirstNonOpt(ScanFrom(infos, Start(argv, errors, undefined, states)));
    StopKept(infos, Start(argv, errors, undefined, states));
    if removeFlags then ParseOutcome(1, fno - 1, fin.argv[fno - 1 := fin.argv[0]], fin)
    else ParseOutcome(fno, 0, fin.argv, fin)
  }

  // ---------------------------------------------------------------------
  // Early stops
  // ---------------------------------------------------------------------

  lemma StepStop(infos: map<string, FlagInfo>, st: ScanState)
    requires Ready(infos, st) && st.stop.Running? && st.i < st.fno
    ensures StopExplained(Step(infos, st))
  {
    var arg := st.argv[st.i];
    if !IsPositional(arg) && StripDashes(arg) != [] {
      var sp := Split(infos, StripDashes(arg));
      if sp.flag.Some? && sp.value.None? && st.i + 1 >= st.fno {
        assert Step(infos, st).errors[sp.key] == [MissingMessage(infos[sp.flag.value], arg)];
      }
    }
  }

  /**
   * The scan ends early only at a bare "--" or at a flag that needs a
   * value with none left; otherwise it runs until i meets first_nonopt.
   */
  lemma {:induction false} StopKept(infos: map<string, FlagInfo>, st: ScanState)
    requires Ready(infos, st) && StopExplained(st)
    ensures StopExplained(ScanFrom(infos, st))
    ensures ScanFrom(infos, st).stop == DashDash ==> FirstNonOpt(ScanFrom(infos, st)) <= |st.argv|
    decreases st.fno - st.i, if st.stop.Running? then 1 else 0
  {
    if st.stop.Running? && st.i < st.fno {
      StepStop(infos, st);
      StopKept(infos, Step(infos, st));
    }
  }

  // ---------------------------------------------------------------------
  // The permutation of argv
  // ---------------------------------------------------------------------

  /**
   * s is an interleaving of a and b: both occur in s in their own order,
   * and s holds nothing else.
   */
  predicate Interleaves(s: seq<string>, a: seq<string>, b: seq<string>)
    decreases |s|
  {
    if s == [] then a == [] && b == []
    else
      || (a != [] && a[|a| - 1] == s[|s| - 1] && Interleaves(s[..|s| - 1], a[..|a| - 1], b))
      || (b != [] && b[|b| - 1] == s[|s| - 1] && Interleaves(s[..|s| - 1], a, b[..|b| - 1]))
  }

  lemma InterleaveLeft(s: seq<string>, a: seq<string>, b: seq<string>, x: string)
    requires Interleaves(s, a, b)
    ensures Interleaves(s + [x], a + [x], b)
  {
    assert (s + [x])[..|s|] == s && (a + [x])[..|a|] == a;
  }

  lemma InterleaveRight(s: seq<string>, a: seq<string>, b: seq<string>, x: string)
    requires Interleaves(s, a, b)
    ensures Interleaves(s + [x], a, b + [x])
  {
    assert (s + [x])[..|s|] == s && (b + [x])[..|b|] == b;
  }

  /** An interleaving holds exactly the tokens of its two parts. */
  lemma {:induction false} InterleavesMultiset(s: seq<string>, a: seq<string>, b: seq<string>)
    requires Interleaves(s, a, b)
    ensures multiset(s) == multiset(a) + multiset(b)
    decreases |s|
  {
    if s != [] {
      var s', x := s[..|s| - 1], s[|s| - 1];
      assert s == s' + [x];
      if a != [] && a[|a| - 1] == x && Interleaves(s', a[..|a| - 1], b) {
        InterleavesMultiset(s', a[..|a| - 1], b);
        assert a == a[..|a| - 1] + [x];
      } else {
        InterleavesMultiset(s', a, b[..|b| - 1]);
        assert b == b[..|b| - 1] + [x];
      }
    }
  }

  /** Every token of s is a program argument. */
  predicate AllPositional(s: seq<string>) {
    forall k :: 0 <= k < |s| ==> IsPositional(s[k])
  }

  /**
   * How an argv in the middle of the scan relates to the original one.
   * With p the number of original tokens already looked at: argv[0] is in
   * place; argv[i..fno] is the unread rest orig[p..]; the tokens read so
   * far, orig[1..p], are an interleaving of the options kept in argv[1..i]
   * and the program arguments rotated to argv[fno..], each in its original
   * order; and every rotated token is a program argument.
   */
  predicate Shape(orig: seq<string>, a: seq<string>, i: nat, fno: nat) {
    && |a| == |orig| && 1 <= i <= fno <= |orig|
    && a[0] == orig[0]
    && a[i..fno] == orig[|orig| - (fno - i)..]
    && Interleaves(orig[1..|orig| - (fno - i)], a[1..i], a[fno..])
    && AllPositional(a[fno..])
  }

  predicate ArgvShape(orig: seq<string>, st: ScanState) {
    Shape(orig, st.argv, st.i, st.fno)
  }

  lemma ShapeStart(orig: seq<string>)
    requires |orig| >= 1
    ensures Shape(orig, orig, 1, |orig|)
  {
    assert orig[1..|orig| - (|orig| - 1)] == [];
    assert orig[1..1] == [] && orig[|orig|..] == [];
  }

  /** The unread part starts with the token at i. */
  lemma Head(orig: seq<string>, a: seq<string>, i: nat, fno: nat)
    requires Shape(orig, a, i, fno) && i < fno
    ensures orig[|orig| - (fno - i)] == a[i]
    ensures a[i + 1..fno] == orig[|orig| - (fno - i) + 1..]
  {
    var p := |orig| - (fno - i);
    assert a[i..fno][0] == orig[p..][0];
    assert a[i + 1..fno] == a[i..fno][1..];
    assert orig[p + 1..] == orig[p..][1..];
  }

  /** A program argument goes from the head of the unread part to the end of the rotated tail. */
  lemma ShapeRotate(orig: seq<string>, a: seq<string>, i: nat, fno: nat)
    requires Shape(orig, a, i, fno) && i < fno && IsPositional(a[i])
    ensures Shape(orig, Rotate(a, i), i, fno - 1)
  {
    var a' := Rotate(a, i);
    var p := |orig| - (fno - i);
    Head(orig, a, i, fno);
    assert a'[1..i] == a[1..i] by { assert a'[..i] == a[..i]; }
    assert a'[fno - 1..] == a[fno..] + [a[i]];
    assert a'[i..fno - 1] == a[i + 1..fno];
    assert orig[1..p + 1] == orig[1..p] + [orig[p]];
    InterleaveRight(orig[1..p], a[1..i], a[fno..], a[i]);
  }

  /** Options move from the head of the unread part to the end of the kept ones. */
  lemma ShapeConsume(orig: seq<string>, a: seq<string>, i: nat, fno: nat)
    requires Shape(orig, a, i, fno) && i < fno
    ensures Shape(orig, a, i + 1, fno)
  {
    var p := |orig| - (fno - i);
    Head(orig, a, i, fno);
    assert orig[1..p + 1] == orig[1..p] + [orig[p]];
    assert a[1..i + 1] == a[1..i] + [a[i]];
    InterleaveLeft(orig[1..p], a[1..i], a[fno..], a[i]);
  }

  /** One iteration's effect on argv, i and first_nonopt keeps the shape. */
  lemma ShapeAdvance(orig: seq<string>, a: seq<string>, i: nat, fno: nat, a': seq<string>, i': nat, fno': nat)
    requires Shape(orig, a, i, fno) && i < fno
    requires IsPositional(a[i]) ==> a' == Rotate(a, i) && i' == i && fno' == fno - 1
    requires !IsPositional(a[i]) ==> a' == a && fno' == fno && i <= i' <= i + 2 && i' <= fno
    ensures Shape(orig, a', i', fno')
  {
    if IsPositional(a[i]) {
      ShapeRotate(orig, a, i, fno);
    } else if i' > i {
      ShapeConsume(orig, a, i, fno);
      if i' > i + 1 {
        ShapeConsume(orig, a, i + 1, fno);
      }
    }
  }

  lemma ShapeStep(orig: seq<string>, infos: map<string, FlagInfo>, st: ScanState)
    requires Ready(infos, st) && st.stop.Running? && st.i < st.fno && ArgvShape(orig, st)
    ensures ArgvShape(orig, Step(infos, st))
  {
    var r := Step(infos, st);
    ShapeAdvance(orig, st.argv, st.i, st.fno, r.argv, r.i, r.fno);
  }

  lemma {:induction false} ShapeScan(orig: seq<string>, infos: map<string, FlagInfo>, st: ScanState)
    requires Ready(infos, st) && ArgvShape(orig, st)
    ensures ArgvShape(orig, ScanFrom(infos, st))
    decreases st.fno - st.i, if st.stop.Running? then 1 else 0
  {
    if st.stop.Running? && st.i < st.fno {
      ShapeStep(orig, infos, st);
      ShapeScan(orig, infos, Step(infos, st));
    }
  }

  lemma SplitThree(s: seq<string>, p: nat)
    requires 1 <= p <= |s|
    ensures multiset(s) == multiset([s[0]]) + multiset(s[1..p]) + multiset(s[p..])
  {
    assert s == [s[0]] + s[1..p] + s[p..];
  }

  lemma SplitFour(a: seq<string>, i: nat, fno: nat)
    requires 1 <= i <= fno <= |a|
    ensures multiset(a) == multiset([a[0]]) + multiset(a[1..i]) + multiset(a[i..fno]) + multiset(a[fno..])
  {
    assert a == [a[0]] + a[1..i] + a[i..fno] + a[fno..];
  }

  /** A shaped argv holds the original tokens, argv[0] first. */
  lemma ShapeMultiset(orig: seq<string>, a: seq<string>, i: nat, fno: nat)
    requires Shape(orig, a, i, fno)
    ensures multiset(a) == multiset(orig)
  {
    var p := |orig| - (fno - i);
    InterleavesMultiset(orig[1..p], a[1..i], a[fno..]);
    SplitThree(orig, p);
    SplitFour(a, i, fno);
  }

  /**
   * The scan permutes argv: the result holds the same tokens, argv[0]
   * stays first, the program arguments moved to the tail are in their
   * original order, and the options kept in front are in theirs.
   */
  lemma ScanPermutes(infos: map<string, FlagInfo>, argv: seq<string>, errors: map<string, seq<Message>>,
                     undefined: set<string>, states: map<string, FlagState>)
    requires |argv| >= 1 && states.Keys == infos.Keys
    ensures var fin := ScanFrom(infos, Start(argv, errors, undefined, states));
      && multiset(fin.argv) == multiset(argv)
      && Shape(argv, fin.argv, fin.i, fin.fno)
  {
    ShapeStart(argv);
    ShapeScan(argv, infos, Start(argv, errors, undefined, states));
    var fin := ScanFrom(infos, Start(argv, errors, undefined, states));
    ShapeMultiset(argv, fin.argv, fin.i, fin.fno);
  }

  /**
   * With remove_flags the caller's argv starts at the returned offset: the
   * program name, then everything from first_nonopt on. Unless the scan
   * stopped at "--", those are all program arguments.
   */
  lemma RemovedView(infos: map<string, FlagInfo>, argv: seq<string>, errors: map<string, seq<Message>>,
                    undefined: set<string>, states: map<string, FlagState>)
    requires |argv| >= 1 && states.Keys == infos.Keys
    ensures var out := ParseSpec(infos, argv, errors, undefined, states, true);
      && out.argv[out.start..] == [argv[0]] + out.scan.argv[FirstNonOpt(out.scan)..]
      && (out.scan.stop != DashDash ==> AllPositional(out.argv[out.start + 1..]))
  {
    var out := ParseSpec(infos, argv, errors, undefined, states, true);
    var fin := out.scan;
    var fno := FirstNonOpt(fin);
    ScanPermutes(infos, argv, errors, undefined, states);
    var a := fin.argv[fno - 1 := fin.argv[0]];
    assert out.argv == a && out.start == fno - 1;
    assert a[fno - 1..] == [argv[0]] + fin.argv[fno..] by {
      assert a[fno - 1..] == [a[fno - 1]] + a[fno..];
      assert a[fno..] == fin.argv[fno..];
    }
    if fin.stop != DashDash {
      assert out.argv[out.start + 1..] == fin.argv[fin.fno..];
    }
  }

  // ---------------------------------------------------------------------
  // Flags and errors
  // ---------------------------------------------------------------------

  /** Every flag is listed under its own name. */
  predicate Named(infos: map<string, FlagInfo>) {
    forall n :: n in infos ==> infos[n].name == n
  }

  /**
   * How a flag may move during the scan: validator and default stay; the
   * modified bit only goes up; a new current value was accepted by the
   * validator and marks the flag modified.
   */
  ghost predicate Evolved(name: string, before: FlagState, after: FlagState) {
    && after.validator == before.validator
    && after.default == before.default
    && (before.modified ==> after.modified)
    && (after.current != before.current ==> after.modified && Accepts(before.validator, name, after.current))
  }

  ghost predicate AllEvolved(before: map<string, FlagState>, after: map<string, FlagState>) {
    before.Keys == after.Keys && forall n :: n in before ==> Evolved(n, before[n], after[n])
  }

  /** What the scan does to the parser's error bookkeeping: entries are added, never removed. */
  predicate Recorded(before: ScanState, after: ScanState) {
    && before.errors.Keys <= after.errors.Keys
    && before.undefined <= after.undefined
    && (before.undefined <= before.errors.Keys ==> after.undefined <= after.errors.Keys)
  }

  lemma EvolvedTrans(name: string, a: FlagState, b: FlagState, c: FlagState)
    requires Evolved(name, a, b) && Evolved(name, b, c)
    ensures Evolved(name, a, c)
  {
  }

  /** An assignment moves only the assigned flag, and only as Evolved allows. */
  lemma AssignKeeps(infos: map<string, FlagInfo>, st: ScanState, f: string, text: string, next: nat)
    requires Ready(infos, st) && Named(infos) && f in infos && st.i < next <= st.fno
    ensures AllEvolved(st.states, Assign(infos, st, f, text, next).states)
    ensures Recorded(st, Assign(infos, st, f, text, next))
  {
    SetValueMode(infos[f], st.states[f], text, []);
  }

  lemma StepKeeps(infos: map<string, FlagInfo>, st: ScanState)
    requires Ready(infos, st) && Named(infos) && st.stop.Running? && st.i < st.fno
    ensures AllEvolved(st.states, Step(infos, st).states)
    ensures Recorded(st, Step(infos, st))
  {
    var arg := st.argv[st.i];
    if IsPositional(arg) {
      StepPositional(infos, st);
    } else if StripDashes(arg) == [] {
      StepDashDash(infos, st);
    } else {
      var name := StripDashes(arg);
      var sp := Split(infos, name);
      if sp.flag.None? {
        StepUnknown(infos, st, name);
      } else if sp.value.None? && st.i + 1 >= st.fno {
        StepMissing(infos, st, name);
      } else {
        var text := if sp.value.Some? then sp.value.value else st.argv[st.i + 1];
        var next := if sp.value.Some? then st.i + 1 else st.i + 2;
        StepAssign(infos, st, name, text, next);
        AssignKeeps(infos, st, sp.flag.value, text, next);
        return;
      }
    }
    assert Step(infos, st).states == st.states;
  }

  /**
   * Over the whole scan every flag moves only as Evolved allows, and the
   * error bookkeeping only grows; an unknown name is always recorded with
   * an error.
   */
  lemma {:induction false} ScanKeeps(infos: map<string, FlagInfo>, st: ScanState)
    requires Ready(infos, st) && Named(infos)
    ensures AllEvolved(st.states, ScanFrom(infos, st).states)
    ensures Recorded(st, ScanFrom(infos, st))
    decreases st.fno - st.i, if st.stop.Running? then 1 else 0
  {
    if st.stop.Running? && st.i < st.fno {
      var next := Step(infos, st);
      StepKeeps(infos, st);
      ScanKeeps(infos, next);
      forall n | n in st.states
        ensures Evolved(n, st.states[n], ScanFrom(infos, st).states[n])
      {
        EvolvedTrans(n, st.states[n], next.states[n], ScanFrom(infos, next).states[n]);
      }
    } else {
      assert forall n :: n in st.states ==> Evolved(n, st.states[n], st.states[n]);
    }
  }
}
