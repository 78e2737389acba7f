/** How `main` of ebits.py turns the `-d`, `-e` and `-s` flags into the
    substring that `run` looks for. */
module ModeSelection {

  /** `lib`: the shared library watched in DSO mode (`-d`). */
  const Lib: string := "libssl"
  /** `executable`: the target image watched in executable mode (`-e`). */
  const Executable: string := "where"
  /** The lookup key of stack mode (`-s`). */
  const Stack: string := "stack"
  /** The status `main` passes to `sys.exit` when no mode flag is given. */
  const UsageExitCode: int := -1

  datatype Selection = Selected(key: string) | UsageError(exitCode: int)

  /** Reference meaning of a priority chain: the key of the first option,
      in order, whose flag is set. */
  function FirstSet(options: seq<(bool, string)>): (r: Selection)
    ensures r.UsageError? <==> forall i :: 0 <= i < |options| ==> !options[i].0
    ensures r.Selected? ==> exists i :: 0 <= i < |options| && options[i].0 &&
                                        r.key == options[i].1 &&
                                        forall j :: 0 <= j < i ==> !options[j].0
    ensures r.UsageError? ==> r.exitCode == UsageExitCode
  {
    if options == [] then UsageError(UsageExitCode)
    else if options[0].0 then Selected(options[0].1)
    else
      var r := FirstSet(options[1..]);
      assert forall i :: 1 <= i < |options| ==> options[i] == options[1..][i - 1];
      r
  }

  /** The `if results.d / elif results.e / elif results.s / else` chain of `main`. */
  function SelectKey(d: bool, e: bool, s: bool): Selection
  {
    if d then Selected(Lib)
    else if e then Selected(Executable)
    else if s then Selected(Stack)
    else UsageError(UsageExitCode)
  }

  /** The chain is the priority order d, then e, then s. */
  lemma SelectKeyIsFirstSet(d: bool, e: bool, s: bool)
    ensures SelectKey(d, e, s) == FirstSet([(d, Lib), (e, Executable), (s, Stack)])
  {
    var options := [(d, Lib), (e, Executable), (s, Stack)];
    assert options[1..] == [(e, Executable), (s, Stack)];
    assert options[1..][1..] == [(s, Stack)];
    assert options[1..][1..][1..] == [];
    var last := FirstSet(options[1..][1..]);
    assert last == if s then Selected(Stack) else UsageError(UsageExitCode);
    assert FirstSet(options[1..]) == if e then Selected(Executable) else last;
  }

  /** Each possible outcome, and when it happens. */
  lemma SelectKeyCases(d: bool, e: bool, s: bool)
    ensures SelectKey(d, e, s) == Selected(Lib) <==> d
    ensures SelectKey(d, e, s) == Selected(Executable) <==> !d && e
    ensures SelectKey(d, e, s) == Selected(Stack) <==> !d && !e && s
    ensures SelectKey(d, e, s) == UsageError(-1) <==> !d && !e && !s
  {
  }
}
