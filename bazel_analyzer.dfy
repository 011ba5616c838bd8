/**
 * `run` and `parse_exception` of scripts/bazel/xc_bazel_analyzer.py: the
 * Bazel server log is cut into one group of lines per command, every group
 * that parses becomes a `BazelCommand`, the last `build` command is chosen,
 * its target and, when it ran with `--sandbox_debug`, the compiler
 * invocations inside its `SpawnExecException` exceptions are reported.
 * Obtaining the log (`bazel info server_log`, reading the file) and the
 * printing are not modelled: the log lines are the input and what the
 * script prints is the returned `Report`.
 */
module BazelAnalyzer {
  import opened Wrappers
  import opened Collections
  import opened PyStr
  import opened BazelCommands

  // ------------------------------------------------------------------ grouping

  /**
   * One step of the grouping loop, on the groups so far with the current
   * group last: a `registerCommand` line closes a non-empty current group
   * and starts a new one; any other line joins the current group.
   */
  function AddLine(groups: seq<seq<string>>, line: string, opens: bool): (groups': seq<seq<string>>)
    requires |groups| >= 1
    ensures |groups'| >= 1
  {
    var n := |groups| - 1;
    if opens && groups[n] != [] then groups + [[line]]
    else if opens then groups[..n] + [[line]]
    else groups[..n] + [groups[n] + [line]]
  }

  /** `command_logs` after the grouping loop and the final append: the current group is the last one. */
  function CommandLogs(lines: seq<string>): (groups: seq<seq<string>>)
    ensures |groups| >= 1
  {
    if lines == [] then [[]]
    else AddLine(CommandLogs(lines[..|lines| - 1]), lines[|lines| - 1], IsRegister(lines[|lines| - 1]))
  }

  lemma CommandLogsSnoc(lines: seq<string>, line: string)
    ensures CommandLogs(lines + [line]) == AddLine(CommandLogs(lines), line, IsRegister(line))
  {
    assert (lines + [line])[..|lines|] == lines;
  }

  /** Only an empty log gives an empty group. */
  lemma {:induction false} CommandLogsNonEmpty(lines: seq<string>)
    ensures forall i :: 0 <= i < |CommandLogs(lines)| ==> (CommandLogs(lines)[i] == [] <==> lines == [])
  {
    if lines != [] {
      var init := lines[..|lines| - 1];
      CommandLogsNonEmpty(init);
    }
  }

  /** The groups concatenate back to the log. */
  lemma {:induction false} CommandLogsConcat(lines: seq<string>)
    ensures Flatten(CommandLogs(lines)) == lines
  {
    if lines != [] {
      var init, line := lines[..|lines| - 1], lines[|lines| - 1];
      CommandLogsConcat(init);
      CommandLogsNonEmpty(init);
      assert lines == init + [line];
      AddLineConcat(CommandLogs(init), line, IsRegister(line));
    }
  }

  lemma AddLineConcat(groups: seq<seq<string>>, line: string, opens: bool)
    requires |groups| >= 1 && (groups[|groups| - 1] == [] ==> groups == [[]])
    ensures Flatten(AddLine(groups, line, opens)) == Flatten(groups) + [line]
  {
    var n := |groups| - 1;
    if opens && groups[n] != [] {
      FlattenAppend(groups, [line]);
    } else if opens {
      var one: seq<seq<string>> := [[line]];
      assert one[..0] == [] && groups[..0] == [];
    } else {
      FlattenAppend(groups[..n], groups[n] + [line]);
    }
  }

  /** Every group after the first starts with a `registerCommand` line. */
  ghost predicate HeadsRegister(groups: seq<seq<string>>)
  {
    forall i :: 1 <= i < |groups| ==> groups[i] != [] && IsRegister(groups[i][0])
  }

  /** No group holds a `registerCommand` line after its start. */
  ghost predicate NoInnerRegister(groups: seq<seq<string>>)
  {
    forall i, j :: 0 <= i < |groups| && 1 <= j < |groups[i]| ==> !IsRegister(groups[i][j])
  }

  lemma AddLineCut(groups: seq<seq<string>>, line: string)
    requires |groups| >= 1 && HeadsRegister(groups) && NoInnerRegister(groups)
    ensures HeadsRegister(AddLine(groups, line, IsRegister(line))) && NoInnerRegister(AddLine(groups, line, IsRegister(line)))
  {
    var n := |groups| - 1;
    var groups' := AddLine(groups, line, IsRegister(line));
    if !IsRegister(line) {
      assert forall i :: 0 <= i < n ==> groups'[i] == groups[i];
      assert groups'[n] == groups[n] + [line];
    } else if groups[n] != [] {
      assert forall i :: 0 <= i <= n ==> groups'[i] == groups[i];
    }
  }

  /** Every group after the first starts with a `registerCommand` line, and no group holds one after its start. */
  lemma {:induction false} CommandLogsCut(lines: seq<string>)
    ensures HeadsRegister(CommandLogs(lines)) && NoInnerRegister(CommandLogs(lines))
  {
    if lines != [] {
      var init := lines[..|lines| - 1];
      CommandLogsCut(init);
      AddLineCut(CommandLogs(init), lines[|lines| - 1]);
    }
  }

  /**
   * The groups are the log cut before each `registerCommand` line: they
   * concatenate back to the log, every group after the first starts with a
   * `registerCommand` line, no group holds one anywhere else, and only an
   * empty log gives an empty group (the final append always happens).
   */
  lemma CommandLogsShape(lines: seq<string>)
    ensures Flatten(CommandLogs(lines)) == lines
    ensures forall i :: 1 <= i < |CommandLogs(lines)| ==> CommandLogs(lines)[i] != [] && IsRegister(CommandLogs(lines)[i][0])
    ensures forall i, j :: 0 <= i < |CommandLogs(lines)| && 1 <= j < |CommandLogs(lines)[i]| ==> !IsRegister(CommandLogs(lines)[i][j])
    ensures forall i :: 0 <= i < |CommandLogs(lines)| ==> (CommandLogs(lines)[i] == [] <==> lines == [])
  {
    CommandLogsConcat(lines);
    CommandLogsCut(lines);
    CommandLogsNonEmpty(lines);
  }

  /** The grouping loop of `run`. */
  method GroupCommandLogs(lines: seq<string>) returns (commandLogs: seq<seq<string>>)
    ensures commandLogs == CommandLogs(lines)
  {
    commandLogs := [];
    var currentLog: seq<string> := [];
    for i := 0 to |lines|
      invariant commandLogs + [currentLog] == CommandLogs(lines[..i])
    {
      var line := lines[i];
      assert lines[..i + 1] == lines[..i] + [line];
      CommandLogsSnoc(lines[..i], line);
      ghost var groups := commandLogs + [currentLog];
      assert groups[..|commandLogs|] == commandLogs && groups[|commandLogs|] == currentLog;
      if Contains(line, RegisterMark) {
        if currentLog != [] {
          commandLogs := commandLogs + [currentLog];
          assert commandLogs == groups;
        }
        currentLog := [];
        assert currentLog + [line] == [line];
      }
      currentLog := currentLog + [line];
      assert commandLogs + [currentLog] == AddLine(groups, line, IsRegister(line));
    }
    assert lines[..|lines|] == lines;
    commandLogs := commandLogs + [currentLog];
  }

  // ------------------------------------------------------------------ commands

  /** What `BazelCommand(log)` gives for each group: a command, or nothing when the constructor raises. */
  function Parsed(logs: seq<seq<string>>): (parsed: seq<Option<Command>>)
    ensures |parsed| == |logs|
  {
    seq(|logs|, k requires 0 <= k < |logs| => ParseCommand(logs[k]))
  }

  /** The commands of the groups that parse, in log order: `bazel_commands`. */
  function Commands(parsed: seq<Option<Command>>): (commands: seq<Command>)
    ensures |commands| <= |parsed|
  {
    if parsed == [] then []
    else
      var last := parsed[|parsed| - 1];
      Commands(parsed[..|parsed| - 1]) + (if last.Some? then [last.value] else [])
  }

  /** The `build` commands among `commands`, in order. */
  function Builds(commands: seq<Command>): (builds: seq<Command>)
    ensures |builds| <= |commands|
  {
    if commands == [] then []
    else
      var last := commands[|commands| - 1];
      Builds(commands[..|commands| - 1]) + (if last.entry == "build" then [last] else [])
  }

  /** The group parsed to a `build` command. */
  predicate IsBuild(parsed: Option<Command>)
  {
    parsed.Some? && parsed.value.entry == "build"
  }

  /** There is no `build` command exactly when no group parses to one. */
  lemma {:induction false} NoBuild(parsed: seq<Option<Command>>)
    ensures Builds(Commands(parsed)) == [] <==> forall j :: 0 <= j < |parsed| ==> !IsBuild(parsed[j])
  {
    if parsed != [] {
      var n := |parsed| - 1;
      var init, last := parsed[..n], parsed[n];
      NoBuild(init);
      BuildsLast(parsed);
      assert (forall j :: 0 <= j < |parsed| ==> !IsBuild(parsed[j]))
        <==> (forall j :: 0 <= j < n ==> !IsBuild(init[j])) && !IsBuild(last);
    }
  }

  /**
   * `build_commands[-1]` is the command of the last group that parses to a
   * `build` command.
   */
  lemma {:induction false} LastBuild(parsed: seq<Option<Command>>) returns (i: nat)
    requires Builds(Commands(parsed)) != []
    ensures i < |parsed| && IsBuild(parsed[i])
    ensures parsed[i].value == Builds(Commands(parsed))[|Builds(Commands(parsed))| - 1]
    ensures forall j :: i < j < |parsed| ==> !IsBuild(parsed[j])
  {
    var n := |parsed| - 1;
    var init, last := parsed[..n], parsed[n];
    BuildsLast(parsed);
    if IsBuild(last) {
      i := n;
    } else {
      i := LastBuild(init);
      assert parsed[i] == init[i];
      assert forall j :: i < j < n ==> parsed[j] == init[j];
    }
  }

  /** The builds of a non-empty list: those of all but the last group, then the last group's if it is one. */
  lemma BuildsLast(parsed: seq<Option<Command>>)
    requires parsed != []
    ensures Builds(Commands(parsed)) == Builds(Commands(parsed[..|parsed| - 1]))
      + (if IsBuild(parsed[|parsed| - 1]) then [parsed[|parsed| - 1].value] else [])
  {
    var n := |parsed| - 1;
    BuildsSnoc(parsed[..n], parsed[n]);
    assert parsed[..n] + [parsed[n]] == parsed;
  }

  lemma BuildsSnoc(parsed: seq<Option<Command>>, p: Option<Command>)
    ensures Builds(Commands(parsed + [p])) == Builds(Commands(parsed)) + (if IsBuild(p) then [p.value] else [])
  {
    var parsed' := parsed + [p];
    assert parsed'[..|parsed|] == parsed;
    var cs := Commands(parsed);
    if p.Some? {
      var cs' := cs + [p.value];
      assert Commands(parsed') == cs';
      assert cs'[..|cs|] == cs;
    } else {
      assert Commands(parsed') == cs;
    }
  }

  /** `[c for c in bazel_commands if c.entry in ["build"]]` over the command objects. */
  function BuildCommands(commands: seq<BazelCommand>): seq<BazelCommand>
    reads commands
  {
    if commands == [] then []
    else
      var last := commands[|commands| - 1];
      BuildCommands(commands[..|commands| - 1]) + (if last.entry == "build" then [last] else [])
  }

  /** The values the command objects hold, in order. */
  function Snapshots(objects: seq<BazelCommand>): (commands: seq<Command>)
    reads objects
    ensures |commands| == |objects|
  {
    if objects == [] then [] else Snapshots(objects[..|objects| - 1]) + [objects[|objects| - 1].Snapshot()]
  }

  lemma {:induction false} SnapshotsAppend(objects: seq<BazelCommand>, more: seq<BazelCommand>)
    ensures Snapshots(objects + more) == Snapshots(objects) + Snapshots(more)
  {
    if more != [] {
      var n := |more| - 1;
      assert (objects + more)[..|objects| + n] == objects + more[..n];
      SnapshotsAppend(objects, more[..n]);
    } else {
      assert objects + more == objects;
    }
  }

  /** Filtering the objects is filtering their values. */
  lemma {:induction false} BuildCommandsOfSnapshots(objects: seq<BazelCommand>)
    ensures Snapshots(BuildCommands(objects)) == Builds(Snapshots(objects))
  {
    if objects != [] {
      var n := |objects| - 1;
      var last := objects[n];
      BuildCommandsOfSnapshots(objects[..n]);
      SnapshotsAppend(BuildCommands(objects[..n]), if last.entry == "build" then [last] else []);
      var values := Snapshots(objects);
      assert values[..n] == Snapshots(objects[..n]);
      assert values[n] == last.Snapshot();
    }
  }

  /** The last build command object holds the last build command. */
  lemma LastBuildCommand(objects: seq<BazelCommand>)
    requires BuildCommands(objects) != []
    ensures Builds(Snapshots(objects)) != []
    ensures BuildCommands(objects)[|BuildCommands(objects)| - 1].Snapshot() == Builds(Snapshots(objects))[|Builds(Snapshots(objects))| - 1]
  {
    BuildCommandsOfSnapshots(objects);
  }

  // -------------------------------------------------------------------- target

  /** The first server argument that does not start with `--`, or the empty string. */
  function TargetOf(serverArgs: seq<string>): string
  {
    if serverArgs == [] then ""
    else if !StartsWith(serverArgs[0], "--") then serverArgs[0]
    else TargetOf(serverArgs[1..])
  }

  /** Where the first non-option argument is `i`, the target is that argument. */
  lemma {:induction false} TargetAt(serverArgs: seq<string>, i: nat)
    requires i <= |serverArgs| && forall j :: 0 <= j < i ==> StartsWith(serverArgs[j], "--")
    requires i < |serverArgs| ==> !StartsWith(serverArgs[i], "--")
    ensures TargetOf(serverArgs) == if i < |serverArgs| then serverArgs[i] else ""
  {
    if i > 0 {
      TargetAt(serverArgs[1..], i - 1);
    }
  }

  /** The target loop of `run`. */
  method PickTarget(serverArgs: seq<string>) returns (target: string)
    ensures target == TargetOf(serverArgs)
  {
    target := "";
    for i := 0 to |serverArgs|
      invariant target == "" && forall j :: 0 <= j < i ==> StartsWith(serverArgs[j], "--")
    {
      if !StartsWith(serverArgs[i], "--") {
        target := serverArgs[i];
        TargetAt(serverArgs, i);
        return;
      }
    }
    TargetAt(serverArgs, |serverArgs|);
  }

  // ----------------------------------------------------------------- exceptions

  const ProcessWrapper: string := "process-wrapper"

  /**
   * `re.compile(r"^\s+\S+process-wrapper (.*)").match(line)` and its group:
   * leading whitespace, then a run of non-whitespace that ends in
   * `process-wrapper` after at least one more character, then a space; the
   * group is the rest of the line up to a newline.
   */
  function WrapperMatch(line: string): Option<string>
  {
    var n, m := Indent(line), ToolEnd(line);
    if WrapperAt(line, n, m) then Some(FirstLine(line[m + 1..])) else None
  }

  /** Where `^\s+` stops: the length of the leading whitespace. */
  function Indent(line: string): (n: nat)
    ensures n <= |line|
  {
    |line| - |LStrip(line)|
  }

  /** Where the following `\S+` stops. */
  function ToolEnd(line: string): (m: nat)
    ensures Indent(line) <= m <= |line|
  {
    Indent(line) + WordLength(line[Indent(line)..])
  }

  /** Some indentation, a word of more than `process-wrapper` that ends in it, then a space. */
  predicate WrapperAt(line: string, n: nat, m: nat)
  {
    0 < n && n + |ProcessWrapper| < m < |line| && line[m - |ProcessWrapper|..m] == ProcessWrapper && line[m] == ' '
  }

  /** The tool word the pattern wants: non-whitespace, `process-wrapper` at its end and something before it. */
  predicate IsWrapperTool(tool: string)
  {
    IsWord(tool) && |tool| > |ProcessWrapper| && tool[|tool| - |ProcessWrapper|..] == ProcessWrapper
  }

  predicate AllSpace(s: string)
  {
    forall i :: 0 <= i < |s| ==> IsSpace(s[i])
  }

  /** Indentation, a word and text after a whitespace character: where `\s+` and `\S+` stop. */
  lemma IndentedWord(indent: string, tool: string, after: string)
    requires indent != [] && AllSpace(indent) && IsWord(tool) && after != [] && IsSpace(after[0])
    ensures var line := indent + tool + after;
      && Indent(line) == |indent|
      && ToolEnd(line) == |indent| + |tool|
      && line[|indent|..|indent| + |tool|] == tool
      && line[|indent| + |tool|..] == after
  {
    var tail := tool + after;
    var line := indent + tail;
    assert indent + tool + after == line;
    assert tail[0] == tool[0];
    LStripIndent(indent, tail);
    assert line[|indent|..] == tail;
    WordLengthOfWord(tool, after);
    assert tail[..|tool|] == tool;
    assert tail[|tool|..] == after;
  }

  /** Every line of the pattern's shape matches, and the group is the text after the space. */
  lemma WrapperMatchComplete(indent: string, tool: string, rest: string)
    requires indent != [] && AllSpace(indent) && IsWrapperTool(tool)
    ensures WrapperMatch(indent + tool + " " + rest) == Some(FirstLine(rest))
  {
    var after := " " + rest;
    var line := indent + tool + after;
    var n, m := |indent|, |indent| + |tool|;
    assert indent + tool + " " + rest == line;
    assert Indent(line) == n && ToolEnd(line) == m && line[n..m] == tool && line[m..] == after by {
      IndentedWord(indent, tool, after);
    }
    ToolSuffix(line, n, m, tool);
    SpaceThenRest(line, m, rest);
    assert WrapperAt(line, n, m);
    WrapperMatchAt(line, n, m, rest);
  }

  lemma ToolSuffix(line: string, n: nat, m: nat, tool: string)
    requires n <= m <= |line| && line[n..m] == tool && IsWrapperTool(tool)
    ensures n + |ProcessWrapper| < m && line[m - |ProcessWrapper|..m] == ProcessWrapper
  {
    SuffixOfSlice(line, n, m, |ProcessWrapper|);
  }

  lemma SpaceThenRest(line: string, m: nat, rest: string)
    requires m <= |line| && line[m..] == " " + rest
    ensures m < |line| && line[m] == ' ' && line[m + 1..] == rest
  {
    assert line[m..][0] == ' ' && line[m..][1..] == rest;
  }

  lemma WrapperMatchAt(line: string, n: nat, m: nat, rest: string)
    requires Indent(line) == n && ToolEnd(line) == m && WrapperAt(line, n, m) && line[m + 1..] == rest
    ensures WrapperMatch(line) == Some(FirstLine(rest))
  {
  }

  /** The last `k` characters of `s[a..b]` are `s[b - k..b]`. */
  lemma SuffixOfSlice(s: string, a: nat, b: nat, k: nat)
    requires a <= b <= |s| && k <= b - a
    ensures s[b - k..b] == s[a..b][b - a - k..]
  {
  }

  /** A line the pattern matches has its shape. */
  lemma WrapperMatchSound(line: string) returns (indent: string, tool: string, rest: string)
    requires WrapperMatch(line).Some?
    ensures line == indent + tool + " " + rest
    ensures indent != [] && AllSpace(indent) && IsWrapperTool(tool)
    ensures WrapperMatch(line) == Some(FirstLine(rest))
  {
    var n, m := Indent(line), ToolEnd(line);
    LStripDropsSpace(line);
    WordLengthNoSpace(line[n..]);
    indent, tool, rest := line[..n], line[n..m], line[m + 1..];
    assert line == indent + tool + [line[m]] + rest;
    assert forall i :: 0 <= i < |tool| ==> tool[i] == line[n..][i];
  }

  /** `arg[1:-1]` for an argument that starts and ends with a single quote (a lone quote becomes empty). */
  function Unquote(arg: string): (r: string)
    ensures |r| <= |arg|
  {
    if arg != [] && arg[0] == '\'' && arg[|arg| - 1] == '\'' then
      (if |arg| >= 2 then arg[1..|arg| - 1] else "")
    else arg
  }

  function Unquoted(args: seq<string>): (r: seq<string>)
    ensures |r| == |args|
  {
    seq(|args|, i requires 0 <= i < |args| => Unquote(args[i]))
  }

  /** The number of leading arguments that start with `--`. */
  function LeadingOptions(args: seq<string>): (n: nat)
    ensures n <= |args|
    ensures forall i :: 0 <= i < n ==> StartsWith(args[i], "--")
    ensures n < |args| ==> !StartsWith(args[n], "--")
  {
    if args == [] || !StartsWith(args[0], "--") then 0 else 1 + LeadingOptions(args[1..])
  }

  /** One compiler invocation found in an exception: what `parse_exception` prints for one line. */
  datatype Invocation = Invocation(compiler: string, compilerArgs: seq<string>, wrapperArgs: seq<string>)

  /**
   * The invocation of the unquoted arguments: the leading `--` arguments
   * belong to the wrapper, the first other one is the compiler and the rest
   * are its arguments; together they are the arguments again.
   */
  function Dissect(args: seq<string>): (inv: Invocation)
    ensures forall a :: a in inv.wrapperArgs ==> StartsWith(a, "--")
    ensures (exists i :: 0 <= i < |args| && !StartsWith(args[i], "--")) ==>
      !StartsWith(inv.compiler, "--") && inv.wrapperArgs + [inv.compiler] + inv.compilerArgs == args
    ensures (forall i :: 0 <= i < |args| ==> StartsWith(args[i], "--")) ==>
      inv.wrapperArgs == args && inv.compiler == "" && inv.compilerArgs == []
  {
    var n := LeadingOptions(args);
    if n < |args| then
      assert args == args[..n] + [args[n]] + args[n + 1..];
      Invocation(args[n], args[n + 1..], args[..n])
    else
      assert args[..n] == args;
      Invocation("", [], args[..n])
  }

  /**
   * The state of the argument loop of `parse_exception` after the first `i`
   * unquoted arguments: before the compiler, only wrapper arguments so far;
   * after it, the wrapper arguments, the compiler and its arguments so far.
   */
  ghost predicate ArgLoopState(args: seq<string>, i: nat, started: bool, wrapperArgs: seq<string>, compiler: string, compilerArgs: seq<string>)
  {
    var n := LeadingOptions(args);
    && i <= |args|
    && (!started ==> i <= n && wrapperArgs == args[..i] && compiler == "" && compilerArgs == [])
    && (started ==> n < i && wrapperArgs == args[..n] && compiler == args[n] && compilerArgs == args[n + 1..i])
  }

  /** One iteration of the argument loop keeps its state. */
  lemma ArgLoopStep(args: seq<string>, i: nat, started: bool, wrapperArgs: seq<string>, compiler: string, compilerArgs: seq<string>)
    requires ArgLoopState(args, i, started, wrapperArgs, compiler, compilerArgs) && i < |args|
    ensures started ==> ArgLoopState(args, i + 1, true, wrapperArgs, compiler, compilerArgs + [args[i]])
    ensures !started && StartsWith(args[i], "--") ==> ArgLoopState(args, i + 1, false, wrapperArgs + [args[i]], compiler, compilerArgs)
    ensures !started && !StartsWith(args[i], "--") ==> ArgLoopState(args, i + 1, true, wrapperArgs, args[i], compilerArgs)
  {
    var n := LeadingOptions(args);
    if started {
      assert args[n + 1..i + 1] == args[n + 1..i] + [args[i]];
    } else {
      assert args[..i + 1] == args[..i] + [args[i]];
    }
  }

  /** At the end of the argument loop its state is the dissection. */
  lemma ArgLoopDone(args: seq<string>, started: bool, wrapperArgs: seq<string>, compiler: string, compilerArgs: seq<string>)
    requires ArgLoopState(args, |args|, started, wrapperArgs, compiler, compilerArgs)
    ensures Invocation(compiler, compilerArgs, wrapperArgs) == Dissect(args)
  {
    assert args[..|args|] == args;
  }

  /** The argument loop of `parse_exception` over `all_args.split(" ")`. */
  method DissectArgs(text: string) returns (inv: Invocation)
    ensures inv == Dissect(Unquoted(Split(text, " ")))
  {
    var allArgs := Split(text, " ");
    ghost var args := Unquoted(allArgs);
    var compilerArgsStart := false;
    var wrapperArgs: seq<string> := [];
    var compiler := "";
    var compilerArgs: seq<string> := [];
    for i := 0 to |allArgs|
      invariant ArgLoopState(args, i, compilerArgsStart, wrapperArgs, compiler, compilerArgs)
    {
      var arg := allArgs[i];
      if StartsWith(arg, "'") && arg != [] && arg[|arg| - 1] == '\'' {
        arg := if |arg| >= 2 then arg[1..|arg| - 1] else "";
      }
      assert arg == args[i];
      ArgLoopStep(args, i, compilerArgsStart, wrapperArgs, compiler, compilerArgs);
      if compilerArgsStart {
        compilerArgs := compilerArgs + [arg];
      } else if StartsWith(arg, "--") {
        wrapperArgs := wrapperArgs + [arg];
      } else {
        compiler := arg;
        compilerArgsStart := true;
      }
    }
    ArgLoopDone(args, compilerArgsStart, wrapperArgs, compiler, compilerArgs);
    inv := Invocation(compiler, compilerArgs, wrapperArgs);
  }

  /** The invocations of the lines that match, in order. */
  function LineInvocations(lines: seq<string>): seq<Invocation>
  {
    if lines == [] then []
    else
      var last := lines[|lines| - 1];
      LineInvocations(lines[..|lines| - 1])
        + (if WrapperMatch(last).Some? then [Dissect(Unquoted(Split(WrapperMatch(last).value, " ")))] else [])
  }

  /** What `parse_exception(exception)` reports: nothing unless the first line names a `SpawnExecException`. */
  function ExceptionInvocations(exception: string): seq<Invocation>
  {
    var lines := Split(exception, "\n");
    if !Contains(lines[0], "SpawnExecException") then [] else LineInvocations(lines)
  }

  /** Only `SpawnExecException` exceptions report anything, and each invocation comes from one wrapper line. */
  lemma {:induction false} InvocationsFromWrapperLines(lines: seq<string>, inv: Invocation)
    requires inv in LineInvocations(lines)
    ensures exists line :: line in lines && WrapperMatch(line).Some? && inv == Dissect(Unquoted(Split(WrapperMatch(line).value, " ")))
  {
    var init, last := lines[..|lines| - 1], lines[|lines| - 1];
    if inv in LineInvocations(init) {
      InvocationsFromWrapperLines(init, inv);
      var line :| line in init && WrapperMatch(line).Some? && inv == Dissect(Unquoted(Split(WrapperMatch(line).value, " ")));
      assert line in lines;
    } else {
      assert last in lines;
    }
  }

  /** Lines are read one at a time, so the invocations of two runs of lines follow each other in line order. */
  lemma {:induction false} LineInvocationsAppend(a: seq<string>, b: seq<string>)
    ensures LineInvocations(a + b) == LineInvocations(a) + LineInvocations(b)
    decreases |b|
  {
    if b != [] {
      var b', last := b[..|b| - 1], b[|b| - 1];
      assert (a + b)[..|a + b| - 1] == a + b';
      LineInvocationsAppend(a, b');
    } else {
      assert a + b == a;
    }
  }

  /** Every line that matches contributes its dissection. */
  lemma WrapperLineReported(lines: seq<string>, i: nat)
    requires i < |lines| && WrapperMatch(lines[i]).Some?
    ensures Dissect(Unquoted(Split(WrapperMatch(lines[i]).value, " "))) in LineInvocations(lines)
  {
    SplitAround(lines, i);
    var before, line, after := lines[..i], lines[i], lines[i + 1..];
    var inv := Dissect(Unquoted(Split(WrapperMatch(line).value, " ")));
    assert LineInvocations([line]) == [inv] by {
      assert [line][..0] == [];
    }
    LineInvocationsAppend(before, [line]);
    LineInvocationsAppend(before + [line], after);
    var r := LineInvocations(before);
    assert LineInvocations(lines) == r + [inv] + LineInvocations(after);
    assert (r + [inv] + LineInvocations(after))[|r|] == inv;
  }

  /** Every wrapper line of a `SpawnExecException` exception is reported, with its dissection. */
  lemma ExceptionInvocationsComplete(exception: string, i: nat)
    requires i < |Split(exception, "\n")| && Contains(Split(exception, "\n")[0], "SpawnExecException")
    requires WrapperMatch(Split(exception, "\n")[i]).Some?
    ensures Dissect(Unquoted(Split(WrapperMatch(Split(exception, "\n")[i]).value, " "))) in ExceptionInvocations(exception)
  {
    WrapperLineReported(Split(exception, "\n"), i);
  }

  /** An exception reports an invocation only when its first line names a `SpawnExecException`, and then each invocation comes from one of its wrapper lines. */
  lemma ExceptionInvocationsSource(exception: string, inv: Invocation)
    requires inv in ExceptionInvocations(exception)
    ensures Contains(Split(exception, "\n")[0], "SpawnExecException")
    ensures exists line :: line in Split(exception, "\n") && WrapperMatch(line).Some? && inv == Dissect(Unquoted(Split(WrapperMatch(line).value, " ")))
  {
    InvocationsFromWrapperLines(Split(exception, "\n"), inv);
  }

  /** `parse_exception`, with what it prints returned. */
  method ParseException(exception: string) returns (invocations: seq<Invocation>)
    ensures invocations == ExceptionInvocations(exception)
  {
    var lines := Split(exception, "\n");
    if !Contains(lines[0], "SpawnExecException") {
      return [];
    }
    invocations := [];
    for i := 0 to |lines|
      invariant invocations == LineInvocations(lines[..i])
    {
      LineInvocationsSnoc(lines, i);
      var matched := WrapperMatch(lines[i]);
      if matched.Some? {
        var inv := DissectArgs(matched.value);
        invocations := invocations + [inv];
      }
    }
    assert lines[..|lines|] == lines;
  }

  lemma LineInvocationsSnoc(lines: seq<string>, i: nat)
    requires i < |lines|
    ensures LineInvocations(lines[..i + 1]) == LineInvocations(lines[..i])
      + (if WrapperMatch(lines[i]).Some? then [Dissect(Unquoted(Split(WrapperMatch(lines[i]).value, " ")))] else [])
  {
    assert lines[..i + 1][..i] == lines[..i];
  }

  // ----------------------------------------------------------------------- run

  /** What `run` reports. */
  datatype Report =
    | NoBuildCommand
    | MissingSandboxDebug(target: string)
    | Analysis(target: string, invocations: seq<seq<Invocation>>)

  /** `parse_exception` applied to each exception, in order. */
  function PerException(exceptions: seq<string>): seq<seq<Invocation>>
  {
    seq(|exceptions|, k requires 0 <= k < |exceptions| => ExceptionInvocations(exceptions[k]))
  }

  /** What `run` reports about the build command it picked. */
  function ReportOn(c: Command): Report
  {
    var target := TargetOf(c.serverArgs);
    if "--sandbox_debug" !in c.serverArgs then MissingSandboxDebug(target)
    else Analysis(target, PerException(c.exceptions))
  }

  /** `run` on the lines of the server log. */
  function Analyze(lines: seq<string>): Report
  {
    LastBuildReport(Commands(Parsed(CommandLogs(lines))))
  }

  /** There is no report exactly when no command group parses to a `build` command. */
  lemma AnalyzeNoBuild(lines: seq<string>)
    ensures Analyze(lines).NoBuildCommand? <==> forall j :: 0 <= j < |Parsed(CommandLogs(lines))| ==> !IsBuild(Parsed(CommandLogs(lines))[j])
  {
    NoBuild(Parsed(CommandLogs(lines)));
  }

  /**
   * A report is about the last command group `i` that parses to a `build`
   * command: its target, and, when it ran with `--sandbox_debug`, the
   * invocations of each of its exceptions.
   */
  lemma AnalyzeLastBuild(lines: seq<string>) returns (i: nat)
    requires !Analyze(lines).NoBuildCommand?
    ensures i < |CommandLogs(lines)| && IsBuild(Parsed(CommandLogs(lines))[i])
    ensures forall j :: i < j < |CommandLogs(lines)| ==> !IsBuild(Parsed(CommandLogs(lines))[j])
    ensures Analyze(lines) == ReportOn(Parsed(CommandLogs(lines))[i].value)
  {
    i := LastBuildReported(Parsed(CommandLogs(lines)));
  }

  lemma LastBuildReported(parsed: seq<Option<Command>>) returns (i: nat)
    requires !LastBuildReport(Commands(parsed)).NoBuildCommand?
    ensures i < |parsed| && IsBuild(parsed[i])
    ensures forall j :: i < j < |parsed| ==> !IsBuild(parsed[j])
    ensures LastBuildReport(Commands(parsed)) == ReportOn(parsed[i].value)
  {
    i := LastBuild(parsed);
  }

  /** The loop of `run` that builds a `BazelCommand` from every group, keeping those whose constructor does not raise. */
  method ParseCommands(commandLogs: seq<seq<string>>) returns (bazelCommands: seq<BazelCommand>)
    ensures Snapshots(bazelCommands) == Commands(Parsed(commandLogs))
  {
    ghost var parsed := Parsed(commandLogs);
    bazelCommands := [];
    for i := 0 to |commandLogs|
      invariant Snapshots(bazelCommands) == Commands(parsed[..i])
    {
      CommandsStep(parsed, i);
      bazelCommands := ParseOne(bazelCommands, commandLogs[i], parsed[i]);
    }
    assert parsed[..|commandLogs|] == parsed;
  }

  /** One step of the loop of `run`: `BazelCommand(command_log)`, kept when it does not raise. */
  method ParseOne(bazelCommands: seq<BazelCommand>, log: seq<string>, ghost next: Option<Command>)
    returns (extended: seq<BazelCommand>)
    requires next == ParseCommand(log)
    ensures Snapshots(extended) == old(Snapshots(bazelCommands)) + if next.Some? then [next.value] else []
  {
    var command := new BazelCommand();
    var ok := command.Init(log);
    extended := bazelCommands;
    if ok {
      extended := extended + [command];
      assert extended[..|bazelCommands|] == bazelCommands;
    }
  }

  lemma CommandsStep(parsed: seq<Option<Command>>, i: nat)
    requires i < |parsed|
    ensures Commands(parsed[..i + 1]) == Commands(parsed[..i]) + if parsed[i].Some? then [parsed[i].value] else []
  {
    assert parsed[..i + 1][..i] == parsed[..i];
  }

  /** The exception loop of `run`: `parse_exception` on each exception of the build command. */
  method ParseExceptions(exceptions: seq<string>) returns (invocations: seq<seq<Invocation>>)
    ensures invocations == PerException(exceptions)
  {
    invocations := [];
    for k := 0 to |exceptions|
      invariant invocations == PerException(exceptions[..k])
    {
      var found := ParseException(exceptions[k]);
      PerExceptionSnoc(exceptions, k);
      invocations := invocations + [found];
    }
    assert exceptions[..|exceptions|] == exceptions;
  }

  lemma PerExceptionSnoc(exceptions: seq<string>, k: nat)
    requires k < |exceptions|
    ensures PerException(exceptions[..k + 1]) == PerException(exceptions[..k]) + [ExceptionInvocations(exceptions[k])]
  {
    var r, r' := PerException(exceptions[..k]), PerException(exceptions[..k + 1]);
    assert forall j :: 0 <= j < k ==> r'[j] == ExceptionInvocations(exceptions[j]) == r[j];
  }

  /** `run`: group the log, parse each group, pick the last build command and report on it. */
  method Run(lines: seq<string>) returns (report: Report)
    ensures report == Analyze(lines)
  {
    var commandLogs := GroupCommandLogs(lines);
    var bazelCommands := ParseCommands(commandLogs);
    report := PickBuild(bazelCommands);
  }

  /** The report on the last `build` command among `commands`, if any. */
  function LastBuildReport(commands: seq<Command>): Report
  {
    var builds := Builds(commands);
    if builds == [] then NoBuildCommand else ReportOn(builds[|builds| - 1])
  }

  /** The part of `run` that keeps the `build` commands and reports on the last one. */
  method PickBuild(bazelCommands: seq<BazelCommand>) returns (report: Report)
    ensures report == LastBuildReport(Snapshots(bazelCommands))
  {
    var buildCommands := BuildCommands(bazelCommands);
    BuildCommandsOfSnapshots(bazelCommands);
    if buildCommands == [] {
      return NoBuildCommand;
    }
    var lastCommand := buildCommands[|buildCommands| - 1];
    LastBuildCommand(bazelCommands);
    assert LastBuildReport(Snapshots(bazelCommands)) == ReportOn(lastCommand.Snapshot());
    report := ReportOnCommand(lastCommand);
  }

  /** The part of `run` after the build command is chosen: its target, the sandbox check and the exceptions. */
  method ReportOnCommand(command: BazelCommand) returns (report: Report)
    ensures report == ReportOn(command.Snapshot())
  {
    var target := PickTarget(command.serverArgs);
    if "--sandbox_debug" !in command.serverArgs {
      return MissingSandboxDebug(target);
    }
    var invocations := ParseExceptions(command.exceptions);
    report := Analysis(target, invocations);
  }
}
