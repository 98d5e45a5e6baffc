/**
 * `fileCommandLoop(mode)`: the inner loop of the program. Each round reads a
 * command token, then the arguments that command needs in the active mode,
 * and calls the adapter the mode selects. `exit` leaves the loop; any other
 * unrecognised token prints "Unknown command." and the loop goes on.
 *
 * Standard input is a sequence of items, one per read. The adapters are not
 * modelled: the loop's effect is the trace of adapter calls and console tags
 * it produces. When the input runs out (the program would block waiting for
 * more), the loop stops; a command whose arguments have not all arrived yet
 * has made no call.
 *
 * Five adapter calls can throw an exception that nothing catches, which ends
 * the process: `fs::remove` in `deleteFile` and `deleteZipArchive`,
 * `json::dump` in `createJsonFile`, the JSON parse in `readJsonFile`, and
 * `fs::exists` / `fs::file_size` in `getFileInfo`. Which calls throw depends
 * on the file system; it is an oracle input `throwing`.
 */
module Commands {
  import opened Wrappers
  import opened ConsoleInput

  /** The modes the top menu passes in; `fileCommandLoop` itself accepts any `int`. */
  const FILE_MODE: int := 2
  const JSON_MODE: int := 3
  const XML_MODE: int := 4
  const ZIP_MODE: int := 5

  /** The three items `getUserInput` reads: the name line, then the age and the student flag. */
  datatype Answers = Answers(name: string, age: string, student: string)

  /** The JSON object `getUserInput` builds: keys `name`, `age`, `is_student`. */
  datatype Record = Record(name: string, age: int, isStudent: bool)

  /**
   * The object `getUserInput` returns for its answers: the name as read, the
   * age as `std::cin >> int` stores it, and the flag as `std::cin >> bool`
   * stores it (false for 0 and for a non-number, true for any other number).
   */
  function UserRecord(a: Answers): (r: Record)
    ensures r.name == a.name
    ensures r.age == ReadInt(a.age)
    ensures INT_MIN <= r.age <= INT_MAX && (ParseInteger(a.age).None? ==> r.age == 0)
    ensures r.isStudent <==> ParseInteger(a.student).Some? && ParseInteger(a.student).value != 0
  {
    Record(a.name, ReadInt(a.age), ReadBool(a.student))
  }

  /** One adapter call, or one console message that distinguishes a branch. */
  datatype Action =
    | CreateFile(file: string)
    | WriteToFile(file: string, content: string)
    | CreateJsonFile(file: string, answers: Answers)   // writes UserRecord(answers)
    | CreateXmlFile(file: string, text: string)
    | CreateZipArchive(archive: string, fileToAdd: string)
    | ReadFromFile(file: string)
    | ReadJsonFile(file: string)
    | ReadXmlFile(file: string)
    | GetFileInfo(file: string)
    | DeleteFile(file: string)
    | DeleteZipArchive(archive: string)
    | UnknownCommand
    | Exiting

  /** What an adapter call does and to which kind of file; console tags have neither. */
  datatype Verb = Create | Write | Read | Delete
  datatype Format = Plain | Json | Xml | Zip

  predicate IsFileOperation(a: Action) {
    !a.UnknownCommand? && !a.Exiting?
  }

  /** The file an adapter call works on (the archive, for ZIP calls). */
  function Target(a: Action): string
    requires IsFileOperation(a)
  {
    match a
    case CreateFile(f) => f
    case WriteToFile(f, _) => f
    case CreateJsonFile(f, _) => f
    case CreateXmlFile(f, _) => f
    case CreateZipArchive(f, _) => f
    case ReadFromFile(f) => f
    case ReadJsonFile(f) => f
    case ReadXmlFile(f) => f
    case GetFileInfo(f) => f
    case DeleteFile(f) => f
    case DeleteZipArchive(f) => f
  }

  function VerbOf(a: Action): Verb
    requires IsFileOperation(a)
  {
    match a
    case CreateFile(_) => Create
    case WriteToFile(_, _) => Write
    case CreateJsonFile(_, _) => Create
    case CreateXmlFile(_, _) => Create
    case CreateZipArchive(_, _) => Create
    case ReadFromFile(_) => Read
    case ReadJsonFile(_) => Read
    case ReadXmlFile(_) => Read
    case GetFileInfo(_) => Read
    case DeleteFile(_) => Delete
    case DeleteZipArchive(_) => Delete
  }

  function FormatOf(a: Action): Format
    requires IsFileOperation(a)
  {
    match a
    case CreateFile(_) => Plain
    case WriteToFile(_, _) => Plain
    case CreateJsonFile(_, _) => Json
    case CreateXmlFile(_, _) => Xml
    case CreateZipArchive(_, _) => Zip
    case ReadFromFile(_) => Plain
    case ReadJsonFile(_) => Json
    case ReadXmlFile(_) => Xml
    case GetFileInfo(_) => Zip
    case DeleteFile(_) => Plain
    case DeleteZipArchive(_) => Zip
  }

  /** The kind of file each mode works with; other integers select none. */
  predicate IsFileMode(mode: int) {
    FILE_MODE <= mode <= ZIP_MODE
  }

  function ModeFormat(mode: int): Format
    requires IsFileMode(mode)
  {
    if mode == FILE_MODE then Plain else if mode == JSON_MODE then Json else if mode == XML_MODE then Xml else Zip
  }

  /**
   * How many items a command reads after its token: a filename for `create`,
   * `read` and `delete`, and for `create` also the content (mode 2), the
   * three answers of `getUserInput` (mode 3), the element text (mode 4) or
   * the file to add (mode 5).
   */
  function ArgCount(mode: int, command: string): nat {
    if command == "create" then
      if mode == FILE_MODE || mode == XML_MODE || mode == ZIP_MODE then 2
      else if mode == JSON_MODE then 4
      else 1
    else if command == "read" || command == "delete" then 1
    else 0
  }

  /** The adapter calls that can throw: `fs::remove`, `json::dump`, the JSON parse, `fs::exists` and `fs::file_size`. */
  predicate MayThrow(a: Action) {
    a.DeleteFile? || a.DeleteZipArchive? || a.CreateJsonFile? || a.ReadJsonFile? || a.GetFileInfo?
  }

  /** The calls one command makes, given the items it read: the `if` chain of one round. */
  function Dispatch(mode: int, command: string, args: seq<string>): seq<Action>
    requires |args| == ArgCount(mode, command)
  {
    if command == "create" then
      var file := args[0];
      if mode == FILE_MODE then [CreateFile(file), WriteToFile(file, args[1])]
      else if mode == JSON_MODE then [CreateJsonFile(file, Answers(args[1], args[2], args[3]))]
      else if mode == XML_MODE then [CreateXmlFile(file, args[1])]
      else if mode == ZIP_MODE then [CreateZipArchive(file, args[1])]
      else []
    else if command == "read" then
      var file := args[0];
      if mode == FILE_MODE then [ReadFromFile(file)]
      else if mode == JSON_MODE then [ReadJsonFile(file)]
      else if mode == XML_MODE then [ReadXmlFile(file)]
      else if mode == ZIP_MODE then [GetFileInfo(file)]
      else []
    else if command == "delete" then
      var file := args[0];
      if mode == ZIP_MODE then [DeleteZipArchive(file)] else [DeleteFile(file)]
    else if command == "exit" then [Exiting]
    else [UnknownCommand]
  }

  /**
   * The items each command reads after its token: the filename, and for
   * `create` the content, the three answers, the element text or the file to
   * add, depending on the mode; an unknown token or `exit` reads nothing.
   */
  lemma ArgCountByCommand(mode: int, command: string)
    ensures command == "create" && mode == JSON_MODE ==> ArgCount(mode, command) == 4
    ensures command == "create" && IsFileMode(mode) && mode != JSON_MODE ==> ArgCount(mode, command) == 2
    ensures command == "create" && !IsFileMode(mode) ==> ArgCount(mode, command) == 1
    ensures command == "read" || command == "delete" ==> ArgCount(mode, command) == 1
    ensures command != "create" && command != "read" && command != "delete" ==> ArgCount(mode, command) == 0
  {
  }

  /**
   * One round makes at most two calls, all on the filename it read; it makes
   * none only for `create` or `read` outside modes 2 to 5; and a call that can
   * throw is the only call of its round.
   */
  lemma DispatchShape(mode: int, command: string, args: seq<string>)
    requires |args| == ArgCount(mode, command)
    ensures var g := Dispatch(mode, command, args);
            |g| <= 2 && (g == [] <==> (command == "create" || command == "read") && !IsFileMode(mode))
    ensures var g := Dispatch(mode, command, args);
            forall i :: 0 <= i < |g| && IsFileOperation(g[i]) ==> |args| > 0 && Target(g[i]) == args[0]
    ensures var g := Dispatch(mode, command, args);
            forall i :: 0 <= i < |g| && MayThrow(g[i]) ==> |g| == 1
  {
  }

  /** A call that throws: one that can, and that the file system makes throw. */
  predicate Threw(a: Action, throwing: set<Action>) {
    MayThrow(a) && a in throwing
  }

  /**
   * The round's call throws. A call that can throw is the only call of its
   * round (`DispatchShape`), so this covers every round.
   */
  predicate Throws(group: seq<Action>, throwing: set<Action>) {
    |group| == 1 && Threw(group[0], throwing)
  }

  /** Why a run stopped: the input ran out, `exit` was read, or a call's exception ended the process. */
  datatype Stop = InputEnded | Exited | Aborted

  /** The effect of a run of the loop: its trace, the items it consumed, and why it stopped. */
  datatype Session = Session(trace: seq<Action>, consumed: nat, stop: Stop)

  /** The loop over an input stream, one command per round, in input order. */
  function Run(mode: int, input: seq<string>, throwing: set<Action>): (s: Session)
    ensures s.consumed <= |input|
    decreases |input|
  {
    if input == [] then Session([], 0, InputEnded)
    else
      var command := input[0];
      var n := ArgCount(mode, command);
      if |input| < 1 + n then Session([], 0, InputEnded)
      else
        var group := Dispatch(mode, command, input[1..1 + n]);
        if command == "exit" then Session(group, 1, Exited)
        else if Throws(group, throwing) then Session(group, 1 + n, Aborted)
        else
          var rest := Run(mode, input[1 + n..], throwing);
          Session(group + rest.trace, 1 + n + rest.consumed, rest.stop)
  }

  /** `fileCommandLoop(mode)` over an input stream. */
  method FileCommandLoop(mode: int, input: seq<string>, throwing: set<Action>) returns (trace: seq<Action>, consumed: nat, stop: Stop)
    ensures Session(trace, consumed, stop) == Run(mode, input, throwing)
  {
    trace, stop := [], InputEnded;
    var pos: nat := 0;
    assert input[pos..] == input;
    assert [] + Run(mode, input, throwing).trace == Run(mode, input, throwing).trace;
    while pos < |input|
      invariant pos <= |input| && stop == InputEnded
      invariant Run(mode, input, throwing) == Then(Session(trace, pos, InputEnded), Run(mode, input[pos..], throwing))
      decreases |input| - pos
    {
      var command := input[pos];
      var n := ArgCount(mode, command);
      if pos + n >= |input| {
        // the command's arguments have not all arrived: the program waits for input
        break;
      }
      var group := Dispatch(mode, command, input[pos + 1..pos + 1 + n]);
      ghost var before, at := trace, pos;
      if command == "exit" {
        trace, pos, stop := trace + group, pos + 1, Exited;
        RunExits(mode, input, throwing, before, at, trace);
        break;
      }
      trace, pos := trace + group, pos + 1 + n;
      if Throws(group, throwing) {
        // the adapter's exception leaves `main`: the process ends
        stop := Aborted;
        RunAborts(mode, input, throwing, before, at, n, trace, pos);
        break;
      }
      RunAdvances(mode, input, throwing, before, at, n, group, trace, pos);
    }
    consumed := pos;
    assert trace + [] == trace;
  }

  lemma TakeAppend<T>(a: seq<T>, b: seq<T>, i: nat, j: nat)
    requires i <= j <= |a|
    ensures (a + b)[i..j] == a[i..j]
  {
  }

  lemma DropAppend<T>(a: seq<T>, b: seq<T>, k: nat)
    requires k <= |a|
    ensures (a + b)[k..] == a[k..] + b
  {
  }

  lemma DropDrop<T>(a: seq<T>, i: nat, j: nat)
    requires i + j <= |a|
    ensures a[i..][j..] == a[i + j..]
  {
  }

  lemma AppendAssociates<T>(a: seq<T>, b: seq<T>, c: seq<T>)
    ensures a + (b + c) == (a + b) + c
  {
  }

  /** A completed command other than `exit` whose call did not throw: the loop carries on after it. */
  lemma RunAdvances(mode: int, input: seq<string>, throwing: set<Action>, trace: seq<Action>, pos: nat, n: nat,
                    group: seq<Action>, trace': seq<Action>, pos': nat)
    requires pos < |input| && n == ArgCount(mode, input[pos]) && pos + n < |input| && input[pos] != "exit"
    requires group == Dispatch(mode, input[pos], input[pos + 1..pos + 1 + n]) && !Throws(group, throwing)
    requires trace' == trace + group && pos' == pos + 1 + n
    ensures pos' <= |input|
    ensures Then(Session(trace, pos, InputEnded), Run(mode, input[pos..], throwing)) ==
            Then(Session(trace', pos', InputEnded), Run(mode, input[pos'..], throwing))
  {
    RunAt(mode, input, throwing, pos, n);
    Regroup(trace, pos, group, n, Run(mode, input[pos..], throwing), Run(mode, input[pos'..], throwing));
  }

  /** Moving one command's round from the remaining run to the part already done. */
  lemma Regroup(trace: seq<Action>, pos: nat, group: seq<Action>, n: nat, whole: Session, rest: Session)
    requires whole == Then(Session(group, 1 + n, InputEnded), rest)
    ensures Then(Session(trace, pos, InputEnded), whole) == Then(Session(trace + group, pos + 1 + n, InputEnded), rest)
  {
    AppendAssociates(trace, group, rest.trace);
  }

  /** The command at `pos` seen from the run that starts there. */
  lemma SuffixAt(mode: int, input: seq<string>, pos: nat, n: nat)
    requires pos < |input| && n == ArgCount(mode, input[pos]) && pos + n < |input|
    ensures var suffix := input[pos..];
            suffix[0] == input[pos] && ArgCount(mode, suffix[0]) == n && n < |suffix| &&
            suffix[1..1 + n] == input[pos + 1..pos + 1 + n] &&
            Dispatch(mode, suffix[0], suffix[1..1 + n]) == Dispatch(mode, input[pos], input[pos + 1..pos + 1 + n]) &&
            suffix[1 + n..] == input[pos + 1 + n..]
  {
    var suffix := input[pos..];
    assert suffix[0] == input[pos] && suffix[1..1 + n] == input[pos + 1..pos + 1 + n];
    DropDrop(input, pos, 1 + n);
  }

  /** The run from position `pos`, whose command is complete, is not `exit` and did not throw. */
  lemma RunAt(mode: int, input: seq<string>, throwing: set<Action>, pos: nat, n: nat)
    requires pos < |input| && n == ArgCount(mode, input[pos]) && pos + n < |input| && input[pos] != "exit"
    requires !Throws(Dispatch(mode, input[pos], input[pos + 1..pos + 1 + n]), throwing)
    ensures Run(mode, input[pos..], throwing) ==
            Then(Session(Dispatch(mode, input[pos], input[pos + 1..pos + 1 + n]), 1 + n, InputEnded),
                 Run(mode, input[pos + 1 + n..], throwing))
  {
    SuffixAt(mode, input, pos, n);
    RunUnfolds(mode, input[pos..], throwing);
  }

  /** An `exit` command: the loop ends with it. */
  lemma RunExits(mode: int, input: seq<string>, throwing: set<Action>, trace: seq<Action>, pos: nat, trace': seq<Action>)
    requires pos < |input| && input[pos] == "exit" && trace' == trace + [Exiting]
    ensures Then(Session(trace, pos, InputEnded), Run(mode, input[pos..], throwing)) == Session(trace', pos + 1, Exited)
  {
    var suffix := input[pos..];
    assert suffix[0] == "exit" && suffix[1..1] == [];
    assert Run(mode, suffix, throwing) == Session([Exiting], 1, Exited);
  }

  /** A command whose call throws: the process ends with it. */
  lemma RunAborts(mode: int, input: seq<string>, throwing: set<Action>, trace: seq<Action>, pos: nat, n: nat,
                  trace': seq<Action>, pos': nat)
    requires pos < |input| && n == ArgCount(mode, input[pos]) && pos + n < |input| && input[pos] != "exit"
    requires trace' == trace + Dispatch(mode, input[pos], input[pos + 1..pos + 1 + n]) && pos' == pos + 1 + n
    requires Throws(Dispatch(mode, input[pos], input[pos + 1..pos + 1 + n]), throwing)
    ensures Then(Session(trace, pos, InputEnded), Run(mode, input[pos..], throwing)) == Session(trace', pos', Aborted)
  {
    SuffixAt(mode, input, pos, n);
    assert Run(mode, input[pos..], throwing) ==
           Session(Dispatch(mode, input[pos], input[pos + 1..pos + 1 + n]), 1 + n, Aborted);
  }

  // ---------------------------------------------------------------------------
  // Properties of the loop

  /** Run `r`, then a run `s` over the input that follows what `r` consumed. */
  function Then(r: Session, s: Session): Session {
    Session(r.trace + s.trace, r.consumed + s.consumed, s.stop)
  }

  /** A completed command other than `exit` whose call did not throw, followed by the rest of the run. */
  lemma RunUnfolds(mode: int, input: seq<string>, throwing: set<Action>)
    requires input != [] && ArgCount(mode, input[0]) < |input| && input[0] != "exit"
    requires !Throws(Dispatch(mode, input[0], input[1..1 + ArgCount(mode, input[0])]), throwing)
    ensures Run(mode, input, throwing) ==
            Then(Session(Dispatch(mode, input[0], input[1..1 + ArgCount(mode, input[0])]), 1 + ArgCount(mode, input[0]), InputEnded),
                 Run(mode, input[1 + ArgCount(mode, input[0])..], throwing))
  {
  }

  lemma ThenAssociates(a: Session, b: Session, c: Session)
    ensures Then(a, Then(b, c)) == Then(Then(a, b), c)
  {
    AppendAssociates(a.trace, b.trace, c.trace);
  }

  /** The loop leaves by `exit` only right after reading an `exit` command. */
  lemma {:induction false} ExitedAfterExitToken(mode: int, input: seq<string>, throwing: set<Action>)
    ensures var r := Run(mode, input, throwing);
            r.stop == Exited ==> r.consumed > 0 && input[r.consumed - 1] == "exit"
    decreases |input|
  {
    if input != [] && |input| >= 1 + ArgCount(mode, input[0]) && input[0] != "exit" {
      var n := ArgCount(mode, input[0]);
      if !Throws(Dispatch(mode, input[0], input[1..1 + n]), throwing) {
        var t := Run(mode, input[1 + n..], throwing);
        RunUnfolds(mode, input, throwing);
        ExitedAfterExitToken(mode, input[1 + n..], throwing);
        assert Run(mode, input, throwing).consumed == 1 + n + t.consumed && Run(mode, input, throwing).stop == t.stop;
        if t.stop == Exited {
          assert input[1 + n..][t.consumed - 1] == input[1 + n + t.consumed - 1];
        }
      }
    }
  }

  /** A run that stopped, by `exit` or by a call that threw, reads nothing after that point. */
  lemma {:induction false} StopIgnoresLaterInput(mode: int, input: seq<string>, more: seq<string>, throwing: set<Action>)
    requires Run(mode, input, throwing).stop != InputEnded
    ensures Run(mode, input + more, throwing) == Run(mode, input, throwing)
    decreases |input|
  {
    var n := ArgCount(mode, input[0]);
    var whole := input + more;
    assert whole[0] == input[0];
    assert whole[1..1 + n] == input[1..1 + n];
    if input[0] != "exit" && !Throws(Dispatch(mode, input[0], input[1..1 + n]), throwing) {
      assert whole[1 + n..] == input[1 + n..] + more;
      StopIgnoresLaterInput(mode, input[1 + n..], more, throwing);
    }
  }

  /**
   * Commands are processed strictly in input order: a run that is still
   * waiting for input is resumed by further input exactly where it stopped,
   * and its trace is a prefix of the trace of the longer input.
   */
  lemma {:induction false} RunResumes(mode: int, input: seq<string>, more: seq<string>, throwing: set<Action>)
    requires Run(mode, input, throwing).stop == InputEnded
    ensures Run(mode, input + more, throwing) ==
            Then(Run(mode, input, throwing), Run(mode, input[Run(mode, input, throwing).consumed..] + more, throwing))
    decreases |input|
  {
    if input == [] || |input| < 1 + ArgCount(mode, input[0]) {
      ResumeIncomplete(mode, input, more, throwing);
    } else {
      var n := ArgCount(mode, input[0]);
      assert input[0] != "exit" && !Throws(Dispatch(mode, input[0], input[1..1 + n]), throwing);
      RunUnfolds(mode, input, throwing);
      RunResumes(mode, input[1 + n..], more, throwing);
      ResumeStep(mode, input, more, throwing, n);
    }
  }

  /** A completed first command, then the longer input resumed after it. */
  lemma ResumeStep(mode: int, input: seq<string>, more: seq<string>, throwing: set<Action>, n: nat)
    requires input != [] && n == ArgCount(mode, input[0]) && n < |input| && input[0] != "exit"
    requires !Throws(Dispatch(mode, input[0], input[1..1 + n]), throwing)
    requires var t := Run(mode, input[1 + n..], throwing);
             Run(mode, input[1 + n..] + more, throwing) == Then(t, Run(mode, input[1 + n..][t.consumed..] + more, throwing))
    requires Run(mode, input, throwing) ==
             Then(Session(Dispatch(mode, input[0], input[1..1 + n]), 1 + n, InputEnded), Run(mode, input[1 + n..], throwing))
    ensures Run(mode, input + more, throwing) ==
            Then(Run(mode, input, throwing), Run(mode, input[Run(mode, input, throwing).consumed..] + more, throwing))
  {
    var tail := input[1 + n..];
    var t := Run(mode, tail, throwing);
    var head := Session(Dispatch(mode, input[0], input[1..1 + n]), 1 + n, InputEnded);
    var later := Run(mode, tail[t.consumed..] + more, throwing);
    RunUnfoldsAppended(mode, input, more, throwing, n);
    assert Run(mode, input + more, throwing) == Then(head, Then(t, later));
    DropDrop(input, 1 + n, t.consumed);
    assert input[Run(mode, input, throwing).consumed..] == tail[t.consumed..];
    ThenAssociates(head, t, later);
  }

  /** No complete command: the longer input is read from the start. */
  lemma ResumeIncomplete(mode: int, input: seq<string>, more: seq<string>, throwing: set<Action>)
    requires input == [] || |input| < 1 + ArgCount(mode, input[0])
    ensures Run(mode, input + more, throwing) ==
            Then(Run(mode, input, throwing), Run(mode, input[Run(mode, input, throwing).consumed..] + more, throwing))
  {
    assert Run(mode, input, throwing) == Session([], 0, InputEnded);
    assert input[0..] == input;
    assert [] + Run(mode, input + more, throwing).trace == Run(mode, input + more, throwing).trace;
  }

  /** The first complete command of `input` is also the first command of `input + more`. */
  lemma RunUnfoldsAppended(mode: int, input: seq<string>, more: seq<string>, throwing: set<Action>, n: nat)
    requires input != [] && n == ArgCount(mode, input[0]) && n < |input| && input[0] != "exit"
    requires !Throws(Dispatch(mode, input[0], input[1..1 + n]), throwing)
    ensures Run(mode, input + more, throwing) ==
            Then(Session(Dispatch(mode, input[0], input[1..1 + n]), 1 + n, InputEnded), Run(mode, input[1 + n..] + more, throwing))
  {
    var whole := input + more;
    TakeAppend(input, more, 1, 1 + n);
    DropAppend(input, more, 1 + n);
    assert whole[0] == input[0];
    assert Dispatch(mode, whole[0], whole[1..1 + n]) == Dispatch(mode, input[0], input[1..1 + n]);
    RunUnfolds(mode, whole, throwing);
  }

  /** What a run still waiting for input has done is a prefix of what any longer input does. */
  lemma TraceExtends(mode: int, input: seq<string>, more: seq<string>, throwing: set<Action>)
    requires Run(mode, input, throwing).stop == InputEnded
    ensures Run(mode, input, throwing).trace <= Run(mode, input + more, throwing).trace
  {
    RunResumes(mode, input, more, throwing);
  }

  /** Input that ends with a completed command is followed by a fresh run over the rest. */
  lemma RunComposes(mode: int, first: seq<string>, second: seq<string>, throwing: set<Action>)
    requires Run(mode, first, throwing).stop == InputEnded && Run(mode, first, throwing).consumed == |first|
    ensures Run(mode, first + second, throwing) == Then(Run(mode, first, throwing), Run(mode, second, throwing))
  {
    RunResumes(mode, first, second, throwing);
    assert first[|first|..] + second == second;
  }

  /** Only the `exit` command prints "Exiting...". */
  lemma OnlyExitPrintsExiting(mode: int, command: string, args: seq<string>)
    requires |args| == ArgCount(mode, command)
    ensures Exiting in Dispatch(mode, command, args) <==> command == "exit"
  {
  }

  /** The loop left by `exit` exactly when "Exiting..." is in the trace. */
  lemma {:induction false} ExitedIffExiting(mode: int, input: seq<string>, throwing: set<Action>)
    ensures var r := Run(mode, input, throwing);
            r.stop == Exited <==> Exiting in r.trace
    decreases |input|
  {
    if input != [] && |input| >= 1 + ArgCount(mode, input[0]) {
      var n := ArgCount(mode, input[0]);
      OnlyExitPrintsExiting(mode, input[0], input[1..1 + n]);
      if input[0] != "exit" && !Throws(Dispatch(mode, input[0], input[1..1 + n]), throwing) {
        ExitedIffExiting(mode, input[1 + n..], throwing);
      }
    }
  }

  /** "Exiting..." only at the end of a trace. */
  predicate EndsWithExiting(trace: seq<Action>) {
    |trace| > 0 && trace[|trace| - 1] == Exiting && Exiting !in trace[..|trace| - 1]
  }

  lemma PrependKeepsExitingLast(group: seq<Action>, trace: seq<Action>)
    requires Exiting !in group && EndsWithExiting(trace)
    ensures EndsWithExiting(group + trace)
  {
    assert (group + trace)[..|group + trace| - 1] == group + trace[..|trace| - 1];
  }

  /** After `exit`, "Exiting..." is the last entry of the trace and appears nowhere before it. */
  lemma {:induction false} ExitingOnlyAtTheEnd(mode: int, input: seq<string>, throwing: set<Action>)
    ensures Run(mode, input, throwing).stop == Exited ==> EndsWithExiting(Run(mode, input, throwing).trace)
    decreases |input|
  {
    if input != [] && |input| >= 1 + ArgCount(mode, input[0]) {
      var n := ArgCount(mode, input[0]);
      var group := Dispatch(mode, input[0], input[1..1 + n]);
      if input[0] == "exit" {
        assert Run(mode, input, throwing).trace == [Exiting];
      } else if !Throws(group, throwing) {
        OnlyExitPrintsExiting(mode, input[0], input[1..1 + n]);
        ExitingOnlyAtTheEnd(mode, input[1 + n..], throwing);
        if Run(mode, input[1 + n..], throwing).stop == Exited {
          PrependKeepsExitingLast(group, Run(mode, input[1 + n..], throwing).trace);
        }
      }
    }
  }

  /** A trace in which no call threw. */
  predicate NoneThrew(trace: seq<Action>, throwing: set<Action>) {
    forall i :: 0 <= i < |trace| ==> !Threw(trace[i], throwing)
  }

  /** A trace whose last call threw, after calls none of which did. */
  predicate EndsWithThrow(trace: seq<Action>, throwing: set<Action>) {
    |trace| > 0 && Threw(trace[|trace| - 1], throwing) && NoneThrew(trace[..|trace| - 1], throwing)
  }

  lemma PrependKeepsThrowLast(group: seq<Action>, trace: seq<Action>, throwing: set<Action>)
    requires NoneThrew(group, throwing) && EndsWithThrow(trace, throwing)
    ensures EndsWithThrow(group + trace, throwing)
  {
    var whole := group + trace;
    assert whole[..|whole| - 1] == group + trace[..|trace| - 1];
    assert whole[|whole| - 1] == trace[|trace| - 1];
    PrependKeepsNoneThrew(group, trace[..|trace| - 1], throwing);
  }

  lemma PrependKeepsNoneThrew(group: seq<Action>, trace: seq<Action>, throwing: set<Action>)
    requires NoneThrew(group, throwing) && NoneThrew(trace, throwing)
    ensures NoneThrew(group + trace, throwing)
  {
    forall i | 0 <= i < |group + trace| ensures !Threw((group + trace)[i], throwing) {
      if i >= |group| {
        assert (group + trace)[i] == trace[i - |group|];
      }
    }
  }

  /** A round whose call did not throw: none of its calls did. */
  lemma QuietRound(mode: int, command: string, args: seq<string>, throwing: set<Action>)
    requires |args| == ArgCount(mode, command)
    requires !Throws(Dispatch(mode, command, args), throwing)
    ensures NoneThrew(Dispatch(mode, command, args), throwing)
  {
    DispatchShape(mode, command, args);
  }

  /**
   * A call that throws ends the loop: the run is aborted exactly when a call
   * in its trace threw, that call is the last one, and every call before it
   * returned.
   */
  lemma {:induction false} ThrowEndsTheRun(mode: int, input: seq<string>, throwing: set<Action>)
    ensures var r := Run(mode, input, throwing);
            r.stop == Aborted ==> EndsWithThrow(r.trace, throwing)
    ensures var r := Run(mode, input, throwing);
            r.stop != Aborted ==> NoneThrew(r.trace, throwing)
    decreases |input|
  {
    if input != [] && |input| >= 1 + ArgCount(mode, input[0]) {
      var n := ArgCount(mode, input[0]);
      var group := Dispatch(mode, input[0], input[1..1 + n]);
      if input[0] == "exit" {
        assert Run(mode, input, throwing).trace == [Exiting];
      } else if Throws(group, throwing) {
        assert Run(mode, input, throwing).trace == group;
        assert group[..0] == [];
      } else {
        var t := Run(mode, input[1 + n..], throwing);
        QuietRound(mode, input[0], input[1..1 + n], throwing);
        ThrowEndsTheRun(mode, input[1 + n..], throwing);
        assert Run(mode, input, throwing).trace == group + t.trace;
        if t.stop == Aborted {
          PrependKeepsThrowLast(group, t.trace, throwing);
        } else {
          PrependKeepsNoneThrew(group, t.trace, throwing);
        }
      }
    }
  }

  /**
   * Apart from `exit` and a call that throws, the loop stops only because the
   * input has run out: what it left unconsumed is empty or an incomplete command.
   */
  lemma {:induction false} RunStopsOnlyWhenInputRunsOut(mode: int, input: seq<string>, throwing: set<Action>)
    ensures var r := Run(mode, input, throwing);
            r.stop == InputEnded ==> r.consumed == |input| || r.consumed + ArgCount(mode, input[r.consumed]) >= |input|
    decreases |input|
  {
    if input != [] && |input| >= 1 + ArgCount(mode, input[0]) && input[0] != "exit" {
      var n := ArgCount(mode, input[0]);
      if !Throws(Dispatch(mode, input[0], input[1..1 + n]), throwing) {
        RunStopsOnlyWhenInputRunsOut(mode, input[1 + n..], throwing);
        var t := Run(mode, input[1 + n..], throwing);
        if t.consumed < |input[1 + n..]| {
          assert input[1 + n..][t.consumed] == input[1 + n + t.consumed];
        }
      }
    }
  }

  /** An unrecognised token reads nothing more, only prints "Unknown command.", and the loop goes on. */
  lemma UnknownCommandContinues(mode: int, command: string, rest: seq<string>, throwing: set<Action>)
    requires command != "create" && command != "read" && command != "delete" && command != "exit"
    ensures ArgCount(mode, command) == 0
    ensures forall a :: a in Dispatch(mode, command, []) ==> !IsFileOperation(a)
    ensures Run(mode, [command] + rest, throwing) == Then(Session([UnknownCommand], 1, InputEnded), Run(mode, rest, throwing))
  {
    assert ([command] + rest)[1..] == rest;
  }

  /**
   * `create` works on the filename it read first: in mode 2 it creates the
   * file and then appends the content to that same file; in modes 3, 4 and 5
   * it makes one creation call of the mode's format; in any other mode none.
   */
  lemma CreateRouting(mode: int, args: seq<string>)
    requires |args| == ArgCount(mode, "create")
    ensures var g := Dispatch(mode, "create", args);
            mode == FILE_MODE ==> g == [CreateFile(args[0]), WriteToFile(args[0], args[1])]
    ensures var g := Dispatch(mode, "create", args);
            IsFileMode(mode) && mode != FILE_MODE ==>
              |g| == 1 && VerbOf(g[0]) == Create && FormatOf(g[0]) == ModeFormat(mode) && Target(g[0]) == args[0]
    ensures mode == JSON_MODE ==> Dispatch(mode, "create", args) == [CreateJsonFile(args[0], Answers(args[1], args[2], args[3]))]
    ensures mode == XML_MODE ==> Dispatch(mode, "create", args) == [CreateXmlFile(args[0], args[1])]
    ensures mode == ZIP_MODE ==> Dispatch(mode, "create", args) == [CreateZipArchive(args[0], args[1])]
    ensures !IsFileMode(mode) ==> |args| == 1 && Dispatch(mode, "create", args) == []
  {
  }

  /** `read` makes one read call of the mode's format on the filename, or none outside modes 2 to 5. */
  lemma ReadRouting(mode: int, file: string)
    ensures var g := Dispatch(mode, "read", [file]);
            IsFileMode(mode) ==> |g| == 1 && VerbOf(g[0]) == Read && FormatOf(g[0]) == ModeFormat(mode) && Target(g[0]) == file
    ensures !IsFileMode(mode) ==> Dispatch(mode, "read", [file]) == []
  {
  }

  /** `delete` removes the archive in mode 5 and removes a plain file in every other mode. */
  lemma DeleteRouting(mode: int, file: string)
    ensures var g := Dispatch(mode, "delete", [file]);
            |g| == 1 && VerbOf(g[0]) == Delete && Target(g[0]) == file
    ensures var g := Dispatch(mode, "delete", [file]);
            g[0].DeleteZipArchive? <==> mode == ZIP_MODE
  {
  }

  /**
   * The answers of someone who types their name, their age in decimal and 1 or
   * 0 for the flag give the JSON object holding exactly those values.
   */
  lemma UserRecordRoundTrip(name: string, age: int, isStudent: bool)
    requires INT_MIN <= age <= INT_MAX
    ensures UserRecord(Answers(name, DecimalString(age), if isStudent then "1" else "0")) == Record(name, age, isStudent)
  {
    ReadIntDecimal(age);
    ReadBoolAnswers();
  }
}
