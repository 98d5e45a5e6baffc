/**
 * `main`: a loop that never exits by itself. Each round reads an integer
 * choice: 1 prints the disk report, 2 to 5 enter `fileCommandLoop` with that
 * choice as the mode, and any other value prints "Invalid choice."; then the
 * prompt comes back.
 *
 * The model stops where the program could not go on: when the input runs
 * out (the program would block, at the prompt or inside a mode), or when an
 * exception escapes `main` and ends the process: the disk report's
 * `filesystem_error`, or one thrown by an adapter call inside a mode.
 */
module TopMenu {
  import opened Wrappers
  import opened ConsoleInput
  import Commands
  import DiskInfo

  /** What one menu choice did. */
  datatype Round =
    | DiskInfoRound(report: DiskInfo.Report)
    | ModeRound(mode: int, session: Commands.Session)   // "Entering ... mode", then the inner loop
    | InvalidChoice(choice: int)

  /** A run of the menu: its rounds, the input items consumed, and whether the process ended. */
  datatype Outcome = Outcome(rounds: seq<Round>, consumed: nat, terminated: bool)

  /** A round after which control is back at the prompt (a mode round only once its loop has left by `exit`). */
  predicate Closed(round: Round) {
    !round.ModeRound? || round.session.stop == Commands.Exited
  }

  /** A round that ends the process: an uncaught exception from the disk report or from an adapter call. */
  predicate Fatal(round: Round) {
    (round.DiskInfoRound? && round.report.thrownAt.Some?) ||
    (round.ModeRound? && round.session.stop == Commands.Aborted)
  }

  /** The number of input items a round reads: the choice, and the inner loop's items. */
  function Length(round: Round): nat {
    if round.ModeRound? then 1 + round.session.consumed else 1
  }

  /** The round the first choice of `input` starts. */
  function FirstRound(input: seq<string>, disk: DiskInfo.Report, throwing: set<Commands.Action>): (round: Round)
    requires input != []
    ensures Length(round) <= |input|
  {
    var choice := ReadInt(input[0]);
    if choice == 1 then DiskInfoRound(disk)
    else if 2 <= choice <= 5 then ModeRound(choice, Commands.Run(choice, input[1..], throwing))
    else InvalidChoice(choice)
  }

  /**
   * The menu loop over an input stream, where `disk` is what the disk report
   * finds and `throwing` the adapter calls that throw (the file systems do not
   * change during the run): round after round until a round ends the process
   * or leaves the program waiting for input inside a mode.
   */
  function Menu(input: seq<string>, disk: DiskInfo.Report, throwing: set<Commands.Action>): (m: Outcome)
    ensures m.consumed <= |input|
    ensures input != [] ==> |m.rounds| > 0
    decreases |input|
  {
    if input == [] then Outcome([], 0, false)
    else
      var round := FirstRound(input, disk, throwing);
      if Fatal(round) || !Closed(round) then Outcome([round], Length(round), Fatal(round))
      else
        var rest := Menu(input[Length(round)..], disk, throwing);
        Outcome([round] + rest.rounds, Length(round) + rest.consumed, rest.terminated)
  }

  /** The outcome of a run that has already produced `rounds` from `consumed` items and continues as `m`. */
  function Resume(rounds: seq<Round>, consumed: nat, m: Outcome): Outcome {
    Outcome(rounds + m.rounds, consumed + m.consumed, m.terminated)
  }

  /** `main`'s `while (true)` loop and its `switch`. */
  method MainLoop(input: seq<string>, probe: string -> DiskInfo.Probe, throwing: set<Commands.Action>) returns (rounds: seq<Round>, consumed: nat, terminated: bool)
    ensures Outcome(rounds, consumed, terminated) == Menu(input, DiskInfo.ReportOf(DiskInfo.MOUNT_POINTS, probe), throwing)
  {
    ghost var disk := DiskInfo.ReportOf(DiskInfo.MOUNT_POINTS, probe);
    rounds, terminated := [], false;
    var pos: nat := 0;
    assert input[pos..] == input;
    while pos < |input|
      invariant 0 <= pos <= |input| && !terminated
      invariant Menu(input, disk, throwing) == Resume(rounds, pos, Menu(input[pos..], disk, throwing))
      decreases |input| - pos
    {
      var round := MenuRound(input[pos..], probe, throwing);
      if Fatal(round) || !Closed(round) {
        // the process has ended, or the inner loop is waiting for input
        MenuHalts(input, disk, throwing, rounds, pos, round);
        rounds, consumed, terminated := rounds + [round], pos + Length(round), Fatal(round);
        return;
      }
      ghost var before, at := rounds, pos;
      rounds, pos := rounds + [round], pos + Length(round);
      MenuAdvances(input, disk, throwing, before, at, round, rounds, pos);
    }
    consumed := pos;
  }

  /** One round of `main`'s loop: read the choice and `switch` on it. */
  method MenuRound(input: seq<string>, probe: string -> DiskInfo.Probe, throwing: set<Commands.Action>) returns (round: Round)
    requires input != []
    ensures round == FirstRound(input, DiskInfo.ReportOf(DiskInfo.MOUNT_POINTS, probe), throwing)
  {
    var choice := ReadInt(input[0]);
    if choice == 1 {
      var report := DiskInfo.PrintDiskInfo(probe);
      round := DiskInfoRound(report);
    } else if 2 <= choice <= 5 {
      var trace, n, stop := Commands.FileCommandLoop(choice, input[1..], throwing);
      round := ModeRound(choice, Commands.Session(trace, n, stop));
    } else {
      round := InvalidChoice(choice);
    }
  }

  /** A round that hands control back to the prompt: the loop carries on after it. */
  lemma MenuAdvances(input: seq<string>, disk: DiskInfo.Report, throwing: set<Commands.Action>, rounds: seq<Round>, pos: nat, round: Round,
                      rounds': seq<Round>, pos': nat)
    requires pos < |input| && round == FirstRound(input[pos..], disk, throwing) && !Fatal(round) && Closed(round)
    requires Menu(input, disk, throwing) == Resume(rounds, pos, Menu(input[pos..], disk, throwing))
    requires rounds' == rounds + [round] && pos' == pos + Length(round)
    ensures pos' <= |input|
    ensures Menu(input, disk, throwing) == Resume(rounds', pos', Menu(input[pos'..], disk, throwing))
  {
    var here := input[pos..];
    assert here[Length(round)..] == input[pos'..];
    var rest := Menu(input[pos'..], disk, throwing);
    assert Menu(here, disk, throwing) == Outcome([round] + rest.rounds, Length(round) + rest.consumed, rest.terminated);
    Commands.AppendAssociates(rounds, [round], rest.rounds);
  }

  /** A round that ends the process or waits for input inside a mode: the run ends with it. */
  lemma MenuHalts(input: seq<string>, disk: DiskInfo.Report, throwing: set<Commands.Action>, rounds: seq<Round>, pos: nat, round: Round)
    requires pos < |input| && round == FirstRound(input[pos..], disk, throwing) && (Fatal(round) || !Closed(round))
    requires Menu(input, disk, throwing) == Resume(rounds, pos, Menu(input[pos..], disk, throwing))
    ensures Menu(input, disk, throwing) == Outcome(rounds + [round], pos + Length(round), Fatal(round))
  {
  }

  // ---------------------------------------------------------------------------
  // Properties of the menu

  /**
   * The menu never exits by itself: every round but the last hands control
   * back to the prompt, and the run ends only when an exception ends the
   * process (from the disk report or from an adapter call inside a mode) or
   * the input has run out (at the prompt, or inside a mode that is waiting
   * for input).
   */
  lemma {:induction false} MenuNeverExits(input: seq<string>, disk: DiskInfo.Report, throwing: set<Commands.Action>)
    ensures var m := Menu(input, disk, throwing);
            forall i :: 0 <= i < |m.rounds| - 1 ==> Closed(m.rounds[i]) && !Fatal(m.rounds[i])
    ensures var m := Menu(input, disk, throwing);
            m.terminated <==> |m.rounds| > 0 && Fatal(m.rounds[|m.rounds| - 1])
    ensures var m := Menu(input, disk, throwing);
            !m.terminated ==> m.consumed == |input| || (|m.rounds| > 0 && !Closed(m.rounds[|m.rounds| - 1]))
    decreases |input|
  {
    if input != [] {
      var round := FirstRound(input, disk, throwing);
      if !Fatal(round) && Closed(round) {
        var rest := Menu(input[Length(round)..], disk, throwing);
        MenuNeverExits(input[Length(round)..], disk, throwing);
        var m := Menu(input, disk, throwing);
        assert m.rounds == [round] + rest.rounds;
        forall i | 0 < i < |m.rounds| - 1 ensures Closed(m.rounds[i]) && !Fatal(m.rounds[i]) {
          assert m.rounds[i] == rest.rounds[i - 1];
        }
        if rest.rounds != [] {
          assert m.rounds[|m.rounds| - 1] == rest.rounds[|rest.rounds| - 1];
        }
      }
    }
  }

  predicate AllClosed(rounds: seq<Round>) {
    forall i :: 0 <= i < |rounds| ==> Closed(rounds[i])
  }

  /**
   * After a run whose rounds all returned to the prompt, further input is
   * read as a fresh menu: earlier rounds are unaffected and later choices
   * start at the prompt.
   */
  lemma {:induction false} MenuComposes(first: seq<string>, second: seq<string>, disk: DiskInfo.Report, throwing: set<Commands.Action>)
    requires !Menu(first, disk, throwing).terminated && AllClosed(Menu(first, disk, throwing).rounds)
    ensures Menu(first, disk, throwing).consumed == |first|
    ensures var a, b := Menu(first, disk, throwing), Menu(second, disk, throwing);
            Menu(first + second, disk, throwing) == Resume(a.rounds, |first|, b)
    decreases |first|
  {
    var whole := first + second;
    if first == [] {
      assert whole == second;
    } else {
      var round := FirstRound(first, disk, throwing);
      var m := Menu(first, disk, throwing);
      assert m.rounds[0] == round;
      assert !Fatal(round);
      assert whole[0] == first[0] && whole[1..] == first[1..] + second;
      if round.ModeRound? {
        Commands.StopIgnoresLaterInput(round.mode, first[1..], second, throwing);
      }
      assert FirstRound(whole, disk, throwing) == round;
      var n := Length(round);
      var rest := Menu(first[n..], disk, throwing);
      Commands.DropAppend(first, second, n);
      assert m.rounds == [round] + rest.rounds;
      assert AllClosed(rest.rounds) by {
        forall i | 0 <= i < |rest.rounds| ensures Closed(rest.rounds[i]) {
          assert rest.rounds[i] == m.rounds[i + 1];
        }
      }
      MenuComposes(first[n..], second, disk, throwing);
      Commands.AppendAssociates([round], rest.rounds, Menu(second, disk, throwing).rounds);
    }
  }

  /**
   * Routing of the choice: 1 shows the disk report, 2 to 5 run the inner
   * loop with the choice as its mode, and any other integer reports an
   * invalid choice; unless the round ends the process or waits for input,
   * the next item is read at the prompt again.
   */
  lemma ChoiceRouting(token: string, rest: seq<string>, disk: DiskInfo.Report, throwing: set<Commands.Action>)
    ensures var choice, m := ReadInt(token), Menu([token] + rest, disk, throwing);
            choice == 1 ==> m.rounds[0] == DiskInfoRound(disk) && (m.terminated <==> disk.thrownAt.Some? || Menu(rest, disk, throwing).terminated)
    ensures var choice, m := ReadInt(token), Menu([token] + rest, disk, throwing);
            2 <= choice <= 5 ==> m.rounds[0] == ModeRound(choice, Commands.Run(choice, rest, throwing))
    ensures var choice, m, s := ReadInt(token), Menu([token] + rest, disk, throwing), Commands.Run(ReadInt(token), rest, throwing);
            2 <= choice <= 5 && s.stop == Commands.Aborted ==>
              m == Outcome([ModeRound(choice, s)], 1 + s.consumed, true)
    ensures var choice, m := ReadInt(token), Menu([token] + rest, disk, throwing);
            choice != 1 && !(2 <= choice <= 5) ==>
              m == Resume([InvalidChoice(choice)], 1, Menu(rest, disk, throwing))
  {
    assert ([token] + rest)[0] == token && ([token] + rest)[1..] == rest;
  }

  /**
   * Choosing 2, then `create notes.txt hello` and `read notes.txt`: the file
   * is created and the content appended to it, then that file is read back,
   * and the program waits in file mode for the next command. None of these
   * calls can throw, whatever the file system does.
   */
  lemma NotesScenario(disk: DiskInfo.Report, throwing: set<Commands.Action>)
    ensures Menu(["2", "create", "notes.txt", "hello", "read", "notes.txt"], disk, throwing) ==
              Outcome([ModeRound(2, Commands.Session(
                [Commands.CreateFile("notes.txt"), Commands.WriteToFile("notes.txt", "hello"), Commands.ReadFromFile("notes.txt")],
                5, Commands.InputEnded))], 6, false)
  {
    var input := ["2", "create", "notes.txt", "hello", "read", "notes.txt"];
    ReadIntChoices();
    var commands := input[1..];
    assert commands == ["create", "notes.txt", "hello", "read", "notes.txt"];
    var lastCommand := commands[3..];
    assert lastCommand == ["read", "notes.txt"];
    assert lastCommand[1..2] == ["notes.txt"] && lastCommand[2..] == [];
    assert Commands.Run(2, lastCommand, throwing) == Commands.Session([Commands.ReadFromFile("notes.txt")], 2, Commands.InputEnded);
    assert commands[1..3] == ["notes.txt", "hello"];
    assert Commands.Run(2, commands, throwing) == Commands.Session(
      [Commands.CreateFile("notes.txt"), Commands.WriteToFile("notes.txt", "hello"), Commands.ReadFromFile("notes.txt")], 5, Commands.InputEnded);
  }

  /**
   * Choosing 3 and reading a file that is not JSON: the parse throws, nothing
   * catches it, and the process ends; the later "1" is never read.
   */
  lemma NotJsonScenario(disk: DiskInfo.Report, throwing: set<Commands.Action>)
    requires Commands.ReadJsonFile("notes.txt") in throwing
    ensures Menu(["3", "read", "notes.txt", "1"], disk, throwing) ==
              Outcome([ModeRound(3, Commands.Session([Commands.ReadJsonFile("notes.txt")], 2, Commands.Aborted))], 3, true)
  {
    var input := ["3", "read", "notes.txt", "1"];
    ReadIntChoices();
    var commands := input[1..];
    assert commands == ["read", "notes.txt", "1"];
    assert commands[1..2] == ["notes.txt"];
    assert Commands.Run(3, commands, throwing) == Commands.Session([Commands.ReadJsonFile("notes.txt")], 2, Commands.Aborted);
  }
}
