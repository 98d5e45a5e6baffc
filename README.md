# File-operations console: a Dafny model

The program is a console tool with a numbered menu. Choice 1 prints disk
usage for four fixed mount points. Choices 2 to 5 enter a command loop for
plain files, JSON, XML or ZIP archives; that loop reads `create`, `read`,
`delete` or `exit` and calls the matching adapter for the mode. This project
models:

- the menu loop of `main`;
- the command loop `fileCommandLoop`;
- the XML read path `readXmlFile` / `printXmlElement`;
- the mount-point loop of `printDiskInfo`.

It proves what each of them does over any input.

Modules, one per file:

- `ConsoleInput` (`console_input.dfy`): how one item of standard input becomes
  the value `std::cin >> int`, `std::cin >> bool` or `std::getline` stores.
  - Standard input is a sequence of items, and each read consumes one item.
  - `>> int` follows C++11. A token that is not a number stores 0. A number
    outside the `int` range stores the nearest bound.
- `Commands` (`commands.dfy`): `fileCommandLoop` as a `while` loop
  (`FileCommandLoop`), proved equal to the function `Run`.
  - `Run` maps the input items to a trace of adapter calls and console tags
    ("Unknown command.", "Exiting...").
  - It also gives how many items were consumed and why the loop stopped: the
    input ran out, `exit` was read, or an adapter call threw.
  - Five adapter calls can throw an exception that nothing catches, which
    ends the process: `fs::remove` in `deleteFile` and `deleteZipArchive`,
    `json::dump` in `createJsonFile`, the JSON parse in `readJsonFile`, and
    `fs::exists` / `fs::file_size` in `getFileInfo`. Which of them throw
    depends on the file system, so the set of calls that throw is an oracle
    input.
  - The lemmas state the per-mode routing of each command, that `exit` and
    a throwing call are final, and that commands are handled strictly in
    input order.
- `DiskInfo` (`disk_info.dfy`): the range-for of `printDiskInfo` as a `while`
  loop, proved equal to the function `ReportOf`.
  - `std::filesystem::space` and `statvfs` are oracle inputs.
  - The byte counts are `uintmax_t` values divided by 2^30.
  - A `space()` call that fails throws an exception that nothing catches, so
    the report stops and the process ends.
- `XmlPrinter` (`xml_printer.dfy`): the recursive walk of `printXmlElement`
  over an abstract document tree, and `readXmlFile`'s three outcomes.
  - The walk is proved equal to a pre-order listing of the nodes.
- `TopMenu` (`top_menu.dfy`): `main`'s endless loop and `switch` as a `while`
  loop (`MainLoop`), proved equal to the function `Menu`.
  - The model stops where the program cannot go on by itself. The input may
    run out, at the prompt or inside a mode. Or an exception may end the
    process: one thrown by the disk report, or one thrown by an adapter call
    inside a mode.

## Model

| member | source | states |
|---|---|---|
| ConsoleInput.ParseInteger | main.cpp:321-323 | a token reads as an integer exactly when it is decimal digits, or a sign followed by at least one digit; a negative value needs a leading `-` |
| ConsoleInput.ReadInt | main.cpp:321-323 | `std::cin >> int` always stores a value in [INT_MIN, INT_MAX]: 0 for a token that is not a number, the number itself when it fits, and the nearest bound when it does not |
| ConsoleInput.ReadBool | main.cpp:69-76 | `std::cin >> bool` stores false exactly when the token reads as the integer 0 (a non-number included) |
| ConsoleInput.ReadBoolAnswers | main.cpp:75-76 | "1" is a student and "0" or a word is not; "2" is also stored as true |
| ConsoleInput.NatDigits | main.cpp:321-323 | the decimal digits of a natural number: non-empty, digits only, no leading zero |
| ConsoleInput.DecimalString | main.cpp:321-323 | the decimal spelling of an integer starts with `-` exactly when the integer is negative |
| ConsoleInput.ParseDecimal | main.cpp:321-323 | reading back the decimal spelling of any integer gives that integer |
| ConsoleInput.ReadIntDecimal | main.cpp:73-74 | typing an `int` in decimal stores exactly that `int` |
| ConsoleInput.ReadIntDigit | main.cpp:321-323 | a one-digit token reads as that digit |
| ConsoleInput.ReadIntChoices | main.cpp:326-345 | the tokens "1" to "5" read as the menu cases 1 to 5 |
| Commands.UserRecord | main.cpp:65-84 | the JSON object keeps the name line as typed; the age is what `std::cin >> int` stores for the age item, a C++ `int` that is 0 for a non-number; `is_student` is true exactly when the flag is a non-zero number |
| Commands.UserRecordRoundTrip | main.cpp:65-84 | answering with a name, an `int` age in decimal and 1 or 0 gives the JSON object holding exactly that name, age and flag |
| Commands.ArgCountByCommand | main.cpp:258-305 | each command reads its filename, plus the content (mode 2), the name, age and flag (mode 3), the element text (mode 4) or the file to add (mode 5) for `create`; `exit` and unknown tokens read nothing |
| Commands.DispatchShape | main.cpp:258-313 | one round makes at most two calls, all on the filename it read; none only for `create` or `read` outside modes 2 to 5; a call that can throw is alone in its round |
| Commands.Run | main.cpp:251-315 | the command loop never consumes more input than it is given |
| Commands.FileCommandLoop | main.cpp:251-315 | the loop's trace, items consumed and reason for stopping are exactly those of `Run` over the same input, mode and throwing calls |
| Commands.RunAborts | main.cpp:251-315 | a command whose call throws ends the loop right after its items: its calls are the last in the trace |
| Commands.ThrowEndsTheRun | main.cpp:251-315 | the run ends by an exception exactly when a call in its trace threw; that call is the last one and none before it threw |
| Commands.ExitedAfterExitToken | main.cpp:307-310 | the loop leaves only immediately after consuming an `exit` token |
| Commands.StopIgnoresLaterInput | main.cpp:307-310 | once `exit` is read or a call has thrown, nothing after it is consumed or acted on |
| Commands.RunResumes | main.cpp:253-314 | commands run strictly in input order: more input continues an unfinished run exactly where it stopped |
| Commands.TraceExtends | main.cpp:253-314 | what a run has done is never revised by later input: its trace is a prefix of the longer input's trace |
| Commands.RunComposes | main.cpp:253-314 | input that ends on a complete command is followed by a fresh run over what comes next |
| Commands.OnlyExitPrintsExiting | main.cpp:258-313 | "Exiting..." is produced by the `exit` command and by no other |
| Commands.ExitedIffExiting | main.cpp:307-310 | the loop left by `exit` exactly when "Exiting..." appears in the trace |
| Commands.ExitingOnlyAtTheEnd | main.cpp:307-310 | after `exit`, "Exiting..." is the last entry of the trace and appears nowhere earlier |
| Commands.RunStopsOnlyWhenInputRunsOut | main.cpp:253-256 | apart from `exit` and a call that throws, the loop stops only when the input is used up or the next command's items have not all arrived |
| Commands.UnknownCommandContinues | main.cpp:311-313 | an unrecognised token reads nothing more, makes no adapter call, prints "Unknown command." and the loop goes on |
| Commands.CreateRouting | main.cpp:258-280 | `create` in mode 2 creates the file and appends the content to that same file; in mode 3 it writes the three answers to the filename read, in mode 4 the element text, in mode 5 it archives the file to add; other modes make no call |
| Commands.ReadRouting | main.cpp:282-295 | `read` makes one read call of the mode's format on the filename (file info for ZIP), and none outside modes 2 to 5 |
| Commands.DeleteRouting | main.cpp:297-305 | `delete` removes the ZIP archive exactly in mode 5 and a plain file in every other mode |
| DiskInfo.ToGiB | main.cpp:243-245 | each figure is the whole number of GiB in the byte count, rounded down |
| DiskInfo.MountReportOf | main.cpp:241-246 | a mount point's lines name its path and give capacity, free and available space each as the whole number of GiB in the byte count, rounded down |
| DiskInfo.ReportOf | main.cpp:234-249 | at most one report per mount point; a report that stops names a path whose `space()` failed |
| DiskInfo.PrintDiskInfo | main.cpp:234-249 | the disk report is `ReportOf` over "/", "/boot", "/var/log", "/home" |
| DiskInfo.ReportMounts | main.cpp:237-248 | the loop over the mount points produces exactly `ReportOf`, breaking off where `space()` throws |
| DiskInfo.ReportedExactlyWhenStatvfsSucceeds | main.cpp:238-247 | when no `space()` throws, the report completes and lists a mount point, with its figures, exactly when `statvfs` succeeded for it |
| DiskInfo.ThrowStopsTheReport | main.cpp:237-238 | when `space()` throws for a path, the earlier paths are reported as usual and nothing from that path on |
| TopMenu.FirstRound | main.cpp:321-349 | one choice round reads no more items than remain |
| TopMenu.Menu | main.cpp:319-350 | the menu never consumes more than its input, and any non-empty input produces at least one round |
| TopMenu.MainLoop | main.cpp:317-352 | the loop's rounds, items consumed and termination flag are exactly those of `Menu`, with the disk report taken from the probes |
| TopMenu.MenuRound | main.cpp:321-349 | one pass of the `switch` produces exactly the round `FirstRound` describes |
| TopMenu.MenuNeverExits | main.cpp:319-350 | the menu never exits by itself: every round but the last returns to the prompt; the process ends exactly when the last round is a disk report that threw or a mode whose adapter call threw; otherwise the input ran out, at the prompt or inside a mode |
| TopMenu.MenuComposes | main.cpp:319-350 | after rounds that all returned to the prompt, further input is a fresh menu run appended to the earlier one |
| TopMenu.ChoiceRouting | main.cpp:326-349 | 1 gives the disk report and ends the process if that throws; 2 to 5 run the command loop with the choice as mode, and end the process if a call in it throws; any other integer reports an invalid choice and reads the next choice |
| TopMenu.NotesScenario | main.cpp:264-288 | choosing 2, then `create notes.txt hello` and `read notes.txt`, creates the file, appends "hello" to it, reads it back and waits for the next command, whichever calls would throw |
| TopMenu.NotJsonScenario | main.cpp:289-290 | choosing 3 and reading a file whose JSON parse throws ends the process after that call; the following choice is never read |
| XmlPrinter.Render | main.cpp:122-131 | "Element:" and "Text:" lines start with exactly 2 * depth spaces |
| XmlPrinter.OwnLines | main.cpp:122-132 | a node prints at most two lines about itself, both at its own depth |
| XmlPrinter.PrintXmlElement | main.cpp:119-137 | a null node prints nothing; any other node prints its own lines first |
| XmlPrinter.PrintNode | main.cpp:119-137 | every line of a subtree's walk is an "Element:" or "Text:" line at least as deep as the subtree's root |
| XmlPrinter.PrintChildren | main.cpp:134-136 | the sibling loop prints only lines at least as deep as the children |
| XmlPrinter.ReadXmlFile | main.cpp:139-156 | a failed load prints only the read error; a document without a first child prints only the "No root element" error |
| XmlPrinter.PrintIsPreorder | main.cpp:119-137 | the walk prints exactly each node's own lines in pre-order: parent first, then each child's subtree in sibling order, one level deeper |
| XmlPrinter.PrintChildrenIsPreorder | main.cpp:134-136 | the sibling loop prints the pre-order walks of the children one after another |
| XmlPrinter.PreorderDepths | main.cpp:134-136 | every node below the starting node is visited at a greater depth |
| XmlPrinter.ElementAndTextLinesComeFromNodes | main.cpp:122-132 | an "Element:" line names a node at that depth, and a "Text:" line gives the text of an element at that depth |
| XmlPrinter.RootLinesFirst | main.cpp:119-137 | the starting node's own lines come first and every later line is deeper |
| XmlPrinter.ReadXmlFileOutcome | main.cpp:139-156 | an error is printed exactly when the load fails or there is no first child, and then it is the only line; otherwise the header is followed by the pre-order walk of the first child only |
| XmlPrinter.DeclarationHidesRoot | main.cpp:147-155 | for a document that starts with an XML declaration, only the declaration is printed and the root element never is |
| XmlPrinter.FirstElement | main.cpp:147-151 | the root element is an element among the top-level nodes, and there is none exactly when no top-level node is an element |
| XmlPrinter.ReadXmlRoot | main.cpp:139-156 | the corrected read reports a failed load exactly as the original does |
| XmlPrinter.FirstElementIsFirst | main.cpp:147-151 | only nodes that are not elements precede the root element |
| XmlPrinter.ReadXmlRootOutcome | main.cpp:147-155 | the corrected read prints "No root element" exactly when no top-level node is an element, and otherwise walks the first element, whatever precedes it |

## Left out

- The adapters are not modelled beyond the call they receive. These are
  `createFile`, `writeToFile`, `readFromFile`, `deleteFile`,
  `createJsonFile`, `readJsonFile`, `createXmlFile`, `createZipArchive`,
  `getFileInfo` and `deleteZipArchive`. Each call is an entry in the command
  loop's trace with its arguments. What the call does to the file system,
  its own console lines and its reported errors are I/O, and are not
  modelled. This includes the JSON library, tinyxml2's saving and libzip.
- An adapter call that throws is modelled as its trace entry followed by the
  end of the process. The lines it printed before throwing, and what it left
  on disk (an empty JSON file when `dump` throws), are not modelled.
- Which adapter calls throw is one fixed set for the whole run, like the
  disk queries: a call with the same arguments throws every time or never.
- `readXmlFile` is modelled on its own in `XmlPrinter`. The command loop's
  trace records only that it was called, with which file.
- Parsing an XML file is not modelled. `XmlPrinter` takes the loaded
  document as input: each node's value, whether it is an element, the text
  `GetText()` reports, and its children.
- `extractFileFromZip` is never called from the menu or the command loop,
  and is not part of this model.
- The end of the input is modelled as the run stopping there.
  - At an interactive terminal the program is waiting for more input at
    that point.
  - At end of file every later read fails and the loops would spin forever;
    that is not modelled.
- A failed extraction is not modelled as sticky. After a non-number at the
  menu prompt or for the age, or a student flag other than 0 or 1, C++ sets
  the stream's fail state and every later read fails. The model gives the value C++ stores (0, or the nearest
  bound) and goes on reading the next item.
- `ConsoleInput.ParseInteger` counts a token as a number only when the whole
  token is one. C++ reads a numeric prefix such as the `2` of `2abc`, and
  leaves the rest in the stream for the next read.
- Whitespace splitting is not modelled. Each item is what one `>>` or
  `getline` returns. The `cin.ignore()` calls, which drop the newline after
  a token, are what make this hold for one value per line.
- The prompts, the "Entering ... mode" lines and the wording of the messages
  are not modelled. Lines and trace entries are datatype values.
- The disk queries are one fixed function from path to result, so every
  "1" chosen in a run sees the same file systems.
- The exception thrown by `space()` is modelled as ending the process. Its
  message is not.

## Findings

| source | as written | input that shows it | evidently intended | confidence | as-written member | corrected member |
|---|---|---|---|---|---|---|
| main.cpp:147-155 | `readXmlFile` walks `doc.FirstChild()`, which is the XML declaration or a comment when the file starts with one | a file `<?xml version="1.0"?><Root><Example>hello</Example></Root>`: only `Element: xml version="1.0"` is printed | walk the document's root element, the first top-level element, as the "No root element" message says | medium, not executed | XmlPrinter.DeclarationHidesRoot | XmlPrinter.ReadXmlRootOutcome |

The command loop's trace records only which file was read, not the lines
printed, so nothing else in the model depends on which node is walked.
