# To-do list task store

This project models the in-memory task store of a console to-do list, a C#
program, and proves properties of it in Dafny. It covers two parts:

- `TaskController` keeps an active list and a completed list of tasks.
  - It adds tasks, marks a task as complete and removes a task.
  - It asks the console which task to act on and whether to go ahead.
- `ToDoTask` is the task entity. It has an id, a description and a completion flag.
  - Every task shares two static fields: an id counter that hands out ids, and a due date.

The modules follow the program:

- `Models` (`models.dfy`) is `ToDoTask` and its static fields.
- `Controllers` (`controllers.dfy`) is `TaskController` and the console it reads from.
- `Display` (`display.dfy`) is the task line `TaskDisplayHelper.PrintTasks` writes.
- `Text` (`text.dfy`) holds the .NET string and integer routines the input handling uses.
- `Sequences` (`sequences.dfy`) holds the linked-list removal, over sequences of object references.
- `Wrappers` (`wrappers.dfy`) holds `Option`.

How the model is built:

- **Tasks are objects.** `ToDoTask` is a `class` because `IsCompleted` is changed in place. `LinkedList.Remove` also compares tasks by reference.
  - The class's static fields are one shared `TaskStatics` object that every task points to. So "all tasks report the last due date assigned" is a frame property of the model.
- **The store keeps invariants.** `TaskController` is a class and its methods change its fields.
  - `Valid()` says no task is listed twice, the lists are disjoint, and a task's flag says which list holds it.
  - `IdsFresh()` says ids are unique across both lists and all below the id counter.
- **The console is its unread input.** `Console.input` is a sequence of lines and `ReadLine` consumes one.
  - The two prompt loops are `while` loops. Each is proved equal to a pure function (`SelectTask`, `YesNoLoop`) of the input it started with.
  - A function classifies one line (`ClassifySelectInput`, `ClassifyYesNo`). The lemmas state what each kind of line does.
- **The completion event is a log.** `OnTaskCompleted` is recorded in the ghost sequence `completions`, one entry for each time it fires.
- **Integers are 32 bits.** Ids are `int32`. The unchecked `_idCounter++` wraps from `int.MaxValue` to `int.MinValue` (`Inc32`).

Where the model goes by what the code does rather than by what it appears to do:

- **The constructor call.** `TaskControler.cs:38` calls `new ToDoTask(description)`, but `Task.cs:33` declares only a `(description, dueDate)` constructor. `AddTask` therefore takes the due date as an extra parameter and passes it on.
- **The due-date setter.** `Task.cs:26-27` reads as if it substituted now plus one hour on the first assignment. But its test `_dueDate == null` compares a non-nullable `DateTime` with `null`, which is never true. So the setter always stores the value, and `SetDueDate` states that. `LiftedEqualsNull` models the lifted comparison, and the clock branch is shown unreachable.

## Model

| member | source | states |
|---|---|---|
| Models.Inc32 | CAToDoList/Models/Task.cs:35 | the counter after `_idCounter++` is the old value plus one, wrapping modulo 2^32 into the `int` range |
| Models.Inc32Increases | CAToDoList/Models/Task.cs:35 | below `int.MaxValue` the increment is exactly one, so successive ids strictly increase |
| Models.TaskStatics.constructor | CAToDoList/Models/Task.cs:5-6 | the counter starts at 1 and the due date at `DateTime`'s default |
| Models.TaskStatics.SetIdCounter | CAToDoList/Models/Task.cs:13-16 | the counter becomes exactly `nextId` and the due date is untouched; the constructor then hands out `nextId` as the next id |
| Models.ToDoTask.constructor | CAToDoList/Models/Task.cs:33-39 | the new task's id is the counter's value before the call, the counter advances by one (32-bit), the description is the argument, the task is not completed, and the shared due date is the argument |
| Models.ToDoTask.SetDueDate | CAToDoList/Models/Task.cs:21-31 | the setter always stores the value (its `null` test never holds), leaves the counter alone, and every task sharing the static field then reports that date |
| Models.LiftedEqualsNull | CAToDoList/Models/Task.cs:26 | comparing a `DateTime` with `null` is never true |
| Models.DueDateShared | CAToDoList/Models/Task.cs:21-23 | the getter reads the static field, so two tasks sharing it report the same due date |
| Models.ToDoTask.ToString | CAToDoList/Models/Task.cs:41-44 | the line starts with `[Id] Description ` and ends with a space and the formatted due date, and its length leaves room between the two for exactly the `(Completed)` marker of a completed task and for nothing otherwise; the text between `[` and `]` is the id as `int.ToString` writes it and parses back to the id; `(Completed)` follows `[Id] Description ` exactly when the task is completed |
| Models.RenderPrefix | CAToDoList/Models/Task.cs:43 | the prefix is four characters longer than the id and description together, opens with the id in brackets and closes with the description between single spaces |
| Models.Render | CAToDoList/Models/Task.cs:43 | the line opens with the prefix and closes with a space and the formatted date, and between the two there is room for exactly the `(Completed)` marker when the task is completed and for nothing otherwise |
| Models.BracketedIdReads | CAToDoList/Models/Task.cs:43 | whatever follows `[Id]`, the text between the brackets is the id's decimal form and reads back as the id |
| Models.PrefixShowsId | CAToDoList/Models/Task.cs:43 | whatever follows the prefix, the bracketed part of the line is the id's decimal form and reads back as the id |
| Models.RenderShowsId | CAToDoList/Models/Task.cs:43 | for any description, flag and date, the bracketed part of the rendered line is the id's decimal form and reads back as the id |
| Models.RenderMarksCompletion | CAToDoList/Models/Task.cs:43 | the completion marker sits right after the prefix if and only if the task is completed |
| Display.ListingShowsId | CAToDoList/Controlars/TaskControler.cs:116 | in the line `PrintTasks` lists for a task (`TaskDisplayHelper.cs:19`), the bracketed part is the id's decimal form and reads back as the id |
| Display.ListingShowsStatus | CAToDoList/Controlars/TaskControler.cs:116 | the line `PrintTasks` lists for a task (`TaskDisplayHelper.cs:17-19`) ends in `Done` exactly when the task is completed |
| Display.StatusAtEnd | CAToDoList/Controlars/TaskControler.cs:116 | a line ending in the status word `PrintTasks` writes (`TaskDisplayHelper.cs:17`) ends in `Done` exactly for a completed task, since `Pending` does not |
| Sequences.IndexOf | CAToDoList/Controlars/TaskControler.cs:75 | the position found holds the element, and no earlier position does |
| Sequences.RemoveFirst | CAToDoList/Controlars/TaskControler.cs:75 | `LinkedList.Remove` leaves the list as it was when the element is absent, and otherwise shortens it by one without adding anything |
| Sequences.RemoveFirstSplices | CAToDoList/Controlars/TaskControler.cs:75 | removal cuts out exactly the first occurrence and keeps everything before and after in order |
| Sequences.RemoveFirstNoDuplicates | CAToDoList/Controlars/TaskControler.cs:98-99 | on a duplicate-free list, removal keeps it duplicate-free and takes out that element and no other |
| Sequences.NoDuplicatesAppend | CAToDoList/Controlars/TaskControler.cs:39 | appending an element not yet present keeps a list duplicate-free |
| Text.TrimStartDrops | CAToDoList/Controlars/TaskControler.cs:121 | `TrimStart` keeps a suffix that does not start with white space and drops only white space |
| Text.TrimEndDrops | CAToDoList/Controlars/TaskControler.cs:121 | `TrimEnd` keeps a prefix that does not end with white space and drops only white space |
| Text.TrimEnds | CAToDoList/Controlars/TaskControler.cs:121-123 | a trimmed line is empty exactly when the line was white space only, and otherwise has no white space at either end |
| Text.TrimStartPadded | CAToDoList/Controlars/TaskControler.cs:121 | `TrimStart` removes exactly a leading run of white space before non-white text |
| Text.TrimEndPadded | CAToDoList/Controlars/TaskControler.cs:121 | `TrimEnd` removes exactly a trailing run of white space after non-white text |
| Text.TrimPadded | CAToDoList/Controlars/TaskControler.cs:121 | trimming a word padded with white space on both sides gives back the word |
| Text.TrimIdempotent | CAToDoList/Controlars/TaskControler.cs:121 | trimming twice is the same as trimming once |
| Text.IsNullOrWhiteSpace | CAToDoList/Controlars/TaskControler.cs:32 | a description that is not null is blank exactly when trimming leaves nothing |
| Text.EqualsIgnoreCase | CAToDoList/Controlars/TaskControler.cs:129 | against a lower-case word, the ordinal case-insensitive comparison holds exactly when the lower-cased text is that word |
| Text.LowerCharMatches | CAToDoList/Controlars/TaskControler.cs:129 | for a lower-case letter, lower-casing a character gives it exactly when upper-casing gives its capital |
| Text.LowerEqualsIgnoreCase | CAToDoList/Controlars/TaskControler.cs:129 | comparing the lower-cased text with a lower-case word is the same test as an ordinal case-insensitive comparison |
| Text.NatToDigits | CAToDoList/Models/Task.cs:43 | the decimal form of a number is a non-empty string of digits |
| Text.DigitsRoundTrip | CAToDoList/Controlars/TaskControler.cs:135 | reading back the decimal form of a number gives the number |
| Text.ParseInt32 | CAToDoList/Controlars/TaskControler.cs:135 | `int.TryParse` succeeds only on an optional sign followed by one or more digits (so a bare sign is refused: the last character is a digit), within 32 bits |
| Text.ParseUnsigned | CAToDoList/Controlars/TaskControler.cs:135 | a run of digits, bare or after `+` and leading zeros included, reads as its value when that is at most `int.MaxValue`, and is refused when it is larger |
| Text.ParseNegative | CAToDoList/Controlars/TaskControler.cs:135 | a run of digits after `-` reads as the negated value down to `int.MinValue`, and is refused below it |
| Text.Int32ToString | CAToDoList/Models/Task.cs:43 | the id as it is displayed is non-empty, made of digits and `-`, and has no white space at either end |
| Text.Int32RoundTrip | CAToDoList/Controlars/TaskControler.cs:135 | every `int` written by `int.ToString` is read back by `int.TryParse` as the same value |
| Text.TakeUntil | CAToDoList/Models/Task.cs:43 | the text before the first stop character is a prefix without it, followed by the stop character or the end |
| Text.TakeUntilPrefix | CAToDoList/Models/Task.cs:43 | scanning `a` + stop + `b`, where `a` lacks the stop character, yields `a` |
| Controllers.Console.constructor | CAToDoList/Controlars/TaskControler.cs:121 | the console starts with the given unread lines |
| Controllers.Console.ReadLine | CAToDoList/Controlars/TaskControler.cs:121 | `ReadLine` returns the next line and consumes it, or `null` at the end of input without consuming anything |
| Controllers.FirstWithId | CAToDoList/Controlars/TaskControler.cs:141 | `FirstOrDefault` finds nothing exactly when no task has the id; otherwise it finds a listed task with that id, and no earlier task has it |
| Controllers.ClassifySelectInput | CAToDoList/Controlars/TaskControler.cs:121-148 | a selected task is in the candidate list, its id is the parsed trimmed line, and no earlier candidate has that id (the first match, as `FirstOrDefault`); "not found" means the line parsed to an id that no candidate has |
| Controllers.IsCancelWord | CAToDoList/Controlars/TaskControler.cs:129 | the input cancels exactly when, lower-cased, it is `c` or `cancel` |
| Controllers.SelectStepOrder | CAToDoList/Controlars/TaskControler.cs:121-139 | the trimmed line is examined in the source's order: it is blank exactly when it is white space only; it cancels exactly when it is not blank and is `c`/`cancel` in any case; it is rejected as not numeric exactly when it is neither and `int.TryParse` fails |
| Controllers.SelectLoop | CAToDoList/Controlars/TaskControler.cs:118-149 | the loop reads a prefix of the input; an answer consumes at least one line; running out of input consumes all of it; a selected task is one of the candidates |
| Controllers.SelectTask | CAToDoList/Controlars/TaskControler.cs:106-114 | an empty list gives `null` without reading any input; otherwise the selection reads a prefix of the input, running out consumes all of it, and a selected task is one of the list's |
| Controllers.SelectLoopSkipsRetries | CAToDoList/Controlars/TaskControler.cs:123-146 | blank lines, non-numbers and unknown ids just repeat the prompt and change nothing |
| Controllers.SelectLoopDecidedBy | CAToDoList/Controlars/TaskControler.cs:129-148 | after any retries, the first cancel or known id decides the selection and the rest of the input is left unread |
| Controllers.SelectLoopRunsOut | CAToDoList/Controlars/TaskControler.cs:118-127 | input made only of retries ends in `EndOfInput` |
| Controllers.NumberIsNotCancel | CAToDoList/Controlars/TaskControler.cs:129 | text that starts with a digit or `-` is never taken for `c`/`cancel` |
| Controllers.FirstWithIdFinds | CAToDoList/Controlars/TaskControler.cs:141 | with unique ids, looking up a listed task's id finds that task |
| Controllers.TypedIdSelects | CAToDoList/Controlars/TaskControler.cs:121-148 | typing a candidate's id, with any white space around it, selects that candidate |
| Controllers.DisplayedIdSelects | CAToDoList/Models/Task.cs:43 | typing the id shown in brackets by `ToString` selects that task |
| Controllers.ListedIdSelects | CAToDoList/Controlars/TaskControler.cs:116-148 | typing the id that `PrintTasks` lists in brackets above the prompt selects that task |
| Controllers.BareIdSelects | CAToDoList/Controlars/TaskControler.cs:121-148 | a line holding exactly a candidate's id, as `int.ToString` writes it, selects that candidate |
| Controllers.IdLineSelects | CAToDoList/Controlars/TaskControler.cs:118-148 | a line holding just a candidate's id picks it at once and reads only that line |
| Controllers.LowerTrimBlank | CAToDoList/Controlars/TaskControler.cs:160-166 | the trimmed, lower-cased line is blank exactly when the line is white space only |
| Controllers.ClassifyYesNo | CAToDoList/Controlars/TaskControler.cs:160-171 | a line is yes exactly when, trimmed, it is `y` or `yes` in any case; it is no exactly when it is `n` or `no`; it is blank exactly when it is white space only |
| Controllers.YesNoLoop | CAToDoList/Controlars/TaskControler.cs:157-172 | the loop reads a prefix of the input; an answer consumes at least one line; running out of input consumes all of it |
| Controllers.YesNoLoopSkipsRetries | CAToDoList/Controlars/TaskControler.cs:162-171 | blank and unrecognised answers just repeat the question |
| Controllers.YesNoLoopDecidedBy | CAToDoList/Controlars/TaskControler.cs:157-172 | after any blank or unrecognised answers, the first yes answers true and the first no answers false, and the input after it is left unread |
| Controllers.YesLineConfirms | CAToDoList/Controlars/TaskControler.cs:160-168 | a `y` line answers yes at once |
| Controllers.RemoveFromEither | CAToDoList/Controlars/TaskControler.cs:98-99 | removing a task from both disjoint lists takes it out of the one that held it, leaves the other alone, and keeps the order of the rest |
| Controllers.RemoveKeepsOthers | CAToDoList/Controlars/TaskControler.cs:98-99 | removing a task from both duplicate-free, disjoint lists splices it out of the list holding it, keeping that list's other tasks in order, and leaves the other list as it was; the lists stay duplicate-free and disjoint |
| Controllers.RemoveOutcomeTakesOut | CAToDoList/Controlars/TaskControler.cs:87-99 | after a confirmed removal the picked task came from one of the lists and is spliced out of it, the rest of that list keeping its order, and the other list is unchanged; cancelling, declining or running out of input leaves both lists unchanged; the lists stay duplicate-free and disjoint |
| Controllers.RemoveByIdThenYes | CAToDoList/Controlars/TaskControler.cs:87-99 | typing a task's id and then `y` removes that task from both lists and reads exactly those two lines |
| Controllers.CompleteOutcome | CAToDoList/Controlars/TaskControler.cs:68-80 | completion reads a prefix of the input; a picked task was active, and the event fires exactly once with it; with no pick the lists stay as they were and the event does not fire |
| Controllers.CompleteOutcomeMoves | CAToDoList/Controlars/TaskControler.cs:70-78 | completing only moves a task: the picked task was active and is cut out of the active list, the other active tasks keeping their order, and the completed list becomes the old one with the task appended, the event fires once with it, and the tasks held overall stay the same; with no selection nothing changes and the event does not fire; the lists stay duplicate-free and disjoint |
| Controllers.TaskController.constructor | CAToDoList/Controlars/TaskControler.cs:21-22 | both lists start empty, nothing has completed, and the store invariants hold |
| Controllers.TaskController.GetAllActiveTasks | CAToDoList/Controlars/TaskControler.cs:24 | the result is the active list itself; it lists no task twice and no completed task |
| Controllers.TaskController.GetAllCompletedTasks | CAToDoList/Controlars/TaskControler.cs:25 | the result is the completed list itself; it lists no task twice and only completed tasks |
| Controllers.TaskController.AddTask | CAToDoList/Controlars/TaskControler.cs:30-41 | a null or blank description changes nothing, not even the counter; otherwise exactly one new, uncompleted task with that description and the old counter as its id is appended to the active list; the completed list and the event log are never touched; ids stay unique, and stay below the counter unless it wraps |
| Controllers.TaskController.MarkTaskAsComplete | CAToDoList/Controlars/TaskControler.cs:68-80 | the lists, the event log and the unread input are those `CompleteOutcome` gives for the active list and the input: with no selection nothing changes and the event does not fire; with one, the picked task is flagged completed; no other task's flag and no task's description changes; the store invariants and fresh ids are kept |
| Controllers.TaskController.MoveToCompleted | CAToDoList/Controlars/TaskControler.cs:74-78 | the task is flagged, removed from the active list, appended to the completed list and logged once; the store invariants and fresh ids are kept |
| Controllers.TaskController.RemoveTask | CAToDoList/Controlars/TaskControler.cs:85-101 | the lists and the unread input are those `RemoveOutcome` gives for the candidates (active, then completed) and the input; the event log is unchanged; the store invariants and fresh ids are kept |
| Controllers.TaskController.Unlink | CAToDoList/Controlars/TaskControler.cs:98-99 | `Remove` on both lists takes the task out of both and keeps the store invariants and fresh ids |
| Controllers.TaskController.SelectTaskFromList | CAToDoList/Controlars/TaskControler.cs:106-150 | an empty candidate list gives `null` without reading input; otherwise the reply and the unread input are exactly those of the selection loop |
| Controllers.TaskController.AskYesNo | CAToDoList/Controlars/TaskControler.cs:155-173 | the reply and the unread input are exactly those of the yes/no loop |

## Left out

- Console output is not modelled: the `Display*` helpers, `Console.Write` prompts and colours (`TaskControler.cs:46-63`, `177-203`). They only print.
- `TaskDisplayHelper.PrintTasks` (`TaskDisplayHelper.cs:9-29`) only prints: a title, one line per task, the counts of pending and completed tasks, and a notice when there are none. `Display.ListingLine` models the task line it writes, since the selection prompt reads back the id shown there; the rest is output and is not modelled.
- `Menu` (`Menu.cs`) is not part of this model. It is the interactive menu loop, and it calls `EditTask` and `DisplayAllTasks`, which `TaskControler.cs` does not define.
- `Program.cs` is not part of this model. It is start-up wiring, and the event handler it subscribes only prints.
- File persistence is not part of this model. `LoadTasksFromFile` and `UpdateIdCounterFromFile` are called at start-up, but their source is not included, so no file format is modelled.
- The event's subscribers are not modelled. Firing `OnTaskCompleted` is recorded in the ghost log `completions`, and what a handler does is not.
- End of input differs from the source. `ReadLine` returning `null` makes both prompts repeat forever. The model stops with `EndOfInput` instead, and the caller then does nothing.
- Dates are opaque. `DateTime` is a value the model stores and compares, and `ToString` takes the culture-dependent date formatting as the parameter `formatDate`. The clock read in the due-date setter (`DateTime.Now.AddHours(1)`) can never run, and the model shows that rather than modelling a clock.
- .NET culture rules are approximated:
  - Case mapping covers ASCII letters only.
  - `int.TryParse` and `int.ToString` use a plain optional sign and decimal digits.
  - `int.TryParse`'s acceptance of trailing NUL characters is not modelled.
- Controllers.TaskController.GetAllActiveTasks: returns a snapshot of the active list as a sequence, while the source returns the live `LinkedList` (`TaskControler.cs:24`), so a holder of the result would see later changes; aliasing of the list is not modelled.
- Controllers.TaskController.GetAllCompletedTasks: likewise returns a snapshot, while the source returns the live completed `LinkedList` (`TaskControler.cs:25`).
- Controllers.TaskController.AddTask: keeps "every id is below the counter" only while the counter is below `int.MaxValue`. The unchecked increment then wraps to `int.MinValue`, and the source assumes it never gets there.
- Controllers.TaskController.SelectTaskFromList: the `action` text only labels the prompts, so it is not used.
- Controllers.TaskController.AskYesNo: the `message` is only printed, so it is not used.
