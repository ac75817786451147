/** `TaskController` (CAToDoList/Controlars/TaskControler.cs): the two task
    lists, the operations that change them, and the interactive prompts those
    operations run.  The console is modelled by its input alone: the lines
    still to be read. */
module Controllers {
  import opened Wrappers
  import opened Text
  import opened Sequences
  import opened Models
  import opened Display

  /** The input side of `System.Console`. */
  class Console {
    var input: seq<string>

    constructor (lines: seq<string>)
      ensures input == lines
    {
      input := lines;
    }

    /** `Console.ReadLine()`: the next line, or `null` once input is exhausted. */
    method ReadLine() returns (line: Option<string>)
      modifies this
      ensures old(input) == [] ==> line == None && input == []
      ensures old(input) != [] ==> line == Some(old(input)[0]) && input == old(input)[1..]
    {
      if input == [] {
        line := None;
      } else {
        line := Some(input[0]);
        input := input[1..];
      }
    }
  }

  /** What a prompt returns; `EndOfInput` where the source would keep
      prompting forever because `ReadLine` only returns `null`. */
  datatype Reply<+T> = Answer(value: T) | EndOfInput

  /** A prompt's reply together with the input it leaves unread. */
  datatype Run<+T> = Run(reply: Reply<T>, rest: seq<string>)

  // ---------------------------------------------------------------------------
  // Ids across a collection of tasks

  /** No two different tasks share an id. */
  predicate IdsUnique(s: seq<ToDoTask>) {
    forall a, b :: a in s && b in s && a.Id == b.Id ==> a == b
  }

  predicate IdsBelow(s: seq<ToDoTask>, bound: int32) {
    forall t :: t in s ==> t.Id < bound
  }

  /** `taskList.FirstOrDefault(t => t.Id == id)` */
  function FirstWithId(tasks: seq<ToDoTask>, id: int32): (r: Option<ToDoTask>)
    ensures r.None? <==> forall t :: t in tasks ==> t.Id != id
    ensures r.Some? ==> r.value in tasks && r.value.Id == id
    ensures r.Some? ==> forall t :: t in tasks[..IndexOf(tasks, r.value)] ==> t.Id != id
  {
    if tasks == [] then None
    else if tasks[0].Id == id then Some(tasks[0])
    else
      var r := FirstWithId(tasks[1..], id);
      assert r.Some? ==> tasks[..IndexOf(tasks, r.value)] == [tasks[0]] + tasks[1..][..IndexOf(tasks[1..], r.value)];
      r
  }

  // ---------------------------------------------------------------------------
  // SelectTaskFromList

  /** How one line typed at the selection prompt is handled. */
  datatype SelectStep = Blank | Cancel | NotNumeric | NotFound | Found(task: ToDoTask)
  {
    /** The prompt is shown again. */
    predicate IsRetry() {
      Blank? || NotNumeric? || NotFound?
    }
  }

  /** `c` or `cancel`, compared ignoring case: the text lower-cases to one of
      the two words. */
  predicate IsCancelWord(input: string): (r: bool)
    ensures r <==> ToLower(input) == "c" || ToLower(input) == "cancel"
  {
    assert IsLowerWord("cancel") && IsLowerWord("c");
    EqualsIgnoreCase(input, "cancel") || EqualsIgnoreCase(input, "c")
  }

  /** One pass of the selection loop's body, on the line read: trim, then test
      for blank input, for `c`/`cancel`, for an integer, for a known id. */
  function ClassifySelectInput(line: string, tasks: seq<ToDoTask>): (step: SelectStep)
    ensures step.Found? ==> step.task in tasks && ParseInt32(Trim(line)) == Some(step.task.Id)
    ensures step.Found? ==> forall t :: t in tasks[..IndexOf(tasks, step.task)] ==> t.Id != step.task.Id
    ensures step.NotFound? ==>
              ParseInt32(Trim(line)).Some? && forall t :: t in tasks ==> Some(t.Id) != ParseInt32(Trim(line))
  {
    var input := Trim(line);
    if IsWhiteSpaceOnly(input) then Blank
    else if IsCancelWord(input) then Cancel
    else match ParseInt32(input)
      case None => NotNumeric
      case Some(taskId) =>
        match FirstWithId(tasks, taskId)
        case None => NotFound
        case Some(task) => Found(task)
  }

  /** The tests are made in order on the trimmed line: blank input first,
      then `c`/`cancel`, then the number format, then the id. */
  lemma SelectStepOrder(line: string, tasks: seq<ToDoTask>)
    ensures ClassifySelectInput(line, tasks) == Blank <==> IsWhiteSpaceOnly(line)
    ensures ClassifySelectInput(line, tasks) == Cancel
            <==> !IsWhiteSpaceOnly(line) && IsCancelWord(Trim(line))
    ensures ClassifySelectInput(line, tasks) == NotNumeric
            <==> !IsWhiteSpaceOnly(line) && !IsCancelWord(Trim(line)) && ParseInt32(Trim(line)).None?
  {
    TrimEnds(line);
    assert IsWhiteSpaceOnly(Trim(line)) <==> Trim(line) == [] by {
      if Trim(line) != [] {
        assert !IsWhiteSpace(Trim(line)[0]);
      }
    }
  }

  /** The selection loop on the given lines: the task chosen, `null` for a
      cancellation, and the lines left unread. */
  function SelectLoop(tasks: seq<ToDoTask>, lines: seq<string>): (run: Run<ToDoTask?>)
    ensures |run.rest| <= |lines| && run.rest == lines[|lines| - |run.rest|..]
    ensures run.reply.EndOfInput? ==> run.rest == []
    ensures run.reply.Answer? ==> |run.rest| < |lines|
    ensures run.reply.Answer? && run.reply.value != null ==> run.reply.value in tasks
    decreases |lines|
  {
    if lines == [] then Run(EndOfInput, [])
    else match ClassifySelectInput(lines[0], tasks)
      case Cancel => Run(Answer(null), lines[1..])
      case Found(task) => Run(Answer(task), lines[1..])
      case _ => SelectLoop(tasks, lines[1..])
  }

  /** `SelectTaskFromList`: no prompt at all for an empty list. */
  function SelectTask(tasks: seq<ToDoTask>, lines: seq<string>): (run: Run<ToDoTask?>)
    ensures tasks == [] ==> run == Run(Answer(null), lines)
    ensures |run.rest| <= |lines| && run.rest == lines[|lines| - |run.rest|..]
    ensures run.reply.EndOfInput? ==> run.rest == []
    ensures run.reply.Answer? && run.reply.value != null ==> run.reply.value in tasks
  {
    if tasks == [] then Run(Answer(null), lines) else SelectLoop(tasks, lines)
  }

  /** The task a selection returned, if it returned one. */
  function Picked(r: Reply<ToDoTask?>): Option<ToDoTask> {
    if r.Answer? && r.value != null then Some(r.value) else None
  }

  /** Lines that only make the prompt repeat are consumed without effect. */
  lemma {:induction false} SelectLoopSkipsRetries(tasks: seq<ToDoTask>, retries: seq<string>, rest: seq<string>)
    requires forall i :: 0 <= i < |retries| ==> ClassifySelectInput(retries[i], tasks).IsRetry()
    ensures SelectLoop(tasks, retries + rest) == SelectLoop(tasks, rest)
  {
    if retries != [] {
      assert (retries + rest)[0] == retries[0];
      assert (retries + rest)[1..] == retries[1..] + rest;
      SelectLoopSkipsRetries(tasks, retries[1..], rest);
    } else {
      assert retries + rest == rest;
    }
  }

  /** The selection is decided by the first line that is not a retry: a
      cancellation returns `null`, a known id returns its task. */
  lemma SelectLoopDecidedBy(tasks: seq<ToDoTask>, retries: seq<string>, line: string, rest: seq<string>)
    requires forall i :: 0 <= i < |retries| ==> ClassifySelectInput(retries[i], tasks).IsRetry()
    requires !ClassifySelectInput(line, tasks).IsRetry()
    ensures var step := ClassifySelectInput(line, tasks);
            SelectLoop(tasks, retries + [line] + rest)
              == Run(Answer(if step.Found? then step.task else null), rest)
  {
    assert retries + [line] + rest == retries + ([line] + rest);
    SelectLoopSkipsRetries(tasks, retries, [line] + rest);
    assert ([line] + rest)[1..] == rest;
  }

  /** Input made only of retries runs out without a selection. */
  lemma SelectLoopRunsOut(tasks: seq<ToDoTask>, retries: seq<string>)
    requires forall i :: 0 <= i < |retries| ==> ClassifySelectInput(retries[i], tasks).IsRetry()
    ensures SelectLoop(tasks, retries) == Run(EndOfInput, [])
  {
    assert retries + [] == retries;
    SelectLoopSkipsRetries(tasks, retries, []);
  }

  /** Text that starts like a number is never a cancellation. */
  lemma NumberIsNotCancel(s: string)
    requires s != [] && (IsDigit(s[0]) || s[0] == '-')
    ensures !IsCancelWord(s)
  {
    assert ToUpperChar(s[0]) == s[0];
    assert ToUpperChar("cancel"[0]) == 'C' && ToUpperChar("c"[0]) == 'C';
  }

  /** With unique ids, looking up a task's id finds that task. */
  lemma FirstWithIdFinds(tasks: seq<ToDoTask>, t: ToDoTask)
    requires t in tasks && IdsUnique(tasks)
    ensures FirstWithId(tasks, t.Id) == Some(t)
  {
  }

  /** Typing a task's id, with any white space around it, selects that task
      when no other candidate has the same id. */
  lemma TypedIdSelects(tasks: seq<ToDoTask>, t: ToDoTask, before: string, after: string)
    requires t in tasks && IdsUnique(tasks)
    requires IsWhiteSpaceOnly(before) && IsWhiteSpaceOnly(after)
    ensures ClassifySelectInput(before + Int32ToString(t.Id) + after, tasks) == Found(t)
  {
    var digits := Int32ToString(t.Id);
    TrimPadded(before, digits, after);
    assert !IsWhiteSpaceOnly(digits) by {
      assert !IsWhiteSpace(digits[0]);
    }
    NumberIsNotCancel(digits);
    Int32RoundTrip(t.Id);
    FirstWithIdFinds(tasks, t);
  }

  /** The id `PrintTasks` shows between brackets, in the list printed above
      the selection prompt, selects the task. */
  lemma ListedIdSelects(tasks: seq<ToDoTask>, t: ToDoTask)
    requires t in tasks && IdsUnique(tasks)
    ensures ClassifySelectInput(BracketedId(ListingLine(t.Id, t.Description, t.IsCompleted)), tasks) == Found(t)
  {
    ListingShowsId(t.Id, t.Description, t.IsCompleted);
    BareIdSelects(tasks, t);
  }

  /** A line holding exactly a candidate's id selects it. */
  lemma BareIdSelects(tasks: seq<ToDoTask>, t: ToDoTask)
    requires t in tasks && IdsUnique(tasks)
    ensures ClassifySelectInput(Int32ToString(t.Id), tasks) == Found(t)
  {
    var digits := Int32ToString(t.Id);
    var padded := "" + digits + "";
    assert padded == digits;
    TypedIdSelects(tasks, t, "", "");
    assert ClassifySelectInput(padded, tasks) == Found(t);
  }

  /** The id shown between brackets by `ToString` selects the task. */
  lemma DisplayedIdSelects(tasks: seq<ToDoTask>, t: ToDoTask, formatDate: DateTime -> string)
    requires t in tasks && IdsUnique(tasks)
    ensures ClassifySelectInput(BracketedId(t.ToString(formatDate)), tasks) == Found(t)
  {
    BareIdSelects(tasks, t);
  }

  // ---------------------------------------------------------------------------
  // AskYesNo

  /** How one line typed at a yes/no prompt is handled. */
  datatype YesNoStep = BlankAnswer | Yes | No | Unrecognised

  /** One pass of `AskYesNo`'s loop body: trim, lower-case, then compare.  So
      `y`/`yes` and `n`/`no` in any letter case, with any white space around
      them, are the only answers, and blank input is not one. */
  function ClassifyYesNo(line: string): (step: YesNoStep)
    ensures step == Yes <==> EqualsIgnoreCase(Trim(line), "y") || EqualsIgnoreCase(Trim(line), "yes")
    ensures step == No <==> EqualsIgnoreCase(Trim(line), "n") || EqualsIgnoreCase(Trim(line), "no")
    ensures step == BlankAnswer <==> IsWhiteSpaceOnly(line)
  {
    LowerTrimBlank(line);
    assert IsLowerWord("y") && IsLowerWord("yes") && IsLowerWord("n") && IsLowerWord("no");
    var input := ToLower(Trim(line));
    assert IsWhiteSpaceOnly(input) && input != [] ==> IsWhiteSpace(input[0]);
    assert "y"[0] == 'y' && "yes"[0] == 'y' && "n"[0] == 'n' && "no"[0] == 'n';
    assert !IsWhiteSpace('y') && !IsWhiteSpace('n');
    if IsWhiteSpaceOnly(input) then BlankAnswer
    else if input == "y" || input == "yes" then Yes
    else if input == "n" || input == "no" then No
    else Unrecognised
  }

  /** Lower-casing keeps trimmed text blank exactly when it was empty. */
  lemma LowerTrimBlank(line: string)
    ensures IsWhiteSpaceOnly(ToLower(Trim(line))) <==> IsWhiteSpaceOnly(line)
  {
    var t := Trim(line);
    TrimEnds(line);
    if t != [] {
      assert !IsWhiteSpace(ToLower(t)[0]);
    }
  }

  /** `AskYesNo` on the given lines: the answer and the lines left unread. */
  function YesNoLoop(lines: seq<string>): (run: Run<bool>)
    ensures |run.rest| <= |lines| && run.rest == lines[|lines| - |run.rest|..]
    ensures run.reply.EndOfInput? ==> run.rest == []
    ensures run.reply.Answer? ==> |run.rest| < |lines|
    decreases |lines|
  {
    if lines == [] then Run(EndOfInput, [])
    else match ClassifyYesNo(lines[0])
      case Yes => Run(Answer(true), lines[1..])
      case No => Run(Answer(false), lines[1..])
      case _ => YesNoLoop(lines[1..])
  }

  /** Blank and unrecognised answers are consumed without effect. */
  lemma {:induction false} YesNoLoopSkipsRetries(retries: seq<string>, rest: seq<string>)
    requires forall i :: 0 <= i < |retries| ==> ClassifyYesNo(retries[i]) in {BlankAnswer, Unrecognised}
    ensures YesNoLoop(retries + rest) == YesNoLoop(rest)
  {
    if retries != [] {
      assert (retries + rest)[0] == retries[0];
      assert (retries + rest)[1..] == retries[1..] + rest;
      YesNoLoopSkipsRetries(retries[1..], rest);
    } else {
      assert retries + rest == rest;
    }
  }

  // ---------------------------------------------------------------------------
  // Removal from one of two lists

  /** When a task is in one of two duplicate-free, disjoint lists, removing it
      from both takes it out of the list that held it, leaves the other list
      as it was, and keeps the order of everything else. */
  lemma RemoveFromEither(a: seq<ToDoTask>, c: seq<ToDoTask>, t: ToDoTask)
    requires NoDuplicates(a) && NoDuplicates(c) && Disjoint(a, c)
    requires t in a + c
    ensures t !in RemoveFirst(a, t) && t !in RemoveFirst(c, t)
    ensures t in a ==>
              RemoveFirst(c, t) == c && RemoveFirst(a, t) == a[..IndexOf(a, t)] + a[IndexOf(a, t) + 1..]
    ensures t in c ==>
              RemoveFirst(a, t) == a && RemoveFirst(c, t) == c[..IndexOf(c, t)] + c[IndexOf(c, t) + 1..]
    ensures |RemoveFirst(a, t)| + |RemoveFirst(c, t)| == |a| + |c| - 1
  {
    RemoveFirstNoDuplicates(a, t);
    RemoveFirstNoDuplicates(c, t);
    if t in a {
      RemoveFirstSplices(a, t);
    } else {
      RemoveFirstSplices(c, t);
    }
  }

  /** The task `MarkTaskAsComplete` picks, the two lists, the tasks the event
      is fired with, and the unread input afterwards. */
  datatype Completion = Completion(picked: Option<ToDoTask>, active: seq<ToDoTask>, completed: seq<ToDoTask>,
                                   fired: seq<ToDoTask>, rest: seq<string>)

  /** What `MarkTaskAsComplete` leaves: nothing changes unless an active task
      is picked; then it moves from the active list to the end of the
      completed list and the event fires once with it. */
  function CompleteOutcome(active: seq<ToDoTask>, completed: seq<ToDoTask>, lines: seq<string>): (r: Completion)
    ensures |r.rest| <= |lines| && r.rest == lines[|lines| - |r.rest|..]
    ensures r.picked.Some? ==> r.picked.value in active
    ensures r.fired == (if r.picked.Some? then [r.picked.value] else [])
    ensures r.picked.None? ==> r.active == active && r.completed == completed
  {
    var run := SelectTask(active, lines);
    match Picked(run.reply)
    case None => Completion(None, active, completed, [], run.rest)
    case Some(task) => Completion(Some(task), RemoveFirst(active, task), completed + [task], [task], run.rest)
  }

  /** On duplicate-free, disjoint lists completion only moves a task: the picked
      task leaves the active list, where it was, and arrives in the completed
      list; the tasks held overall stay the same, and the lists stay
      duplicate-free and disjoint. */
  lemma CompleteOutcomeMoves(active: seq<ToDoTask>, completed: seq<ToDoTask>, lines: seq<string>)
    requires NoDuplicates(active) && NoDuplicates(completed) && Disjoint(active, completed)
    ensures var out := CompleteOutcome(active, completed, lines);
            NoDuplicates(out.active) && NoDuplicates(out.completed) && Disjoint(out.active, out.completed)
            && (forall u :: u in out.active + out.completed <==> u in active + completed)
            && |out.active| + |out.completed| == |active| + |completed|
            && |out.rest| <= |lines| && out.rest == lines[|lines| - |out.rest|..]
    ensures var out := CompleteOutcome(active, completed, lines);
            if out.picked.Some? then
              out.picked.value in active && out.picked.value !in out.active
              && out.active == active[..IndexOf(active, out.picked.value)] + active[IndexOf(active, out.picked.value) + 1..]
              && out.completed == completed + [out.picked.value]
              && out.fired == [out.picked.value]
            else
              out.active == active && out.completed == completed && out.fired == []
  {
    var run := SelectTask(active, lines);
    match Picked(run.reply)
    case None =>
    case Some(task) =>
      assert CompleteOutcome(active, completed, lines)
        == Completion(Some(task), RemoveFirst(active, task), completed + [task], [task], run.rest);
      RemoveFirstNoDuplicates(active, task);
      RemoveFirstSplices(active, task);
      NoDuplicatesAppend(completed, task);
  }

  /** The two lists and the unread input after `RemoveTask`. */
  datatype Removal = Removal(active: seq<ToDoTask>, completed: seq<ToDoTask>, rest: seq<string>)

  /** What `RemoveTask` leaves: nothing changes unless a task is picked from
      active-then-completed and the answer is yes; then that task is taken
      out of both lists. */
  function RemoveOutcome(active: seq<ToDoTask>, completed: seq<ToDoTask>, lines: seq<string>): Removal {
    RemovePicked(active, completed, SelectTask(active + completed, lines))
  }

  /** `RemoveTask` after the selection prompt. */
  function RemovePicked(active: seq<ToDoTask>, completed: seq<ToDoTask>, pick: Run<ToDoTask?>): Removal {
    match Picked(pick.reply)
    case None => Removal(active, completed, pick.rest)
    case Some(task) => RemoveConfirmed(active, completed, task, YesNoLoop(pick.rest))
  }

  /** `RemoveTask` after the confirmation prompt. */
  function RemoveConfirmed(active: seq<ToDoTask>, completed: seq<ToDoTask>, task: ToDoTask, answer: Run<bool>): Removal {
    if answer.reply == Answer(true) then
      Removal(RemoveFirst(active, task), RemoveFirst(completed, task), answer.rest)
    else
      Removal(active, completed, answer.rest)
  }

  /** On duplicate-free, disjoint lists a confirmed removal takes out exactly
      the picked task, which came from one of the lists, and keeps both lists
      duplicate-free and disjoint; any other outcome leaves the lists alone. */
  lemma RemoveOutcomeTakesOut(active: seq<ToDoTask>, completed: seq<ToDoTask>, lines: seq<string>)
    requires NoDuplicates(active) && NoDuplicates(completed) && Disjoint(active, completed)
    ensures var r := RemoveOutcome(active, completed, lines);
            NoDuplicates(r.active) && NoDuplicates(r.completed) && Disjoint(r.active, r.completed)
            && IsSuffix(r.rest, lines)
    ensures var r := RemoveOutcome(active, completed, lines);
            var pick := SelectTask(active + completed, lines);
            var picked := Picked(pick.reply);
            if picked.Some? && YesNoLoop(pick.rest).reply == Answer(true) then
              picked.value in active + completed
              && |r.active| + |r.completed| == |active| + |completed| - 1
              && (forall u :: u in r.active + r.completed <==> u in active + completed && u != picked.value)
              && (picked.value in active ==>
                    r.completed == completed
                    && r.active == active[..IndexOf(active, picked.value)] + active[IndexOf(active, picked.value) + 1..])
              && (picked.value in completed ==>
                    r.active == active
                    && r.completed == completed[..IndexOf(completed, picked.value)] + completed[IndexOf(completed, picked.value) + 1..])
            else
              r.active == active && r.completed == completed
  {
    var pick := SelectTask(active + completed, lines);
    var r := RemoveOutcome(active, completed, lines);
    match Picked(pick.reply)
    case None =>
      assert r == Removal(active, completed, pick.rest);
      assert IsSuffix(r.rest, lines);
    case Some(task) =>
      var answer := YesNoLoop(pick.rest);
      assert task in active + completed;
      assert r == RemoveConfirmed(active, completed, task, answer);
      SuffixOfSuffix(lines, pick.rest, answer.rest);
      assert r.rest == answer.rest;
      if answer.reply == Answer(true) {
        assert r == Removal(RemoveFirst(active, task), RemoveFirst(completed, task), answer.rest);
        RemoveKeepsOthers(active, completed, task);
      } else {
        assert r == Removal(active, completed, answer.rest);
      }
  }

  /** Taking a task out of both duplicate-free, disjoint lists leaves every
      other task held, and the lists duplicate-free and disjoint. */
  lemma RemoveKeepsOthers(active: seq<ToDoTask>, completed: seq<ToDoTask>, task: ToDoTask)
    requires NoDuplicates(active) && NoDuplicates(completed) && Disjoint(active, completed)
    requires task in active + completed
    ensures var a := RemoveFirst(active, task); var c := RemoveFirst(completed, task);
            NoDuplicates(a) && NoDuplicates(c) && Disjoint(a, c)
            && |a| + |c| == |active| + |completed| - 1
            && (forall u :: u in a + c <==> u in active + completed && u != task)
            && (task in active ==> c == completed && a == active[..IndexOf(active, task)] + active[IndexOf(active, task) + 1..])
            && (task in completed ==> a == active && c == completed[..IndexOf(completed, task)] + completed[IndexOf(completed, task) + 1..])
  {
    RemoveFirstNoDuplicates(active, task);
    RemoveFirstNoDuplicates(completed, task);
    RemoveFromEither(active, completed, task);
  }

  /** `rest` is what is left of `lines` once a prefix has been read. */
  predicate IsSuffix(rest: seq<string>, lines: seq<string>) {
    |rest| <= |lines| && rest == lines[|lines| - |rest|..]
  }

  /** A suffix of a suffix of `lines` is a suffix of `lines`. */
  lemma SuffixOfSuffix(lines: seq<string>, mid: seq<string>, rest: seq<string>)
    requires IsSuffix(mid, lines) && IsSuffix(rest, mid)
    ensures IsSuffix(rest, lines)
  {
  }

  /** A line holding just a task's id picks that task straight away. */
  lemma IdLineSelects(tasks: seq<ToDoTask>, t: ToDoTask, rest: seq<string>)
    requires t in tasks && IdsUnique(tasks)
    ensures SelectTask(tasks, [Int32ToString(t.Id)] + rest) == Run(Answer(t), rest)
  {
    BareIdSelects(tasks, t);
    var lines := [Int32ToString(t.Id)] + rest;
    assert lines[0] == Int32ToString(t.Id) && lines[1..] == rest;
  }

  /** After any blank or unrecognised answers, the first yes or no decides
      the reply, and the input after it is left unread. */
  lemma YesNoLoopDecidedBy(retries: seq<string>, line: string, rest: seq<string>)
    requires forall i :: 0 <= i < |retries| ==> ClassifyYesNo(retries[i]) in {BlankAnswer, Unrecognised}
    requires ClassifyYesNo(line) in {Yes, No}
    ensures YesNoLoop(retries + [line] + rest) == Run(Answer(ClassifyYesNo(line) == Yes), rest)
  {
    assert retries + [line] + rest == retries + ([line] + rest);
    YesNoLoopSkipsRetries(retries, [line] + rest);
    assert ([line] + rest)[0] == line && ([line] + rest)[1..] == rest;
  }

  /** A line `y` confirms straight away. */
  lemma YesLineConfirms(rest: seq<string>)
    ensures YesNoLoop(["y"] + rest) == Run(Answer(true), rest)
  {
    assert !IsWhiteSpace("y"[0]);
    TrimPadded("", "y", "");
    assert "" + "y" + "" == "y";
    assert ToLower("y") == "y";
    assert ClassifyYesNo("y") == Yes;
    assert (["y"] + rest)[0] == "y" && (["y"] + rest)[1..] == rest;
  }

  /** Typing a task's id and then `y` removes that task and reads exactly
      those two lines. */
  lemma RemoveByIdThenYes(active: seq<ToDoTask>, completed: seq<ToDoTask>, t: ToDoTask, rest: seq<string>)
    requires t in active + completed && IdsUnique(active + completed)
    ensures RemoveOutcome(active, completed, [Int32ToString(t.Id), "y"] + rest)
            == Removal(RemoveFirst(active, t), RemoveFirst(completed, t), rest)
  {
    assert [Int32ToString(t.Id), "y"] + rest == [Int32ToString(t.Id)] + (["y"] + rest);
    IdLineSelects(active + completed, t, ["y"] + rest);
    YesLineConfirms(rest);
  }

  // ---------------------------------------------------------------------------
  // The store

  /** The static class `TaskController`: its two lists, the `OnTaskCompleted`
      event (recorded as the tasks it was fired with), the `ToDoTask` static
      fields and the console it prompts on. */
  class TaskController {
    var active: seq<ToDoTask>
    var completed: seq<ToDoTask>
    /** Every task `OnTaskCompleted` was invoked with, in order. */
    ghost var completions: seq<ToDoTask>
    const statics: TaskStatics
    const console: Console

    /** What the operations keep: each task is in at most one list and at most
        once, its `IsCompleted` flag says which list, and all tasks share one
        set of static fields. */
    ghost predicate Valid()
      reads this, active, completed
    {
      NoDuplicates(active) && NoDuplicates(completed) && Disjoint(active, completed)
      && (forall t :: t in active ==> !t.IsCompleted)
      && (forall t :: t in completed ==> t.IsCompleted)
      && (forall t :: t in active + completed ==> t.statics == statics)
    }

    /** Ids are distinct across both lists and all below the id counter, so
        the next task gets an unused id. */
    ghost predicate IdsFresh()
      reads this, statics
    {
      IdsUnique(active + completed) && IdsBelow(active + completed, statics.idCounter)
    }

    /** Both lists start empty. */
    constructor (statics: TaskStatics, console: Console)
      ensures this.statics == statics && this.console == console
      ensures active == [] && completed == [] && completions == []
      ensures Valid() && IdsFresh()
    {
      this.statics := statics;
      this.console := console;
      active := [];
      completed := [];
      completions := [];
    }

    /** `GetAllActiveTasks()` */
    function GetAllActiveTasks(): (r: seq<ToDoTask>)
      reads this, active, completed
      requires Valid()
      ensures r == active
      ensures NoDuplicates(r) && forall t :: t in r ==> !t.IsCompleted
    {
      active
    }

    /** `GetAllCompletedTasks()` */
    function GetAllCompletedTasks(): (r: seq<ToDoTask>)
      reads this, active, completed
      requires Valid()
      ensures r == completed
      ensures NoDuplicates(r) && forall t :: t in r ==> t.IsCompleted
    {
      completed
    }

    /** `AddTask(description)`; the due date the source never passes is a
        parameter. */
    method AddTask(description: Option<string>, dueDate: DateTime)
      requires Valid()
      modifies this, statics
      ensures Valid()
      ensures completed == old(completed) && completions == old(completions)
      ensures IsNullOrWhiteSpace(description) ==>
                active == old(active) && statics.idCounter == old(statics.idCounter)
                && statics.dueDate == old(statics.dueDate)
      ensures !IsNullOrWhiteSpace(description) ==>
                |active| == |old(active)| + 1 && active[..|old(active)|] == old(active)
                && fresh(active[|old(active)|])
                && active[|old(active)|].Id == old(statics.idCounter)
                && active[|old(active)|].Description == description.value
                && !active[|old(active)|].IsCompleted
                && statics.idCounter == Inc32(old(statics.idCounter))
                && statics.dueDate == dueDate
      ensures old(IdsFresh()) ==> IdsUnique(active + completed)
      ensures old(IdsFresh()) && old(statics.idCounter) as int < MaxInt32 ==> IdsFresh()
    {
      if IsNullOrWhiteSpace(description) {
        return;
      }
      var task := new ToDoTask(statics, description.value, dueDate);
      NoDuplicatesAppend(active, task);
      active := active + [task];
    }

    /** `MarkTaskAsComplete()`: select an active task; if one is chosen, flag
        it, move it from the active list to the end of the completed list, and fire
        the event with it. */
    method MarkTaskAsComplete()
      requires Valid()
      modifies this, console, active
      ensures Valid()
      ensures var out := CompleteOutcome(old(active), old(completed), old(console.input));
              active == out.active && completed == out.completed
              && completions == old(completions) + out.fired && console.input == out.rest
              && (out.picked.Some? ==> out.picked.value.IsCompleted)
      ensures forall t :: t in old(active) && CompleteOutcome(old(active), old(completed), old(console.input)).picked != Some(t)
                ==> t.IsCompleted == old(t.IsCompleted) && t.Description == old(t.Description)
      ensures forall t :: t in old(active) ==> t.Description == old(t.Description)
      ensures old(IdsFresh()) ==> IdsFresh()
    {
      ghost var before, lines := (active, completed), console.input;
      var reply := SelectTaskFromList(active, "complete");
      ghost var out := CompleteOutcome(before.0, before.1, lines);
      assert out.picked == Picked(reply) && out.rest == console.input;
      if Picked(reply).None? {
        return;
      }
      var task := Picked(reply).value;
      ghost var others := set t | t in active && t != task;
      MoveToCompleted(task);
      assert forall t :: t in others ==> t.IsCompleted == old(t.IsCompleted) && t.Description == old(t.Description);
    }

    /** Lines 74-78 of `MarkTaskAsComplete`: flag the task, unlink it from the
        active list, append it to the completed list and fire `OnTaskCompleted`. */
    method MoveToCompleted(task: ToDoTask)
      requires Valid() && task in active
      modifies this, task
      ensures Valid()
      ensures task.IsCompleted && task.Description == old(task.Description)
      ensures active == RemoveFirst(old(active), task) && completed == old(completed) + [task]
      ensures completions == old(completions) + [task]
      ensures old(IdsFresh()) ==> IdsFresh()
    {
      ghost var before := active + completed;
      task.IsCompleted := true;
      RemoveFirstNoDuplicates(active, task);
      active := RemoveFirst(active, task);
      NoDuplicatesAppend(completed, task);
      completed := completed + [task];
      completions := completions + [task];
      assert forall t :: t in active + completed ==> t in before;
    }

    /** `RemoveTask()`: select from active then completed, ask for
        confirmation, and remove the task from both lists. */
    method RemoveTask()
      requires Valid()
      modifies this, console
      ensures Valid()
      ensures completions == old(completions)
      ensures Removal(active, completed, console.input)
              == RemoveOutcome(old(active), old(completed), old(console.input))
      ensures old(IdsFresh()) ==> IdsFresh()
    {
      ghost var before, lines := (active, completed), console.input;
      var combined := active + completed;
      var reply := SelectTaskFromList(combined, "remove");
      assert RemoveOutcome(before.0, before.1, lines) == RemovePicked(before.0, before.1, Run(reply, console.input));
      if Picked(reply).None? {
        return;
      }
      var task := Picked(reply).value;
      ghost var pickRest := console.input;
      var confirmed := AskYesNo("Are you sure you want to delete \"" + task.Description + "\"? (y/n): ");
      assert RemovePicked(before.0, before.1, Run(reply, pickRest))
             == RemoveConfirmed(before.0, before.1, task, Run(confirmed, console.input));
      if confirmed != Answer(true) {
        return;
      }
      Unlink(task);
    }

    /** Lines 98-99 of `RemoveTask`: `Remove` on both lists. */
    method Unlink(task: ToDoTask)
      requires Valid() && task in active + completed
      modifies this
      ensures Valid()
      ensures active == RemoveFirst(old(active), task) && completed == RemoveFirst(old(completed), task)
      ensures task !in active && task !in completed
      ensures completions == old(completions)
      ensures old(IdsFresh()) ==> IdsFresh()
    {
      RemoveFromEither(active, completed, task);
      RemoveFirstNoDuplicates(active, task);
      RemoveFirstNoDuplicates(completed, task);
      ghost var before := active + completed;
      active := RemoveFirst(active, task);
      completed := RemoveFirst(completed, task);
      assert forall t :: t in active + completed ==> t in before;
    }

    /** `SelectTaskFromList(tasks, action)`; `action` only labels the prompts. */
    method SelectTaskFromList(tasks: seq<ToDoTask>, action: string) returns (r: Reply<ToDoTask?>)
      modifies console
      ensures tasks == [] ==> r == Answer(null) && console.input == old(console.input)
      ensures Run(r, console.input) == SelectTask(tasks, old(console.input))
    {
      if tasks == [] {
        return Answer(null);
      }
      while true
        invariant SelectLoop(tasks, console.input) == SelectLoop(tasks, old(console.input))
        decreases |console.input|
      {
        var line := console.ReadLine();
        if line.None? {
          return EndOfInput;
        }
        var step := ClassifySelectInput(line.value, tasks);
        if step.Cancel? {
          return Answer(null);
        }
        if step.Found? {
          return Answer(step.task);
        }
      }
    }

    /** `AskYesNo(message)`; `message` is only printed. */
    method AskYesNo(message: string) returns (r: Reply<bool>)
      modifies console
      ensures Run(r, console.input) == YesNoLoop(old(console.input))
    {
      while true
        invariant YesNoLoop(console.input) == YesNoLoop(old(console.input))
        decreases |console.input|
      {
        var line := console.ReadLine();
        if line.None? {
          return EndOfInput;
        }
        var step := ClassifyYesNo(line.value);
        if step == Yes {
          return Answer(true);
        }
        if step == No {
          return Answer(false);
        }
      }
    }
  }
}
