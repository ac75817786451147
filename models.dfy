/** The `ToDoTask` entity (CAToDoList/Models/Task.cs) together with the two
    static fields it keeps for all tasks: the id counter and the due date. */
module Models {
  import opened Wrappers
  import opened Text

  /** `System.DateTime`, kept opaque: the model only stores due dates. */
  datatype DateTime = DateTime(ticks: int)

  /** `default(DateTime)`, the starting value of a static `DateTime` field. */
  const MinValue: DateTime := DateTime(0)

  /** `DateTime` is a value type, so comparing one with `null` first lifts it to
      `DateTime?`; the lifted value always holds a date. */
  function Lift(d: DateTime): Option<DateTime> {
    Some(d)
  }

  /** `d == null` on a `DateTime`: never true. */
  predicate LiftedEqualsNull(d: DateTime): (r: bool)
    ensures !r
  {
    Lift(d) == None
  }

  /** `x + 1` in unchecked 32-bit arithmetic: two's-complement wrap-around. */
  function Inc32(x: int32): (r: int32)
    ensures r as int == (x as int - MinInt32 + 1) % 0x1_0000_0000 + MinInt32
  {
    if x as int == MaxInt32 then MinInt32 as int32 else x + 1
  }

  /** Below the largest value, the counter moves strictly upwards by one. */
  lemma Inc32Increases(x: int32)
    requires x as int < MaxInt32
    ensures Inc32(x) == x + 1 && Inc32(x) > x
  {
  }

  /** The static state of the `ToDoTask` class: `_idCounter` and `_dueDate`.
      Every task holds a reference to one shared object of this class. */
  class TaskStatics {
    var idCounter: int32
    var dueDate: DateTime

    /** The static initialisers: `_idCounter = 1`, `_dueDate` left at its default. */
    constructor ()
      ensures idCounter == 1 && dueDate == MinValue
    {
      idCounter := 1;
      dueDate := MinValue;
    }

    /** `ToDoTask.SetIdCounter(nextId)` */
    method SetIdCounter(nextId: int32)
      modifies this
      ensures idCounter == nextId && dueDate == old(dueDate)
    {
      idCounter := nextId;
    }
  }

  class ToDoTask {
    /** `Id` is only assigned by the constructor (its internal setter is never called). */
    const Id: int32
    var Description: string
    var IsCompleted: bool
    /** The class's static fields, shared with every other task. */
    const statics: TaskStatics

    /** `new ToDoTask(description, dueDate)`: takes the counter's value as the
        id, advances the counter by one, and stores the due date in the shared
        static field. */
    constructor (statics: TaskStatics, description: string, dueDate: DateTime)
      modifies statics
      ensures this.statics == statics
      ensures Id == old(statics.idCounter) && statics.idCounter == Inc32(old(statics.idCounter))
      ensures Description == description && !IsCompleted
      ensures statics.dueDate == dueDate
    {
      Id := statics.idCounter;
      this.statics := statics;
      Description := description;
      IsCompleted := false;
      new;
      statics.idCounter := Inc32(statics.idCounter);
      SetDueDate(dueDate);
    }

    /** The `DueDate` getter reads the static field, not the task. */
    function DueDate(): DateTime
      reads statics
    {
      statics.dueDate
    }

    /** The `DueDate` setter.  Its `null` test is never true, so it always
        stores the value; since the field is static, every task that shares it
        reports that value afterwards. */
    method SetDueDate(value: DateTime)
      modifies statics
      ensures statics.dueDate == value && statics.idCounter == old(statics.idCounter)
      ensures forall u: ToDoTask :: u.statics == statics ==> u.DueDate() == value
    {
      if LiftedEqualsNull(statics.dueDate) {
        // the branch that would read the clock (`DateTime.Now.AddHours(1)`)
        assert false;
      } else {
        statics.dueDate := value;
      }
    }

    /** `ToString()`; how `DateTime` renders itself depends on the culture and
        is supplied as `formatDate`. */
    function ToString(formatDate: DateTime -> string): (r: string)
      reads this, statics
      ensures |r| == |RenderPrefix(Id, Description)| + (if IsCompleted then |CompletedMarker| else 0)
                     + 1 + |formatDate(DueDate())|
      ensures StartsWith(r, RenderPrefix(Id, Description))
      ensures EndsWith(r, " " + formatDate(DueDate()))
      ensures BracketedId(r) == Int32ToString(Id) && ParseInt32(BracketedId(r)) == Some(Id)
      ensures IsCompletedMarkerAt(r, |RenderPrefix(Id, Description)|) <==> IsCompleted
    {
      RenderShowsId(Id, Description, IsCompleted, DueDate(), formatDate);
      RenderMarksCompletion(Id, Description, IsCompleted, DueDate(), formatDate);
      Render(Id, Description, IsCompleted, DueDate(), formatDate)
    }
  }

  /** Two tasks sharing the static fields report the same due date, whatever
      else differs between them. */
  lemma DueDateShared(t: ToDoTask, u: ToDoTask)
    requires t.statics == u.statics
    ensures t.DueDate() == u.DueDate()
  {
  }

  const CompletedMarker: string := "(Completed)"

  /** `[Id] Description `: the id in brackets, then the description between
      single spaces. */
  function RenderPrefix(id: int32, description: string): (r: string)
    ensures |r| == |Int32ToString(id)| + |description| + 4
    ensures r[..|Int32ToString(id)| + 2] == "[" + Int32ToString(id) + "]"
    ensures r[|r| - |description| - 2..] == " " + description + " "
  {
    var head := "[" + Int32ToString(id) + "]";
    var r := head + (" " + description + " ");
    assert r == "[" + Int32ToString(id) + "] " + description + " ";
    r
  }

  /** `[Id] Description (Completed) DueDate`, the marker present only for a
      completed task: the line opens with the prefix and closes with a space
      and the formatted date. */
  function Render(id: int32, description: string, completed: bool, due: DateTime,
                  formatDate: DateTime -> string): (r: string)
    ensures |r| == |RenderPrefix(id, description)| + (if completed then |CompletedMarker| else 0)
                   + 1 + |formatDate(due)|
    ensures StartsWith(r, RenderPrefix(id, description))
    ensures EndsWith(r, " " + formatDate(due))
  {
    var p := RenderPrefix(id, description);
    var m := if completed then CompletedMarker else "";
    var r := p + m + " " + formatDate(due);
    assert r == p + (m + " " + formatDate(due));
    assert r == (p + m) + (" " + formatDate(due));
    r
  }

  /** The text between a leading `[` and the first `]`. */
  function BracketedId(line: string): string {
    if line != [] && line[0] == '[' then TakeUntil(line[1..], ']') else ""
  }

  predicate IsCompletedMarkerAt(line: string, k: nat) {
    k + |CompletedMarker| <= |line| && line[k..k + |CompletedMarker|] == CompletedMarker
  }

  /** The bracketed part of a line that opens with `[`, an id and `]` is the
      id as `int.ToString` writes it, and reads back as the id. */
  lemma BracketedIdReads(id: int32, tail: string)
    ensures BracketedId("[" + Int32ToString(id) + "]" + tail) == Int32ToString(id)
    ensures ParseInt32(BracketedId("[" + Int32ToString(id) + "]" + tail)) == Some(id)
  {
    var digits := Int32ToString(id);
    var line := "[" + digits + "]" + tail;
    assert line == "[" + (digits + "]" + tail);
    assert line[1..] == digits + [']'] + tail;
    assert ']' !in digits by {
      forall k | 0 <= k < |digits| ensures digits[k] != ']' {
        assert IsDigit(digits[k]) || digits[k] == '-';
      }
    }
    TakeUntilPrefix(digits, ']', tail);
    Int32RoundTrip(id);
  }

  /** The bracketed part of a line that starts with a rendered prefix is the
      id as `int.ToString` writes it, and reads back as that id, whatever
      follows the prefix. */
  lemma PrefixShowsId(id: int32, description: string, rest: string)
    ensures BracketedId(RenderPrefix(id, description) + rest) == Int32ToString(id)
    ensures ParseInt32(BracketedId(RenderPrefix(id, description) + rest)) == Some(id)
  {
    var head := "[" + Int32ToString(id) + "]";
    var tail := " " + description + " ";
    var line := RenderPrefix(id, description) + rest;
    assert RenderPrefix(id, description) == head + tail;
    assert line == head + (tail + rest);
    BracketedIdReads(id, tail + rest);
    assert BracketedId(line) == Int32ToString(id);
  }

  /** The bracketed part of a rendered line reads back as the task's id. */
  lemma RenderShowsId(id: int32, description: string, completed: bool, due: DateTime,
                      formatDate: DateTime -> string)
    ensures BracketedId(Render(id, description, completed, due, formatDate)) == Int32ToString(id)
    ensures ParseInt32(BracketedId(Render(id, description, completed, due, formatDate))) == Some(id)
  {
    var p := RenderPrefix(id, description);
    var line := Render(id, description, completed, due, formatDate);
    assert line == p + line[|p|..];
    PrefixShowsId(id, description, line[|p|..]);
  }

  /** The completion marker follows the description exactly when the task is
      completed. */
  lemma RenderMarksCompletion(id: int32, description: string, completed: bool, due: DateTime,
                              formatDate: DateTime -> string)
    ensures completed <==>
            IsCompletedMarkerAt(Render(id, description, completed, due, formatDate),
                                |RenderPrefix(id, description)|)
  {
    var p := RenderPrefix(id, description);
    var line := Render(id, description, completed, due, formatDate);
    if completed {
      assert line == p + CompletedMarker + (" " + formatDate(due));
      assert line[|p|..|p| + |CompletedMarker|] == CompletedMarker;
    } else {
      assert line == p + (" " + formatDate(due));
      assert |p| < |line| && line[|p|] == ' ';
      assert CompletedMarker[0] == '(';
      assert !IsCompletedMarkerAt(line, |p|);
    }
  }
}
