/** The task line that `TaskDisplayHelper.PrintTasks` writes for each task it
    lists (CAToDoList/Helper Methods/TaskDisplayHelper.cs). */
module Display {
  import opened Wrappers
  import opened Text
  import opened Models

  function Status(completed: bool): string {
    if completed then "Done" else "Pending"
  }

  /** `[Id] Description - Done` or `[Id] Description - Pending`. */
  function ListingLine(id: int32, description: string, completed: bool): string {
    "[" + Int32ToString(id) + "]" + ListingTail(description, completed)
  }

  /** The bracketed part of a listed line reads back as the task's id. */
  lemma ListingShowsId(id: int32, description: string, completed: bool)
    ensures BracketedId(ListingLine(id, description, completed)) == Int32ToString(id)
    ensures ParseInt32(BracketedId(ListingLine(id, description, completed))) == Some(id)
  {
    BracketedIdReads(id, ListingTail(description, completed));
  }

  /** A listed line ends in `Done` exactly when the task is completed. */
  lemma ListingShowsStatus(id: int32, description: string, completed: bool)
    ensures completed <==> EndsWith(ListingLine(id, description, completed), "Done")
  {
    var head := " " + description + " - ";
    var tail := ListingTail(description, completed);
    assert tail == head + Status(completed);
    StatusAtEnd(head, completed);
    SuffixOfAppend("[" + Int32ToString(id) + "]", tail, 4);
    assert ListingLine(id, description, completed)[|ListingLine(id, description, completed)| - 4..]
        == tail[|tail| - 4..];
  }

  /** The last `k` characters of `a + b` are those of `b`. */
  lemma SuffixOfAppend(a: string, b: string, k: nat)
    requires k <= |b|
    ensures (a + b)[|a + b| - k..] == b[|b| - k..]
  {
  }

  /** ` Description - Done` or ` Description - Pending` */
  function ListingTail(description: string, completed: bool): string {
    " " + description + " - " + Status(completed)
  }

  /** A line that ends in the status ends in `Done` exactly for a completed task. */
  lemma StatusAtEnd(head: string, completed: bool)
    ensures |head + Status(completed)| >= 4
    ensures completed <==> EndsWith(head + Status(completed), "Done")
  {
    var r := head + Status(completed);
    assert r[|r| - 4..] == Status(completed)[|Status(completed)| - 4..];
    assert "Pending"[3..] == "ding" && "ding"[0] != "Done"[0];
  }
}
