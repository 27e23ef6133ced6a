/** The feedback page: submitting feedback, changing its status, deleting it with undo. */
module Feedback {
  import opened Common
  import opened Seqs
  import opened Collection

  /** A feedback item's fields other than `id` and `status`. */
  datatype FeedbackInfo = FeedbackInfo(title: string, category: string, rating: string, comment: string, createdAt: Date)

  type FeedbackItem = Record<string, FeedbackInfo>

  /** The values the feedback form hands to `onSubmit`. */
  datatype FeedbackValues = FeedbackValues(title: string, category: string, rating: string, comment: string)

  /** A form field whose length check failed. */
  datatype Field = Title | Comment

  /** The failed checks of `formSchema`, in schema order: title of 2 characters or more, comment of 10 or more. */
  function SchemaIssues(v: FeedbackValues): seq<Field>
  {
    (if |v.title| < 2 then [Title] else []) + (if |v.comment| < 10 then [Comment] else [])
  }

  /**
   * The form's schema check followed by `onSubmit`: append a "pending" item with a
   * fresh id; `now` is the `new Date()` read at submission.
   */
  function Submit(items: seq<FeedbackItem>, values: FeedbackValues, now: Date): (r: Result<seq<FeedbackItem>, seq<Field>>)
    ensures r.Failure? <==> |values.title| < 2 || |values.comment| < 10
    ensures r.Failure? ==> (Title in r.error <==> |values.title| < 2) && (Comment in r.error <==> |values.comment| < 10)
    ensures r.Success? ==>
      && |r.value| == |items| + 1
      && r.value[..|items|] == items
      && r.value[|items|].id == NextId(items)
      && !HasId(items, r.value[|items|].id)
      && r.value[|items|].status == "pending"
      && r.value[|items|].data == FeedbackInfo(values.title, values.category, values.rating, values.comment, now)
    ensures r.Success? && UniqueIds(items) ==> UniqueIds(r.value)
  {
    var issues := SchemaIssues(values);
    if |issues| > 0 then Failure(issues)
    else Success(Create(items, "pending", FeedbackInfo(values.title, values.category, values.rating, values.comment, now)))
  }

  /** `handleStatusChange`: only the status of items carrying `id` changes. */
  function ChangeStatus(items: seq<FeedbackItem>, id: int, newStatus: string): (r: seq<FeedbackItem>)
    ensures |r| == |items|
    ensures forall i :: 0 <= i < |items| ==> r[i].id == items[i].id && r[i].data == items[i].data
    ensures forall i :: 0 <= i < |items| && items[i].id == id ==> r[i].status == newStatus
    ensures forall i :: 0 <= i < |items| && items[i].id != id ==> r[i] == items[i]
    ensures !HasId(items, id) ==> r == items
  {
    SetStatus(items, id, newStatus)
  }

  /**
   * `handleDeleteFeedback`: without a current item nothing happens; otherwise its
   * id is filtered out and undo sets the list to the post-delete list with the
   * item appended.
   */
  function DeleteFeedback(items: seq<FeedbackItem>, current: Option<FeedbackItem>): (r: Deletion<FeedbackItem>)
    ensures current.None? ==> r.list == items && r.undo.NoUndo?
    ensures current.Some? ==>
      && !HasId(r.list, current.value.id)
      && IsSubseq(r.list, items)
      && |r.list| == |items| - Occurrences(items, current.value.id)
      && r.undo.Restore?
      && |r.undo.snapshot| == |r.list| + 1
      && r.undo.snapshot[..|r.list|] == r.list
      && r.undo.snapshot[|r.list|] == current.value
  {
    match current
    case None => Deletion(items, NoUndo)
    case Some(item) => SnapshotDelete(items, item)
  }

  /**
   * Deleting an item of a list with unique ids and then clicking undo gives back
   * the same items with unique ids, the deleted one last.
   */
  lemma DeleteFeedbackThenUndo(items: seq<FeedbackItem>, item: FeedbackItem, current: seq<FeedbackItem>)
    requires UniqueIds(items)
    requires item in items
    ensures var u := RunUndo(DeleteFeedback(items, Some(item)).undo, current);
      && multiset(u) == multiset(items)
      && |u| == |items|
      && u[|u| - 1] == item
      && UniqueIds(u)
  {
    DeleteThenUndo(items, item, current);
  }

  const Day := Date(0)
  const Praise: FeedbackItem := Record(1, "reviewed", FeedbackInfo("Great", "Facilities", "5", "Well maintained.", Day))
  const Noise: FeedbackItem := Record(2, "pending", FeedbackInfo("Noise", "Environment", "2", "Too loud at night.", Day))

  /**
   * Undo sets the list from the snapshot taken at delete time, so feedback
   * submitted between the delete and the undo disappears.
   */
  lemma UndoDropsLaterSubmission()
    ensures var d := DeleteFeedback([Praise, Noise], Some(Praise));
      && d.list == [Noise]
      && var later := Submit(d.list, FeedbackValues("Wifi", "Facilities", "3", "Drops every evening."), Day);
      && later.Success? && |later.value| == 2
      && RunUndo(d.undo, later.value) == [Noise, Praise]
  {
    RemoveByIdStep([Praise, Noise], Praise.id);
    assert [Praise, Noise][1..] == [Noise] && [Noise][1..] == [];
    RemoveByIdStep([Noise], Praise.id);
  }
}
