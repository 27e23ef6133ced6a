/** The maintenance page: submitting requests, changing their status, deleting them with undo. */
module Maintenance {
  import opened Common
  import opened Seqs
  import opened Collection

  /** A request's fields other than `id` and `status`; `date` is the day picked in the form. */
  datatype RequestInfo = RequestInfo(
    title: string, description: string, location: string, priority: string, date: Date, createdAt: Date)

  type MaintenanceRequest = Record<string, RequestInfo>

  /**
   * The values the request form validates. The date picker can be cleared by
   * clicking the selected day again, so `date` may be missing.
   */
  datatype RequestValues = RequestValues(
    title: string, description: string, location: string, priority: string, date: Option<Date>)

  /** A form field whose check failed; `ServiceDate` is the schema's `date` field. */
  datatype Field = Title | Description | Location | ServiceDate

  /**
   * The failed checks of `formSchema`, in schema order: title 2+, description 10+,
   * location 2+ characters, and a date present.
   */
  function SchemaIssues(v: RequestValues): seq<Field>
  {
    (if |v.title| < 2 then [Title] else [])
    + (if |v.description| < 10 then [Description] else [])
    + (if |v.location| < 2 then [Location] else [])
    + (if v.date.None? then [ServiceDate] else [])
  }

  /**
   * The form's schema check followed by `onSubmit`: append a "pending" request
   * with a fresh id; `now` is the `new Date()` read at submission.
   */
  function Submit(requests: seq<MaintenanceRequest>, values: RequestValues, now: Date)
    : (r: Result<seq<MaintenanceRequest>, seq<Field>>)
    ensures r.Failure? <==>
      |values.title| < 2 || |values.description| < 10 || |values.location| < 2 || values.date.None?
    ensures r.Failure? ==>
      && (Title in r.error <==> |values.title| < 2)
      && (Description in r.error <==> |values.description| < 10)
      && (Location in r.error <==> |values.location| < 2)
      && (ServiceDate in r.error <==> values.date.None?)
    ensures r.Success? ==>
      && |r.value| == |requests| + 1
      && r.value[..|requests|] == requests
      && r.value[|requests|].id == NextId(requests)
      && !HasId(requests, r.value[|requests|].id)
      && r.value[|requests|].status == "pending"
      && r.value[|requests|].data
         == RequestInfo(values.title, values.description, values.location, values.priority, values.date.value, now)
    ensures r.Success? && UniqueIds(requests) ==> UniqueIds(r.value)
  {
    var issues := SchemaIssues(values);
    if |issues| > 0 then Failure(issues)
    else
      var info := RequestInfo(values.title, values.description, values.location, values.priority, values.date.value, now);
      Success(Create(requests, "pending", info))
  }

  /** `handleStatusChange`: only the status of requests carrying `id` changes. */
  function ChangeStatus(requests: seq<MaintenanceRequest>, id: int, newStatus: string): (r: seq<MaintenanceRequest>)
    ensures |r| == |requests|
    ensures forall i :: 0 <= i < |requests| ==> r[i].id == requests[i].id && r[i].data == requests[i].data
    ensures forall i :: 0 <= i < |requests| && requests[i].id == id ==> r[i].status == newStatus
    ensures forall i :: 0 <= i < |requests| && requests[i].id != id ==> r[i] == requests[i]
    ensures !HasId(requests, id) ==> r == requests
  {
    SetStatus(requests, id, newStatus)
  }

  /**
   * `handleDeleteRequest`: without a current request nothing happens; otherwise its
   * id is filtered out and undo sets the list to the post-delete list with the
   * request appended at the end.
   */
  function DeleteRequest(requests: seq<MaintenanceRequest>, current: Option<MaintenanceRequest>)
    : (r: Deletion<MaintenanceRequest>)
    ensures current.None? ==> r.list == requests && r.undo.NoUndo?
    ensures current.Some? ==>
      && !HasId(r.list, current.value.id)
      && IsSubseq(r.list, requests)
      && |r.list| == |requests| - Occurrences(requests, current.value.id)
      && r.undo.Restore?
      && |r.undo.snapshot| == |r.list| + 1
      && r.undo.snapshot[..|r.list|] == r.list
      && r.undo.snapshot[|r.list|] == current.value
  {
    match current
    case None => Deletion(requests, NoUndo)
    case Some(request) => SnapshotDelete(requests, request)
  }

  /**
   * Deleting a request of a list with unique ids and then clicking undo gives
   * back the same requests with unique ids, the deleted one last.
   */
  lemma DeleteRequestThenUndo(requests: seq<MaintenanceRequest>, request: MaintenanceRequest, current: seq<MaintenanceRequest>)
    requires UniqueIds(requests)
    requires request in requests
    ensures var u := RunUndo(DeleteRequest(requests, Some(request)).undo, current);
      && multiset(u) == multiset(requests)
      && |u| == |requests|
      && u[|u| - 1] == request
      && UniqueIds(u)
  {
    DeleteThenUndo(requests, request, current);
  }

  const Day := Date(0)
  const Sink: MaintenanceRequest := Record(1, "pending", RequestInfo("Sink", "Leaking sink in A101.", "A101", "high", Day, Day))
  const Bulb: MaintenanceRequest := Record(2, "in-progress", RequestInfo("Bulb", "Hallway bulb burnt out.", "B hall", "medium", Day, Day))
  const Air: MaintenanceRequest := Record(3, "completed", RequestInfo("AC", "AC in C205 not working.", "C205", "high", Day, Day))

  /** Deleting the middle request and undoing moves it to the end of the list. */
  lemma UndoMovesRequestToEnd()
    ensures var d := DeleteRequest([Sink, Bulb, Air], Some(Bulb));
      && d.list == [Sink, Air]
      && RunUndo(d.undo, d.list) == [Sink, Air, Bulb]
  {
    RemoveByIdStep([Sink, Bulb, Air], Bulb.id);
    assert [Sink, Bulb, Air][1..] == [Bulb, Air];
    RemoveByIdStep([Bulb, Air], Bulb.id);
    assert [Bulb, Air][1..] == [Air];
    RemoveByIdStep([Air], Bulb.id);
    assert [Air][1..] == [];
  }
}
