/** The documents page: uploading document metadata, changing status, deleting with undo. */
module Documents {
  import opened Common
  import opened Seqs
  import opened Collection

  /** A document's fields other than `id` and `status`; `description` is optional. */
  datatype DocumentInfo = DocumentInfo(
    title: string, category: string, description: Option<string>,
    fileName: string, fileSize: string, uploadedAt: Date)

  type Document = Record<string, DocumentInfo>

  /** The values the upload form hands to `onSubmit`. */
  datatype DocumentValues = DocumentValues(title: string, category: string, description: Option<string>)

  /** The browser `File` picked in the form: its name and size in bytes. */
  datatype File = File(name: string, size: nat)

  /** Why an upload was refused: the schema's title check, or the file guard in `onSubmit`. */
  datatype UploadError = TitleTooShort | NoFileSelected

  /**
   * The form's schema check followed by `onSubmit`: a title under 2 characters
   * never reaches `onSubmit`; without a selected file the upload is refused;
   * otherwise a "pending" document with a fresh id is appended. `formatSize`
   * renders the byte count and `now` is the `new Date()` read at submission.
   */
  function Upload(documents: seq<Document>, values: DocumentValues, selected: Option<File>,
                  formatSize: nat -> string, now: Date): (r: Result<seq<Document>, UploadError>)
    ensures r.Failure? <==> |values.title| < 2 || selected.None?
    ensures |values.title| < 2 ==> r == Failure(TitleTooShort)
    ensures |values.title| >= 2 && selected.None? ==> r == Failure(NoFileSelected)
    ensures r.Success? ==>
      && |r.value| == |documents| + 1
      && r.value[..|documents|] == documents
      && r.value[|documents|].id == NextId(documents)
      && !HasId(documents, r.value[|documents|].id)
      && r.value[|documents|].status == "pending"
      && r.value[|documents|].data == DocumentInfo(
           values.title, values.category, values.description,
           selected.value.name, formatSize(selected.value.size), now)
    ensures r.Success? && UniqueIds(documents) ==> UniqueIds(r.value)
  {
    if |values.title| < 2 then Failure(TitleTooShort)
    else
      match selected
      case None => Failure(NoFileSelected)
      case Some(file) =>
        var info := DocumentInfo(values.title, values.category, values.description, file.name, formatSize(file.size), now);
        Success(Create(documents, "pending", info))
  }

  /** `handleStatusChange`: only the status of documents carrying `id` changes. */
  function ChangeStatus(documents: seq<Document>, id: int, newStatus: string): (r: seq<Document>)
    ensures |r| == |documents|
    ensures forall i :: 0 <= i < |documents| ==> r[i].id == documents[i].id && r[i].data == documents[i].data
    ensures forall i :: 0 <= i < |documents| && documents[i].id == id ==> r[i].status == newStatus
    ensures forall i :: 0 <= i < |documents| && documents[i].id != id ==> r[i] == documents[i]
    ensures !HasId(documents, id) ==> r == documents
  {
    SetStatus(documents, id, newStatus)
  }

  /**
   * `handleDeleteDocument`: without a current document nothing happens; otherwise
   * its id is filtered out and undo sets the list to the post-delete list with the
   * document appended.
   */
  function DeleteDocument(documents: seq<Document>, current: Option<Document>): (r: Deletion<Document>)
    ensures current.None? ==> r.list == documents && r.undo.NoUndo?
    ensures current.Some? ==>
      && !HasId(r.list, current.value.id)
      && IsSubseq(r.list, documents)
      && |r.list| == |documents| - Occurrences(documents, current.value.id)
      && r.undo.Restore?
      && |r.undo.snapshot| == |r.list| + 1
      && r.undo.snapshot[..|r.list|] == r.list
      && r.undo.snapshot[|r.list|] == current.value
  {
    match current
    case None => Deletion(documents, NoUndo)
    case Some(document) => SnapshotDelete(documents, document)
  }

  /**
   * Deleting a document of a list with unique ids and then clicking undo gives
   * back the same documents with unique ids, the deleted one last.
   */
  lemma DeleteDocumentThenUndo(documents: seq<Document>, document: Document, current: seq<Document>)
    requires UniqueIds(documents)
    requires document in documents
    ensures var u := RunUndo(DeleteDocument(documents, Some(document)).undo, current);
      && multiset(u) == multiset(documents)
      && |u| == |documents|
      && u[|u| - 1] == document
      && UniqueIds(u)
  {
    DeleteThenUndo(documents, document, current);
  }
}
