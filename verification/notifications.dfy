/**
 * The header's notification list. A notification is a record whose status is
 * its `read` flag, so marking one as read is setting its status to `true`.
 */
module Notifications {
  import opened Seqs
  import opened Collection

  /** A notification's text. */
  datatype Message = Message(title: string, message: string)

  /** `{ id, title, message, read }`, with `read` in the record's status slot. */
  type Notification = Record<bool, Message>

  /** The notification's `read` flag. */
  predicate IsRead(n: Notification)
  {
    n.status
  }

  /** The test `!n.read` of `unreadCount`. */
  predicate IsUnread(n: Notification)
  {
    !IsRead(n)
  }

  /** The notifications carrying `id` that are still unread. */
  function UnreadWithId(id: int): Notification -> bool
  {
    (n: Notification) => n.id == id && IsUnread(n)
  }

  /** `unreadCount`: the length of the list filtered to unread notifications. */
  function UnreadCount(ns: seq<Notification>): (r: nat)
    ensures r == |set i | 0 <= i < |ns| && !ns[i].status|
    ensures r <= |ns|
    ensures r == 0 <==> forall i :: 0 <= i < |ns| ==> ns[i].status
    ensures r == |ns| <==> forall i :: 0 <= i < |ns| ==> !ns[i].status
  {
    var unread := Filter(ns, IsUnread);
    CountIsIndexCount(ns, IsUnread);
    assert Positions(ns, IsUnread) == set i | 0 <= i < |ns| && !ns[i].status;
    CountZero(ns, IsUnread);
    CountComplement(ns, IsUnread, IsRead);
    CountZero(ns, IsRead);
    |unread|
  }

  /** `markAsRead`: notifications carrying `id` become read; nothing else changes. */
  function MarkAsRead(ns: seq<Notification>, id: int): (r: seq<Notification>)
    ensures |r| == |ns|
    ensures forall i :: 0 <= i < |ns| ==> r[i].id == ns[i].id && r[i].data == ns[i].data
    ensures forall i :: 0 <= i < |ns| && ns[i].id == id ==> r[i].status
    ensures forall i :: 0 <= i < |ns| && ns[i].id != id ==> r[i] == ns[i]
  {
    SetStatus(ns, id, true)
  }

  /** `markAllAsRead`: every notification becomes read; ids, titles, messages and order stay. */
  function MarkAllAsRead(ns: seq<Notification>): (r: seq<Notification>)
    ensures |r| == |ns|
    ensures forall i :: 0 <= i < |ns| ==> r[i].id == ns[i].id && r[i].data == ns[i].data
    ensures forall i :: 0 <= i < |r| ==> r[i].status
    ensures UnreadCount(r) == 0
  {
    SetAllStatus(ns, true)
  }

  /** Marking one id read lowers the unread count by exactly the unread notifications with that id. */
  lemma {:induction false} MarkAsReadCount(ns: seq<Notification>, id: int)
    ensures Count(MarkAsRead(ns, id), IsUnread) + Count(ns, UnreadWithId(id)) == Count(ns, IsUnread)
    decreases |ns|
  {
    if |ns| > 0 {
      var head := if ns[0].id == id then ns[0].(status := true) else ns[0];
      MarkAsReadCount(ns[1..], id);
      assert MarkAsRead(ns, id) == [head] + MarkAsRead(ns[1..], id);
      CountCons(head, MarkAsRead(ns[1..], id), IsUnread);
    }
  }

  /** `markAsRead` never raises the unread count, and lowers it when an unread notification carries `id`. */
  lemma MarkAsReadNeverIncreases(ns: seq<Notification>, id: int)
    ensures UnreadCount(MarkAsRead(ns, id)) <= UnreadCount(ns)
    ensures (exists i :: 0 <= i < |ns| && ns[i].id == id && !ns[i].status) ==>
      UnreadCount(MarkAsRead(ns, id)) < UnreadCount(ns)
  {
    MarkAsReadCount(ns, id);
    if exists i :: 0 <= i < |ns| && ns[i].id == id && !ns[i].status {
      var i :| 0 <= i < |ns| && ns[i].id == id && !ns[i].status;
      CountZero(ns, UnreadWithId(id));
      assert UnreadWithId(id)(ns[i]);
    }
  }

  /** Marking the same notification read twice is the same as once. */
  lemma MarkAsReadIdempotent(ns: seq<Notification>, id: int)
    ensures MarkAsRead(MarkAsRead(ns, id), id) == MarkAsRead(ns, id)
  {
    SetStatusIdempotent(ns, id, true);
  }
}
