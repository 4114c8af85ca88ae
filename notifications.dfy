/**
 * The browser's notification list: the newest notification first, at most one hundred
 * kept, each unread until marked. The two socket events the client listens to add to it.
 * The clock that names a notification is a parameter; toasts and timestamps are not
 * modelled.
 */
module Notifications {
  import opened Models
  import Realtime

  datatype Kind = ModerationNote | FlagNote | InfoNote

  datatype Notification = Notification(id: string, kind: Kind, message: string, read: bool)

  /** How many notifications are kept. */
  const Capacity: nat := 100

  /** The number of unread notifications. */
  function Unread(ns: seq<Notification>): (n: nat)
    ensures n <= |ns|
    ensures n == 0 <==> forall k :: 0 <= k < |ns| ==> ns[k].read
  {
    if ns == [] then 0 else (if ns[0].read then 0 else 1) + Unread(ns[1..])
  }

  /** The list with every notification named `id` marked read. */
  function MarkedRead(ns: seq<Notification>, id: string): (r: seq<Notification>)
    ensures |r| == |ns|
    ensures forall k :: 0 <= k < |ns| ==> r[k] == if ns[k].id == id then ns[k].(read := true) else ns[k]
  {
    seq(|ns|, k requires 0 <= k < |ns| => if ns[k].id == id then ns[k].(read := true) else ns[k])
  }

  /** The list after a new unread notification arrives: it goes first, followed by the 99 newest of the earlier ones. */
  function Added(ns: seq<Notification>, n: Notification): (r: seq<Notification>)
    ensures 1 <= |r| <= Capacity && r[0] == n
    ensures |r| == if |ns| < Capacity then |ns| + 1 else Capacity
    ensures r[1..] <= ns
  {
    [n] + (if |ns| <= Capacity - 1 then ns else ns[..Capacity - 1])
  }

  /** Marking never adds unread notifications, and removes exactly the unread ones with that id. */
  lemma {:induction false} MarkedReadUnread(ns: seq<Notification>, id: string)
    ensures Unread(MarkedRead(ns, id)) <= Unread(ns)
    ensures (forall k :: 0 <= k < |ns| ==> ns[k].id != id || ns[k].read) ==> Unread(MarkedRead(ns, id)) == Unread(ns)
    ensures forall k :: 0 <= k < |ns| && ns[k].id == id ==> MarkedRead(ns, id)[k].read
  {
    if ns != [] {
      MarkedReadUnread(ns[1..], id);
      assert MarkedRead(ns, id)[1..] == MarkedRead(ns[1..], id);
    }
  }

  /** Marking the same id twice is marking it once. */
  lemma MarkedReadIdempotent(ns: seq<Notification>, id: string)
    ensures MarkedRead(MarkedRead(ns, id), id) == MarkedRead(ns, id)
  {
  }

  /** A new notification is unread, so the unread count grows by one, less any unread notification pushed off the end. */
  lemma {:induction false} AddedUnread(ns: seq<Notification>, n: Notification)
    requires !n.read
    ensures Unread(Added(ns, n)) == 1 + Unread(Added(ns, n)[1..])
    ensures |ns| < Capacity ==> Unread(Added(ns, n)) == Unread(ns) + 1
  {
    assert Added(ns, n)[1..] == (if |ns| <= Capacity - 1 then ns else ns[..Capacity - 1]);
  }

  /** The message a `moderation:new-flag` event shows. */
  function NewFlagMessage(p: Realtime.NewFlagPayload): string {
    "New content flagged: " + p.reason
  }

  /** The message a `moderation:action` event shows. */
  function ActionMessage(p: Realtime.ActionPayload): string {
    "Moderation action: " + ActionName(p.action)
  }

  /** The notification state of one signed-in browser. */
  class Inbox {
    var notifications: seq<Notification>

    predicate Valid()
      reads this
    {
      |notifications| <= Capacity
    }

    constructor ()
      ensures Valid() && notifications == []
    {
      notifications := [];
    }

    /** `unreadCount`. */
    function UnreadCount(): (n: nat)
      reads this
      ensures n <= |notifications|
      ensures n == 0 <==> forall k :: 0 <= k < |notifications| ==> notifications[k].read
    {
      Unread(notifications)
    }

    /** `markAsRead(id)`: the notifications named `id` become read; order, length and every other notification stay. */
    method MarkAsRead(id: string)
      requires Valid()
      modifies this
      ensures Valid()
      ensures notifications == MarkedRead(old(notifications), id)
      ensures UnreadCount() <= old(UnreadCount())
    {
      MarkedReadUnread(notifications, id);
      notifications := MarkedRead(notifications, id);
    }

    /** `clearAll`. */
    method ClearAll()
      modifies this
      ensures Valid() && notifications == [] && UnreadCount() == 0
    {
      notifications := [];
    }

    /** `addNotification`: a new unread notification named by the clock goes first; at most 100 are kept. */
    method AddNotification(kind: Kind, message: string, now: string)
      requires Valid()
      modifies this
      ensures Valid()
      ensures notifications == Added(old(notifications), Notification(now, kind, message, false))
      ensures notifications[0] == Notification(now, kind, message, false)
      ensures |old(notifications)| < Capacity ==> notifications[1..] == old(notifications) && UnreadCount() == old(UnreadCount()) + 1
    {
      var n := Notification(now, kind, message, false);
      AddedUnread(notifications, n);
      notifications := Added(notifications, n);
    }

    /** The `moderation:new-flag` handler: only a moderator's or an admin's browser records it. */
    method OnNewFlag(role: Role, p: Realtime.NewFlagPayload, now: string)
      requires Valid()
      modifies this
      ensures Valid()
      ensures role == Member ==> notifications == old(notifications)
      ensures role != Member ==> notifications == Added(old(notifications), Notification(now, FlagNote, NewFlagMessage(p), false))
    {
      if role == Moderator || role == Admin {
        AddNotification(FlagNote, NewFlagMessage(p), now);
      }
    }

    /** The `moderation:action` handler: every browser records it. */
    method OnModerationAction(p: Realtime.ActionPayload, now: string)
      requires Valid()
      modifies this
      ensures Valid()
      ensures notifications == Added(old(notifications), Notification(now, ModerationNote, ActionMessage(p), false))
    {
      AddNotification(ModerationNote, ActionMessage(p), now);
    }
  }
}
