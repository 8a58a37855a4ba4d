/** The notification log's read side, getNotifications (lib/store.ts:270-272). */
module Notifications {
  import opened Records

  /** The address that every user's query also matches. */
  const Broadcast := "all"

  /** getNotifications: the entries addressed to `userId` or to everyone, in log order. */
  function GetNotifications(ns: seq<Notification>, userId: string): (r: seq<Notification>)
    ensures |r| <= |ns|
    ensures forall n :: n in r <==> n in ns && (n.userId == userId || n.userId == Broadcast)
  {
    if ns == [] then []
    else (if ns[0].userId == userId || ns[0].userId == Broadcast then [ns[0]] else []) + GetNotifications(ns[1..], userId)
  }

  /** Appending to the log appends the matching part of the new entries to every user's view. */
  lemma {:induction false} GetNotificationsAppend(a: seq<Notification>, b: seq<Notification>, userId: string)
    ensures GetNotifications(a + b, userId) == GetNotifications(a, userId) + GetNotifications(b, userId)
  {
    if a == [] {
      assert a + b == b;
    } else {
      var c := a + b;
      assert c[0] == a[0];
      assert c[1..] == a[1..] + b;
      GetNotificationsAppend(a[1..], b, userId);
    }
  }

  /** A single entry shows up for its addressee, and for everybody when sent to everyone. */
  lemma GetNotificationsSingle(n: Notification, userId: string)
    ensures GetNotifications([n], userId) == if n.userId == userId || n.userId == Broadcast then [n] else []
  {
    assert [n][1..] == [];
  }
}
