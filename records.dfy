/** The records the store keeps: issues, users and notifications (lib/store.ts:2-24, 137-143). */
module Records {

  datatype Option<+T> = None | Some(value: T)

  /** A latitude/longitude pair. The store never computes with it; it is carried through as given. */
  datatype Coordinates = Coordinates(lat: real, lng: real)

  /** One reported problem. `spamReports` lists the usernames that flagged it, in flagging order. */
  datatype Issue = Issue(
    id: nat,
    title: string,
    description: string,
    category: string,
    status: string,
    address: string,
    reportedDate: string,
    reportedTime: string,
    reportedBy: string,
    distance: string,
    image: string,
    coordinates: Option<Coordinates>,
    spamReports: seq<string>,
    isHidden: bool)

  /** What a caller of addIssue supplies: an Issue without `id`, `spamReports` and `isHidden`. */
  datatype IssueInput = IssueInput(
    title: string,
    description: string,
    category: string,
    status: string,
    address: string,
    reportedDate: string,
    reportedTime: string,
    reportedBy: string,
    distance: string,
    image: string,
    coordinates: Option<Coordinates>)

  /** A partial Issue as passed to updateIssue: `Some(v)` for every key the update object carries.
      `coordinates` is optional in the record itself, so a present key may carry `None` (undefined),
      which clears the record's coordinates. */
  datatype IssueUpdate = IssueUpdate(
    id: Option<nat>,
    title: Option<string>,
    description: Option<string>,
    category: Option<string>,
    status: Option<string>,
    address: Option<string>,
    reportedDate: Option<string>,
    reportedTime: Option<string>,
    reportedBy: Option<string>,
    distance: Option<string>,
    image: Option<string>,
    coordinates: Option<Option<Coordinates>>,
    spamReports: Option<seq<string>>,
    isHidden: Option<bool>)

  datatype Role = UserRole | AdminRole

  datatype User = User(username: string, email: string, role: Role, isBanned: bool)

  /** The notification's `type` field is called `kind` here (`type` is a Dafny keyword). */
  datatype NotificationType = Info | Success | Warning | Error

  /** A log entry; the clock-derived `id` and `timestamp` are not modelled. */
  datatype Notification = Notification(message: string, kind: NotificationType, userId: string)

  /** No username occurs twice. */
  predicate NoDuplicates(s: seq<string>)
  {
    forall i, j :: 0 <= i < j < |s| ==> s[i] != s[j]
  }
}
