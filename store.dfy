/** The `AppStore` class of lib/store.ts:26-288: three record lists changed in place. Every method
    states its new state through the transition functions of IssueRegistry, Moderation and
    UserDirectory; the read-side queries are those modules' functions applied to the fields
    (`getIssues()` is `GetIssues(store.issues)`, `getAllIssues()` is `store.issues`, and so on). */
module Store {
  import opened Records
  import opened IssueRegistry
  import opened Moderation
  import opened UserDirectory
  import opened Notifications
  import opened Analytics

  function SeedIssue(id: nat, title: string, description: string, category: string, status: string,
                     address: string, date: string, time: string, distance: string, image: string,
                     lat: real, lng: real): Issue
  {
    Issue(id, title, description, category, status, address, date, time, "system", distance, image,
          Some(Coordinates(lat, lng)), [], false)
  }

  // The seed descriptions, kept apart so that proofs about the seed never unfold them.
  const Description1 := "Street light has been out for 3 days, making the area unsafe at night"
  const Description2 := "Deep pothole causing damage to vehicles on main road"
  const Description3 := "Continuous water leak from underground pipe flooding the sidewalk and creating slippery conditions"
  const Description4 := "Public garbage bin has been overflowing for days, attracting pests and creating unsanitary conditions"
  const Description5 := "Cracked and uneven sidewalk creating tripping hazards for pedestrians, especially dangerous for elderly residents"
  const Description6 := "Large tree branch has fallen and is blocking part of the sidewalk and bike lane after recent storm"

  /** The six issues every store starts with (lib/store.ts:27-126). */
  function SeedIssues(): (s: seq<Issue>)
    ensures |s| == 6 && UniqueIds(s)
    ensures forall i :: 0 <= i < |s| ==> s[i].id == i + 1 && s[i].spamReports == [] && !s[i].isHidden
  {
    [ SeedIssue(1, "Broken Street Light", Description1,
                "Lighting", "In Progress", "123 Main St, Downtown", "2024-01-15", "14:30", "0.5",
                "/brokenstreetlight.webp", 40.7128, -74.006),
      SeedIssue(2, "Large Pothole", Description2,
                "Roads", "Reported", "Highway 101, Mile 15", "2024-01-14", "16:45", "2.1",
                "/largepothole.jpg", 40.7589, -73.9851),
      SeedIssue(3, "Water Leak", Description3,
                "Water Supply", "Resolved", "789 Pine Street, Uptown", "2024-01-10", "09:15", "2.1",
                "/waterleak.jpg", 40.7831, -73.9712),
      SeedIssue(4, "Overflowing Garbage Bin", Description4,
                "Cleanliness", "Reported", "321 Elm Street, Southside", "2024-01-14", "11:20", "0.8",
                "/overflowinggarbagebin.webp", 40.7282, -74.0776),
      SeedIssue(5, "Damaged Sidewalk", Description5,
                "Public Safety", "In Progress", "654 Maple Drive, Westside", "2024-01-11", "15:45", "1.8",
                "/damagedsidewalk.webp", 40.7505, -73.9934),
      SeedIssue(6, "Fallen Tree Branch", Description6,
                "Obstructions", "Reported", "987 Cedar Lane, Eastside", "2024-01-13", "08:30", "3.2",
                "/fallentreebranch.jpeg", 40.7614, -73.9776) ]
  }

  /** The one user every store starts with (lib/store.ts:128-135). */
  const SeedUsers := [User("admin", "admin@civictrack.com", AdminRole, false)]

  class AppStore {
    var issues: seq<Issue>
    var users: seq<User>
    var notifications: seq<Notification>

    /** What the store's own operations keep: ids are unique and nobody has flagged an issue twice.
        Only updateIssue can break it, by rewriting `id` or `spamReports`. */
    ghost predicate Valid()
      reads this
    {
      && UniqueIds(issues)
      && forall i :: 0 <= i < |issues| ==> NoDuplicates(issues[i].spamReports)
    }

    constructor ()
      ensures issues == SeedIssues() && users == SeedUsers && notifications == []
      ensures Valid()
    {
      issues := SeedIssues();
      users := SeedUsers;
      notifications := [];
    }

    /** `issues.findIndex(issue => issue.id === id)`. */
    method FindIssueIndex(id: nat) returns (k: int)
      ensures k == IndexOfId(issues, id)
    {
      k := 0;
      while k < |issues| && issues[k].id != id
        invariant 0 <= k <= |issues|
        invariant forall i :: 0 <= i < k ==> issues[i].id != id
      {
        k := k + 1;
      }
      if k == |issues| {
        k := -1;
      }
    }

    /** `Math.max(...issues.map(i => i.id), 0) + 1`. */
    method NextIssueId() returns (id: nat)
      ensures id == NextId(issues)
      ensures forall i :: 0 <= i < |issues| ==> issues[i].id < id
    {
      var m: nat := 0;
      var i := 0;
      while i < |issues|
        invariant 0 <= i <= |issues|
        invariant m == MaxId(issues[..i])
      {
        assert issues[..i + 1][..i] == issues[..i];
        if issues[i].id > m {
          m := issues[i].id;
        }
        i := i + 1;
      }
      assert issues[..|issues|] == issues;
      id := m + 1;
    }

    method AddIssue(input: IssueInput) returns (r: Issue)
      modifies this
      ensures r == NewIssue(input, NextId(old(issues)))
      ensures issues == old(issues) + [r]
      ensures users == old(users) && notifications == old(notifications)
      ensures old(Valid()) ==> Valid()
      ensures GetIssueById(issues, r.id) == Some(r)
    {
      var id := NextIssueId();
      r := NewIssue(input, id);
      AddedThenGet(issues, input);
      issues := issues + [r];
    }

    method UpdateIssue(id: nat, updates: IssueUpdate) returns (ok: bool)
      modifies this
      ensures ok == (IndexOfId(old(issues), id) != -1)
      ensures issues == Updated(old(issues), id, updates)
      ensures users == old(users) && notifications == old(notifications)
      ensures (old(Valid()) && (updates.id.None? || updates.id == Some(id)) &&
               (updates.spamReports.Some? ==> NoDuplicates(updates.spamReports.value))) ==> Valid()
    {
      var k := FindIssueIndex(id);
      if k == -1 {
        return false;
      }
      if Valid() && (updates.id.None? || updates.id == Some(id)) {
        UpdatedKeepsUniqueIds(issues, id, updates);
      }
      issues := issues[k := Merge(issues[k], updates)];
      return true;
    }

    method DeleteIssue(id: nat) returns (ok: bool)
      modifies this
      ensures ok == (IndexOfId(old(issues), id) != -1)
      ensures issues == Deleted(old(issues), id)
      ensures users == old(users) && notifications == old(notifications)
      ensures old(Valid()) ==> Valid()
      ensures old(Valid()) ==> GetIssueById(issues, id) == None
    {
      var k := FindIssueIndex(id);
      if k == -1 {
        return false;
      }
      if Valid() {
        DeletedUnique(issues, id);
      }
      issues := issues[..k] + issues[k + 1..];
      return true;
    }

    method ReportSpam(issueId: nat, reportedBy: string)
      modifies this
      ensures issues == Flagged(old(issues), issueId, reportedBy)
      ensures notifications == old(notifications) + Alerts(old(issues), issueId, reportedBy)
      ensures users == old(users)
      ensures old(Valid()) ==> Valid()
    {
      var k := FindIssueIndex(issueId);
      if Valid() {
        FlaggedKeepsNoDuplicates(issues, issueId, reportedBy);
      }
      if k >= 0 && reportedBy !in issues[k].spamReports {
        var issue := issues[k].(spamReports := issues[k].spamReports + [reportedBy]);
        if |issue.spamReports| >= HideThreshold {
          issue := issue.(isHidden := true);
          issues := issues[k := issue];
          AddNotification(Notification(AutoHideMessage(issue.title), Warning, "admin"));
        } else {
          issues := issues[k := issue];
        }
      }
    }

    /** `users.find(u => u.username === username)`, as a position. */
    method FindUserIndex(username: string) returns (k: int)
      ensures k == IndexOfUser(users, username)
    {
      k := 0;
      while k < |users| && users[k].username != username
        invariant 0 <= k <= |users|
        invariant forall i :: 0 <= i < k ==> users[i].username != username
      {
        k := k + 1;
      }
      if k == |users| {
        k := -1;
      }
    }

    /** Appends without looking for an existing user of that name. */
    method AddUser(user: User)
      modifies this
      ensures users == old(users) + [user]
      ensures issues == old(issues) && notifications == old(notifications)
      ensures old(Valid()) ==> Valid()
    {
      users := users + [user];
    }

    method BanUser(username: string)
      modifies this
      ensures users == BanSet(old(users), username, true)
      ensures issues == old(issues) && notifications == old(notifications)
      ensures old(Valid()) ==> Valid()
    {
      var k := FindUserIndex(username);
      if k >= 0 {
        users := users[k := users[k].(isBanned := true)];
      }
    }

    method UnbanUser(username: string)
      modifies this
      ensures users == BanSet(old(users), username, false)
      ensures issues == old(issues) && notifications == old(notifications)
      ensures old(Valid()) ==> Valid()
    {
      var k := FindUserIndex(username);
      if k >= 0 {
        users := users[k := users[k].(isBanned := false)];
      }
    }

    method AddNotification(n: Notification)
      modifies this
      ensures notifications == old(notifications) + [n]
      ensures issues == old(issues) && users == old(users)
      ensures old(Valid()) ==> Valid()
    {
      notifications := notifications + [n];
    }

    /** Any status is accepted, whatever the current one. */
    method UpdateIssueStatus(issueId: nat, status: string)
      modifies this
      ensures issues == StatusSet(old(issues), issueId, status)
      ensures users == old(users) && notifications == old(notifications)
      ensures old(Valid()) ==> Valid()
    {
      var k := FindIssueIndex(issueId);
      if k >= 0 {
        issues := issues[k := issues[k].(status := status)];
      }
    }

    method UnhideIssue(issueId: nat)
      modifies this
      ensures issues == Unhidden(old(issues), issueId)
      ensures users == old(users) && notifications == old(notifications)
      ensures old(Valid()) ==> Valid()
    {
      var k := FindIssueIndex(issueId);
      if k >= 0 {
        issues := issues[k := issues[k].(isHidden := false, spamReports := [])];
      }
    }
  }
}
