# CivicTrack issue store, modelled in Dafny

CivicTrack lets residents report local problems ("issues") and moderate them together. The only
part of the program with real state and rules is `AppStore` in `lib/store.ts`. It is an in-memory
registry, and every page calls into it. It holds three lists that it changes in place:

- **issues**, each with a spam-flag list and a hidden flag;
- **users**, each with a ban flag;
- **notifications**, an append-only log.

This project models that class and proves what its operations promise. It has these modules:

- `Records` (`records.dfy`): the records. `Issue`, `User` and `Notification`. `IssueInput` is what
  `addIssue` takes. `IssueUpdate` is the `Partial<Issue>` that `updateIssue` takes: `Some(v)` for
  each key present. Because the record's `coordinates` field is itself optional, an update can
  also carry `Some(None)` for it, which clears it.
- `IssueRegistry` (`issue_registry.dfy`): the issue list as a value. It defines the read queries
  (`getIssues`, `getUserIssues`, `getIssueById`, and `findIndex` on the id). It also defines, as
  pure functions of the old list, the new list after `addIssue`, `updateIssue`, `deleteIssue` and
  `updateIssueStatus`.
- `Moderation` (`moderation.dfy`): `reportSpam` as the new issue list plus the notifications it
  appends. The auto-hide threshold of 3 is here, and so is `unhideIssue`.
- `UserDirectory` (`user_directory.dfy`): `getUser`, and the user list after `banUser`/`unbanUser`.
- `Notifications` (`notifications.dfy`): `getNotifications`.
- `Analytics` (`analytics.dfy`): `getAnalytics`. A category or status counter is modelled as the
  entries of the JavaScript object in insertion order. `mostReportedCategory` is the first entry
  with the largest count, which is what a stable descending sort puts first.
- `Lifecycle` (`lifecycle.dfy`): how flagging and unhiding move the summary's hidden count. It also
  covers a whole create, flag three times, unhide cycle.
- `Store` (`store.dfy`): the class `AppStore` and its seed data.
  - The fields `issues`, `users` and `notifications` are `seq`s that the methods reassign.
  - Each mutating method's `ensures` gives the new value of every field as a transition function of
    the old values, and says when the object invariant `Valid()` is kept. `Valid()` means ids are
    unique and no issue has a duplicate flag.
  - `findIndex` and `find` are loop methods proved against `IndexOfId` and `IndexOfUser`. So is the
    id allocation `Math.max(...ids, 0) + 1`, proved against `NextId`.
  - The read side is a set of functions of the fields. `store.getIssues()` is
    `GetIssues(store.issues)`, `getAllIssues()` is `store.issues`, `getAllUsers()` is
    `store.users`, `getAnalytics()` is `GetAnalytics(store.issues)`, and so on.

Behaviour of the code worth noting:

- `reportSpam`, `banUser`, `unbanUser`, `updateIssueStatus` and `unhideIssue` return nothing. A
  call on an unknown key, or a repeated flag, is a silent no-op.
- `addUser` appends without checking the name. `getUser` returns the first match, so a second user
  with a taken name is stored but never found.
- Statuses and categories are free strings. Any status may follow any other.
- The store never rejects a reporter flagging their own issue, and it never rejects a banned user.
- `getUserIssues` returns only the reporter's visible issues.
- `isHidden` can also be set or cleared through `updateIssue`, because `Partial<Issue>` includes
  every key. For the same reason `updateIssue` can rewrite `id` or `spamReports`. So `UpdateIssue`
  is proved to keep `Valid()` when the update leaves `id` alone or sets it to itself, and sets
  `spamReports`, if at all, to a list without duplicates.

## Model

| member | source | states |
|---|---|---|
| `IssueRegistry.GetIssues` | lib/store.ts:145-147 | the result holds exactly the stored issues that are not hidden, and is no longer than the list |
| `IssueRegistry.GetIssuesAppend` | lib/store.ts:145-147 | the visible filter distributes over concatenation, so stored order is kept |
| `IssueRegistry.GetIssuesSingle` | lib/store.ts:145-147 | a single record is kept exactly when it is not hidden (with the lemma above, this pins the filter down to order) |
| `IssueRegistry.GetUserIssues` | lib/store.ts:157-159 | the result holds exactly the stored issues reported by the user that are not hidden |
| `IssueRegistry.GetUserIssuesAppend` | lib/store.ts:157-159 | the per-user filter distributes over concatenation, so stored order is kept |
| `IssueRegistry.GetUserIssuesOfVisible` | lib/store.ts:157-159 | filtering the visible issues by reporter gives the same list as getUserIssues |
| `IssueRegistry.IndexOfId` | lib/store.ts:173 | findIndex: -1 exactly when no record has the id; otherwise a position holding the id with no earlier one |
| `IssueRegistry.GetIssueById` | lib/store.ts:153-155 | None exactly when no record has the id; otherwise the record at the first position holding the id, as `find` returns |
| `IssueRegistry.GetIssueByIdUnique` | lib/store.ts:153-155 | with unique ids, the lookup of x.id returns x exactly when x is stored |
| `IssueRegistry.MaxId` | lib/store.ts:164 | Math.max(...ids, 0): at least every id, and either 0 or one of the ids |
| `IssueRegistry.NextId` | lib/store.ts:164 | the allocated id is greater than every stored id, is 1 for an empty store, and is not found by findIndex |
| `IssueRegistry.NewIssue` | lib/store.ts:161-167 | the new record has the given id, no spam reports, is not hidden, and carries exactly the caller's fields |
| `IssueRegistry.Added` | lib/store.ts:161-170 | addIssue keeps every prior record in place and appends the new record last |
| `IssueRegistry.AddedKeepsUniqueIds` | lib/store.ts:164-168 | adding keeps ids unique |
| `IssueRegistry.AddedThenGet` | lib/store.ts:161-170 | create/get round trip: looking up the new id returns the new record, whose caller fields equal the input |
| `IssueRegistry.MergeLaws` | lib/store.ts:176 | shallow merge: an empty update keeps the record, a full update replaces it, merging twice equals once, and two merges equal the merge of the combined update |
| `IssueRegistry.Merge` | lib/store.ts:176 | no contract of its own: the `{ ...issue, ...updates }` spread, field by field; its laws are stated by MergeLaws and MergeKeeps |
| `IssueRegistry.MergeKeeps` | lib/store.ts:176 | an update without `id` keeps the id, and one without `spamReports` keeps the flags |
| `IssueRegistry.Updated` | lib/store.ts:172-178 | unknown id: list unchanged; otherwise only the first record with the id is replaced by its merge, and the length is kept |
| `IssueRegistry.UpdatedKeepsUniqueIds` | lib/store.ts:172-178 | an update that leaves the id alone keeps ids unique |
| `IssueRegistry.UpdatedIdempotent` | lib/store.ts:172-178 | applying the same update twice equals applying it once, when the update leaves the id alone or sets it to itself, or when ids are unique (then an update that moves the id makes the second lookup miss) |
| `IssueRegistry.Deleted` | lib/store.ts:180-186 | unknown id: list unchanged; otherwise one shorter, with the records after the removed one moved up in order |
| `IssueRegistry.DeletedMultiset` | lib/store.ts:184 | splice removes exactly the first record with the id and no other |
| `IssueRegistry.DeletedUnique` | lib/store.ts:180-186 | with unique ids, deleting keeps them unique and the id is no longer found |
| `IssueRegistry.DeletedMembers` | lib/store.ts:180-186 | with unique ids, the remaining records are exactly those with another id |
| `IssueRegistry.StatusSet` | lib/store.ts:274-279 | only the status of the first record with the id changes, to the given string; unknown id: no change |
| `IssueRegistry.StatusSetLookup` | lib/store.ts:274-279 | no transition guard: whatever the current status, the found issue then carries the given one, with every other field kept |
| `IssueRegistry.StatusSetIdempotent` | lib/store.ts:274-279 | setting the same status twice equals setting it once |
| `IssueRegistry.StatusSetLastWins` | lib/store.ts:274-279 | of two status changes, the last one wins |
| `IssueRegistry.StatusSetKeepsIndex` | lib/store.ts:275 | a status change leaves every id lookup at the same position |
| `IssueRegistry.HiddenIssues` | lib/store.ts:250 | the result holds exactly the hidden issues |
| `IssueRegistry.HiddenIssuesAppend` | lib/store.ts:250 | the hidden filter distributes over concatenation |
| `IssueRegistry.HiddenIssuesSingle` | lib/store.ts:250 | a single record is kept exactly when it is hidden (with the lemma above, the length is the number of hidden records) |
| `IssueRegistry.VisiblePlusHidden` | lib/store.ts:250 | visible plus hidden counts equal the number of issues |
| `IssueRegistry.HiddenCountUpdate` | lib/store.ts:250 | replacing one record changes the hidden count only by that record's change |
| `Moderation.Flag` | lib/store.ts:190-195 | an accepted flag appends the reporter, sets isHidden when the count reaches 3 (never clears it), and changes no other field |
| `Moderation.AutoHideMessage` | lib/store.ts:197 | no contract of its own: the warning text, with the issue title inserted where the template puts it |
| `Moderation.Accepts` | lib/store.ts:189-190 | no contract of its own: the guard `issue && !issue.spamReports.includes(reportedBy)`; what it admits is stated by Flagged, ReportSpamIdempotent and UnhiddenLaws |
| `Moderation.Flagged` | lib/store.ts:188-203 | no-op for an unknown id or a reporter already listed; otherwise only the found record gets the flag |
| `Moderation.Alerts` | lib/store.ts:194-200 | at most one notification, present exactly when an accepted flag brings the count to 3 or more; it is a warning for "admin" |
| `Moderation.FlaggedKeepsIndex` | lib/store.ts:189 | flagging changes no id, so every lookup position is unchanged |
| `Moderation.FlaggedAppendsOnce` | lib/store.ts:190-191 | an accepted flag appends the reporter once, so it then occurs exactly once and a list without duplicates keeps none |
| `Moderation.FlaggedKeepsNoDuplicates` | lib/store.ts:190-191 | if no issue has duplicate flags before, none has after |
| `Moderation.ReportSpamIdempotent` | lib/store.ts:188-191 | repeating the same flag changes nothing and emits no notification |
| `Moderation.FlaggedNeverUnhides` | lib/store.ts:193-196 | reportSpam never sets isHidden back to false |
| `Moderation.FlaggedHidden` | lib/store.ts:193-196 | after a flag, a record is hidden exactly when it was before, or it is the flagged one and the flag reached the threshold |
| `Moderation.ThresholdRule` | lib/store.ts:193-201 | at 3 or more flags: hidden plus one admin notification; below 3: isHidden and the log unchanged |
| `Moderation.ThreeDistinctFlagsHide` | lib/store.ts:188-203 | three distinct reporters on an unflagged visible issue: visible after flags 1 and 2, hidden after 3, and only the third emits the warning |
| `Moderation.Unhidden` | lib/store.ts:281-287 | the found record gets isHidden false and no spam reports, with every other field and record unchanged; unknown id: no change |
| `Moderation.UnhiddenLaws` | lib/store.ts:281-287 | unhiding is idempotent, and afterwards every reporter's flag is accepted again |
| `UserDirectory.IndexOfUser` | lib/store.ts:218 | find on the username: -1 exactly when nobody has the name; otherwise the first position with it |
| `UserDirectory.GetUser` | lib/store.ts:205-207 | None exactly when nobody has the name; otherwise the user at the first position holding the name, as `find` returns |
| `UserDirectory.AddUserLookup` | lib/store.ts:205-215 | addUser with a taken name leaves getUser unchanged (first match wins); with a new name getUser finds the new user; other names are unaffected |
| `UserDirectory.BanSet` | lib/store.ts:217-229 | only isBanned of the first user with the name changes, to the given value; unknown name: no change |
| `UserDirectory.BanSetLaws` | lib/store.ts:217-229 | ban and unban are idempotent, the later call wins, and the looked-up user carries the new flag with all other fields kept |
| `Notifications.GetNotifications` | lib/store.ts:270-272 | the result holds exactly the entries addressed to the user or to "all" |
| `Notifications.GetNotificationsAppend` | lib/store.ts:270-272 | the filter distributes over concatenation, so log order is kept and appending grows each view by its matching part |
| `Notifications.GetNotificationsSingle` | lib/store.ts:270-272 | a single entry is seen by its addressee, and by everyone when sent to "all" |
| `Analytics.BumpSum` | lib/store.ts:235 | one increment raises the counter total by one |
| `Analytics.Lookup` | lib/store.ts:235 | no contract of its own: a key's count, or 0 when the counter lacks the key; its laws are BumpLookup, LookupAt and LookupAbsent |
| `Analytics.Bump` | lib/store.ts:235 | no contract of its own: one step of the reduce; its laws are BumpSum, BumpLookup and BumpKeys |
| `Analytics.BumpLookup` | lib/store.ts:235 | one increment raises that key's count by one and no other key's |
| `Analytics.BumpKeys` | lib/store.ts:235 | an existing key keeps its entry's place; a new key is added last |
| `Analytics.TallyOf` | lib/store.ts:233-247 | no contract of its own: the reduce from an empty object, left to right; its laws are TallyOfLaws |
| `Analytics.LookupAt` | lib/store.ts:235 | in a counter with distinct keys, looking up an entry's key gives its count |
| `Analytics.LookupAbsent` | lib/store.ts:235 | a key missing from the counter reads as 0, as the fallback to 0 gives |
| `Analytics.TallyOfLaws` | lib/store.ts:233-247 | the reduce's total equals the number of items, each key's count is its number of occurrences, and the entries are the distinct keys in first-seen order |
| `Analytics.FirstSeenOrdered` | lib/store.ts:258 | the first-seen keys are distinct and ordered by first occurrence |
| `Analytics.FirstMax` | lib/store.ts:258 | a largest count, with every earlier entry strictly smaller (stable-sort tie-break) |
| `Analytics.MostReported` | lib/store.ts:258 | "None" for an empty counter; otherwise the leading key, except that an empty-string leading key also gives "None" |
| `Analytics.TopKey` | lib/store.ts:258 | the leading category is one of the categories that occur |
| `Analytics.TopKeyIsMax` | lib/store.ts:258 | no category occurs more often than the leading one |
| `Analytics.TopKeyTieBreak` | lib/store.ts:258 | every category first seen before the leading one occurs strictly less often |
| `Analytics.SpamReported` | lib/store.ts:249 | the result holds exactly the issues with at least one spam report |
| `Analytics.SpamReportedAppend` | lib/store.ts:249 | the flagged filter distributes over concatenation |
| `Analytics.SpamReportedSingle` | lib/store.ts:249 | a single record is kept exactly when it has a report (with the lemma above, the length is the number of flagged records) |
| `Analytics.GetAnalytics` | lib/store.ts:231-260 | totalIssues is the issue count, categoryStats and statusStats each sum to it, hidden plus visible equals it, and mostReportedCategory is "None" for an empty store |
| `Analytics.AnalyticsCounts` | lib/store.ts:233-247 | each counter gives every category or status its number of issues, with entries in first-seen order |
| `Analytics.MostReportedLaw` | lib/store.ts:258 | mostReportedCategory is the first-seen category of maximal count ("None" if that is the empty string) |
| `Analytics.AnalyticsModerationCounts` | lib/store.ts:249-257 | ties spamReports and hiddenIssues to the two filters, gives hiddenIssues as the total minus the visible count, and gives 0 when no issue qualifies |
| `Analytics.AnalyticsModerationAppend` | lib/store.ts:249-257 | both moderation counts add up over a split of the collection |
| `Analytics.AnalyticsModerationSingle` | lib/store.ts:249-257 | a single issue contributes 1 to spamReports exactly when it has a report, and 1 to hiddenIssues exactly when it is hidden |
| `Lifecycle.FlaggedHiddenCount` | lib/store.ts:193-196 | a flag raises hiddenIssues by one exactly when it auto-hides a visible issue |
| `Lifecycle.UnhiddenHiddenCount` | lib/store.ts:281-287 | unhiding lowers hiddenIssues by one exactly when the issue was hidden |
| `Lifecycle.CycleRecords` | lib/store.ts:188-203 | after flags from a and b: visible with 2 reports; after c: hidden; after unhide: visible with none |
| `Lifecycle.CycleHiddenCounts` | lib/store.ts:188-203 | along that cycle hiddenIssues goes n, n, n+1, n |
| `Lifecycle.FlagAndUnhideCycle` | lib/store.ts:161-170 | on a fresh issue added to a store with nothing hidden, the cycle moves hiddenIssues through 0, 1, 0 |
| `Store.SeedIssues` | lib/store.ts:27-126 | the six seed issues have ids 1 to 6 (so unique), no flags, and none hidden |
| `Store.AppStore.constructor` | lib/store.ts:26-143 | a new store holds the seed issues, the admin user and an empty log, and satisfies Valid |
| `Store.AppStore.FindIssueIndex` | lib/store.ts:173 | the loop returns the findIndex position of the id |
| `Store.AppStore.NextIssueId` | lib/store.ts:164 | the loop returns Math.max(...ids, 0) + 1, which exceeds every stored id |
| `Store.AppStore.AddIssue` | lib/store.ts:161-170 | returns the new record with the next id; issues become the old list plus it; other fields unchanged; Valid kept; looking up the returned record's id finds that record |
| `Store.AppStore.UpdateIssue` | lib/store.ts:172-178 | returns whether the id was found; issues become Updated; Valid kept when the update leaves `id` alone or sets it to itself, and sets `spamReports`, if at all, to a list without duplicates |
| `Store.AppStore.DeleteIssue` | lib/store.ts:180-186 | returns whether the id was found; issues become Deleted; Valid kept; from a valid store, the deleted id is no longer found |
| `Store.AppStore.ReportSpam` | lib/store.ts:188-203 | issues become Flagged, the log gains Alerts, users unchanged, Valid kept |
| `Store.AppStore.FindUserIndex` | lib/store.ts:218 | the loop returns the find position of the username |
| `Store.AppStore.AddUser` | lib/store.ts:213-215 | users gain the given user at the end, with no check |
| `Store.AppStore.BanUser` | lib/store.ts:217-222 | users become BanSet(..., true); nothing else changes |
| `Store.AppStore.UnbanUser` | lib/store.ts:224-229 | users become BanSet(..., false); nothing else changes |
| `Store.AppStore.AddNotification` | lib/store.ts:262-268 | the log gains the entry at the end; nothing else changes |
| `Store.AppStore.UpdateIssueStatus` | lib/store.ts:274-279 | issues become StatusSet; Valid kept |
| `Store.AppStore.UnhideIssue` | lib/store.ts:281-287 | issues become Unhidden; Valid kept |

## Left out

- Pages, layouts, routing, browser storage, toasts and the mock notification socket are not part of
  this model. They only call into the store.
- A notification's `id` and `timestamp` come from the clock (lib/store.ts:265-266). A notification
  is modelled as its message, type and addressee only. Its `type` field is named `kind`, because
  `type` is a Dafny keyword.
- Aliasing is not modelled. `getAllIssues` and `getAllUsers` return the live arrays, and `addIssue`
  returns the stored object, so a caller that mutates them mutates the store. The model works on
  values.
- Object spread details are not modelled. Extra properties on an `addIssue` argument are not
  carried. An update key present with the value `undefined` is only modelled for `coordinates`.
- Ids are `nat`, so negative, fractional or non-numeric ids that `updateIssue` could write are not
  modelled. `Math.max` over an array too large to spread is not modelled either.
- IssueRegistry.NextId, IssueRegistry.AddedKeepsUniqueIds, IssueRegistry.AddedThenGet and
  Store.AppStore.AddIssue: they hold in the program only while every stored id is at most
  2^53 - 1. Source ids are IEEE doubles, and `updateIssue` can store an id of 2^53 or more. From
  there, `Math.max(...ids, 0) + 1` (lib/store.ts:164) can round to an id that is already stored,
  and `getIssueById` then finds the older record. On unbounded `nat` the model always allocates a
  fresh id.
- JavaScript object quirks in the counters are not modelled. `Object.entries` lists integer-like
  keys first, in numeric order; the model uses plain insertion order. Keys such as `constructor`
  or `__proto__` hit inherited properties of `acc`; the model treats them like any other string.
- The `sort` in `getAnalytics` is modelled only by the entry it puts first. That is the first entry
  with the largest count, because the sort is stable.
- Coordinates are modelled as a pair of reals and `distance` as a string. Both pass through
  unchanged; no floating-point behaviour is modelled.
- The module-level singleton `export const appStore = new AppStore()` (lib/store.ts:290) is not
  modelled. The model constructs stores explicitly.
- Concurrency is not modelled. Every operation is synchronous and runs to completion.
