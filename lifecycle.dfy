/** How the moderation operations move the summary's hidden count, and the full moderation cycle
    on a freshly added issue, as the store's operations compose them. */
module Lifecycle {
  import opened Records
  import opened IssueRegistry
  import opened Moderation
  import opened Analytics

  /** A flag raises the hidden count by one exactly when it auto-hides a visible issue. */
  lemma FlaggedHiddenCount(s: seq<Issue>, id: nat, reporter: string)
    ensures var k := IndexOfId(s, id);
      GetAnalytics(Flagged(s, id, reporter)).hiddenIssues == GetAnalytics(s).hiddenIssues +
        (if Accepts(s, id, reporter) && !s[k].isHidden && |s[k].spamReports| + 1 >= HideThreshold then 1 else 0)
  {
    AnalyticsModerationCounts(s);
    AnalyticsModerationCounts(Flagged(s, id, reporter));
    FlaggedHiddenIssues(s, id, reporter);
  }

  lemma FlaggedHiddenIssues(s: seq<Issue>, id: nat, reporter: string)
    ensures var k := IndexOfId(s, id);
      |HiddenIssues(Flagged(s, id, reporter))| == |HiddenIssues(s)| +
        (if Accepts(s, id, reporter) && !s[k].isHidden && |s[k].spamReports| + 1 >= HideThreshold then 1 else 0)
  {
    if Accepts(s, id, reporter) {
      var k := IndexOfId(s, id);
      HiddenCountUpdate(s, k, Flag(s[k], reporter));
    }
  }

  /** Unhiding lowers the hidden count by one exactly when the issue was hidden. */
  lemma UnhiddenHiddenCount(s: seq<Issue>, id: nat)
    ensures var k := IndexOfId(s, id);
      GetAnalytics(Unhidden(s, id)).hiddenIssues + (if k >= 0 && s[k].isHidden then 1 else 0) ==
        GetAnalytics(s).hiddenIssues
  {
    AnalyticsModerationCounts(s);
    AnalyticsModerationCounts(Unhidden(s, id));
    UnhiddenHiddenIssues(s, id);
  }

  lemma UnhiddenHiddenIssues(s: seq<Issue>, id: nat)
    ensures var k := IndexOfId(s, id);
      |HiddenIssues(Unhidden(s, id))| + (if k >= 0 && s[k].isHidden then 1 else 0) == |HiddenIssues(s)|
  {
    var k := IndexOfId(s, id);
    if k >= 0 {
      HiddenCountUpdate(s, k, s[k].(isHidden := false, spamReports := []));
    }
  }

  /** Three distinct flags and an unhide on an unflagged, visible issue: two flags leave it visible
      with two reports, the third hides it, and unhiding shows it again with no reports. */
  lemma CycleRecords(t: seq<Issue>, id: nat, a: string, b: string, c: string)
    requires IndexOfId(t, id) >= 0 && t[IndexOfId(t, id)].spamReports == [] && !t[IndexOfId(t, id)].isHidden
    requires a != b && b != c && a != c
    ensures var k := IndexOfId(t, id);
      var s2 := Flagged(Flagged(t, id, a), id, b);
      var s3 := Flagged(s2, id, c);
      !s2[k].isHidden && |s2[k].spamReports| == 2 && s3[k].isHidden &&
      !Unhidden(s3, id)[k].isHidden && Unhidden(s3, id)[k].spamReports == []
  {
    var s1 := Flagged(t, id, a);
    var s2 := Flagged(s1, id, b);
    ThreeDistinctFlagsHide(t, id, a, b, c);
    FlaggedKeepsIndex(t, id, a, id);
    FlaggedKeepsIndex(s1, id, b, id);
    FlaggedKeepsIndex(s2, id, c, id);
  }

  /** Along the same cycle the summary's hidden count goes n, n, n + 1, n. */
  lemma CycleHiddenCounts(t: seq<Issue>, id: nat, a: string, b: string, c: string)
    requires IndexOfId(t, id) >= 0 && t[IndexOfId(t, id)].spamReports == [] && !t[IndexOfId(t, id)].isHidden
    requires a != b && b != c && a != c
    ensures var n := GetAnalytics(t).hiddenIssues;
      var s2 := Flagged(Flagged(t, id, a), id, b);
      var s3 := Flagged(s2, id, c);
      GetAnalytics(s2).hiddenIssues == n && GetAnalytics(s3).hiddenIssues == n + 1 &&
      GetAnalytics(Unhidden(s3, id)).hiddenIssues == n
  {
    var s1 := Flagged(t, id, a);
    var s2 := Flagged(s1, id, b);
    var s3 := Flagged(s2, id, c);
    ThreeDistinctFlagsHide(t, id, a, b, c);
    FlaggedKeepsIndex(t, id, a, id);
    FlaggedKeepsIndex(s1, id, b, id);
    FlaggedKeepsIndex(s2, id, c, id);
    FlaggedHiddenCount(t, id, a);
    FlaggedHiddenCount(s1, id, b);
    FlaggedHiddenCount(s2, id, c);
    UnhiddenHiddenCount(s3, id);
  }

  /** The cycle on an issue just created by addIssue, in a collection with nothing hidden:
      the hidden count goes 0, 1, 0. */
  lemma FlagAndUnhideCycle(s: seq<Issue>, input: IssueInput, a: string, b: string, c: string)
    requires forall i :: 0 <= i < |s| ==> !s[i].isHidden
    requires a != b && b != c && a != c
    ensures var id, t := NextId(s), Added(s, input);
      var s2 := Flagged(Flagged(t, id, a), id, b);
      var s3 := Flagged(s2, id, c);
      !s2[|s|].isHidden && |s2[|s|].spamReports| == 2 && GetAnalytics(s2).hiddenIssues == 0 &&
      s3[|s|].isHidden && GetAnalytics(s3).hiddenIssues == 1 &&
      !Unhidden(s3, id)[|s|].isHidden && Unhidden(s3, id)[|s|].spamReports == [] &&
      GetAnalytics(Unhidden(s3, id)).hiddenIssues == 0
  {
    AddedFresh(s, input);
    CycleRecords(Added(s, input), NextId(s), a, b, c);
    CycleHiddenCounts(Added(s, input), NextId(s), a, b, c);
  }

  /** The issue addIssue appends sits last, unflagged and visible; with nothing hidden before,
      nothing is hidden after. */
  lemma AddedFresh(s: seq<Issue>, input: IssueInput)
    requires forall i :: 0 <= i < |s| ==> !s[i].isHidden
    ensures var t := Added(s, input);
      IndexOfId(t, NextId(s)) == |s| && t[|s|].spamReports == [] && !t[|s|].isHidden &&
      GetAnalytics(t).hiddenIssues == 0
  {
    var t := Added(s, input);
    AddedIndex(s, input);
    assert forall i :: 0 <= i < |t| ==> !t[i].isHidden by {
      assert forall i :: 0 <= i < |s| ==> t[i] == s[i];
    }
    NothingHidden(t);
    AnalyticsModerationCounts(t);
  }

  lemma AddedIndex(s: seq<Issue>, input: IssueInput)
    ensures IndexOfId(Added(s, input), NextId(s)) == |s|
  {
    var t := Added(s, input);
    assert forall i :: 0 <= i < |s| ==> t[i].id == s[i].id;
  }
}
