/** Spam flagging and its auto-hide rule, and the moderator's unhide (lib/store.ts:188-203, 281-287),
    as transitions of the issue collection plus the notifications a flag emits. */
module Moderation {
  import opened Records
  import opened IssueRegistry

  /** The number of distinct flags at which an issue is hidden. */
  const HideThreshold: nat := 3

  /** The warning logged for "admin" when an issue is auto-hidden. */
  function AutoHideMessage(title: string): string
  {
    "Issue \"" + title + "\" has been auto-hidden due to multiple spam reports"
  }

  /** A flag takes effect exactly when the issue exists and the reporter has not flagged it yet.
      Whether the reporter is the issue's own author plays no part. */
  predicate Accepts(s: seq<Issue>, id: nat, reporter: string)
  {
    var k := IndexOfId(s, id);
    k >= 0 && reporter !in s[k].spamReports
  }

  /** One accepted flag on a record: the reporter is appended, and reaching the threshold hides it. */
  function Flag(x: Issue, reporter: string): (r: Issue)
    ensures r.spamReports == x.spamReports + [reporter]
    ensures r.isHidden == (x.isHidden || |x.spamReports| + 1 >= HideThreshold)
    ensures r == x.(spamReports := r.spamReports, isHidden := r.isHidden)
  {
    var y := x.(spamReports := x.spamReports + [reporter]);
    if |y.spamReports| >= HideThreshold then y.(isHidden := true) else y
  }

  /** The collection after reportSpam. */
  function Flagged(s: seq<Issue>, id: nat, reporter: string): (r: seq<Issue>)
    ensures |r| == |s|
    ensures !Accepts(s, id, reporter) ==> r == s
    ensures Accepts(s, id, reporter) ==> r == s[IndexOfId(s, id) := Flag(s[IndexOfId(s, id)], reporter)]
  {
    if Accepts(s, id, reporter) then
      var k := IndexOfId(s, id);
      s[k := Flag(s[k], reporter)]
    else s
  }

  /** The notifications reportSpam appends: one warning for "admin" when an accepted flag brings
      the issue to the threshold, none otherwise. */
  function Alerts(s: seq<Issue>, id: nat, reporter: string): (r: seq<Notification>)
    ensures |r| <= 1
    ensures |r| == 1 <==> Accepts(s, id, reporter) && |s[IndexOfId(s, id)].spamReports| + 1 >= HideThreshold
    ensures |r| == 1 ==> r[0].userId == "admin" && r[0].kind == Warning
  {
    if Accepts(s, id, reporter) && |s[IndexOfId(s, id)].spamReports| + 1 >= HideThreshold then
      [Notification(AutoHideMessage(s[IndexOfId(s, id)].title), Warning, "admin")]
    else []
  }

  /** The collection after unhideIssue: the first record with `id` shown again, with no flags. */
  function Unhidden(s: seq<Issue>, id: nat): (r: seq<Issue>)
    ensures |r| == |s|
    ensures IndexOfId(s, id) == -1 ==> r == s
    ensures forall i :: 0 <= i < |s| && i != IndexOfId(s, id) ==> r[i] == s[i]
    ensures IndexOfId(s, id) >= 0 ==>
      var k := IndexOfId(s, id);
      r[k] == s[k].(isHidden := false, spamReports := []) && !r[k].isHidden && r[k].spamReports == []
  {
    var k := IndexOfId(s, id);
    if k == -1 then s else s[k := s[k].(isHidden := false, spamReports := [])]
  }

  // ---------------------------------------------------------------- properties of reportSpam

  /** A flag never changes ids, so the issue is found at the same place afterwards. */
  lemma FlaggedKeepsIndex(s: seq<Issue>, id: nat, reporter: string, id2: nat)
    ensures IndexOfId(Flagged(s, id, reporter), id2) == IndexOfId(s, id2)
  {
    var r := Flagged(s, id, reporter);
    assert forall i :: 0 <= i < |s| ==> r[i].id == s[i].id;
  }

  /** An accepted flag appends the reporter exactly once; a list without duplicates keeps none. */
  lemma FlaggedAppendsOnce(s: seq<Issue>, id: nat, reporter: string)
    requires Accepts(s, id, reporter)
    ensures var k := IndexOfId(s, id);
      Flagged(s, id, reporter)[k].spamReports == s[k].spamReports + [reporter] &&
      multiset(Flagged(s, id, reporter)[k].spamReports)[reporter] == 1
    ensures NoDuplicates(s[IndexOfId(s, id)].spamReports) ==>
      NoDuplicates(Flagged(s, id, reporter)[IndexOfId(s, id)].spamReports)
  {
    var k := IndexOfId(s, id);
    var prior := s[k].spamReports;
    assert reporter !in multiset(prior);
    assert multiset(prior + [reporter]) == multiset(prior) + multiset{reporter};
  }

  /** Flags never leave a duplicate behind, anywhere in the collection. */
  lemma FlaggedKeepsNoDuplicates(s: seq<Issue>, id: nat, reporter: string)
    requires forall i :: 0 <= i < |s| ==> NoDuplicates(s[i].spamReports)
    ensures var r := Flagged(s, id, reporter);
      forall i :: 0 <= i < |r| ==> NoDuplicates(r[i].spamReports)
  {
    if Accepts(s, id, reporter) {
      FlaggedAppendsOnce(s, id, reporter);
    }
  }

  /** Repeating the same flag changes nothing and emits nothing. */
  lemma {:induction false} ReportSpamIdempotent(s: seq<Issue>, id: nat, reporter: string)
    ensures Flagged(Flagged(s, id, reporter), id, reporter) == Flagged(s, id, reporter)
    ensures Alerts(Flagged(s, id, reporter), id, reporter) == []
  {
    var r := Flagged(s, id, reporter);
    FlaggedKeepsIndex(s, id, reporter, id);
    var k := IndexOfId(s, id);
    if Accepts(s, id, reporter) {
      assert reporter in r[k].spamReports;
    }
    assert !Accepts(r, id, reporter);
  }

  /** reportSpam never shows a hidden issue again. */
  lemma FlaggedNeverUnhides(s: seq<Issue>, id: nat, reporter: string)
    ensures var r := Flagged(s, id, reporter);
      forall i :: 0 <= i < |s| && s[i].isHidden ==> r[i].isHidden
  {
  }

  /** Which records a flag leaves hidden: those hidden before, plus the flagged one when the flag
      is accepted and brings it to the threshold. */
  lemma FlaggedHidden(s: seq<Issue>, id: nat, reporter: string)
    ensures var r, k := Flagged(s, id, reporter), IndexOfId(s, id);
      forall i :: 0 <= i < |s| ==>
        (r[i].isHidden <==> s[i].isHidden || (i == k && Accepts(s, id, reporter) && |s[k].spamReports| + 1 >= HideThreshold))
  {
  }

  /** The threshold rule: after an accepted flag the issue is hidden exactly when it was already,
      or its flags now number at least the threshold; the alert goes out exactly in the second case.
      Below the threshold neither the hidden flag nor the notification log moves. */
  lemma ThresholdRule(s: seq<Issue>, id: nat, reporter: string)
    requires Accepts(s, id, reporter)
    ensures var k := IndexOfId(s, id);
      var r := Flagged(s, id, reporter);
      (|r[k].spamReports| >= HideThreshold ==> r[k].isHidden && |Alerts(s, id, reporter)| == 1) &&
      (|r[k].spamReports| < HideThreshold ==> r[k].isHidden == s[k].isHidden && Alerts(s, id, reporter) == [])
  {
  }

  /** Three distinct reporters on an unflagged, visible issue: it stays visible after the first and
      second flag and is hidden by the third, which alone emits the warning. */
  lemma {:induction false} ThreeDistinctFlagsHide(s: seq<Issue>, id: nat, a: string, b: string, c: string)
    requires IndexOfId(s, id) >= 0
    requires s[IndexOfId(s, id)].spamReports == [] && !s[IndexOfId(s, id)].isHidden
    requires a != b && b != c && a != c
    ensures var k := IndexOfId(s, id);
      var s1 := Flagged(s, id, a);
      var s2 := Flagged(s1, id, b);
      var s3 := Flagged(s2, id, c);
      !s1[k].isHidden && !s2[k].isHidden && s3[k].isHidden &&
      s3[k].spamReports == [a, b, c] &&
      Alerts(s, id, a) == [] && Alerts(s1, id, b) == [] && |Alerts(s2, id, c)| == 1
  {
    var k := IndexOfId(s, id);
    var s1 := Flagged(s, id, a);
    assert Accepts(s, id, a);
    assert s1[k] == Flag(s[k], a);
    assert s1[k].spamReports == [a] && !s1[k].isHidden;
    FlaggedKeepsIndex(s, id, a, id);
    var s2 := Flagged(s1, id, b);
    assert Accepts(s1, id, b);
    assert s2[k] == Flag(s1[k], b);
    assert s2[k].spamReports == [a, b] && !s2[k].isHidden;
    FlaggedKeepsIndex(s1, id, b, id);
    var s3 := Flagged(s2, id, c);
    assert Accepts(s2, id, c);
    assert s3[k] == Flag(s2[k], c);
  }

  // ---------------------------------------------------------------- properties of unhideIssue

  /** Unhiding twice is unhiding once; after unhiding, any reporter's flag is accepted again. */
  lemma UnhiddenLaws(s: seq<Issue>, id: nat, reporter: string)
    ensures Unhidden(Unhidden(s, id), id) == Unhidden(s, id)
    ensures IndexOfId(s, id) >= 0 ==> Accepts(Unhidden(s, id), id, reporter)
  {
    var r := Unhidden(s, id);
    var k := IndexOfId(s, id);
    assert forall i :: 0 <= i < |s| ==> r[i].id == s[i].id;
    if k >= 0 {
      assert IndexOfId(r, id) == k;
    }
  }
}
