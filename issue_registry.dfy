/** The issue collection as a value: the queries of lib/store.ts:145-159 and the
    transitions addIssue, updateIssue, deleteIssue and updateIssueStatus apply to it. */
module IssueRegistry {
  import opened Records

  /** Every id occurs at most once. */
  predicate UniqueIds(s: seq<Issue>)
  {
    forall i, j :: 0 <= i < j < |s| ==> s[i].id != s[j].id
  }

  // ---------------------------------------------------------------- queries

  /** getIssues: the issues that are not hidden, in stored order. */
  function GetIssues(s: seq<Issue>): (r: seq<Issue>)
    ensures |r| <= |s|
    ensures forall x :: x in r <==> x in s && !x.isHidden
  {
    if s == [] then []
    else (if s[0].isHidden then [] else [s[0]]) + GetIssues(s[1..])
  }

  /** The issues that are hidden (used by the analytics). */
  function HiddenIssues(s: seq<Issue>): (r: seq<Issue>)
    ensures forall x :: x in r <==> x in s && x.isHidden
  {
    if s == [] then []
    else (if s[0].isHidden then [s[0]] else []) + HiddenIssues(s[1..])
  }

  /** The hidden filter distributes over concatenation and keeps a single record exactly when it
      is hidden, so the hidden count is the number of hidden records. */
  lemma {:induction false} HiddenIssuesAppend(a: seq<Issue>, b: seq<Issue>)
    ensures HiddenIssues(a + b) == HiddenIssues(a) + HiddenIssues(b)
  {
    if a == [] {
      assert a + b == b;
    } else {
      var c := a + b;
      assert c[0] == a[0];
      assert c[1..] == a[1..] + b;
      HiddenIssuesAppend(a[1..], b);
    }
  }

  lemma HiddenIssuesSingle(x: Issue)
    ensures HiddenIssues([x]) == if x.isHidden then [x] else []
  {
    assert [x][1..] == [];
  }

  /** Every issue is either visible or hidden. */
  lemma {:induction false} VisiblePlusHidden(s: seq<Issue>)
    ensures |GetIssues(s)| + |HiddenIssues(s)| == |s|
  {
    if s != [] {
      VisiblePlusHidden(s[1..]);
    }
  }

  /** Replacing one record changes the hidden count by that record's change alone. */
  lemma {:induction false} HiddenCountUpdate(s: seq<Issue>, k: nat, x: Issue)
    requires k < |s|
    ensures |HiddenIssues(s[k := x])| ==
      |HiddenIssues(s)| - (if s[k].isHidden then 1 else 0) + (if x.isHidden then 1 else 0)
  {
    if k == 0 {
      assert s[k := x][1..] == s[1..];
    } else {
      assert s[k := x][1..] == s[1..][k - 1 := x];
      HiddenCountUpdate(s[1..], k - 1, x);
    }
  }

  /** getUserIssues: the visible issues that `username` reported, in stored order. */
  function GetUserIssues(s: seq<Issue>, username: string): (r: seq<Issue>)
    ensures |r| <= |s|
    ensures forall x :: x in r <==> x in s && x.reportedBy == username && !x.isHidden
  {
    if s == [] then []
    else (if s[0].reportedBy == username && !s[0].isHidden then [s[0]] else []) + GetUserIssues(s[1..], username)
  }

  /** findIndex on the id: the first position holding `id`, or -1. */
  function IndexOfId(s: seq<Issue>, id: nat): (k: int)
    ensures -1 <= k < |s|
    ensures k == -1 <==> forall i :: 0 <= i < |s| ==> s[i].id != id
    ensures k >= 0 ==> s[k].id == id && forall i :: 0 <= i < k ==> s[i].id != id
  {
    if s == [] then -1
    else if s[0].id == id then 0
    else
      var k := IndexOfId(s[1..], id);
      if k == -1 then -1 else k + 1
  }

  /** getIssueById: the first issue carrying `id`, if any. */
  function GetIssueById(s: seq<Issue>, id: nat): (r: Option<Issue>)
    ensures r.None? <==> forall i :: 0 <= i < |s| ==> s[i].id != id
    ensures r.Some? ==> r.value in s && r.value.id == id
    ensures r.Some? ==> exists k :: 0 <= k < |s| && s[k] == r.value && forall i :: 0 <= i < k ==> s[i].id != id
  {
    var k := IndexOfId(s, id);
    if k == -1 then None else Some(s[k])
  }

  lemma {:induction false} GetIssuesAppend(a: seq<Issue>, b: seq<Issue>)
    ensures GetIssues(a + b) == GetIssues(a) + GetIssues(b)
  {
    if a == [] {
      assert a + b == b;
    } else {
      var c := a + b;
      assert c[0] == a[0];
      assert c[1..] == a[1..] + b;
      GetIssuesAppend(a[1..], b);
    }
  }

  /** Together with GetIssuesAppend this pins the order: the filter keeps a single record
      exactly when it is visible, and distributes over concatenation. */
  lemma GetIssuesSingle(x: Issue)
    ensures GetIssues([x]) == if x.isHidden then [] else [x]
  {
    assert [x][1..] == [];
  }

  lemma {:induction false} GetUserIssuesAppend(a: seq<Issue>, b: seq<Issue>, username: string)
    ensures GetUserIssues(a + b, username) == GetUserIssues(a, username) + GetUserIssues(b, username)
  {
    if a == [] {
      assert a + b == b;
    } else {
      var c := a + b;
      assert c[0] == a[0];
      assert c[1..] == a[1..] + b;
      GetUserIssuesAppend(a[1..], b, username);
    }
  }

  /** A user's issues are drawn from the visible ones: filtering the visible list gives the same result. */
  lemma {:induction false} GetUserIssuesOfVisible(s: seq<Issue>, username: string)
    ensures GetUserIssues(GetIssues(s), username) == GetUserIssues(s, username)
  {
    if s != [] {
      var head := if s[0].isHidden then [] else [s[0]];
      GetUserIssuesOfVisible(s[1..], username);
      GetUserIssuesAppend(head, GetIssues(s[1..]), username);
      if !s[0].isHidden {
        assert head[1..] == [];
      }
    }
  }

  /** With unique ids, the lookup finds exactly the record holding the id. */
  lemma GetIssueByIdUnique(s: seq<Issue>, x: Issue)
    requires UniqueIds(s)
    ensures GetIssueById(s, x.id) == Some(x) <==> x in s
  {
    if x in s {
      var i :| 0 <= i < |s| && s[i] == x;
      var k := IndexOfId(s, x.id);
      assert k <= i;
    }
  }

  // ---------------------------------------------------------------- addIssue

  /** Math.max(...ids, 0): the largest id, or 0 when there is none. */
  function MaxId(s: seq<Issue>): (m: nat)
    ensures forall i :: 0 <= i < |s| ==> s[i].id <= m
    ensures m == 0 || exists i :: 0 <= i < |s| && s[i].id == m
  {
    if s == [] then 0
    else
      var m := MaxId(s[..|s| - 1]);
      if s[|s| - 1].id > m then s[|s| - 1].id else m
  }

  /** The id addIssue allocates. */
  function NextId(s: seq<Issue>): (r: nat)
    ensures forall i :: 0 <= i < |s| ==> s[i].id < r
    ensures s == [] ==> r == 1
    ensures IndexOfId(s, r) == -1
  {
    MaxId(s) + 1
  }

  /** The record addIssue stores: the input's fields, a fresh id, no spam reports, not hidden. */
  function NewIssue(input: IssueInput, id: nat): (r: Issue)
    ensures r.id == id && r.spamReports == [] && !r.isHidden
    ensures InputOf(r) == input
  {
    Issue(id, input.title, input.description, input.category, input.status, input.address,
          input.reportedDate, input.reportedTime, input.reportedBy, input.distance, input.image,
          input.coordinates, [], false)
  }

  /** The caller-supplied part of a record. */
  function InputOf(x: Issue): IssueInput
  {
    IssueInput(x.title, x.description, x.category, x.status, x.address, x.reportedDate,
               x.reportedTime, x.reportedBy, x.distance, x.image, x.coordinates)
  }

  /** The collection after addIssue. */
  function Added(s: seq<Issue>, input: IssueInput): (r: seq<Issue>)
    ensures |r| == |s| + 1 && r[..|s|] == s
    ensures r[|s|] == NewIssue(input, NextId(s))
  {
    s + [NewIssue(input, NextId(s))]
  }

  lemma AddedKeepsUniqueIds(s: seq<Issue>, input: IssueInput)
    requires UniqueIds(s)
    ensures UniqueIds(Added(s, input))
  {
  }

  /** Create/get round trip: the new id finds the new record, whatever the prior ids were. */
  lemma {:induction false} AddedThenGet(s: seq<Issue>, input: IssueInput)
    ensures GetIssueById(Added(s, input), NextId(s)) == Some(NewIssue(input, NextId(s)))
    ensures InputOf(GetIssueById(Added(s, input), NextId(s)).value) == input
  {
    var r := Added(s, input);
    var k := IndexOfId(r, NextId(s));
    assert r[|s|].id == NextId(s);
    assert k == |s|;
  }

  // ---------------------------------------------------------------- updateIssue

  /** `{ ...x, ...u }`: every key present in `u` overrides the record's value. */
  function Merge(x: Issue, u: IssueUpdate): Issue
  {
    Issue(
      if u.id.Some? then u.id.value else x.id,
      if u.title.Some? then u.title.value else x.title,
      if u.description.Some? then u.description.value else x.description,
      if u.category.Some? then u.category.value else x.category,
      if u.status.Some? then u.status.value else x.status,
      if u.address.Some? then u.address.value else x.address,
      if u.reportedDate.Some? then u.reportedDate.value else x.reportedDate,
      if u.reportedTime.Some? then u.reportedTime.value else x.reportedTime,
      if u.reportedBy.Some? then u.reportedBy.value else x.reportedBy,
      if u.distance.Some? then u.distance.value else x.distance,
      if u.image.Some? then u.image.value else x.image,
      if u.coordinates.Some? then u.coordinates.value else x.coordinates,
      if u.spamReports.Some? then u.spamReports.value else x.spamReports,
      if u.isHidden.Some? then u.isHidden.value else x.isHidden)
  }

  /** The update object with no keys. */
  const NoUpdate := IssueUpdate(None, None, None, None, None, None, None, None, None, None, None, None, None, None)

  /** The update object that carries every key of `y`. */
  function FullUpdate(y: Issue): IssueUpdate
  {
    IssueUpdate(Some(y.id), Some(y.title), Some(y.description), Some(y.category), Some(y.status),
                Some(y.address), Some(y.reportedDate), Some(y.reportedTime), Some(y.reportedBy),
                Some(y.distance), Some(y.image), Some(y.coordinates), Some(y.spamReports), Some(y.isHidden))
  }

  /** `{ ...u1, ...u2 }` on two update objects. */
  function Combine(u1: IssueUpdate, u2: IssueUpdate): IssueUpdate
  {
    IssueUpdate(
      if u2.id.Some? then u2.id else u1.id,
      if u2.title.Some? then u2.title else u1.title,
      if u2.description.Some? then u2.description else u1.description,
      if u2.category.Some? then u2.category else u1.category,
      if u2.status.Some? then u2.status else u1.status,
      if u2.address.Some? then u2.address else u1.address,
      if u2.reportedDate.Some? then u2.reportedDate else u1.reportedDate,
      if u2.reportedTime.Some? then u2.reportedTime else u1.reportedTime,
      if u2.reportedBy.Some? then u2.reportedBy else u1.reportedBy,
      if u2.distance.Some? then u2.distance else u1.distance,
      if u2.image.Some? then u2.image else u1.image,
      if u2.coordinates.Some? then u2.coordinates else u1.coordinates,
      if u2.spamReports.Some? then u2.spamReports else u1.spamReports,
      if u2.isHidden.Some? then u2.isHidden else u1.isHidden)
  }

  /** The shallow merge: an empty update keeps the record, a full one replaces it, the same
      update twice is the same update once, and two updates in a row are their combination
      (the later one wins on shared keys). */
  lemma MergeLaws(x: Issue, y: Issue, u: IssueUpdate, u2: IssueUpdate)
    ensures Merge(x, NoUpdate) == x
    ensures Merge(x, FullUpdate(y)) == y
    ensures Merge(Merge(x, u), u) == Merge(x, u)
    ensures Merge(Merge(x, u), u2) == Merge(x, Combine(u, u2))
  {
  }

  /** An update without an `id` key keeps the id; one without `spamReports` keeps the flags. */
  lemma MergeKeeps(x: Issue, u: IssueUpdate)
    ensures u.id.None? ==> Merge(x, u).id == x.id
    ensures u.spamReports.None? ==> Merge(x, u).spamReports == x.spamReports
  {
  }

  /** The collection after updateIssue: the first record with `id` merged, the rest untouched. */
  function Updated(s: seq<Issue>, id: nat, u: IssueUpdate): (r: seq<Issue>)
    ensures |r| == |s|
    ensures IndexOfId(s, id) == -1 ==> r == s
    ensures IndexOfId(s, id) >= 0 ==> r[IndexOfId(s, id)] == Merge(s[IndexOfId(s, id)], u)
    ensures forall i :: 0 <= i < |s| && i != IndexOfId(s, id) ==> r[i] == s[i]
  {
    var k := IndexOfId(s, id);
    if k == -1 then s else s[k := Merge(s[k], u)]
  }

  /** An update that leaves the id alone keeps the ids unique. */
  lemma UpdatedKeepsUniqueIds(s: seq<Issue>, id: nat, u: IssueUpdate)
    requires UniqueIds(s)
    requires u.id.None? || u.id == Some(id)
    ensures UniqueIds(Updated(s, id, u))
  {
    var r := Updated(s, id, u);
    forall i, j | 0 <= i < j < |r| ensures r[i].id != r[j].id {
      assert r[i].id == s[i].id && r[j].id == s[j].id;
    }
  }

  /** Updating twice with the same object is the same as once. If the update leaves the id alone
      or sets it to itself, the second lookup meets the same record; if it moves the id elsewhere
      in a collection with unique ids, the second lookup finds nothing. */
  lemma UpdatedIdempotent(s: seq<Issue>, id: nat, u: IssueUpdate)
    requires u.id.None? || u.id == Some(id) || UniqueIds(s)
    ensures Updated(Updated(s, id, u), id, u) == Updated(s, id, u)
  {
    var r := Updated(s, id, u);
    var k := IndexOfId(s, id);
    if k >= 0 {
      if u.id.None? || u.id == Some(id) {
        assert r[k].id == id;
        assert IndexOfId(r, id) == k;
        MergeLaws(s[k], s[k], u, u);
      } else {
        assert r[k].id != id;
        forall i | 0 <= i < |r| && i != k ensures r[i].id != id {
          assert r[i] == s[i] && s[k].id == id;
        }
        assert IndexOfId(r, id) == -1;
      }
    }
  }

  // ---------------------------------------------------------------- deleteIssue

  /** The collection after deleteIssue: the first record with `id` spliced out, the others
      closing up in order. */
  function Deleted(s: seq<Issue>, id: nat): (r: seq<Issue>)
    ensures IndexOfId(s, id) == -1 ==> r == s
    ensures IndexOfId(s, id) >= 0 ==> |r| == |s| - 1
    ensures IndexOfId(s, id) >= 0 ==>
      forall i :: 0 <= i < |r| ==> r[i] == s[if i < IndexOfId(s, id) then i else i + 1]
  {
    var k := IndexOfId(s, id);
    if k == -1 then s else s[..k] + s[k + 1..]
  }

  /** Deleting removes exactly one record: the multiset loses that record and nothing else. */
  lemma DeletedMultiset(s: seq<Issue>, id: nat)
    ensures var k := IndexOfId(s, id);
      multiset(s) == multiset(Deleted(s, id)) + (if k == -1 then multiset{} else multiset{s[k]})
  {
    var k := IndexOfId(s, id);
    if k >= 0 {
      SpliceMultiset(s, k);
    }
  }

  lemma SpliceMultiset<T>(s: seq<T>, k: nat)
    requires k < |s|
    ensures multiset(s) == multiset(s[..k] + s[k + 1..]) + multiset{s[k]}
  {
    assert s == s[..k] + [s[k]] + s[k + 1..];
  }

  /** With unique ids, deleting keeps them unique and the id is gone afterwards. */
  lemma DeletedUnique(s: seq<Issue>, id: nat)
    requires UniqueIds(s)
    ensures UniqueIds(Deleted(s, id))
    ensures GetIssueById(Deleted(s, id), id) == None
  {
    var k := IndexOfId(s, id);
    if k >= 0 {
      var r := Deleted(s, id);
      forall i | 0 <= i < |r| ensures r[i].id != id {
        assert r[i] == s[if i < k then i else i + 1];
      }
    }
  }

  /** The records that remain are exactly those with another id (given unique ids). */
  lemma DeletedMembers(s: seq<Issue>, id: nat, x: Issue)
    requires UniqueIds(s)
    ensures x in Deleted(s, id) <==> x in s && x.id != id
  {
    if IndexOfId(s, id) >= 0 {
      DeletedKeepsOthers(s, id, x);
      DeletedDropsId(s, id, x);
    } else if x in s {
      var j :| 0 <= j < |s| && s[j] == x;
      assert s[j].id != id;
    }
  }

  lemma DeletedKeepsOthers(s: seq<Issue>, id: nat, x: Issue)
    requires IndexOfId(s, id) >= 0
    ensures x in s && x.id != id ==> x in Deleted(s, id)
  {
    var k := IndexOfId(s, id);
    assert Deleted(s, id) == s[..k] + s[k + 1..];
    SpliceMembers(s, k, x);
    if x in s && x.id != id {
      var j :| 0 <= j < |s| && s[j] == x;
      assert j != k;
    }
  }

  lemma DeletedDropsId(s: seq<Issue>, id: nat, x: Issue)
    requires UniqueIds(s) && IndexOfId(s, id) >= 0
    ensures x in Deleted(s, id) ==> x in s && x.id != id
  {
    var k := IndexOfId(s, id);
    assert Deleted(s, id) == s[..k] + s[k + 1..];
    SpliceMembers(s, k, x);
    if x in Deleted(s, id) {
      var j :| 0 <= j < |s| && j != k && s[j] == x;
      assert s[j].id != s[k].id;
    }
  }

  /** An element survives a splice exactly when it sits somewhere other than the removed position. */
  lemma SpliceMembers<T>(s: seq<T>, k: nat, x: T)
    requires k < |s|
    ensures x in s[..k] + s[k + 1..] <==> exists j :: 0 <= j < |s| && j != k && s[j] == x
  {
    var r := s[..k] + s[k + 1..];
    if x in r {
      var i :| 0 <= i < |r| && r[i] == x;
      var j := if i < k then i else i + 1;
      assert s[j] == x;
    }
    if exists j :: 0 <= j < |s| && j != k && s[j] == x {
      var j :| 0 <= j < |s| && j != k && s[j] == x;
      assert r[if j < k then j else j - 1] == x;
    }
  }

  // ---------------------------------------------------------------- updateIssueStatus

  /** The collection after updateIssueStatus: the first record with `id` gets `status`. */
  function StatusSet(s: seq<Issue>, id: nat, status: string): (r: seq<Issue>)
    ensures |r| == |s|
    ensures IndexOfId(s, id) == -1 ==> r == s
    ensures forall i :: 0 <= i < |s| ==> r[i] == s[i].(status := r[i].status)
    ensures forall i :: 0 <= i < |s| ==> r[i].status == (if i == IndexOfId(s, id) then status else s[i].status)
  {
    var k := IndexOfId(s, id);
    if k == -1 then s else s[k := s[k].(status := status)]
  }

  /** No transition guard: whatever the current status, the found issue reads back with the new one. */
  lemma StatusSetLookup(s: seq<Issue>, id: nat, status: string)
    ensures GetIssueById(s, id).Some? ==> GetIssueById(StatusSet(s, id, status), id) == Some(GetIssueById(s, id).value.(status := status))
  {
    StatusSetKeepsIndex(s, id, status, id);
  }

  /** Setting the same status again is a no-op. */
  lemma StatusSetIdempotent(s: seq<Issue>, id: nat, status: string)
    ensures StatusSet(StatusSet(s, id, status), id, status) == StatusSet(s, id, status)
  {
    StatusSetKeepsIndex(s, id, status, id);
  }

  /** Of two status changes, the last wins. */
  lemma StatusSetLastWins(s: seq<Issue>, id: nat, status: string, status2: string)
    ensures StatusSet(StatusSet(s, id, status), id, status2) == StatusSet(s, id, status2)
  {
    StatusSetKeepsIndex(s, id, status, id);
  }

  /** A status change moves no record and changes no id, so every lookup finds the same position. */
  lemma StatusSetKeepsIndex(s: seq<Issue>, id: nat, status: string, id2: nat)
    ensures IndexOfId(StatusSet(s, id, status), id2) == IndexOfId(s, id2)
  {
    var r := StatusSet(s, id, status);
    assert forall i :: 0 <= i < |s| ==> r[i].id == s[i].id;
  }
}
