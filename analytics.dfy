/** getAnalytics (lib/store.ts:231-260): counts over the whole issue collection, hidden issues included. */
module Analytics {
  import opened Records
  import opened IssueRegistry

  /** A JavaScript object used as a counter, as the list of its entries in insertion order. */
  type Tally = seq<(string, nat)>

  /** The keys of a counter, in entry order. */
  function Keys(t: Tally): (r: seq<string>)
    ensures |r| == |t|
    ensures forall i :: 0 <= i < |t| ==> r[i] == t[i].0
  {
    if t == [] then [] else [t[0].0] + Keys(t[1..])
  }

  function Sum(t: Tally): nat
  {
    if t == [] then 0 else t[0].1 + Sum(t[1..])
  }

  /** `acc[key] || 0`: the count for `key`, or 0 when the counter has no such key. */
  function Lookup(t: Tally, key: string): nat
  {
    if t == [] then 0 else if t[0].0 == key then t[0].1 else Lookup(t[1..], key)
  }

  /** `acc[key] = (acc[key] || 0) + 1`: an existing entry is incremented in place, a new key is added last. */
  function Bump(t: Tally, key: string): Tally
  {
    if t == [] then [(key, 1)]
    else if t[0].0 == key then [(key, t[0].1 + 1)] + t[1..]
    else [t[0]] + Bump(t[1..], key)
  }

  /** `keys.reduce(bump, {})`: the counter built from left to right. */
  function TallyOf(keys: seq<string>): Tally
  {
    if keys == [] then [] else Bump(TallyOf(keys[..|keys| - 1]), keys[|keys| - 1])
  }

  /** How often `key` occurs. */
  function Occurrences(keys: seq<string>, key: string): nat
  {
    if keys == [] then 0
    else Occurrences(keys[..|keys| - 1], key) + (if keys[|keys| - 1] == key then 1 else 0)
  }

  /** The distinct keys, each where it first occurs. */
  function FirstSeen(keys: seq<string>): (r: seq<string>)
    ensures forall x :: x in r <==> x in keys
  {
    if keys == [] then []
    else
      var d := FirstSeen(keys[..|keys| - 1]);
      if keys[|keys| - 1] in d then d else d + [keys[|keys| - 1]]
  }

  /** The position of the first occurrence of `x`. */
  function FirstIndex(keys: seq<string>, x: string): (i: nat)
    requires x in keys
    ensures i < |keys| && keys[i] == x
    ensures forall j :: 0 <= j < i ==> keys[j] != x
  {
    var init := keys[..|keys| - 1];
    if x in init then
      var i := FirstIndex(init, x);
      assert keys[i] == init[i];
      i
    else |keys| - 1
  }

  // ---------------------------------------------------------------- counter laws

  lemma {:induction false} BumpSum(t: Tally, key: string)
    ensures Sum(Bump(t, key)) == Sum(t) + 1
  {
    if t != [] && t[0].0 != key {
      BumpSum(t[1..], key);
      assert Bump(t, key)[1..] == Bump(t[1..], key);
    }
  }

  lemma {:induction false} BumpLookup(t: Tally, key: string, other: string)
    ensures Lookup(Bump(t, key), other) == Lookup(t, other) + (if other == key then 1 else 0)
  {
    if t != [] && t[0].0 != key {
      BumpLookup(t[1..], key, other);
      assert Bump(t, key)[1..] == Bump(t[1..], key);
    }
  }

  lemma {:induction false} BumpKeys(t: Tally, key: string)
    ensures Keys(Bump(t, key)) == if key in Keys(t) then Keys(t) else Keys(t) + [key]
  {
    if t == [] {
    } else if t[0].0 == key {
      assert Bump(t, key)[1..] == t[1..];
      assert Keys(Bump(t, key)) == [key] + Keys(t[1..]);
    } else {
      BumpKeys(t[1..], key);
      assert Bump(t, key)[1..] == Bump(t[1..], key);
      assert Keys(t) == [t[0].0] + Keys(t[1..]);
      assert key in Keys(t) <==> key in Keys(t[1..]);
    }
  }

  /** The reduce counts every key once per occurrence, its total is the number of keys, and its
      entries are the distinct keys in first-occurrence order (the order Object.entries reports). */
  lemma {:induction false} TallyOfLaws(keys: seq<string>, key: string)
    ensures Sum(TallyOf(keys)) == |keys|
    ensures Lookup(TallyOf(keys), key) == Occurrences(keys, key)
    ensures Keys(TallyOf(keys)) == FirstSeen(keys)
  {
    if keys != [] {
      var init, last := keys[..|keys| - 1], keys[|keys| - 1];
      TallyOfLaws(init, key);
      BumpSum(TallyOf(init), last);
      BumpLookup(TallyOf(init), last, key);
      BumpKeys(TallyOf(init), last);
    }
  }

  /** First-seen keys are distinct and ordered by their first occurrence. */
  lemma {:induction false} FirstSeenOrdered(keys: seq<string>)
    ensures NoDuplicates(FirstSeen(keys))
    ensures forall i, j :: 0 <= i < j < |FirstSeen(keys)| ==>
      FirstIndex(keys, FirstSeen(keys)[i]) < FirstIndex(keys, FirstSeen(keys)[j])
  {
    if keys != [] {
      var init, last := keys[..|keys| - 1], keys[|keys| - 1];
      FirstSeenOrdered(init);
      var d, r := FirstSeen(init), FirstSeen(keys);
      assert forall x :: x in init ==> FirstIndex(keys, x) == FirstIndex(init, x);
      forall i | 0 <= i < |d| ensures FirstIndex(keys, d[i]) < |init| {
        assert d[i] in init;
      }
    }
  }

  /** In a counter with distinct keys, looking up an entry's key gives that entry's count. */
  lemma {:induction false} LookupAt(t: Tally, i: nat)
    requires i < |t| && NoDuplicates(Keys(t))
    ensures Lookup(t, t[i].0) == t[i].1
  {
    if i > 0 {
      assert Keys(t)[0] != Keys(t)[i];
      assert Keys(t[1..]) == Keys(t)[1..];
      LookupAt(t[1..], i - 1);
    }
  }

  // ---------------------------------------------------------------- the most reported category

  /** The entry a descending stable sort puts first: the first entry with the largest count. */
  function FirstMax(t: Tally): (m: nat)
    requires t != []
    ensures m < |t|
    ensures forall j :: 0 <= j < |t| ==> t[j].1 <= t[m].1
    ensures forall j :: 0 <= j < m ==> t[j].1 < t[m].1
  {
    if |t| == 1 then 0
    else
      var m := FirstMax(t[..|t| - 1]);
      if t[|t| - 1].1 > t[m].1 then |t| - 1 else m
  }

  /** `entries.sort(desc)[0]?.[0] || "None"`: the leading key, with "None" both for an empty
      counter and for a leading key that is the (falsy) empty string. */
  function MostReported(t: Tally): (r: string)
    ensures t == [] ==> r == "None"
    ensures t != [] && t[FirstMax(t)].0 != "" ==> r == t[FirstMax(t)].0
    ensures t != [] && t[FirstMax(t)].0 == "" ==> r == "None"
  {
    if t == [] then "None"
    else
      var key := t[FirstMax(t)].0;
      if key == "" then "None" else key
  }

  // ---------------------------------------------------------------- the summary

  function Categories(s: seq<Issue>): (r: seq<string>)
    ensures |r| == |s| && forall i :: 0 <= i < |s| ==> r[i] == s[i].category
  {
    if s == [] then [] else [s[0].category] + Categories(s[1..])
  }

  function Statuses(s: seq<Issue>): (r: seq<string>)
    ensures |r| == |s| && forall i :: 0 <= i < |s| ==> r[i] == s[i].status
  {
    if s == [] then [] else [s[0].status] + Statuses(s[1..])
  }

  /** The issues that carry at least one spam report. */
  function SpamReported(s: seq<Issue>): (r: seq<Issue>)
    ensures |r| <= |s|
    ensures forall x :: x in r <==> x in s && |x.spamReports| > 0
  {
    if s == [] then []
    else (if |s[0].spamReports| > 0 then [s[0]] else []) + SpamReported(s[1..])
  }

  /** The flagged filter distributes over concatenation and keeps a single record exactly when it
      has a report, so its length is the number of flagged records. */
  lemma {:induction false} SpamReportedAppend(a: seq<Issue>, b: seq<Issue>)
    ensures SpamReported(a + b) == SpamReported(a) + SpamReported(b)
  {
    if a == [] {
      assert a + b == b;
    } else {
      var c := a + b;
      assert c[0] == a[0];
      assert c[1..] == a[1..] + b;
      SpamReportedAppend(a[1..], b);
    }
  }

  lemma SpamReportedSingle(x: Issue)
    ensures SpamReported([x]) == if |x.spamReports| > 0 then [x] else []
  {
    assert [x][1..] == [];
  }

  datatype Summary = Summary(
    totalIssues: nat,
    categoryStats: Tally,
    statusStats: Tally,
    spamReports: nat,
    hiddenIssues: nat,
    mostReportedCategory: string)

  function GetAnalytics(s: seq<Issue>): (a: Summary)
    ensures a.totalIssues == |s|
    ensures Sum(a.categoryStats) == a.totalIssues && Sum(a.statusStats) == a.totalIssues
    ensures a.hiddenIssues + |GetIssues(s)| == a.totalIssues
    ensures a.spamReports <= a.totalIssues
    ensures s == [] ==> a.mostReportedCategory == "None"
  {
    var categoryStats := TallyOf(Categories(s));
    TallyOfLaws(Categories(s), "");
    TallyOfLaws(Statuses(s), "");
    VisiblePlusHidden(s);
    Summary(|s|, categoryStats, TallyOf(Statuses(s)), |SpamReported(s)|, |HiddenIssues(s)|,
            MostReported(categoryStats))
  }

  /** Each counter holds, for every key, the number of issues carrying it, and its entries come
      in the order the keys first appear in the collection. */
  lemma AnalyticsCounts(s: seq<Issue>, c: string)
    ensures Lookup(GetAnalytics(s).categoryStats, c) == Occurrences(Categories(s), c)
    ensures Lookup(GetAnalytics(s).statusStats, c) == Occurrences(Statuses(s), c)
    ensures Keys(GetAnalytics(s).categoryStats) == FirstSeen(Categories(s))
    ensures Keys(GetAnalytics(s).statusStats) == FirstSeen(Statuses(s))
  {
    TallyOfLaws(Categories(s), c);
    TallyOfLaws(Statuses(s), c);
  }

  /** The key a descending stable sort of the counter of `keys` puts first. */
  function TopKey(keys: seq<string>): (top: string)
    requires keys != []
    ensures top in keys
  {
    var t := TallyOf(keys);
    TallyOfLaws(keys, "");
    assert t[FirstMax(t)].0 == Keys(t)[FirstMax(t)];
    t[FirstMax(t)].0
  }

  /** No key occurs more often than the top key. */
  lemma TopKeyIsMax(keys: seq<string>, d: string)
    requires keys != []
    ensures Occurrences(keys, d) <= Occurrences(keys, TopKey(keys))
  {
    var t := TallyOf(keys);
    var m := FirstMax(t);
    assert TopKey(keys) == t[m].0;
    TallyOfLaws(keys, d);
    TallyOfLaws(keys, t[m].0);
    FirstSeenOrdered(keys);
    LookupAt(t, m);
    if d in keys {
      assert d in Keys(t);
      var p :| 0 <= p < |t| && Keys(t)[p] == d;
      LookupAt(t, p);
      assert t[p].1 <= t[m].1;
    } else {
      LookupAbsent(t, d);
    }
  }

  /** Ties go to the key seen first: every key first seen before the top key occurs strictly less often. */
  lemma TopKeyTieBreak(keys: seq<string>, d: string)
    requires keys != [] && d in keys
    requires FirstIndex(keys, d) < FirstIndex(keys, TopKey(keys))
    ensures Occurrences(keys, d) < Occurrences(keys, TopKey(keys))
  {
    var t := TallyOf(keys);
    var m := FirstMax(t);
    var top := t[m].0;
    assert TopKey(keys) == top;
    TallyOfLaws(keys, d);
    TallyOfLaws(keys, top);
    var fs := Keys(t);
    assert fs == FirstSeen(keys);
    FirstSeenOrdered(keys);
    assert d in fs;
    var p :| 0 <= p < |fs| && fs[p] == d;
    assert fs[m] == top;
    assert p < m by {
      if p >= m {
        assert false;
      }
    }
    assert t[p].1 < t[m].1;
    LookupAt(t, m);
    LookupAt(t, p);
  }

  /** A key that is not in the counter counts 0. */
  lemma {:induction false} LookupAbsent(t: Tally, key: string)
    requires key !in Keys(t)
    ensures Lookup(t, key) == 0
  {
    if t != [] {
      assert Keys(t) == [t[0].0] + Keys(t[1..]);
      LookupAbsent(t[1..], key);
    }
  }

  /** The most reported category occurs in the collection, no category occurs more often, every
      category first seen before it occurs strictly less often (ties go to the first seen), and the
      summary reports it, except that an empty-string category is reported as "None". */
  lemma MostReportedLaw(s: seq<Issue>, d: string)
    requires s != []
    ensures var cats, top := Categories(s), TopKey(Categories(s));
      top in cats &&
      Occurrences(cats, d) <= Occurrences(cats, top) &&
      (d in cats && FirstIndex(cats, d) < FirstIndex(cats, top) ==> Occurrences(cats, d) < Occurrences(cats, top)) &&
      GetAnalytics(s).mostReportedCategory == (if top == "" then "None" else top)
  {
    var cats := Categories(s);
    TopKeyIsMax(cats, d);
    if d in cats && FirstIndex(cats, d) < FirstIndex(cats, TopKey(cats)) {
      TopKeyTieBreak(cats, d);
    }
  }

  /** No hidden issue, none counted; no flagged issue, none counted. */
  lemma {:induction false} NothingHidden(s: seq<Issue>)
    requires forall i :: 0 <= i < |s| ==> !s[i].isHidden
    ensures HiddenIssues(s) == []
  {
    if s != [] {
      NothingHidden(s[1..]);
    }
  }

  lemma {:induction false} NothingFlagged(s: seq<Issue>)
    requires forall i :: 0 <= i < |s| ==> s[i].spamReports == []
    ensures SpamReported(s) == []
  {
    if s != [] {
      NothingFlagged(s[1..]);
    }
  }

  /** The two moderation counts: issues with at least one flag, and hidden issues; the hidden count
      is what the visible list leaves out. */
  lemma AnalyticsModerationCounts(s: seq<Issue>)
    ensures GetAnalytics(s).spamReports == |SpamReported(s)|
    ensures GetAnalytics(s).hiddenIssues == |HiddenIssues(s)|
    ensures GetAnalytics(s).hiddenIssues == |s| - |GetIssues(s)|
    ensures (forall i :: 0 <= i < |s| ==> !s[i].isHidden) ==> GetAnalytics(s).hiddenIssues == 0
    ensures (forall i :: 0 <= i < |s| ==> s[i].spamReports == []) ==> GetAnalytics(s).spamReports == 0
  {
    if forall i :: 0 <= i < |s| ==> !s[i].isHidden {
      NothingHidden(s);
    }
    if forall i :: 0 <= i < |s| ==> s[i].spamReports == [] {
      NothingFlagged(s);
    }
  }

  /** Both moderation counts are counts: they add up over a split of the collection, and a single
      issue contributes 1 exactly when it is flagged (spamReports) or hidden (hiddenIssues). */
  lemma AnalyticsModerationAppend(a: seq<Issue>, b: seq<Issue>)
    ensures GetAnalytics(a + b).spamReports == GetAnalytics(a).spamReports + GetAnalytics(b).spamReports
    ensures GetAnalytics(a + b).hiddenIssues == GetAnalytics(a).hiddenIssues + GetAnalytics(b).hiddenIssues
  {
    assert GetAnalytics(a + b).spamReports == |SpamReported(a + b)|;
    assert GetAnalytics(a + b).hiddenIssues == |HiddenIssues(a + b)|;
    SpamReportedAppend(a, b);
    HiddenIssuesAppend(a, b);
  }

  lemma AnalyticsModerationSingle(x: Issue)
    ensures GetAnalytics([x]).spamReports == if |x.spamReports| > 0 then 1 else 0
    ensures GetAnalytics([x]).hiddenIssues == if x.isHidden then 1 else 0
  {
    AnalyticsModerationCounts([x]);
    SpamReportedSingle(x);
    HiddenIssuesSingle(x);
  }
}
