/**
 The job-alert records of the `Home` page and the pure computations its
 handlers perform: the alert built from a form draft, the sequence after a
 create, a toggle or a delete, and the two statistics shown on the page.
 */
module Alerts {
  import opened Text

  /** The three notification frequencies the form offers. */
  datatype Frequency = Immediately | Daily | Weekly

  datatype JobAlert = JobAlert(
    id: string,
    title: string,
    location: string,
    keywords: seq<string>,
    frequency: Frequency,
    active: bool)

  /** A job listing; its salary, posting time and match score are display
      values only and are not part of the model. */
  datatype Job = Job(
    id: string,
    title: string,
    company: string,
    location: string,
    description: string)

  /** The creation form's contents: raw strings, keywords still unsplit. */
  datatype Draft = Draft(title: string, location: string, keywords: string, frequency: Frequency)

  /** The location an alert gets when the form leaves it empty. */
  const AnyLocation: string := "Any"

  /** The alert the page starts with. */
  const SeedAlerts: seq<JobAlert> := [
    JobAlert("1", "Senior Software Engineer", "Remote", ["React", "TypeScript", "Node.js"], Daily, true)
  ]

  /** The listings the page starts with; nothing ever replaces them. */
  const SeedJobs: seq<Job> := [
    Job("1", "Senior React Developer", "TechCorp Inc.", "Remote",
        "Looking for an experienced React developer to join our team..."),
    Job("2", "Full Stack Engineer", "StartupXYZ", "San Francisco, CA",
        "Join our fast-growing startup as a full stack engineer..."),
    Job("3", "Frontend Developer", "BigTech Co.", "New York, NY",
        "Work on cutting-edge frontend technologies...")
  ]

  /** The ids of `alerts`, in order. */
  function Ids(alerts: seq<JobAlert>): (r: seq<string>)
    ensures |r| == |alerts|
    ensures forall i :: 0 <= i < |r| ==> r[i] == alerts[i].id
  {
    if alerts == [] then [] else [alerts[0].id] + Ids(alerts[1..])
  }

  /** No two alerts share an id. The page does not enforce this; it holds as
      long as every new id is fresh. */
  ghost predicate UniqueIds(alerts: seq<JobAlert>) {
    forall i, j :: 0 <= i < j < |alerts| ==> alerts[i].id != alerts[j].id
  }

  // ---------------------------------------------------------------- create

  /** The draft passes the page's check: title and keywords are not the
      empty string. A title of spaces only passes. */
  predicate IsAcceptable(d: Draft) {
    d.title != "" && d.keywords != ""
  }

  /** `keywords.split(',').map(k => k.trim())`. */
  function ParseKeywords(raw: string): seq<string> {
    var pieces := Split(raw, ',');
    seq(|pieces|, i requires 0 <= i < |pieces| => Trim(pieces[i]))
  }

  /** The alert that `handleCreateAlert` builds from a draft, with the id
      the caller supplies. */
  function NewAlert(id: string, d: Draft): JobAlert {
    JobAlert(
      id,
      d.title,
      if d.location == "" then AnyLocation else d.location,
      ParseKeywords(d.keywords),
      d.frequency,
      true)
  }

  /** The alert sequence after `handleCreateAlert`: unchanged for a draft
      that fails the check, otherwise the old sequence with the new alert
      appended. */
  function Create(alerts: seq<JobAlert>, id: string, d: Draft): (r: seq<JobAlert>)
    ensures !IsAcceptable(d) ==> r == alerts
    ensures IsAcceptable(d) ==>
      && |r| == |alerts| + 1
      && r[..|alerts|] == alerts
      && r[|alerts|].id == id
      && r[|alerts|].title == d.title
      && r[|alerts|].frequency == d.frequency
      && r[|alerts|].active
      && (d.location == "" ==> r[|alerts|].location == AnyLocation)
      && (d.location != "" ==> r[|alerts|].location == d.location)
      && r[|alerts|].keywords == ParseKeywords(d.keywords)
  {
    if IsAcceptable(d) then alerts + [NewAlert(id, d)] else alerts
  }

  /** Create changes the sequence exactly when the title and the keywords
      are both non-empty. */
  lemma CreateChangesIff(alerts: seq<JobAlert>, id: string, d: Draft)
    ensures Create(alerts, id, d) != alerts <==> d.title != "" && d.keywords != ""
  {
    if IsAcceptable(d) {
      assert |Create(alerts, id, d)| != |alerts|;
    }
  }

  /** The keywords are the trimmed comma-separated fields of the raw
      string, in input order: field `i` trimmed is keyword `i`, and the
      fields join back to the raw string. */
  lemma ParseKeywordsFields(raw: string)
    ensures |ParseKeywords(raw)| == |Split(raw, ',')| == multiset(raw)[','] + 1
    ensures Join(Split(raw, ','), ',') == raw
    ensures forall i :: 0 <= i < |ParseKeywords(raw)| ==>
      ParseKeywords(raw)[i] == Trim(Split(raw, ',')[i])
  {
    OccurrencesIsMultiplicity(raw, ',');
    JoinSplit(raw, ',');
  }

  /** Every keyword is free of commas and has no whitespace at either end;
      a keyword may still be empty. */
  lemma KeywordShape(raw: string, i: nat)
    requires i < |ParseKeywords(raw)|
    ensures var kw := ParseKeywords(raw)[i];
      && ',' !in kw
      && (kw != [] ==> !IsJsWhitespace(kw[0]) && !IsJsWhitespace(kw[|kw| - 1]))
  {
    var field := Split(raw, ',')[i];
    assert ParseKeywords(raw)[i] == Trim(field);
    TrimShape(field);
  }

  /** A raw string without a comma is a single keyword. */
  lemma ParseKeywordsSingle(s: string)
    requires ',' !in s
    ensures ParseKeywords(s) == [Trim(s)]
  {
    SplitNoSeparator(s, ',');
  }

  /** A leading comma-free field becomes the first keyword, trimmed, and
      the rest of the string gives the remaining keywords. */
  lemma ParseKeywordsCons(a: string, rest: string)
    requires ',' !in a
    ensures ParseKeywords(a + [','] + rest) == [Trim(a)] + ParseKeywords(rest)
  {
    SplitAfterPiece(a, ',', rest);
    var l, r := ParseKeywords(a + [','] + rest), [Trim(a)] + ParseKeywords(rest);
    assert |l| == |r|;
    forall i | 0 <= i < |l| ensures l[i] == r[i] {
      if i > 0 {
        assert r[i] == ParseKeywords(rest)[i - 1];
      }
    }
  }

  /** Two comma-free fields give their two trimmed forms, in order;
      equal fields give equal keywords, so duplicates are kept. */
  lemma KeywordsOfTwoFields(a: string, b: string)
    requires ',' !in a && ',' !in b
    ensures ParseKeywords(a + [','] + b) == [Trim(a), Trim(b)]
  {
    ParseKeywordsCons(a, b);
    ParseKeywordsSingle(b);
  }

  /** An empty field between two commas is kept as an empty keyword:
      "a,, b" gives ["a", "", "b"]. */
  lemma KeywordsKeepEmptyField(a: string, b: string)
    requires ',' !in a && ',' !in b
    ensures ParseKeywords(a + [',', ','] + b) == [Trim(a), "", Trim(b)]
  {
    assert a + [',', ','] + b == a + [','] + ([] + [','] + b);
    ParseKeywordsCons(a, [] + [','] + b);
    ParseKeywordsCons([], b);
    ParseKeywordsSingle(b);
    TrimKeepsUntrimmed([]);
  }

  /** A draft with an empty location and two keywords separated by a
      comma and whitespace gives an alert at location "Any" with the two
      keywords, trimmed; a title of spaces only is accepted. */
  lemma CreateWithTwoKeywords(alerts: seq<JobAlert>, id: string, d: Draft, a: string, w: string, b: string)
    requires d.title != "" && d.location == ""
    requires d.keywords == a + [','] + w + b
    requires ',' !in a && ',' !in b && b != []
    requires AllWhitespace(w)
    requires a != [] ==> !IsJsWhitespace(a[0]) && !IsJsWhitespace(a[|a| - 1])
    requires !IsJsWhitespace(b[0]) && !IsJsWhitespace(b[|b| - 1])
    ensures Create(alerts, id, d) == alerts + [JobAlert(id, d.title, "Any", [a, b], d.frequency, true)]
  {
    assert ',' !in w + b by {
      assert forall i :: 0 <= i < |w| ==> IsJsWhitespace(w[i]);
      assert !IsJsWhitespace(',');
    }
    assert d.keywords == a + [','] + (w + b);
    KeywordsOfTwoFields(a, w + b);
    TrimKeepsUntrimmed(a);
    TrimDropsWhitespace(w, b);
  }

  /** The draft {title "SRE", location "", keywords "k8s, go"} gives an
      alert at "Any" with keywords ["k8s", "go"]. */
  lemma CreateExample(alerts: seq<JobAlert>, id: string)
    ensures Create(alerts, id, Draft("SRE", "", "k8s, go", Daily)) ==
      alerts + [JobAlert(id, "SRE", "Any", ["k8s", "go"], Daily, true)]
  {
    CreateWithTwoKeywords(alerts, id, Draft("SRE", "", "k8s, go", Daily), "k8s", " ", "go");
  }

  /** A create with an id no alert has keeps the ids unique. */
  lemma CreateKeepsUniqueIds(alerts: seq<JobAlert>, id: string, d: Draft)
    requires UniqueIds(alerts) && id !in Ids(alerts)
    ensures UniqueIds(Create(alerts, id, d))
  {
    var r := Create(alerts, id, d);
    if IsAcceptable(d) {
      forall i, j | 0 <= i < j < |r| ensures r[i].id != r[j].id {
        if j == |alerts| {
          assert Ids(alerts)[i] == alerts[i].id;
        }
      }
    }
  }

  // ---------------------------------------------------------------- toggle

  /** The alert sequence after `toggleAlert(id)`: every alert whose id is
      `id` has its `active` flag flipped; nothing else changes. */
  function Toggle(alerts: seq<JobAlert>, id: string): (r: seq<JobAlert>)
    ensures |r| == |alerts|
    ensures forall i :: 0 <= i < |r| ==> r[i].(active := alerts[i].active) == alerts[i]
    ensures forall i :: 0 <= i < |r| ==> (r[i].active != alerts[i].active <==> alerts[i].id == id)
  {
    if alerts == [] then []
    else
      var a := alerts[0];
      [if a.id == id then a.(active := !a.active) else a] + Toggle(alerts[1..], id)
  }

  /** Toggling the same id twice restores the sequence. */
  lemma ToggleInvolution(alerts: seq<JobAlert>, id: string)
    ensures Toggle(Toggle(alerts, id), id) == alerts
  {
    var r := Toggle(Toggle(alerts, id), id);
    forall i | 0 <= i < |alerts| ensures r[i] == alerts[i] {
    }
  }

  /** Toggling an id no alert has changes nothing. */
  lemma ToggleAbsent(alerts: seq<JobAlert>, id: string)
    requires id !in Ids(alerts)
    ensures Toggle(alerts, id) == alerts
  {
    var r := Toggle(alerts, id);
    forall i | 0 <= i < |alerts| ensures r[i] == alerts[i] {
      assert Ids(alerts)[i] == alerts[i].id;
    }
  }

  /** Toggling never changes the ids or their order. */
  lemma ToggleKeepsIds(alerts: seq<JobAlert>, id: string)
    ensures Ids(Toggle(alerts, id)) == Ids(alerts)
  {
    var r := Toggle(alerts, id);
    forall i | 0 <= i < |alerts| ensures Ids(r)[i] == Ids(alerts)[i] {
      assert r[i].(active := alerts[i].active).id == r[i].id;
    }
  }

  /** Toggles of two ids commute. */
  lemma ToggleCommutes(alerts: seq<JobAlert>, x: string, y: string)
    ensures Toggle(Toggle(alerts, x), y) == Toggle(Toggle(alerts, y), x)
  {
    var l, r := Toggle(Toggle(alerts, x), y), Toggle(Toggle(alerts, y), x);
    forall i | 0 <= i < |alerts| ensures l[i] == r[i] {
    }
  }

  lemma ToggleKeepsUniqueIds(alerts: seq<JobAlert>, id: string)
    requires UniqueIds(alerts)
    ensures UniqueIds(Toggle(alerts, id))
  {
    var r := Toggle(alerts, id);
    forall i | 0 <= i < |r| ensures r[i].id == alerts[i].id {
      assert r[i].(active := alerts[i].active).id == r[i].id;
    }
  }

  // ---------------------------------------------------------------- delete

  /** The alert sequence after `deleteAlert(id)`: every alert whose id is
      `id` removed, the others kept. */
  function Delete(alerts: seq<JobAlert>, id: string): (r: seq<JobAlert>)
    ensures |r| <= |alerts|
    ensures forall i :: 0 <= i < |r| ==> r[i].id != id
  {
    if alerts == [] then []
    else
      assert alerts == [alerts[0]] + alerts[1..];
      (if alerts[0].id == id then [] else [alerts[0]]) + Delete(alerts[1..], id)
  }

  /** `sub` is `s` with some elements left out, the rest in their order. */
  ghost predicate IsSubsequence(sub: seq<JobAlert>, s: seq<JobAlert>)
    decreases |s|
  {
    if sub == [] then true
    else if s == [] then false
    else (sub[0] == s[0] && IsSubsequence(sub[1..], s[1..])) || IsSubsequence(sub, s[1..])
  }

  /** Delete keeps the remaining alerts in their original relative order. */
  lemma {:induction false} DeleteKeepsOrder(alerts: seq<JobAlert>, id: string)
    ensures IsSubsequence(Delete(alerts, id), alerts)
  {
    if alerts != [] {
      DeleteKeepsOrder(alerts[1..], id);
      var rest := Delete(alerts[1..], id);
      if alerts[0].id != id {
        assert Delete(alerts, id) == [alerts[0]] + rest;
        assert ([alerts[0]] + rest)[1..] == rest;
      } else {
        assert Delete(alerts, id) == rest;
      }
    }
  }

  /** Delete works piecewise: deleting from two halves and concatenating is
      deleting from the whole. */
  lemma {:induction false} DeleteAppend(a: seq<JobAlert>, b: seq<JobAlert>, id: string)
    ensures Delete(a + b, id) == Delete(a, id) + Delete(b, id)
  {
    if a != [] {
      var head := if a[0].id == id then [] else [a[0]];
      assert (a + b)[0] == a[0];
      assert (a + b)[1..] == a[1..] + b;
      assert Delete(a + b, id) == head + Delete(a[1..] + b, id);
      DeleteAppend(a[1..], b, id);
      assert Delete(a, id) == head + Delete(a[1..], id);
      assert head + (Delete(a[1..], id) + Delete(b, id))
          == (head + Delete(a[1..], id)) + Delete(b, id);
    } else {
      assert a + b == b;
    }
  }

  /** Deleting an id no alert has changes nothing. */
  lemma {:induction false} DeleteAbsent(alerts: seq<JobAlert>, id: string)
    requires id !in Ids(alerts)
    ensures Delete(alerts, id) == alerts
  {
    if alerts != [] {
      assert Ids(alerts)[0] == alerts[0].id;
      assert Ids(alerts[1..]) == Ids(alerts)[1..];
      DeleteAbsent(alerts[1..], id);
      assert [alerts[0]] + alerts[1..] == alerts;
    }
  }

  /** The alerts left by a delete are exactly the old ones without the
      id. */
  lemma {:induction false} DeleteMembers(alerts: seq<JobAlert>, id: string)
    ensures forall a :: a in Delete(alerts, id) <==> a in alerts && a.id != id
  {
    if alerts != [] {
      DeleteMembers(alerts[1..], id);
      assert alerts == [alerts[0]] + alerts[1..];
    }
  }

  /** Delete removes as many alerts as have the id. */
  lemma {:induction false} DeleteLength(alerts: seq<JobAlert>, id: string)
    ensures |Delete(alerts, id)| + multiset(Ids(alerts))[id] == |alerts|
  {
    if alerts != [] {
      DeleteLength(alerts[1..], id);
      assert Ids(alerts) == [alerts[0].id] + Ids(alerts[1..]);
    }
  }

  /** After a delete no alert has that id. */
  lemma DeleteRemovesId(alerts: seq<JobAlert>, id: string)
    ensures id !in Ids(Delete(alerts, id))
  {
  }

  /** Deleting twice is deleting once. */
  lemma DeleteIdempotent(alerts: seq<JobAlert>, id: string)
    ensures Delete(Delete(alerts, id), id) == Delete(alerts, id)
  {
    DeleteRemovesId(alerts, id);
    DeleteAbsent(Delete(alerts, id), id);
  }

  /** With unique ids, deleting an id that is present removes exactly one
      alert. */
  lemma {:induction false} DeleteRemovesOne(alerts: seq<JobAlert>, id: string)
    requires UniqueIds(alerts) && id in Ids(alerts)
    ensures |Delete(alerts, id)| == |alerts| - 1
  {
    var x, rest := alerts[0], alerts[1..];
    assert Ids(alerts) == [x.id] + Ids(rest);
    assert Delete(alerts, id) == (if x.id == id then [] else [x]) + Delete(rest, id);
    if x.id == id {
      forall i | 0 <= i < |rest| ensures Ids(rest)[i] != id {
        assert rest[i] == alerts[i + 1];
      }
      DeleteAbsent(rest, id);
    } else {
      forall i, j | 0 <= i < j < |rest| ensures rest[i].id != rest[j].id {
        assert rest[i] == alerts[i + 1] && rest[j] == alerts[j + 1];
      }
      DeleteRemovesOne(rest, id);
    }
  }

  lemma DeleteKeepsUniqueIds(alerts: seq<JobAlert>, id: string)
    requires UniqueIds(alerts)
    ensures UniqueIds(Delete(alerts, id))
  {
    DeleteKeepsOrder(alerts, id);
    SubsequenceKeepsUniqueIds(Delete(alerts, id), alerts);
  }

  lemma {:induction false} SubsequenceKeepsUniqueIds(sub: seq<JobAlert>, s: seq<JobAlert>)
    requires IsSubsequence(sub, s) && UniqueIds(s)
    ensures UniqueIds(sub)
    decreases |s|
  {
    if sub != [] && s != [] {
      assert UniqueIds(s[1..]) by {
        forall i, j | 0 <= i < j < |s| - 1 ensures s[1..][i].id != s[1..][j].id {
          assert s[1..][i] == s[i + 1] && s[1..][j] == s[j + 1];
        }
      }
      if sub[0] == s[0] && IsSubsequence(sub[1..], s[1..]) {
        SubsequenceKeepsUniqueIds(sub[1..], s[1..]);
        SubsequenceMembers(sub[1..], s[1..]);
        forall i, j | 0 <= i < j < |sub| ensures sub[i].id != sub[j].id {
          if i == 0 {
            assert sub[j] == sub[1..][j - 1];
            assert sub[j] in sub[1..];
            assert sub[j] in s[1..];
            var m :| 0 <= m < |s| - 1 && s[1..][m] == sub[j];
            assert s[m + 1] == sub[j];
          } else {
            assert sub[i] == sub[1..][i - 1] && sub[j] == sub[1..][j - 1];
          }
        }
      } else {
        SubsequenceKeepsUniqueIds(sub, s[1..]);
      }
    }
  }

  lemma {:induction false} SubsequenceMembers(sub: seq<JobAlert>, s: seq<JobAlert>)
    requires IsSubsequence(sub, s)
    ensures forall a :: a in sub ==> a in s
    decreases |s|
  {
    if sub != [] && s != [] {
      if sub[0] == s[0] && IsSubsequence(sub[1..], s[1..]) {
        SubsequenceMembers(sub[1..], s[1..]);
        assert sub == [sub[0]] + sub[1..];
        assert s == [s[0]] + s[1..];
      } else {
        SubsequenceMembers(sub, s[1..]);
        assert s == [s[0]] + s[1..];
      }
    }
  }

  lemma SeedIdsUnique()
    ensures UniqueIds(SeedAlerts)
  {
  }

  // ---------------------------------------------------------------- stats

  /** `alerts.filter(a => a.active)`. */
  function ActiveAlerts(alerts: seq<JobAlert>): (r: seq<JobAlert>)
    ensures |r| <= |alerts|
    ensures forall i :: 0 <= i < |r| ==> r[i].active
  {
    if alerts == [] then []
    else
      assert alerts == [alerts[0]] + alerts[1..];
      (if alerts[0].active then [alerts[0]] else []) + ActiveAlerts(alerts[1..])
  }

  /** The filter keeps exactly the active alerts. */
  lemma {:induction false} ActiveAlertsMembers(alerts: seq<JobAlert>)
    ensures forall a :: a in ActiveAlerts(alerts) <==> a in alerts && a.active
  {
    if alerts != [] {
      ActiveAlertsMembers(alerts[1..]);
      assert alerts == [alerts[0]] + alerts[1..];
    }
  }

  /** The "Active Alerts" statistic. */
  function ActiveCount(alerts: seq<JobAlert>): nat {
    |ActiveAlerts(alerts)|
  }

  /** The positions of the active alerts. */
  ghost function ActivePositions(alerts: seq<JobAlert>): set<nat> {
    set i: nat | i < |alerts| && alerts[i].active
  }

  lemma {:induction false} ActiveAlertsAppend(a: seq<JobAlert>, b: seq<JobAlert>)
    ensures ActiveAlerts(a + b) == ActiveAlerts(a) + ActiveAlerts(b)
  {
    if a != [] {
      assert (a + b)[1..] == a[1..] + b;
      ActiveAlertsAppend(a[1..], b);
    } else {
      assert a + b == b;
    }
  }

  /** The statistic is the number of alerts whose `active` flag is set, and
      so never more than the number of alerts. */
  lemma {:induction false} ActiveCountCountsActive(alerts: seq<JobAlert>)
    ensures ActiveCount(alerts) == |ActivePositions(alerts)| <= |alerts|
    decreases |alerts|
  {
    if alerts != [] {
      var n := |alerts| - 1;
      var init, last := alerts[..n], alerts[n];
      assert alerts == init + [last];
      ActiveAlertsAppend(init, [last]);
      assert ActiveAlerts([last]) == if last.active then [last] else [] by {
        assert [last][1..] == [];
      }
      ActiveCountCountsActive(init);
      var p := ActivePositions(init);
      assert forall i :: 0 <= i < n ==> alerts[i] == init[i];
      if last.active {
        assert ActivePositions(alerts) == p + {n};
        assert n !in p;
      } else {
        assert ActivePositions(alerts) == p;
      }
    }
  }

  /** An accepted create adds one active alert; a refused one changes
      nothing. */
  lemma CreateActiveCount(alerts: seq<JobAlert>, id: string, d: Draft)
    ensures ActiveCount(Create(alerts, id, d)) ==
      if IsAcceptable(d) then ActiveCount(alerts) + 1 else ActiveCount(alerts)
  {
    if IsAcceptable(d) {
      ActiveAlertsAppend(alerts, [NewAlert(id, d)]);
    }
  }

  /** The statistic of a sequence split around one alert. */
  lemma ActiveCountAround(pre: seq<JobAlert>, x: JobAlert, post: seq<JobAlert>)
    ensures ActiveCount(pre + [x] + post) ==
      ActiveCount(pre) + (if x.active then 1 else 0) + ActiveCount(post)
  {
    ActiveAlertsAppend(pre + [x], post);
    ActiveAlertsAppend(pre, [x]);
    assert ActiveAlerts([x]) == if x.active then [x] else [] by {
      assert [x][1..] == [];
    }
  }

  /** With unique ids, the id at position `k` occurs nowhere else. */
  lemma UniqueIdsAround(alerts: seq<JobAlert>, k: nat)
    requires UniqueIds(alerts) && k < |alerts|
    ensures alerts[k].id !in Ids(alerts[..k]) && alerts[k].id !in Ids(alerts[k + 1..])
  {
    var pre, post := alerts[..k], alerts[k + 1..];
    forall i | 0 <= i < |pre| ensures Ids(pre)[i] != alerts[k].id {
      assert pre[i] == alerts[i];
    }
    forall i | 0 <= i < |post| ensures Ids(post)[i] != alerts[k].id {
      assert post[i] == alerts[k + 1 + i];
    }
  }

  /** Toggling an id that only the alert `x` carries flips that alert
      alone. */
  lemma ToggleAround(pre: seq<JobAlert>, x: JobAlert, post: seq<JobAlert>)
    requires x.id !in Ids(pre) && x.id !in Ids(post)
    ensures Toggle(pre + [x] + post, x.id) == pre + [x.(active := !x.active)] + post
  {
    ToggleAbsent(pre, x.id);
    ToggleAbsent(post, x.id);
    ToggleAppend(pre + [x], post, x.id);
    ToggleAppend(pre, [x], x.id);
    assert Toggle([x], x.id) == [x.(active := !x.active)];
  }

  /** Toggling an id that only the alert `x` carries moves the statistic
      by one: down if `x` was active, up if it was paused. */
  lemma ToggleAroundActiveCount(pre: seq<JobAlert>, x: JobAlert, post: seq<JobAlert>)
    requires x.id !in Ids(pre) && x.id !in Ids(post)
    ensures ActiveCount(Toggle(pre + [x] + post, x.id)) ==
      if x.active then ActiveCount(pre + [x] + post) - 1
      else ActiveCount(pre + [x] + post) + 1
  {
    ToggleAround(pre, x, post);
    ActiveCountAround(pre, x, post);
    ActiveCountAround(pre, x.(active := !x.active), post);
  }

  /** With unique ids, toggling the alert at position `k` moves the
      statistic by one: down if it was active, up if it was paused. */
  lemma ToggleActiveCount(alerts: seq<JobAlert>, k: nat)
    requires UniqueIds(alerts) && k < |alerts|
    ensures ActiveCount(Toggle(alerts, alerts[k].id)) ==
      if alerts[k].active then ActiveCount(alerts) - 1 else ActiveCount(alerts) + 1
  {
    var x := alerts[k];
    var pre, post := alerts[..k], alerts[k + 1..];
    assert alerts == pre + [x] + post;
    UniqueIdsAround(alerts, k);
    ToggleAroundActiveCount(pre, x, post);
  }

  /** Toggle works element by element: toggling two halves and
      concatenating is toggling the whole. */
  lemma {:induction false} ToggleAppend(a: seq<JobAlert>, b: seq<JobAlert>, id: string)
    ensures Toggle(a + b, id) == Toggle(a, id) + Toggle(b, id)
  {
    if a != [] {
      var x := a[0];
      var head := [if x.id == id then x.(active := !x.active) else x];
      assert (a + b)[0] == x;
      assert (a + b)[1..] == a[1..] + b;
      assert Toggle(a + b, id) == head + Toggle(a[1..] + b, id);
      ToggleAppend(a[1..], b, id);
      assert Toggle(a, id) == head + Toggle(a[1..], id);
      assert head + (Toggle(a[1..], id) + Toggle(b, id))
          == (head + Toggle(a[1..], id)) + Toggle(b, id);
    } else {
      assert a + b == b;
    }
  }

  /** A delete never raises the statistic, and leaves it alone when the id
      is absent. */
  lemma {:induction false} DeleteActiveCount(alerts: seq<JobAlert>, id: string)
    ensures ActiveCount(Delete(alerts, id)) <= ActiveCount(alerts)
    ensures id !in Ids(alerts) ==> ActiveCount(Delete(alerts, id)) == ActiveCount(alerts)
  {
    if alerts != [] {
      DeleteActiveCount(alerts[1..], id);
      var head := if alerts[0].id == id then [] else [alerts[0]];
      assert Delete(alerts, id) == head + Delete(alerts[1..], id);
      ActiveAlertsAppend(head, Delete(alerts[1..], id));
      ActiveAlertsAppend([alerts[0]], alerts[1..]);
      assert alerts == [alerts[0]] + alerts[1..];
      assert Ids(alerts) == [alerts[0].id] + Ids(alerts[1..]);
    }
    if id !in Ids(alerts) {
      DeleteAbsent(alerts, id);
    }
  }
}
