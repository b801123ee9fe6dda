/**
 * Decision: the authentication rule of NetworkAnalysis.
 *
 * A requesting user is accepted when more of the anchor ("static") users
 * are among their followers than are not, and when their recent activity
 * history is consistent: walking the history's entries in descending key
 * order, either two consecutive entries have the same topic/frequency map,
 * or at least as many of the top-two topics of each entry as not were
 * already among the previous entry's topics.
 *
 * The evidence `decide` gathers over the network is passed in: the
 * follower and friend id lists (`None` when the Twitter fetch threw) and the
 * recent-activity JSON object (`None` when reading it threw `IOException`).
 */
module NetworkAnalysis {
  import opened JavaUtil
  import opened JavaString
  import MapSorter
  import LinkAnalysisTwitter

  // ---------------------------------------------------------------------
  // checkMap

  /** The majority rule: strictly more true entries than false ones. */
  predicate Majority(m: seq<(int, bool)>)
  {
    Count(Values(m), true) > Count(Values(m), false)
  }

  /** checkMap over a link map. */
  method CheckMap(m: seq<(int, bool)>) returns (r: bool)
    ensures r == Majority(m)
    ensures m == [] ==> !r
    ensures m != [] && (forall i :: 0 <= i < |m| ==> m[i].1) ==> r
    ensures Count(Values(m), true) == Count(Values(m), false) ==> !r
  {
    if |m| == 0 {
      return false;
    } else if false !in Values(m) {
      CountPositive(Values(m), false);
      CountBoolSplit(Values(m));
      return true;
    }
    var values := Values(m);
    var falseCount := 0;
    var trueCount := 0;
    for i := 0 to |m|
      invariant trueCount == Count(values[..i], true)
      invariant falseCount == Count(values[..i], false)
    {
      CountSnoc(values, i, true);
      CountSnoc(values, i, false);
      if m[i].1 {
        trueCount := trueCount + 1;
      } else {
        falseCount := falseCount + 1;
      }
    }
    assert values[..|m|] == values;
    if falseCount > trueCount {
      return false;
    } else {
      return falseCount < trueCount;
    }
  }

  /** The follow check passes when strictly more anchors are followers than not. */
  predicate FollowAccepts(users: seq<int>, fetched: Option<seq<int>>)
  {
    |LinkAnalysisTwitter.Linked(users, fetched)| > |LinkAnalysisTwitter.Unlinked(users, fetched)|
  }

  /**
   * checkMap on a link map is the follow rule; in particular it rejects
   * when the fetch failed.
   */
  lemma LinkMajority(users: seq<int>, fetched: Option<seq<int>>, m: seq<(int, bool)>)
    requires DistinctKeys(m)
    requires KeySet(m) == LinkAnalysisTwitter.Anchors(users)
    requires forall i :: 0 <= i < |m| ==> (m[i].1 <==> LinkAnalysisTwitter.Fetched(fetched, m[i].0))
    ensures Majority(m) == FollowAccepts(users, fetched)
    ensures fetched.None? ==> !Majority(m)
  {
    LinkAnalysisTwitter.LinkMapCounts(users, fetched, m);
    if fetched.None? {
      assert LinkAnalysisTwitter.Linked(users, fetched) == {};
    }
  }

  // ---------------------------------------------------------------------
  // The topic-drift tally of topicsChecked

  /** The tally rule: at least one check, and no more false checks than true ones. */
  predicate TallyAccepts(checks: seq<bool>)
  {
    checks != [] && Count(checks, false) <= Count(checks, true)
  }

  /** The verdict at the end of topicsChecked. */
  method TallyVerdict(checks: seq<bool>) returns (r: bool)
    ensures r == TallyAccepts(checks)
    ensures checks == [] ==> !r
    ensures checks != [] && false !in checks ==> r
    ensures checks != [] && Count(checks, true) == Count(checks, false) ==> r
  {
    if |checks| == 0 {
      return false;
    } else if false !in checks {
      CountPositive(checks, false);
      return true;
    }
    var trueCount := 0;
    var falseCount := 0;
    for i := 0 to |checks|
      invariant trueCount == Count(checks[..i], true)
      invariant falseCount == Count(checks[..i], false)
    {
      CountSnoc(checks, i, true);
      CountSnoc(checks, i, false);
      if checks[i] {
        trueCount := trueCount + 1;
      } else {
        falseCount := falseCount + 1;
      }
    }
    assert checks[..|checks|] == checks;
    if falseCount > trueCount {
      return false;
    } else {
      return falseCount <= trueCount;
    }
  }

  // ---------------------------------------------------------------------
  // The key order of checkRecentActivity

  /** Strictly descending in `String.compareTo` order. */
  predicate StrictlyDescending(s: seq<string>)
  {
    forall i, j :: 0 <= i < j < |s| ==> Less(s[j], s[i])
  }

  /**
   * Adding a key to a `TreeSet` ordered by `(o1, o2) -> o2.compareTo(o1)`:
   * a key already present is dropped, otherwise it goes before the first
   * smaller key.
   */
  function InsertDescending(k: string, s: seq<string>): (r: seq<string>)
    ensures k in r
    ensures |r| <= |s| + 1
  {
    if s == [] then [k]
    else if k == s[0] then s
    else if Less(s[0], k) then [k] + s
    else [s[0]] + InsertDescending(k, s[1..])
  }

  /** `TreeSet.addAll` of `keys` into an empty set with that comparator. */
  function DescendingKeys(keys: seq<string>): (r: seq<string>)
    ensures |r| <= |keys|
  {
    if keys == [] then []
    else InsertDescending(keys[|keys| - 1], DescendingKeys(keys[..|keys| - 1]))
  }

  lemma DescendingCons(x: string, s: seq<string>)
    requires StrictlyDescending(s)
    requires forall y :: y in s ==> Less(y, x)
    ensures StrictlyDescending([x] + s)
  {
    var r := [x] + s;
    forall i, j | 0 <= i < j < |r| ensures Less(r[j], r[i]) {
      assert r[j] == s[j - 1];
      if i > 0 { assert r[i] == s[i - 1]; }
    }
  }

  lemma {:induction false} InsertDescendingSpec(k: string, s: seq<string>)
    requires StrictlyDescending(s)
    ensures StrictlyDescending(InsertDescending(k, s))
    ensures forall x :: x in InsertDescending(k, s) <==> x == k || x in s
  {
    if s == [] {
    } else if k == s[0] {
    } else if Less(s[0], k) {
      forall y | y in s ensures Less(y, k) {
        var j :| 0 <= j < |s| && s[j] == y;
        if j > 0 { LessTransitive(y, s[0], k); }
      }
      DescendingCons(k, s);
    } else {
      var tail := s[1..];
      assert StrictlyDescending(tail) by {
        forall i, j | 0 <= i < j < |tail| ensures Less(tail[j], tail[i]) {
          assert tail[i] == s[i + 1] && tail[j] == s[j + 1];
        }
      }
      InsertDescendingSpec(k, tail);
      CompareToZero(k, s[0]);
      CompareToAntisymmetric(k, s[0]);
      forall y | y in InsertDescending(k, tail) ensures Less(y, s[0]) {
        if y != k {
          var j :| 0 <= j < |tail| && tail[j] == y;
          assert s[j + 1] == y;
        }
      }
      DescendingCons(s[0], InsertDescending(k, tail));
      assert s == [s[0]] + tail;
    }
  }

  /** The keys are visited each once, in strictly descending string order. */
  lemma {:induction false} DescendingKeysSpec(keys: seq<string>)
    ensures StrictlyDescending(DescendingKeys(keys))
    ensures forall x :: x in DescendingKeys(keys) <==> x in keys
  {
    if keys != [] {
      var front := keys[..|keys| - 1];
      DescendingKeysSpec(front);
      InsertDescendingSpec(keys[|keys| - 1], DescendingKeys(front));
      assert keys == front + [keys[|keys| - 1]];
    }
  }

  // ---------------------------------------------------------------------
  // topicsChecked

  /** One entry's `topics_posted` array: (topic, frequency) objects. */
  type TopicList = seq<(string, int)>

  /** The recent-activity JSON object: each key holds an entry's topic list. */
  type Activity = seq<(string, TopicList)>

  /** Every frequency fits a Java `int`, so `Math.toIntExact` does not throw. */
  predicate FitsInt(activity: Activity)
  {
    forall i, j :: 0 <= i < |activity| && 0 <= j < |activity[i].1| ==>
      -0x8000_0000 <= activity[i].1[j].1 < 0x8000_0000
  }

  /** The map topicsChecked fills from a topic list, putting each entry in turn. */
  function TopicMap(topics: TopicList): (r: seq<(string, int)>)
    ensures r == [] <==> topics == []
  {
    if topics == [] then []
    else
      var last := topics[|topics| - 1];
      Put(TopicMap(topics[..|topics| - 1]), last.0, last.1)
  }

  /**
   * The filled map has one entry per topic, and a topic listed several
   * times keeps the frequency of its last listing.
   */
  lemma {:induction false} TopicMapSpec(topics: TopicList)
    ensures DistinctKeys(TopicMap(topics))
    ensures KeySet(TopicMap(topics)) == KeySet(topics)
    ensures forall i :: 0 <= i < |topics| && (forall j :: i < j < |topics| ==> topics[j].0 != topics[i].0) ==>
      ToMap(TopicMap(topics))[topics[i].0] == topics[i].1
  {
    if topics != [] {
      var n := |topics| - 1;
      var front := topics[..n];
      var last := topics[n];
      TopicMapSpec(front);
      PutDistinct(TopicMap(front), last.0, last.1);
      PutToMap(TopicMap(front), last.0, last.1);
      assert topics == front + [last];
      KeySetSnoc(front, last);
      forall i | 0 <= i < |topics| && (forall j :: i < j < |topics| ==> topics[j].0 != topics[i].0)
        ensures ToMap(TopicMap(topics))[topics[i].0] == topics[i].1
      {
        if i < n {
          assert topics[n].0 != topics[i].0;
          assert front[i] == topics[i];
          forall j | i < j < |front| ensures front[j].0 != front[i].0 {
            assert front[j] == topics[j];
          }
        }
      }
    }
  }

  /** The loop that fills a map from a topic list. */
  method FillTopicMap(topics: TopicList) returns (m: seq<(string, int)>)
    ensures m == TopicMap(topics)
    ensures DistinctKeys(m) && KeySet(m) == KeySet(topics)
  {
    m := [];
    for i := 0 to |topics|
      invariant m == TopicMap(topics[..i])
    {
      assert topics[..i + 1][..i] == topics[..i];
      m := Put(m, topics[i].0, topics[i].1);
    }
    assert topics[..|topics|] == topics;
    TopicMapSpec(topics);
  }

  /** An entry's topic map, sorted by descending frequency. */
  function Current(topics: TopicList): (r: seq<(string, int)>)
    ensures |r| == |TopicMap(topics)|
  {
    MapSorter.StableSort(MapSorter.ByValueDescending, TopicMap(topics))
  }

  /** For each of the first two topics of `cur`: was it a topic of `prev`? */
  function TopTwoCheck(prev: seq<(string, int)>, cur: seq<(string, int)>): (r: seq<bool>)
    ensures |r| == if |cur| < 2 then |cur| else 2
    ensures forall i :: 0 <= i < |r| ==> (r[i] <==> cur[i].0 in KeySet(prev))
  {
    if |cur| < 2 then seq(|cur|, i requires 0 <= i < |cur| => cur[i].0 in ToMap(prev))
    else [cur[0].0 in ToMap(prev), cur[1].0 in ToMap(prev)]
  }

  /** Every key of `keys` names an entry of the activity object. */
  predicate KeysOf(activity: Activity, keys: seq<string>)
  {
    forall i :: 0 <= i < |keys| ==> keys[i] in ToMap(activity)
  }

  /**
   * The sorted topic/frequency map of each entry of `keys`, in visiting
   * order; an entry with no topics gives the empty map.
   */
  function Visits(activity: Activity, keys: seq<string>): (maps: seq<seq<(string, int)>>)
    requires KeysOf(activity, keys)
    ensures |maps| == |keys|
  {
    seq(|keys|, j requires 0 <= j < |keys| => Current(ToMap(activity)[keys[j]]))
  }

  /** An entry's sorted map is empty exactly when its topic list is. */
  lemma CurrentEmpty(topics: TopicList)
    ensures Current(topics) == [] <==> topics == []
  {
    if topics != [] {
      MapSorter.StableSortPermutes(MapSorter.ByValueDescending, TopicMap(topics));
      assert TopicMap(topics) != [];
      assert |multiset(TopicMap(topics))| > 0;
    }
  }

  /**
   * What topicsChecked returns when it visits the entries whose sorted
   * maps are `maps`, from position `k` on, with `prev` as the previous
   * entry's sorted map (empty before the first entry) and `checks` as the
   * tally so far.
   */
  function Walk(maps: seq<seq<(string, int)>>, k: nat, prev: seq<(string, int)>, checks: seq<bool>): (r: bool)
    requires k <= |maps|
    decreases |maps| - k
  {
    if k == |maps| then TallyAccepts(checks)
    else
      var cur := maps[k];
      if cur == [] then false
      else if prev == [] then Walk(maps, k + 1, cur, checks)
      else if ToMap(prev) == ToMap(cur) then true
      else Walk(maps, k + 1, cur, checks + TopTwoCheck(prev, cur))
  }

  /** The tally after visiting `cur` with `prev` as the previous map. */
  function NextChecks(prev: seq<(string, int)>, cur: seq<(string, int)>, checks: seq<bool>): seq<bool>
  {
    if prev == [] then checks else checks + TopTwoCheck(prev, cur)
  }

  /** The entries `maps[k..n]` all have topics. */
  predicate AllVisited(maps: seq<seq<(string, int)>>, k: nat, n: nat)
    requires n <= |maps|
  {
    forall j :: k <= j < n ==> maps[j] != []
  }

  /**
   * Two consecutive visited entries with the same topic/frequency map
   * (ignoring order) make topicsChecked accept, unless an empty entry
   * before them stopped it first.
   */
  lemma {:induction false} WalkAcceptsRepeat(maps: seq<seq<(string, int)>>, k: nat,
                                             prev: seq<(string, int)>, checks: seq<bool>, i: nat)
    requires k <= i && i + 1 < |maps|
    requires AllVisited(maps, k, i + 2)
    requires ToMap(maps[i]) == ToMap(maps[i + 1])
    ensures Walk(maps, k, prev, checks)
    decreases i - k
  {
    var next := NextChecks(prev, maps[k], checks);
    if k < i {
      WalkAcceptsRepeat(maps, k + 1, maps[k], next, i);
    } else {
      assert maps[k + 1] != [];
      assert Walk(maps, k + 1, maps[k], next);
    }
  }

  /** No two consecutive entries among `maps[k..n]` have equal maps, nor `prev` and the first. */
  predicate NoRepeatBefore(maps: seq<seq<(string, int)>>, k: nat, prev: seq<(string, int)>, n: nat)
    requires k <= n <= |maps|
  {
    (k < n && prev != [] ==> ToMap(prev) != ToMap(maps[k]))
    && forall j :: k < j < n ==> ToMap(maps[j - 1]) != ToMap(maps[j])
  }

  lemma NoRepeatShift(maps: seq<seq<(string, int)>>, k: nat, prev: seq<(string, int)>, n: nat)
    requires k < n <= |maps| && NoRepeatBefore(maps, k, prev, n)
    ensures NoRepeatBefore(maps, k + 1, maps[k], n)
  {
    if k + 1 < n {
      assert k < k + 1 < n;
    }
  }

  /**
   * An entry with an empty topic list makes topicsChecked reject, unless
   * two equal consecutive entries before it made it accept first.
   */
  lemma {:induction false} WalkStopsAtEmpty(maps: seq<seq<(string, int)>>, k: nat,
                                            prev: seq<(string, int)>, checks: seq<bool>, i: nat)
    requires k <= i < |maps|
    requires maps[i] == []
    requires AllVisited(maps, k, i)
    requires NoRepeatBefore(maps, k, prev, i)
    ensures !Walk(maps, k, prev, checks)
    decreases i - k
  {
    if k < i {
      var next := NextChecks(prev, maps[k], checks);
      NoRepeatShift(maps, k, prev, i);
      WalkStopsAtEmpty(maps, k + 1, maps[k], next, i);
      assert !Walk(maps, k + 1, maps[k], next);
    }
  }

  /**
   * The top-two checks of every consecutive pair of visited maps from the
   * pair ending at position `k` on, in visiting order.
   */
  function PairChecks(maps: seq<seq<(string, int)>>, k: nat): seq<bool>
    requires 1 <= k
    decreases |maps| - k
  {
    if k >= |maps| then [] else TopTwoCheck(maps[k - 1], maps[k]) + PairChecks(maps, k + 1)
  }

  /**
   * From position `k` on, every visited entry has topics and none has the
   * same map as the next one: topicsChecked neither stops nor accepts early.
   */
  predicate Plain(maps: seq<seq<(string, int)>>, k: nat)
    requires k <= |maps|
    decreases |maps| - k
  {
    k == |maps|
    || (maps[k] != []
        && (k + 1 < |maps| ==> ToMap(maps[k]) != ToMap(maps[k + 1]))
        && Plain(maps, k + 1))
  }

  lemma {:induction false} PlainFrom(maps: seq<seq<(string, int)>>, k: nat)
    requires k <= |maps|
    requires AllVisited(maps, k, |maps|)
    requires NoRepeatBefore(maps, k, [], |maps|)
    ensures Plain(maps, k)
    decreases |maps| - k
  {
    if k < |maps| {
      NoRepeatShift(maps, k, [], |maps|);
      PlainFrom(maps, k + 1);
      if k + 1 < |maps| {
        assert k < k + 1 < |maps|;
      }
    }
  }

  lemma {:induction false} WalkTallyFrom(maps: seq<seq<(string, int)>>, k: nat, checks: seq<bool>, all: seq<bool>)
    requires 1 <= k <= |maps|
    requires maps[k - 1] != [] && Plain(maps, k)
    requires k < |maps| ==> ToMap(maps[k - 1]) != ToMap(maps[k])
    requires all == checks + PairChecks(maps, k)
    ensures Walk(maps, k, maps[k - 1], checks) == TallyAccepts(all)
    decreases |maps| - k
  {
    if k < |maps| {
      var step := TopTwoCheck(maps[k - 1], maps[k]);
      assert Walk(maps, k, maps[k - 1], checks) == Walk(maps, k + 1, maps[k], checks + step);
      ConcatAssoc(checks, step, PairChecks(maps, k + 1));
      WalkTallyFrom(maps, k + 1, checks + step, all);
    } else {
      assert all == checks;
    }
  }

  /**
   * When every visited entry has topics and no two consecutive ones have
   * equal maps, topicsChecked returns the tally verdict over the top-two
   * checks of all consecutive pairs.
   */
  lemma WalkTally(maps: seq<seq<(string, int)>>)
    requires AllVisited(maps, 0, |maps|)
    requires NoRepeatBefore(maps, 0, [], |maps|)
    ensures Walk(maps, 0, [], []) == TallyAccepts(PairChecks(maps, 1))
  {
    if maps != [] {
      PlainFrom(maps, 0);
      assert Walk(maps, 0, [], []) == Walk(maps, 1, maps[0], []);
      assert [] + PairChecks(maps, 1) == PairChecks(maps, 1);
      WalkTallyFrom(maps, 1, [], PairChecks(maps, 1));
    }
  }

  /** Visiting the same entry twice in a row always accepts. */
  lemma RepeatedEntryAccepts(activity: Activity, a: string, b: string)
    requires a in ToMap(activity) && b in ToMap(activity)
    requires ToMap(activity)[a] == ToMap(activity)[b] != []
    ensures Walk(Visits(activity, [a, b]), 0, [], [])
  {
    var maps := Visits(activity, [a, b]);
    CurrentEmpty(ToMap(activity)[a]);
    assert maps[0] == maps[1] != [];
    WalkAcceptsRepeat(maps, 0, [], [], 0);
  }

  /** An entry with no topics, first in the visiting order, makes topicsChecked reject. */
  lemma EmptyFirstRejects(activity: Activity, keys: seq<string>)
    requires KeysOf(activity, keys) && keys != [] && ToMap(activity)[keys[0]] == []
    ensures !Walk(Visits(activity, keys), 0, [], [])
  {
    CurrentEmpty(ToMap(activity)[keys[0]]);
    WalkStopsAtEmpty(Visits(activity, keys), 0, [], [], 0);
  }

  /**
   * topicsChecked itself. `keys` is the `TreeSet` the caller built; each
   * entry's topic list is read, put into a map, and sorted with
   * `MapSorter.valueDescending`.
   */
  method TopicsChecked(activity: Activity, keys: seq<string>) returns (r: bool)
    requires KeysOf(activity, keys)
    requires FitsInt(activity)
    ensures r == Walk(Visits(activity, keys), 0, [], [])
  {
    ghost var maps := Visits(activity, keys);
    var previousTopics: seq<(string, int)> := [];
    var topTopicCheckList: seq<bool> := [];
    for i := 0 to |keys|
      invariant Walk(maps, 0, [], []) == Walk(maps, i, previousTopics, topTopicCheckList)
      invariant DistinctKeys(previousTopics)
    {
      var topics := ToMap(activity)[keys[i]];
      CurrentEmpty(topics);
      assert maps[i] == Current(topics);
      if topics == [] {
        return false;
      }
      if previousTopics == [] {
        var filled := FillTopicMap(topics);
        previousTopics := MapSorter.ValueDescending(filled);
      } else {
        var currentTopics := FillTopicMap(topics);
        currentTopics := MapSorter.ValueDescending(currentTopics);
        if ToMap(previousTopics) == ToMap(currentTopics) {
          return true;
        }
        var added := TopTopics(previousTopics, currentTopics);
        topTopicCheckList := topTopicCheckList + added;
        previousTopics := currentTopics;
      }
    }
    r := TallyVerdict(topTopicCheckList);
  }

  /** The inner loop of topicsChecked: check at most the first two current topics. */
  method TopTopics(previousTopics: seq<(string, int)>, currentTopics: seq<(string, int)>) returns (added: seq<bool>)
    ensures added == TopTwoCheck(previousTopics, currentTopics)
  {
    added := [];
    var loopCounter := 0;
    var j := 0;
    while j < |currentTopics|
      invariant 0 <= j <= |currentTopics| && loopCounter == j <= 2
      invariant added == seq(j, k requires 0 <= k < j && k < |currentTopics| => currentTopics[k].0 in ToMap(previousTopics))
    {
      if loopCounter != 2 {
        added := added + [currentTopics[j].0 in ToMap(previousTopics)];
        loopCounter := loopCounter + 1;
      } else {
        break;
      }
      j := j + 1;
    }
  }

  /** What checkRecentActivity returns for an activity object. */
  function RecentActivityVerdict(activity: Activity): bool
  {
    if |activity| <= 1 then false
    else
      var keys := DescendingKeys(KeyList(activity));
      DescendingKeysSpec(KeyList(activity));
      assert KeysOf(activity, keys) by {
        forall i | 0 <= i < |keys| ensures keys[i] in ToMap(activity) {
          assert keys[i] in KeyList(activity);
        }
      }
      Walk(Visits(activity, keys), 0, [], [])
  }

  /** checkRecentActivity. A JSON object holds each key once. */
  method CheckRecentActivity(activity: Activity) returns (r: bool)
    requires DistinctKeys(activity) && FitsInt(activity)
    ensures r == RecentActivityVerdict(activity)
    ensures |activity| <= 1 ==> !r
  {
    if |activity| <= 1 || |activity| == 0 {
      return false;
    }
    var keySet := DescendingKeys(KeyList(activity));
    DescendingKeysSpec(KeyList(activity));
    assert KeysOf(activity, keySet) by {
      forall i | 0 <= i < |keySet| ensures keySet[i] in ToMap(activity) {
        assert keySet[i] in KeyList(activity);
      }
    }
    r := TopicsChecked(activity, keySet);
  }

  // ---------------------------------------------------------------------
  // decide

  /** The activity check: it fails when the history could not be read. */
  predicate ActivityAccepts(activity: Option<Activity>)
  {
    activity.Some? && RecentActivityVerdict(activity.value)
  }

  /** The inputs decide refuses to work with. */
  predicate Unusable(requestingUser: int, staticUsers: Option<seq<int>>)
  {
    staticUsers.None? || staticUsers.value == [] || requestingUser == 0
  }

  /** The authentication rule, in terms of the evidence. */
  predicate Accepts(requestingUser: int, staticUsers: Option<seq<int>>,
                    followerIds: Option<seq<int>>, activity: Option<Activity>)
  {
    !Unusable(requestingUser, staticUsers)
    && FollowAccepts(staticUsers.value, followerIds)
    && ActivityAccepts(activity)
  }

  class Decision {
    const requestingUser: int
    const staticUsers: Option<seq<int>>
    /** The time of the last check; it only feeds the activity fetch. */
    const lastChecked: Option<int>
    var decision: bool

    constructor(requestingUser: int, staticUsers: Option<seq<int>>, lastChecked: Option<int>)
      ensures this.requestingUser == requestingUser && this.staticUsers == staticUsers
      ensures this.lastChecked == lastChecked && !decision
    {
      this.requestingUser := requestingUser;
      this.staticUsers := staticUsers;
      this.lastChecked := lastChecked;
      decision := false;
    }

    /** reset: a new Decision for another attempt. */
    method Reset(requestingUser: int, staticUsers: Option<seq<int>>, lastChecked: Option<int>) returns (d: Decision)
      ensures fresh(d)
      ensures d.requestingUser == requestingUser && d.staticUsers == staticUsers
      ensures d.lastChecked == lastChecked && !d.decision
    {
      d := new Decision(requestingUser, staticUsers, lastChecked);
    }

    /** isDecision. */
    function IsDecision(): bool
      reads this
    {
      decision
    }

    /**
     * decide. The guard rejects without looking at the evidence; otherwise
     * the follow check and the activity check must both pass, and the
     * friend check is computed but does not change the outcome.
     */
    method Decide(followerIds: Option<seq<int>>, friendIds: Option<seq<int>>, activity: Option<Activity>)
      returns (d: bool)
      requires activity.Some? ==> DistinctKeys(activity.value) && FitsInt(activity.value)
      modifies this
      ensures d == IsDecision()
      ensures Unusable(requestingUser, staticUsers) ==> !d
      ensures d == Accepts(requestingUser, staticUsers, followerIds, activity)
    {
      if staticUsers.None? || |staticUsers.value| == 0 || requestingUser == 0 {
        decision := false;
        return decision;
      }
      var users := staticUsers.value;

      var followMap := LinkAnalysisTwitter.CheckForLinksFollowing(users, followerIds);
      var follow := CheckMap(followMap);
      LinkMajority(users, followerIds, followMap);

      var friendMap := LinkAnalysisTwitter.CheckForLinksFriends(users, friendIds);
      var friend := CheckMap(friendMap);

      var activityOk := false;
      if activity.Some? {
        activityOk := CheckRecentActivity(activity.value);
      }

      if follow && friend && activityOk {
        decision := true;
      } else {
        decision := follow && activityOk;
      }
      return decision;
    }
  }
}
