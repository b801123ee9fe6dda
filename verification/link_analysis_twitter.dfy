/**
 * LinkAnalysisTwitter: the map logic behind the Twitter calls.
 *
 * checkForLinksFollowing / checkForLinksFriends build a map from every
 * anchor ("static user") id to whether the requesting user's follower
 * (friend) list holds it. The Twitter fetch is a parameter: `Some(ids)` is
 * the list `getFollowers` / `getFriends` returned, `None` a fetch that threw
 * `TwitterException`.
 *
 * topicsPosted picks, for each classified text, the label with the highest
 * probability, tallies the labels, and sorts the tally by frequency. The
 * classifier's answer is a parameter: an association list from text to its
 * scores, in the map's iteration order.
 */
module LinkAnalysisTwitter {
  import opened JavaUtil
  import MapSorter
  import TopicDetection

  /** The fetch succeeded and its id list holds `id`. */
  predicate Fetched(fetched: Option<seq<int>>, id: int)
  {
    fetched.Some? && id in fetched.value
  }

  /** The anchors, as a set. */
  function Anchors(users: seq<int>): set<int>
  {
    set u | u in users
  }

  /** Every key of `m` maps to false. */
  predicate AllFalse(m: seq<(int, bool)>)
  {
    forall u :: u in ToMap(m) ==> !ToMap(m)[u]
  }

  /** Every key of `m` maps to whether `ids` holds it. */
  predicate MarkedBy(m: seq<(int, bool)>, ids: seq<int>)
  {
    forall u :: u in ToMap(m) ==> (ToMap(m)[u] <==> u in ids)
  }

  /** One step of the first loop: putting false for one more anchor. */
  lemma PutFalseStep(m: seq<(int, bool)>, users: seq<int>, i: nat)
    requires i < |users| && DistinctKeys(m) && AllFalse(m)
    requires KeySet(m) == Anchors(users[..i])
    ensures DistinctKeys(Put(m, users[i], false)) && AllFalse(Put(m, users[i], false))
    ensures KeySet(Put(m, users[i], false)) == Anchors(users[..i + 1])
  {
    var m' := Put(m, users[i], false);
    PutDistinct(m, users[i], false);
    assert AllFalse(m') by {
      PutToMap(m, users[i], false);
      forall u | u in ToMap(m') ensures !ToMap(m')[u] {
        if u != users[i] {
          assert u in ToMap(m);
        }
      }
    }
    assert Anchors(users[..i + 1]) == Anchors(users[..i]) + {users[i]} by {
      assert users[..i + 1] == users[..i] + [users[i]];
    }
  }

  /** One step of the second loop: a fetched id that is an anchor is put true. */
  lemma MarkStep(m: seq<(int, bool)>, users: seq<int>, ids: seq<int>, i: nat)
    requires i < |ids| && DistinctKeys(m) && MarkedBy(m, ids[..i])
    requires KeySet(m) == Anchors(users)
    ensures var m' := if ids[i] in users then Put(m, ids[i], true) else m;
      DistinctKeys(m') && MarkedBy(m', ids[..i + 1]) && KeySet(m') == Anchors(users)
  {
    assert ids[..i + 1] == ids[..i] + [ids[i]];
    if ids[i] in users {
      PutDistinct(m, ids[i], true);
      PutToMap(m, ids[i], true);
    }
  }

  /**
   * The shared body of checkForLinksFollowing and checkForLinksFriends:
   * put false for every anchor, then, if the fetch succeeded, put true for
   * every fetched id that is one of the anchors.
   */
  method LinkMap(users: seq<int>, fetched: Option<seq<int>>) returns (result: seq<(int, bool)>)
    ensures DistinctKeys(result)
    ensures KeySet(result) == Anchors(users)
    ensures forall i :: 0 <= i < |result| ==> (result[i].1 <==> Fetched(fetched, result[i].0))
  {
    result := [];
    for i := 0 to |users|
      invariant DistinctKeys(result) && AllFalse(result)
      invariant KeySet(result) == Anchors(users[..i])
    {
      PutFalseStep(result, users, i);
      result := Put(result, users[i], false);
    }
    assert users[..|users|] == users;
    if fetched.Some? {
      var ids := fetched.value;
      assert MarkedBy(result, ids[..0]);
      for i := 0 to |ids|
        invariant DistinctKeys(result) && MarkedBy(result, ids[..i])
        invariant KeySet(result) == Anchors(users)
      {
        MarkStep(result, users, ids, i);
        if ids[i] in users {
          result := Put(result, ids[i], true);
        }
      }
      assert ids[..|ids|] == ids;
    }
    forall i | 0 <= i < |result| ensures result[i].1 <==> Fetched(fetched, result[i].0) {
      ToMapAt(result, i);
    }
  }

  /** checkForLinksFollowing, over the follower ids the fetch returned. */
  method CheckForLinksFollowing(users: seq<int>, followerIds: Option<seq<int>>) returns (result: seq<(int, bool)>)
    ensures DistinctKeys(result)
    ensures KeySet(result) == Anchors(users)
    ensures forall i :: 0 <= i < |result| ==> (result[i].1 <==> Fetched(followerIds, result[i].0))
  {
    result := LinkMap(users, followerIds);
  }

  /** checkForLinksFriends, over the friend ids the fetch returned. */
  method CheckForLinksFriends(users: seq<int>, friendIds: Option<seq<int>>) returns (result: seq<(int, bool)>)
    ensures DistinctKeys(result)
    ensures KeySet(result) == Anchors(users)
    ensures forall i :: 0 <= i < |result| ==> (result[i].1 <==> Fetched(friendIds, result[i].0))
  {
    result := LinkMap(users, friendIds);
  }

  /** The anchors the fetched list holds, and those it does not. */
  function Linked(users: seq<int>, fetched: Option<seq<int>>): set<int>
  {
    set u | u in users && Fetched(fetched, u)
  }

  function Unlinked(users: seq<int>, fetched: Option<seq<int>>): set<int>
  {
    set u | u in users && !Fetched(fetched, u)
  }

  /** A link map counts one true per linked anchor and one false per unlinked one. */
  lemma LinkMapCounts(users: seq<int>, fetched: Option<seq<int>>, result: seq<(int, bool)>)
    requires DistinctKeys(result)
    requires KeySet(result) == Anchors(users)
    requires forall i :: 0 <= i < |result| ==> (result[i].1 <==> Fetched(fetched, result[i].0))
    ensures Count(Values(result), true) == |Linked(users, fetched)|
    ensures Count(Values(result), false) == |Unlinked(users, fetched)|
  {
    CountValues(result, true);
    CountValues(result, false);
    forall u | u in Linked(users, fetched) ensures u in KeysWithValue(result, true) {
      assert u in KeySet(result);
      var i :| 0 <= i < |result| && result[i].0 == u;
    }
    forall u | u in Unlinked(users, fetched) ensures u in KeysWithValue(result, false) {
      assert u in KeySet(result);
      var i :| 0 <= i < |result| && result[i].0 == u;
    }
    forall u | u in KeysWithValue(result, true) ensures u in Linked(users, fetched) {
      var i :| 0 <= i < |result| && result[i].1 == true && result[i].0 == u;
      assert u in KeySet(result);
    }
    forall u | u in KeysWithValue(result, false) ensures u in Unlinked(users, fetched) {
      var i :| 0 <= i < |result| && result[i].1 == false && result[i].0 == u;
      assert u in KeySet(result);
    }
    assert KeysWithValue(result, true) == Linked(users, fetched);
    assert KeysWithValue(result, false) == Unlinked(users, fetched);
  }

  // ---------------------------------------------------------------------
  // topicsPosted

  /**
   * The position of the label the argmax loop picks: the score whose
   * probability beats every one before it and is not beaten later, starting
   * from 0.0, or -1 when no score beats 0.0 (FirstBestChoice says which).
   */
  function FirstBest(c: TopicDetection.Classification): (k: int)
    ensures -1 <= k < |c|
  {
    if c == [] then -1
    else
      var k := FirstBest(c[..|c| - 1]);
      var best := if k < 0 then 0.0 else c[k].probability;
      if c[|c| - 1].probability > best then |c| - 1 else k
  }

  /**
   * The chosen score is the first with the strictly greatest probability,
   * among those above 0.0; none is chosen when no probability is above 0.0.
   */
  lemma {:induction false} FirstBestChoice(c: TopicDetection.Classification)
    ensures FirstBest(c) == -1 <==> forall i :: 0 <= i < |c| ==> c[i].probability <= 0.0
    ensures FirstBest(c) >= 0 ==> c[FirstBest(c)].probability > 0.0
    ensures FirstBest(c) >= 0 ==> forall i :: 0 <= i < |c| ==> c[i].probability <= c[FirstBest(c)].probability
    ensures FirstBest(c) >= 0 ==> forall i :: 0 <= i < FirstBest(c) ==> c[i].probability < c[FirstBest(c)].probability
  {
    if c != [] {
      var init := c[..|c| - 1];
      FirstBestChoice(init);
      assert forall i :: 0 <= i < |init| ==> init[i] == c[i];
    }
  }

  /** The label topicsPosted gives a text; "" when none could be determined. */
  function TopLabel(c: TopicDetection.Classification): (topic: string)
    ensures topic != "" ==> exists i :: 0 <= i < |c| && c[i].topic == topic
  {
    var k := FirstBest(c);
    if k < 0 then "" else c[k].topic
  }

  /** The argmax loop over one text's scores. */
  method PickLabel(c: TopicDetection.Classification) returns (topic: string)
    ensures topic == TopLabel(c)
  {
    var probability := 0.0;
    topic := "";
    for i := 0 to |c|
      invariant FirstBest(c[..i]) < 0 ==> probability == 0.0 && topic == ""
      invariant FirstBest(c[..i]) >= 0 ==>
        probability == c[FirstBest(c[..i])].probability && topic == c[FirstBest(c[..i])].topic
    {
      assert c[..i + 1][..i] == c[..i];
      if c[i].probability > probability {
        probability := c[i].probability;
        topic := c[i].topic;
      }
    }
    assert c[..|c|] == c;
  }

  /** The label of each classified text, in the response's order. */
  function Labels(response: seq<(string, TopicDetection.Classification)>): (ls: seq<string>)
    ensures |ls| == |response|
  {
    seq(|response|, i requires 0 <= i < |response| => TopLabel(response[i].1))
  }

  /** Counting one more label: "" is skipped, any other label's count goes up by one. */
  function Bump(m: seq<(string, int)>, l: string): seq<(string, int)>
  {
    if l == "" then m else Put(m, l, GetOr(m, l, 0) + 1)
  }

  /** The count map topicsPosted has built after the first `n` labels. */
  function Tally(labels: seq<string>, n: nat): (r: seq<(string, int)>)
    requires n <= |labels|
  {
    if n == 0 then [] else Bump(Tally(labels, n - 1), labels[n - 1])
  }

  /** The count map has each non-empty label at most once, with a count of at least 1. */
  lemma {:induction false} TallyKeys(labels: seq<string>, n: nat)
    requires n <= |labels|
    ensures DistinctKeys(Tally(labels, n))
    ensures "" !in KeySet(Tally(labels, n))
    ensures forall t :: t in ToMap(Tally(labels, n)) ==> ToMap(Tally(labels, n))[t] >= 1
  {
    if n > 0 {
      var m := Tally(labels, n - 1);
      var l := labels[n - 1];
      TallyKeys(labels, n - 1);
      if l == "" {
        assert Tally(labels, n) == m;
      } else {
        var v := GetOr(m, l, 0) + 1;
        assert v >= 1;
        assert Tally(labels, n) == Put(m, l, v);
        PutDistinct(m, l, v);
        PutToMap(m, l, v);
        forall t | t in ToMap(Put(m, l, v)) ensures ToMap(Put(m, l, v))[t] >= 1 {
          if t != l {
            assert ToMap(Put(m, l, v))[t] == ToMap(m)[t];
          }
        }
      }
    }
  }

  /** The count of each non-empty label is its number of occurrences. */
  lemma {:induction false} TallyGet(labels: seq<string>, n: nat)
    requires n <= |labels|
    ensures forall t :: t != "" ==> GetOr(Tally(labels, n), t, 0) == Count(labels[..n], t)
  {
    if n > 0 {
      var m := Tally(labels, n - 1);
      var l := labels[n - 1];
      TallyGet(labels, n - 1);
      forall t | t != "" ensures GetOr(Tally(labels, n), t, 0) == Count(labels[..n], t) {
        CountSnoc(labels, n - 1, t);
        if l != "" {
          PutToMap(m, l, GetOr(m, l, 0) + 1);
        }
      }
    }
  }

  /** The counts add up to the number of labels that are not "". */
  lemma {:induction false} TallySum(labels: seq<string>, n: nat)
    requires n <= |labels|
    ensures SumValues(Tally(labels, n)) == n - Count(labels[..n], "")
  {
    if n > 0 {
      var m := Tally(labels, n - 1);
      var l := labels[n - 1];
      TallySum(labels, n - 1);
      CountSnoc(labels, n - 1, "");
      if l != "" {
        PutSum(m, l, GetOr(m, l, 0) + 1);
      }
    }
  }

  /**
   * Any list holding the entries of the count map, in any order, holds
   * each non-empty label once with its number of occurrences (at least 1),
   * and its frequencies add up to the number of labels that are not "".
   */
  lemma TallyEntries(labels: seq<string>, r: seq<(string, int)>)
    requires multiset(r) == multiset(Tally(labels, |labels|))
    ensures KeySet(r) == set i | 0 <= i < |labels| && labels[i] != "" :: labels[i]
    ensures forall i :: 0 <= i < |r| ==> r[i].0 != "" && r[i].1 == Count(labels, r[i].0) >= 1
    ensures SumValues(r) == |labels| - Count(labels, "")
  {
    var m := Tally(labels, |labels|);
    TallyKeys(labels, |labels|);
    TallyGet(labels, |labels|);
    TallySum(labels, |labels|);
    assert labels[..|labels|] == labels;
    MultisetKeySet(r, m);
    SumValuesPermutation(r, m);
    forall i | 0 <= i < |r| ensures r[i].0 != "" && r[i].1 == Count(labels, r[i].0) >= 1 {
      assert r[i] in multiset(m);
      var j :| 0 <= j < |m| && m[j] == r[i];
      ToMapAt(m, j);
      assert m[j].0 in KeySet(m);
    }
    forall t | t in KeySet(m) ensures t in set i | 0 <= i < |labels| && labels[i] != "" :: labels[i] {
      CountPositive(labels, t);
    }
    forall i | 0 <= i < |labels| && labels[i] != "" ensures labels[i] in KeySet(m) {
      CountPositive(labels, labels[i]);
    }
  }

  /** The list topicsPosted hands to the JSON array, from the count map. */
  function Posted(labels: seq<string>): (r: seq<(string, int)>)
    ensures |r| == |Tally(labels, |labels|)|
  {
    var t := Tally(labels, |labels|);
    if |t| <= 1 then t else MapSorter.StableSort(MapSorter.ByValueDescending, t)
  }

  /**
   * The posted list holds each non-empty label once, with its number of
   * occurrences, most frequent first, and the frequencies add up to the
   * number of labels that are not "".
   */
  lemma PostedEntries(labels: seq<string>)
    ensures DistinctKeys(Posted(labels))
    ensures KeySet(Posted(labels)) == set i | 0 <= i < |labels| && labels[i] != "" :: labels[i]
    ensures forall i :: 0 <= i < |Posted(labels)| ==>
      Posted(labels)[i].0 != "" && Posted(labels)[i].1 == Count(labels, Posted(labels)[i].0) >= 1
    ensures SumValues(Posted(labels)) == |labels| - Count(labels, "")
    ensures forall i, j :: 0 <= i < j < |Posted(labels)| ==> Posted(labels)[i].1 >= Posted(labels)[j].1
  {
    var t := Tally(labels, |labels|);
    var r := Posted(labels);
    TallyKeys(labels, |labels|);
    if |t| > 1 {
      MapSorter.SortedMap(MapSorter.ByValueDescending, t, r);
      assert forall i, j :: 0 <= i < j < |r| ==> MapSorter.InOrder(MapSorter.ByValueDescending, r[i], r[j]);
    }
    TallyEntries(labels, r);
  }

  /**
   * The counting loop of topicsPosted: pick each text's label and count
   * it, skipping the texts whose label could not be determined.
   */
  method CountLabels(response: seq<(string, TopicDetection.Classification)>) returns (countMap: seq<(string, int)>)
    ensures countMap == Tally(Labels(response), |response|)
  {
    var labels := Labels(response);
    countMap := [];
    for i := 0 to |response|
      invariant countMap == Tally(labels, i)
    {
      var topic := PickLabel(response[i].1);
      ghost var next := Tally(labels, i + 1);
      assert topic == labels[i];
      if topic == "" {
        // the topic could not be determined: the text is not counted
        assert next == countMap;
      } else if topic in ToMap(countMap) {
        var count := ToMap(countMap)[topic] + 1;
        assert next == Put(countMap, topic, count) by {
          assert next == Bump(countMap, topic);
          assert GetOr(countMap, topic, 0) + 1 == count;
        }
        countMap := Put(countMap, topic, count);
      } else {
        assert next == Put(countMap, topic, 1);
        countMap := Put(countMap, topic, 1);
      }
    }
  }

  /**
   * topicsPosted up to the JSON array: the list of (topic, frequency)
   * entries in the order they are added to the array.
   */
  method TopicsPosted(response: seq<(string, TopicDetection.Classification)>) returns (result: seq<(string, int)>)
    ensures result == Posted(Labels(response))
  {
    var countMap := CountLabels(response);
    TallyKeys(Labels(response), |response|);
    if |countMap| <= 1 {
      result := countMap;
    } else {
      result := MapSorter.ValueDescending(countMap);
    }
  }
}
