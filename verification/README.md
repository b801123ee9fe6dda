# NetworkAnalysis decision core, in Dafny

NetworkAnalysis decides whether a Twitter user who asks to authenticate is
who they claim to be. It looks at three kinds of evidence:

- **Follows.** It checks how many of a fixed list of anchor ("static") users are among the requester's followers. It also checks the requester's friends, but that result never changes the outcome.
- **Activity history.** It checks whether the topics the requester has posted about stay consistent across the dated entries of their recent-activity history.
- **Feed preparation.** Before topics can be counted, the requester's posts are cleaned and sent to a topic classifier. The classifier's answer is then paired back with the posts.

This project models that logic and proves what it guarantees:

- `java_util.dfy` (`JavaUtil`): the `java.util` behaviour the code relies on.
  - A `HashMap` is an association list: key/value pairs with distinct keys, in iteration order. `Put` updates a key in place and appends a new key.
  - Also `getOrDefault`, element counting and `List.lastIndexOf`.
- `java_string.dfy` (`JavaString`):
  - `String.compareTo` and `Integer.toString`.
  - The character classes the regular expressions use.
- `map_sorter.dfy` (`MapSorter`): the four sorters of `MapSorter.java`.
  - `Collections.sort` promises a stable sort. It is modelled by the stable insertion sort `StableSort`. `StableSortUnique` proves that any stable sort gives the same list, because the comparators are total preorders.
  - The copy into a `LinkedHashMap` is the loop `FillLinkedMap`.
- `topic_detection.dfy` (`TopicDetection`): feed cleaning and response pairing.
  - The three `replaceAll` rewrites of `preprocessFeed`: URLs, @-mentions, runs of 4 or more repeated characters.
  - The `preprocessFeed` loop.
  - The positional pairing in `processResponse`.
- `link_analysis_twitter.dfy` (`LinkAnalysisTwitter`):
  - The link maps of `checkForLinksFollowing` and `checkForLinksFriends`.
  - The per-text argmax and label tally of `topicsPosted`.
- `decision.dfy` (`NetworkAnalysis`): the authentication rule.
  - `checkMap`, `checkRecentActivity` and `topicsChecked`.
  - The class `Decision`, with `decide`, `reset` and the `decision` field.

The fetched follower and friend id lists are parameters. So are the classifier's scores and the recent-activity object. `None` stands for the exception the code catches.

Three points where the code's behaviour is easy to misread; the model follows the code:

- `checkMap` rejects a tie between true and false entries (`Decision.java:157`). The final tally of `topicsChecked` accepts a tie (`Decision.java:225`).
- `checkRecentActivity` visits the history's keys in descending string order, not date order.
- `keyDescending` sorts ascending by the `key=value` text of each entry.

## Model

| member | source | states |
|---|---|---|
| MapSorter.ValueAscending | src/main/java/uk/ac/ncl/jcarlton/networkanalysis/util/MapSorter.java:22-37 | an empty map comes back as is; otherwise the result holds exactly the input's entries, each key once, with values non-decreasing, and entries with equal values keep their input order; it is the stable sort of the input by value |
| MapSorter.ValueDescending | src/main/java/uk/ac/ncl/jcarlton/networkanalysis/util/MapSorter.java:47-62 | an empty map comes back as is; otherwise the result is a permutation of the input's entries, keys distinct, values non-increasing, equal values in input order |
| MapSorter.KeyDescending | src/main/java/uk/ac/ncl/jcarlton/networkanalysis/util/MapSorter.java:72-88 | an empty map comes back as is; otherwise a permutation of the entries sorted ASCENDING by their `key=value` text under `String.compareTo`, stable on equal texts |
| MapSorter.KeyAscending | src/main/java/uk/ac/ncl/jcarlton/networkanalysis/util/MapSorter.java:98-101 | an empty map comes back as is; otherwise the same entries with keys strictly ascending under `String.compareTo` |
| MapSorter.FillLinkedMap | src/main/java/uk/ac/ncl/jcarlton/networkanalysis/util/MapSorter.java:33-35 | putting a list of entries with distinct keys into a fresh `LinkedHashMap` yields that list, in that order |
| MapSorter.InOrderTotalPreorder | src/main/java/uk/ac/ncl/jcarlton/networkanalysis/util/MapSorter.java:26-31 | each comparator handed to `Collections.sort` is total and transitive |
| MapSorter.Insert | src/main/java/uk/ac/ncl/jcarlton/networkanalysis/util/MapSorter.java:26 | inserting an entry makes the list one longer; InsertElements, InsertSorted and InsertTied say it adds exactly that entry, keeps the list sorted and goes before the entries it ties with, which is what makes inserting each head into the sorted tail stable |
| MapSorter.StableSort | src/main/java/uk/ac/ncl/jcarlton/networkanalysis/util/MapSorter.java:26 | `Collections.sort` keeps the number of entries; the four lemmas below give sorted, permutation, stable and unique |
| MapSorter.StableSortSorted | src/main/java/uk/ac/ncl/jcarlton/networkanalysis/util/MapSorter.java:51-56 | the sorted list is ordered by the comparator |
| MapSorter.StableSortPermutes | src/main/java/uk/ac/ncl/jcarlton/networkanalysis/util/MapSorter.java:50-51 | sorting keeps the multiset of entries |
| MapSorter.StableSortStable | src/main/java/uk/ac/ncl/jcarlton/networkanalysis/util/MapSorter.java:26 | entries the comparator ties keep their relative order |
| MapSorter.StableSortKeys | src/main/java/uk/ac/ncl/jcarlton/networkanalysis/util/MapSorter.java:25-26 | sorting a map's entries keeps the keys distinct and the key set unchanged |
| MapSorter.SortedUnique | src/main/java/uk/ac/ncl/jcarlton/networkanalysis/util/MapSorter.java:26-31 | two lists that are sorted by the comparator and hold the entries tied with any x in the same order are equal |
| MapSorter.StableSortUnique | src/main/java/uk/ac/ncl/jcarlton/networkanalysis/util/MapSorter.java:51 | whatever stable algorithm `Collections.sort` uses, a sorted list with tied entries in input order is exactly `StableSort` of the input |
| MapSorter.SortedMap | src/main/java/uk/ac/ncl/jcarlton/networkanalysis/util/MapSorter.java:50-60 | the stable sort of a map is a permutation with distinct keys, sorted, and stable |
| JavaString.LessEqTotalOrder | src/main/java/uk/ac/ncl/jcarlton/networkanalysis/util/MapSorter.java:80 | `compareTo(...) <= 0` is a total order on strings: total, antisymmetric, transitive |
| TopicDetection.Span | src/main/java/uk/ac/ncl/jcarlton/networkanalysis/analysis/TopicDetection.java:36 | a greedy `[\s]+`, `[^\s]+` or `\w+` takes the longest prefix inside the class |
| TopicDetection.UrlMatch | src/main/java/uk/ac/ncl/jcarlton/networkanalysis/analysis/TopicDetection.java:36 | a URL match never runs past the text, and a non-empty one is at least 5 characters (`www.` and one whitespace character, or a scheme and one character) |
| TopicDetection.MentionMatch | src/main/java/uk/ac/ncl/jcarlton/networkanalysis/analysis/TopicDetection.java:37 | a mention match never runs past the text; a non-empty one starts with `@` and has at least 3 characters |
| TopicDetection.RunMatch | src/main/java/uk/ac/ncl/jcarlton/networkanalysis/analysis/TopicDetection.java:38 | a repeat match never runs past the text and is either empty or at least 4 characters |
| TopicDetection.CharRun | src/main/java/uk/ac/ncl/jcarlton/networkanalysis/analysis/TopicDetection.java:38 | the greedy `\1{3,}` takes the whole run of copies of the first character |
| TopicDetection.ReplaceAll | src/main/java/uk/ac/ncl/jcarlton/networkanalysis/analysis/TopicDetection.java:87-91 | none of the three rewrites lengthens a text |
| TopicDetection.ReplaceAllUnchanged | src/main/java/uk/ac/ncl/jcarlton/networkanalysis/analysis/TopicDetection.java:87-91 | a rewrite leaves a text unchanged exactly when no match starts anywhere in it |
| TopicDetection.ReplaceAllKeeps | src/main/java/uk/ac/ncl/jcarlton/networkanalysis/analysis/TopicDetection.java:87-91 | a prefix on which no match starts is copied unchanged, and the rewrite goes on from the end of that prefix |
| TopicDetection.HttpUrlAtStart | src/main/java/uk/ac/ncl/jcarlton/networkanalysis/analysis/TopicDetection.java:36 | at the start of a text, `http://` or `https://` and the maximal non-whitespace run after it are deleted |
| TopicDetection.WwwAtStart | src/main/java/uk/ac/ncl/jcarlton/networkanalysis/analysis/TopicDetection.java:36 | at the start of a text, `www.` and the maximal whitespace run after it are deleted |
| TopicDetection.HttpUrlDeleted | src/main/java/uk/ac/ncl/jcarlton/networkanalysis/analysis/TopicDetection.java:36 | anywhere in a text, after a prefix on which no URL match starts: `http://` or `https://` followed by a maximal non-empty run of non-whitespace is deleted, the prefix is kept, and the rewrite goes on after the deleted text |
| TopicDetection.WwwDeleted | src/main/java/uk/ac/ncl/jcarlton/networkanalysis/analysis/TopicDetection.java:36 | anywhere in a text, after a prefix on which no URL match starts: `www.` followed by a maximal non-empty run of whitespace is deleted and the prefix is kept |
| TopicDetection.UrlFreePrefix | src/main/java/uk/ac/ncl/jcarlton/networkanalysis/analysis/TopicDetection.java:36 | no URL match starts inside text that has no `w` and no `h` |
| TopicDetection.UrlAfterPlainText | src/main/java/uk/ac/ncl/jcarlton/networkanalysis/analysis/TopicDetection.java:87 | a URL after text with no `w` and no `h` is deleted and the text before it is kept |
| TopicDetection.UrlStart | src/main/java/uk/ac/ncl/jcarlton/networkanalysis/analysis/TopicDetection.java:36 | a URL match only starts at a `w` or an `h` |
| TopicDetection.MentionAtStart | src/main/java/uk/ac/ncl/jcarlton/networkanalysis/analysis/TopicDetection.java:37 | at the start of a text, `@`, a letter or digit and the maximal word run after it are deleted |
| TopicDetection.MentionDeleted | src/main/java/uk/ac/ncl/jcarlton/networkanalysis/analysis/TopicDetection.java:37 | anywhere in a text, after a prefix on which no mention match starts: `@`, an ASCII letter or digit, then a maximal non-empty run of word characters is deleted and the prefix is kept |
| TopicDetection.MentionFreePrefix | src/main/java/uk/ac/ncl/jcarlton/networkanalysis/analysis/TopicDetection.java:37 | no mention match starts inside text that has no `@` |
| TopicDetection.MentionAfterPlainText | src/main/java/uk/ac/ncl/jcarlton/networkanalysis/analysis/TopicDetection.java:89 | a mention after text with no `@` is deleted and the text before it is kept |
| TopicDetection.ShortMentionKept | src/main/java/uk/ac/ncl/jcarlton/networkanalysis/analysis/TopicDetection.java:37 | a two-character `@x` not followed by a word character survives |
| TopicDetection.CollapseRun | src/main/java/uk/ac/ncl/jcarlton/networkanalysis/analysis/TopicDetection.java:38 | a maximal run of n copies of c becomes one c when n >= 4 and c is not a line terminator, and is kept otherwise |
| TopicDetection.CollapseHead | src/main/java/uk/ac/ncl/jcarlton/networkanalysis/analysis/TopicDetection.java:91 | collapsing keeps the first character; the leading run shrinks to one copy when it is a match, and is kept whole otherwise |
| TopicDetection.CollapseLeavesNoRun | src/main/java/uk/ac/ncl/jcarlton/networkanalysis/analysis/TopicDetection.java:91 | after collapsing, no run of 4 or more identical characters (other than line terminators) remains |
| TopicDetection.CollapseIdempotent | src/main/java/uk/ac/ncl/jcarlton/networkanalysis/analysis/TopicDetection.java:91 | collapsing twice is collapsing once |
| TopicDetection.RewriteOrderMatters | src/main/java/uk/ac/ncl/jcarlton/networkanalysis/analysis/TopicDetection.java:87-91 | the rewrites' order matters: `@aaaaa` is cleaned to the empty text, but collapsing before stripping mentions would leave `@a` |
| TopicDetection.Clean | src/main/java/uk/ac/ncl/jcarlton/networkanalysis/analysis/TopicDetection.java:87-91 | the three rewrites in their order never lengthen a text; RewriteOrderMatters shows the order is significant |
| TopicDetection.PreprocessedAppend | src/main/java/uk/ac/ncl/jcarlton/networkanalysis/analysis/TopicDetection.java:86-95 | preprocessing works text by text, so it distributes over concatenation of feeds |
| TopicDetection.PreprocessedSingle | src/main/java/uk/ac/ncl/jcarlton/networkanalysis/analysis/TopicDetection.java:87-94 | one text yields its cleaned form, or nothing when the cleaned form is empty or whitespace only |
| TopicDetection.PreprocessedMembers | src/main/java/uk/ac/ncl/jcarlton/networkanalysis/analysis/TopicDetection.java:85-95 | the output is no longer than the feed and holds exactly the cleaned texts of the feed that are not blank |
| TopicDetection.PreprocessFeed | src/main/java/uk/ac/ncl/jcarlton/networkanalysis/analysis/TopicDetection.java:84-97 | the loop returns the cleaned non-blank texts in feed order, never more than the feed holds, none blank |
| TopicDetection.ProcessResponse | src/main/java/uk/ac/ncl/jcarlton/networkanalysis/analysis/TopicDetection.java:176-194 | an unparsable response gives an empty map; a response of the wrong JSON type raises the ClassCastException, `null` or an object without "result" the NullPointerException, and more results than texts the index error; otherwise each of the first n texts maps to the result at the last position holding that text, and the keys are exactly those texts |
| LinkAnalysisTwitter.LinkMap | src/main/java/uk/ac/ncl/jcarlton/networkanalysis/analysis/LinkAnalysisTwitter.java:72-84 | the key set is exactly the anchors, each once, and an anchor maps to true iff the fetch succeeded and returned it, so a failed fetch leaves every anchor false |
| LinkAnalysisTwitter.CheckForLinksFollowing | src/main/java/uk/ac/ncl/jcarlton/networkanalysis/analysis/LinkAnalysisTwitter.java:71-85 | the same guarantee over the follower ids |
| LinkAnalysisTwitter.CheckForLinksFriends | src/main/java/uk/ac/ncl/jcarlton/networkanalysis/analysis/LinkAnalysisTwitter.java:120-134 | the same guarantee over the friend ids |
| LinkAnalysisTwitter.LinkMapCounts | src/main/java/uk/ac/ncl/jcarlton/networkanalysis/analysis/LinkAnalysisTwitter.java:74-80 | a link map has one true per linked anchor and one false per unlinked anchor |
| LinkAnalysisTwitter.FirstBest | src/main/java/uk/ac/ncl/jcarlton/networkanalysis/analysis/LinkAnalysisTwitter.java:223-234 | the argmax position is -1 (no label) or a valid index of the scores; FirstBestChoice says which one |
| LinkAnalysisTwitter.TopLabel | src/main/java/uk/ac/ncl/jcarlton/networkanalysis/analysis/LinkAnalysisTwitter.java:224-233 | a non-empty label is the label of one of the text's scores |
| LinkAnalysisTwitter.FirstBestChoice | src/main/java/uk/ac/ncl/jcarlton/networkanalysis/analysis/LinkAnalysisTwitter.java:223-234 | the chosen score is the first with the strictly greatest probability, which must be above 0.0; none is chosen iff no probability is above 0.0 |
| LinkAnalysisTwitter.PickLabel | src/main/java/uk/ac/ncl/jcarlton/networkanalysis/analysis/LinkAnalysisTwitter.java:223-234 | the argmax loop returns the label of that score, or "" when there is none |
| LinkAnalysisTwitter.Tally | src/main/java/uk/ac/ncl/jcarlton/networkanalysis/analysis/LinkAnalysisTwitter.java:236-245 | the count map after the first n labels, one `put` per determined label; TallyKeys, TallyGet and TallySum state its keys, counts and total |
| LinkAnalysisTwitter.TallyKeys | src/main/java/uk/ac/ncl/jcarlton/networkanalysis/analysis/LinkAnalysisTwitter.java:237-244 | the count map has each label once, never the undetermined label "", and every count is at least 1 |
| LinkAnalysisTwitter.TallyGet | src/main/java/uk/ac/ncl/jcarlton/networkanalysis/analysis/LinkAnalysisTwitter.java:239-244 | the count of each non-empty label is its number of occurrences |
| LinkAnalysisTwitter.TallySum | src/main/java/uk/ac/ncl/jcarlton/networkanalysis/analysis/LinkAnalysisTwitter.java:236-244 | the counts sum to the number of texts that got a label |
| LinkAnalysisTwitter.TallyEntries | src/main/java/uk/ac/ncl/jcarlton/networkanalysis/analysis/LinkAnalysisTwitter.java:236-261 | any reordering of the count map has exactly the determined labels as keys, each with its occurrence count (at least 1), summing to the number of labelled texts |
| LinkAnalysisTwitter.CountLabels | src/main/java/uk/ac/ncl/jcarlton/networkanalysis/analysis/LinkAnalysisTwitter.java:220-245 | the counting loop over the response yields the count map of all the labels: one `put` per determined label, undetermined texts skipped |
| LinkAnalysisTwitter.TopicsPosted | src/main/java/uk/ac/ncl/jcarlton/networkanalysis/analysis/LinkAnalysisTwitter.java:215-264 | the counting loop and the sort yield the posted list: the count map as built when it has at most one topic, else its stable sort by descending frequency |
| LinkAnalysisTwitter.Posted | src/main/java/uk/ac/ncl/jcarlton/networkanalysis/analysis/LinkAnalysisTwitter.java:248-252 | the posted list has as many entries as the count map (a map of at most one entry is used as is, a larger one is sorted); PostedEntries states its contents and order |
| LinkAnalysisTwitter.PostedEntries | src/main/java/uk/ac/ncl/jcarlton/networkanalysis/analysis/LinkAnalysisTwitter.java:236-261 | the posted list holds each determined label exactly once with its number of occurrences (at least 1), frequencies non-increasing and summing to the number of labelled texts |
| NetworkAnalysis.CheckMap | src/main/java/uk/ac/ncl/jcarlton/networkanalysis/Decision.java:144-159 | true iff strictly more true than false entries: an empty map gives false, an all-true map gives true, a tie gives false |
| NetworkAnalysis.LinkMajority | src/main/java/uk/ac/ncl/jcarlton/networkanalysis/Decision.java:82-84 | checkMap on a link map is true iff more anchors are linked than unlinked, and false when the fetch failed |
| NetworkAnalysis.TallyVerdict | src/main/java/uk/ac/ncl/jcarlton/networkanalysis/Decision.java:214-226 | true iff the tally is non-empty and has no more false than true checks: empty gives false, all-true gives true, a tie gives true |
| NetworkAnalysis.InsertDescending | src/main/java/uk/ac/ncl/jcarlton/networkanalysis/Decision.java:123-129 | adding a key to the reverse-ordered `TreeSet` leaves the key in the set and grows it by at most one; InsertDescendingSpec gives order and contents |
| NetworkAnalysis.DescendingKeys | src/main/java/uk/ac/ncl/jcarlton/networkanalysis/Decision.java:129 | `addAll` never yields more keys than were added; DescendingKeysSpec gives order and contents |
| NetworkAnalysis.InsertDescendingSpec | src/main/java/uk/ac/ncl/jcarlton/networkanalysis/Decision.java:123-128 | adding a key to the reverse-ordered `TreeSet` keeps it strictly descending and adds exactly that key |
| NetworkAnalysis.DescendingKeysSpec | src/main/java/uk/ac/ncl/jcarlton/networkanalysis/Decision.java:123-129 | the key set holds each activity key once, in strictly descending string order |
| NetworkAnalysis.TopicMap | src/main/java/uk/ac/ncl/jcarlton/networkanalysis/Decision.java:181-184 | the map filled from a topic list is empty exactly when the list is |
| NetworkAnalysis.Current | src/main/java/uk/ac/ncl/jcarlton/networkanalysis/Decision.java:185 | sorting the filled map by descending frequency keeps its number of entries |
| NetworkAnalysis.TopicMapSpec | src/main/java/uk/ac/ncl/jcarlton/networkanalysis/Decision.java:181-184 | the map filled from a topic list has each listed topic once, with the frequency of its last listing |
| NetworkAnalysis.FillTopicMap | src/main/java/uk/ac/ncl/jcarlton/networkanalysis/Decision.java:188-191 | the fill loop yields that map, with distinct keys and exactly the listed topics |
| NetworkAnalysis.TopTwoCheck | src/main/java/uk/ac/ncl/jcarlton/networkanalysis/Decision.java:198-207 | min(2, size of current) checks, the i-th saying whether current's i-th topic is a key of the previous map |
| NetworkAnalysis.TopTopics | src/main/java/uk/ac/ncl/jcarlton/networkanalysis/Decision.java:198-207 | the loop with `loopCounter` and `break` appends exactly those checks |
| NetworkAnalysis.Walk | src/main/java/uk/ac/ncl/jcarlton/networkanalysis/Decision.java:174-212 | the for-loop over the keys from a given position, with the previous map and the tally so far; it has no contract of its own, and WalkAcceptsRepeat, WalkStopsAtEmpty and WalkTally state its result |
| NetworkAnalysis.WalkAcceptsRepeat | src/main/java/uk/ac/ncl/jcarlton/networkanalysis/Decision.java:194-196 | two consecutive visited entries whose sorted maps are equal as maps (order ignored), with no empty entry up to them, make topicsChecked return true, whatever came before |
| NetworkAnalysis.WalkStopsAtEmpty | src/main/java/uk/ac/ncl/jcarlton/networkanalysis/Decision.java:178 | an entry with no topics makes topicsChecked return false when every entry before it has topics and no two consecutive ones have equal maps |
| NetworkAnalysis.WalkTally | src/main/java/uk/ac/ncl/jcarlton/networkanalysis/Decision.java:174-226 | when every visited entry has topics and no two consecutive ones have equal maps, topicsChecked returns the tally verdict over the top-two checks of every consecutive pair, in visiting order |
| NetworkAnalysis.CurrentEmpty | src/main/java/uk/ac/ncl/jcarlton/networkanalysis/Decision.java:178-191 | an entry's sorted topic map is empty exactly when its topic list is, so `topics.isEmpty()` can be read off the map |
| NetworkAnalysis.RepeatedEntryAccepts | src/main/java/uk/ac/ncl/jcarlton/networkanalysis/Decision.java:194-196 | two entries with the same non-empty topic list are accepted |
| NetworkAnalysis.EmptyFirstRejects | src/main/java/uk/ac/ncl/jcarlton/networkanalysis/Decision.java:178 | when the first visited entry has no topics, topicsChecked returns false |
| NetworkAnalysis.TopicsChecked | src/main/java/uk/ac/ncl/jcarlton/networkanalysis/Decision.java:169-227 | the loop returns the verdict of walking the keys in the given order from an empty previous map and an empty tally |
| NetworkAnalysis.CheckRecentActivity | src/main/java/uk/ac/ncl/jcarlton/networkanalysis/Decision.java:118-133 | false for an object with at most one entry; otherwise the walk over its keys in descending string order |
| NetworkAnalysis.Decision.constructor | src/main/java/uk/ac/ncl/jcarlton/networkanalysis/Decision.java:47-51 | stores the requester, the anchors and the last-check time; no decision yet (false) |
| NetworkAnalysis.Decision.Reset | src/main/java/uk/ac/ncl/jcarlton/networkanalysis/Decision.java:60-62 | returns a fresh Decision with the given inputs and no decision |
| NetworkAnalysis.Decision.Decide | src/main/java/uk/ac/ncl/jcarlton/networkanalysis/Decision.java:70-105 | false, without looking at the evidence, when the anchor list is missing or empty or the requester id is 0; otherwise true iff more anchors are followers than not and the activity check passes (the friend check never matters); the `decision` field, read by `isDecision`, holds the result |

## Left out

- Network I/O is not modelled: `getFollowers`, `getFriends`, `getFavourites`, `getTweets` and the HTTPS call of `requestTopics`. Their results are parameters.
- Pagination is not modelled. The paging loop of `getFollowers`/`getFriends` keeps only the last page it fetched, and the model takes that one id list as given.
- `recentActivity` and `processFavouritesInteractions` are not modelled. They read the system clock, call the classifier and build JSON, and `recentActivity` returns only `user_id`. `decide` calls a 3-argument constructor and a 1-argument `recentActivity` that `LinkAnalysisTwitter.java` does not define, so `decide` takes the activity object as a parameter.
- JSON is not modelled:
  - A topic list is a sequence of (topic, frequency) pairs.
  - The activity object is an association list from key to topic list.
  - Every key of that object is assumed to hold a `topics_posted` array. An entry without one, which would throw in the code, is not represented.
- NetworkAnalysis.TopicsChecked, NetworkAnalysis.CheckRecentActivity and NetworkAnalysis.Decision.Decide require every frequency to fit a Java `int`. On a larger one in an entry the walk converts, `Math.toIntExact` throws an `ArithmeticException` that `decide` does not catch. A frequency in an entry the walk never reaches (after an early return, or when `decide` stops at its guard) would not throw in Java; the model still requires it to fit.
- TopicDetection.ProcessResponse: every element of the "result" array is taken to be an array of scores. An element of another JSON type would make the `(JSONArray)` cast throw a ClassCastException part-way through the loop; that case is not represented.
- Floating point is not modelled. Probabilities are `real` and are only compared.
- `Utility.isWhitespace` is not part of this model. The drop test is "empty or every character is `\s` whitespace".
- `String.compareTo` compares UTF-16 code units. The model compares code points, which differs only for characters outside the Basic Multilingual Plane.
- Regex matching on surrogate pairs is not modelled for the same reason.
- `HashMap` iteration order is hash-based in Java. The model fixes it to insertion order, so the stable-sort tie order and the top-two pick follow that choice.
- The `MapSorter` methods are generic. The model fixes them to String keys and Integer values, the only instantiation the code uses.
- Integer counters (`trueCount`, `falseCount`, `loopCounter`, frequencies) are unbounded integers. No Java `int` overflow is modelled.
- `printStackTrace` and `System.out.println` output is left out.
- `getStaticUsers` and `getRequestingUser` are not separate members. The fields are readable constants of the class.
- `isDecision` is the function `IsDecision`. Its guarantee is stated by `Decide`.
