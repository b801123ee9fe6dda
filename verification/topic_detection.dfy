/**
 * TopicDetection: the cleaning of a feed of post texts before it is sent
 * to the topic classifier, and the pairing of the classifier's answer with
 * the cleaned texts.
 *
 * Each text is rewritten by three `String.replaceAll` calls, in this
 * order: URLs are deleted, then @-mentions are deleted, then every run of
 * four or more copies of one character is collapsed to a single copy.
 * `replaceAll` is a library call, modelled by the function `ReplaceAll`:
 * scan left to right, and at each position either replace the (greedy)
 * match that starts there and continue after it, or keep the character.
 */
module TopicDetection {
  import opened JavaUtil
  import opened JavaString

  /** The three regular expressions of the class. */
  datatype Pattern =
    | UrlPattern             // "www." and whitespace, or "http(s)://" and non-whitespace
    | UsernamePattern        // '@', one ASCII letter or digit, then one or more word characters
    | RepeatingCharsPattern  // one character other than a line terminator, then 3 or more copies

  datatype CharClass = Space | NonSpace | Word

  predicate InClass(k: CharClass, c: char)
  {
    match k
    case Space => IsSpace(c)
    case NonSpace => !IsSpace(c)
    case Word => IsWordChar(c)
  }

  /** Length of the longest prefix of `s` inside class `k` (a greedy `[k]*`). */
  function Span(s: string, k: CharClass): (n: nat)
    ensures n <= |s|
    ensures forall i :: 0 <= i < n ==> InClass(k, s[i])
    ensures n < |s| ==> !InClass(k, s[n])
  {
    if s != [] && InClass(k, s[0]) then 1 + Span(s[1..], k) else 0
  }

  /** Length of the longest prefix of `s` made of copies of `c` (a greedy `c*`). */
  function CharRun(s: string, c: char): (n: nat)
    ensures n <= |s|
    ensures forall i :: 0 <= i < n ==> s[i] == c
    ensures n < |s| ==> s[n] != c
  {
    if s != [] && s[0] == c then 1 + CharRun(s[1..], c) else 0
  }

  /** The length of the match of `p` that starts at the beginning of `s`, 0 if none. */
  function MatchLength(p: Pattern, s: string): (n: nat)
    ensures n <= |s|
  {
    match p
    case UrlPattern => UrlMatch(s)
    case UsernamePattern => MentionMatch(s)
    case RepeatingCharsPattern => RunMatch(s)
  }

  /** `(www\.[\s]+)|(https?://[^\s]+)`: the first alternative is tried first, and `s?` takes the `s` when it can. */
  function UrlMatch(s: string): (n: nat)
    ensures n <= |s|
    ensures n > 0 ==> n >= 5
  {
    if |s| > 4 && s[..4] == "www." && IsSpace(s[4]) then 4 + Span(s[4..], Space)
    else if |s| > 8 && s[..8] == "https://" && !IsSpace(s[8]) then 8 + Span(s[8..], NonSpace)
    else if |s| > 7 && s[..7] == "http://" && !IsSpace(s[7]) then 7 + Span(s[7..], NonSpace)
    else 0
  }

  /** `(@[A-Za-z0-9])\w+`. */
  function MentionMatch(s: string): (n: nat)
    ensures n <= |s|
    ensures n > 0 ==> n >= 3 && s[0] == '@'
  {
    if |s| > 2 && s[0] == '@' && IsAsciiAlnum(s[1]) && IsWordChar(s[2]) then 2 + Span(s[2..], Word)
    else 0
  }

  /** `(.)\1{3,}`. */
  function RunMatch(s: string): (n: nat)
    ensures n <= |s|
    ensures n == 0 || n >= 4
  {
    if s != [] && !IsLineTerminator(s[0]) && CharRun(s, s[0]) >= 4 then CharRun(s, s[0]) else 0
  }

  /** The replacement text: "" for the first two patterns, "$1" (the repeated character) for the third. */
  function Replacement(p: Pattern, s: string): string
    requires s != []
  {
    if p == RepeatingCharsPattern then [s[0]] else []
  }

  /** `s.replaceAll(p, replacement)`. */
  function ReplaceAll(p: Pattern, s: string): (r: string)
    ensures |r| <= |s|
    decreases |s|
  {
    if s == [] then []
    else
      var n := MatchLength(p, s);
      if n > 0 then Replacement(p, s) + ReplaceAll(p, s[n..])
      else [s[0]] + ReplaceAll(p, s[1..])
  }

  /** No match of `p` starts anywhere in `s`. */
  predicate NoMatch(p: Pattern, s: string)
  {
    forall i :: 0 <= i < |s| ==> MatchLength(p, s[i..]) == 0
  }

  function StripUrls(s: string): (r: string) { ReplaceAll(UrlPattern, s) }

  function StripMentions(s: string): (r: string) { ReplaceAll(UsernamePattern, s) }

  function CollapseRepeats(s: string): (r: string) { ReplaceAll(RepeatingCharsPattern, s) }

  /** The three rewrites of `preprocessFeed`, in their order. */
  function Clean(s: string): (r: string)
    ensures |r| <= |s|
  {
    CollapseRepeats(StripMentions(StripUrls(s)))
  }

  /** Empty, or whitespace only (the test that drops a cleaned text). */
  predicate Blank(s: string)
  {
    forall i :: 0 <= i < |s| ==> IsSpace(s[i])
  }

  // ---------------------------------------------------------------------
  // replaceAll

  lemma NoMatchCons(p: Pattern, c: char, t: string)
    requires MatchLength(p, [c] + t) == 0 && NoMatch(p, t)
    ensures NoMatch(p, [c] + t)
  {
    var s := [c] + t;
    forall i | 0 <= i < |s| ensures MatchLength(p, s[i..]) == 0 {
      if i > 0 { assert s[i..] == t[i - 1..]; }
    }
  }

  /** A match is longer than its replacement, so replacing it shortens the text. */
  lemma MatchShrinks(p: Pattern, s: string)
    requires s != [] && MatchLength(p, s) > 0
    ensures |ReplaceAll(p, s)| < |s|
  {
    var n := MatchLength(p, s);
    assert ReplaceAll(p, s) == Replacement(p, s) + ReplaceAll(p, s[n..]);
    if p == RepeatingCharsPattern {
      assert n >= 4;
    } else {
      assert Replacement(p, s) == [];
    }
  }

  lemma NoMatchTail(p: Pattern, s: string)
    requires s != [] && NoMatch(p, s)
    ensures MatchLength(p, s) == 0 && NoMatch(p, s[1..])
  {
    assert s[0..] == s;
    forall i | 0 <= i < |s[1..]| ensures MatchLength(p, s[1..][i..]) == 0 {
      assert s[1..][i..] == s[i + 1..];
    }
  }

  /** A rewrite changes a text exactly when some match starts in it. */
  lemma {:induction false} ReplaceAllUnchanged(p: Pattern, s: string)
    ensures ReplaceAll(p, s) == s <==> NoMatch(p, s)
    decreases |s|
  {
    if s != [] {
      ReplaceAllUnchanged(p, s[1..]);
      if MatchLength(p, s) > 0 {
        MatchShrinks(p, s);
        assert s[0..] == s;
      } else {
        assert ReplaceAll(p, s) == [s[0]] + ReplaceAll(p, s[1..]);
        if NoMatch(p, s) {
          NoMatchTail(p, s);
        }
        if ReplaceAll(p, s[1..]) == s[1..] {
          assert [s[0]] + s[1..] == s;
          NoMatchCons(p, s[0], s[1..]);
        }
      }
    }
  }

  /** No match of `p` starts at any of the first `k` positions of `s`. */
  predicate NoMatchBefore(p: Pattern, s: string, k: nat)
    requires k <= |s|
  {
    forall i :: 0 <= i < k ==> MatchLength(p, s[i..]) == 0
  }

  /** Without a match at the start, the first character is kept and the scan moves on by one. */
  lemma ReplaceAllKeep(p: Pattern, s: string)
    requires s != [] && MatchLength(p, s) == 0
    ensures ReplaceAll(p, s) == [s[0]] + ReplaceAll(p, s[1..])
  {
  }

  /**
   * A prefix on which no match starts is copied unchanged, and the rewrite
   * goes on from the end of that prefix.
   */
  lemma {:induction false} ReplaceAllKeeps(p: Pattern, s: string, k: nat)
    requires k <= |s| && NoMatchBefore(p, s, k)
    ensures ReplaceAll(p, s) == s[..k] + ReplaceAll(p, s[k..])
    decreases k
  {
    if k > 0 {
      NoMatchBeforeTail(p, s, k);
      ReplaceAllKeeps(p, s[1..], k - 1);
      KeepsStep(p, s, k);
    }
  }

  /** Dropping the first character keeps the match-free prefix, one shorter. */
  lemma NoMatchBeforeTail(p: Pattern, s: string, k: nat)
    requires 0 < k <= |s| && NoMatchBefore(p, s, k)
    ensures MatchLength(p, s) == 0
    ensures NoMatchBefore(p, s[1..], k - 1)
  {
    var t := s[1..];
    assert s[0..] == s;
    forall i | 0 <= i < k - 1 ensures MatchLength(p, t[i..]) == 0 {
      assert t[i..] == s[i + 1..];
    }
  }

  /** The inductive step of ReplaceAllKeeps: the first character joins the copied prefix. */
  lemma KeepsStep(p: Pattern, s: string, k: nat)
    requires 0 < k <= |s| && MatchLength(p, s) == 0
    requires ReplaceAll(p, s[1..]) == s[1..][..k - 1] + ReplaceAll(p, s[1..][k - 1..])
    ensures ReplaceAll(p, s) == s[..k] + ReplaceAll(p, s[k..])
  {
    ReplaceAllKeep(p, s);
    assert s[1..][k - 1..] == s[k..];
    PrefixStep(s, k, ReplaceAll(p, s[1..]), ReplaceAll(p, s[k..]));
  }

  lemma PrefixStep(s: string, k: nat, y: string, z: string)
    requires 0 < k <= |s| && y == s[1..][..k - 1] + z
    ensures [s[0]] + y == s[..k] + z
  {
    assert [s[0]] + s[1..][..k - 1] == s[..k];
    ConcatAssoc([s[0]], s[1..][..k - 1], z);
  }

  // ---------------------------------------------------------------------
  // URL rewrite

  lemma {:induction false} SpanAll(u: string, rest: string, k: CharClass)
    requires forall i :: 0 <= i < |u| ==> InClass(k, u[i])
    requires rest == [] || !InClass(k, rest[0])
    ensures Span(u + rest, k) == |u|
  {
    if u != [] {
      assert (u + rest)[1..] == u[1..] + rest;
      SpanAll(u[1..], rest, k);
    } else {
      assert u + rest == rest;
    }
  }

  /** At the start of a text, "http://" or "https://" and the non-whitespace run after it are deleted. */
  lemma HttpUrlAtStart(scheme: string, u: string, rest: string)
    requires scheme == "http://" || scheme == "https://"
    requires u != [] && forall i :: 0 <= i < |u| ==> !IsSpace(u[i])
    requires rest == [] || IsSpace(rest[0])
    ensures StripUrls(scheme + u + rest) == StripUrls(rest)
  {
    var s := scheme + u + rest;
    HttpUrlMatch(scheme, u, rest);
    DeletedMatch(UrlPattern, s);
    assert s[|scheme| + |u|..] == rest;
  }

  lemma HttpUrlMatch(scheme: string, u: string, rest: string)
    requires scheme == "http://" || scheme == "https://"
    requires u != [] && forall i :: 0 <= i < |u| ==> !IsSpace(u[i])
    requires rest == [] || IsSpace(rest[0])
    ensures UrlMatch(scheme + u + rest) == |scheme| + |u|
  {
    var s := scheme + u + rest;
    var h := |scheme|;
    assert s[..h] == scheme && s[h..] == u + rest && s[h] == u[0];
    SpanAll(u, rest, NonSpace);
    assert s[..4] != "www." by { assert s[..4][0] == 'h'; }
    if scheme == "http://" {
      assert s[..8] != "https://" by { assert s[..8][4] == ':'; }
    }
  }

  /** A match of a deleting pattern is removed and the scan goes on after it. */
  lemma DeletedMatch(p: Pattern, s: string)
    requires p != RepeatingCharsPattern && s != [] && MatchLength(p, s) > 0
    ensures ReplaceAll(p, s) == ReplaceAll(p, s[MatchLength(p, s)..])
  {
    assert Replacement(p, s) == [];
  }

  /** At the start of a text, "www." and the whitespace run after it are deleted. */
  lemma WwwAtStart(w: string, rest: string)
    requires w != [] && forall i :: 0 <= i < |w| ==> IsSpace(w[i])
    requires rest == [] || !IsSpace(rest[0])
    ensures StripUrls("www." + w + rest) == StripUrls(rest)
  {
    var s := "www." + w + rest;
    assert s[..4] == "www." && s[4..] == w + rest && s[4] == w[0];
    SpanAll(w, rest, Space);
    assert s[4 + |w|..] == rest;
  }

  /**
   * Anywhere in a text: after a prefix `a` on which no URL match starts,
   * "http://" or "https://" and the maximal non-whitespace run after it are
   * deleted, and the prefix is kept.
   */
  lemma HttpUrlDeleted(a: string, scheme: string, u: string, rest: string)
    requires scheme == "http://" || scheme == "https://"
    requires u != [] && forall i :: 0 <= i < |u| ==> !IsSpace(u[i])
    requires rest == [] || IsSpace(rest[0])
    requires NoMatchBefore(UrlPattern, a + scheme + u + rest, |a|)
    ensures StripUrls(a + scheme + u + rest) == a + StripUrls(rest)
  {
    var t := scheme + u + rest;
    var s := a + scheme + u + rest;
    assert s == a + t;
    ReplaceAllKeeps(UrlPattern, s, |a|);
    assert s[..|a|] == a && s[|a|..] == t;
    HttpUrlAtStart(scheme, u, rest);
  }

  /**
   * Anywhere in a text: after a prefix `a` on which no URL match starts,
   * "www." and the maximal whitespace run after it are deleted.
   */
  lemma WwwDeleted(a: string, w: string, rest: string)
    requires w != [] && forall i :: 0 <= i < |w| ==> IsSpace(w[i])
    requires rest == [] || !IsSpace(rest[0])
    requires NoMatchBefore(UrlPattern, a + "www." + w + rest, |a|)
    ensures StripUrls(a + "www." + w + rest) == a + StripUrls(rest)
  {
    var t := "www." + w + rest;
    var s := a + "www." + w + rest;
    assert s == a + t;
    ReplaceAllKeeps(UrlPattern, s, |a|);
    assert s[..|a|] == a && s[|a|..] == t;
    WwwAtStart(w, rest);
  }

  /** No URL match starts inside a prefix that has no `w` and no `h`. */
  lemma UrlFreePrefix(a: string, t: string)
    requires forall i :: 0 <= i < |a| ==> a[i] != 'w' && a[i] != 'h'
    ensures NoMatchBefore(UrlPattern, a + t, |a|)
  {
    var s := a + t;
    forall i | 0 <= i < |a| ensures MatchLength(UrlPattern, s[i..]) == 0 {
      assert s[i..][0] == a[i];
      if UrlMatch(s[i..]) > 0 {
        UrlStart(s[i..]);
      }
    }
  }

  /**
   * A URL after plain words (no `w`, no `h`, e.g. "see ") is deleted and
   * the words before it are kept.
   */
  lemma UrlAfterPlainText(a: string, scheme: string, u: string, rest: string)
    requires forall i :: 0 <= i < |a| ==> a[i] != 'w' && a[i] != 'h'
    requires scheme == "http://" || scheme == "https://"
    requires u != [] && forall i :: 0 <= i < |u| ==> !IsSpace(u[i])
    requires rest == [] || IsSpace(rest[0])
    ensures StripUrls(a + scheme + u + rest) == a + StripUrls(rest)
  {
    UrlFreePrefix(a, scheme + u + rest);
    assert a + (scheme + u + rest) == a + scheme + u + rest;
    HttpUrlDeleted(a, scheme, u, rest);
  }

  // ---------------------------------------------------------------------
  // Mention rewrite

  /** At the start of a text, '@', a letter or digit, and the maximal run of word characters after it are deleted. */
  lemma MentionAtStart(a: char, w: string, rest: string)
    requires IsAsciiAlnum(a)
    requires w != [] && forall i :: 0 <= i < |w| ==> IsWordChar(w[i])
    requires rest == [] || !IsWordChar(rest[0])
    ensures StripMentions(['@', a] + w + rest) == StripMentions(rest)
  {
    var s := ['@', a] + w + rest;
    assert s[2..] == w + rest && s[2] == w[0];
    SpanAll(w, rest, Word);
    assert s[2 + |w|..] == rest;
  }

  /**
   * Anywhere in a text: after a prefix `b` on which no mention match
   * starts, '@', a letter or digit, and the maximal run of word characters
   * after it are deleted, and the prefix is kept.
   */
  lemma MentionDeleted(b: string, a: char, w: string, rest: string)
    requires IsAsciiAlnum(a)
    requires w != [] && forall i :: 0 <= i < |w| ==> IsWordChar(w[i])
    requires rest == [] || !IsWordChar(rest[0])
    requires NoMatchBefore(UsernamePattern, b + ['@', a] + w + rest, |b|)
    ensures StripMentions(b + ['@', a] + w + rest) == b + StripMentions(rest)
  {
    var t := ['@', a] + w + rest;
    var s := b + ['@', a] + w + rest;
    assert s == b + t;
    ReplaceAllKeeps(UsernamePattern, s, |b|);
    assert s[..|b|] == b && s[|b|..] == t;
    MentionAtStart(a, w, rest);
  }

  /** No mention match starts inside a prefix that has no '@'. */
  lemma MentionFreePrefix(b: string, t: string)
    requires forall i :: 0 <= i < |b| ==> b[i] != '@'
    ensures NoMatchBefore(UsernamePattern, b + t, |b|)
  {
    var s := b + t;
    forall i | 0 <= i < |b| ensures MatchLength(UsernamePattern, s[i..]) == 0 {
      assert s[i..][0] == b[i];
    }
  }

  /** A mention after text with no '@' is deleted and the text before it is kept. */
  lemma MentionAfterPlainText(b: string, a: char, w: string, rest: string)
    requires forall i :: 0 <= i < |b| ==> b[i] != '@'
    requires IsAsciiAlnum(a)
    requires w != [] && forall i :: 0 <= i < |w| ==> IsWordChar(w[i])
    requires rest == [] || !IsWordChar(rest[0])
    ensures StripMentions(b + ['@', a] + w + rest) == b + StripMentions(rest)
  {
    MentionFreePrefix(b, ['@', a] + w + rest);
    assert b + (['@', a] + w + rest) == b + ['@', a] + w + rest;
    MentionDeleted(b, a, w, rest);
  }

  /** A two-character mention "@x" not followed by a word character survives. */
  lemma ShortMentionKept(a: char, rest: string)
    requires IsAsciiAlnum(a)
    requires rest == [] || !IsWordChar(rest[0])
    ensures StripMentions(['@', a] + rest) == ['@', a] + StripMentions(rest)
  {
    var s := ['@', a] + rest;
    assert MatchLength(UsernamePattern, s) == 0;
    assert s[1..] == [a] + rest;
    assert StripMentions(s) == ['@'] + StripMentions([a] + rest);
    assert MatchLength(UsernamePattern, [a] + rest) == 0;
    assert ([a] + rest)[1..] == rest;
    assert StripMentions([a] + rest) == [a] + StripMentions(rest);
  }

  // ---------------------------------------------------------------------
  // Repeat collapse

  lemma {:induction false} CollapseHead(s: string)
    requires s != []
    ensures CollapseRepeats(s) != [] && CollapseRepeats(s)[0] == s[0]
    ensures CharRun(CollapseRepeats(s), s[0])
         == if MatchLength(RepeatingCharsPattern, s) > 0 then 1 else CharRun(s, s[0])
    decreases |s|
  {
    var c := s[0];
    var k := CharRun(s, c);
    var r := CollapseRepeats(s);
    if MatchLength(RepeatingCharsPattern, s) > 0 {
      var rest := s[k..];
      assert r == [c] + CollapseRepeats(rest);
      if rest != [] {
        CollapseHead(rest);
        assert r[1..] == CollapseRepeats(rest);
      }
    } else {
      assert r == [c] + CollapseRepeats(s[1..]);
      assert r[1..] == CollapseRepeats(s[1..]);
      if |s| > 1 {
        CollapseHead(s[1..]);
        if s[1] == c {
          assert CharRun(s[1..], c) == k - 1;
        }
      }
    }
  }

  /** After the collapse, no run of four copies of a non-line-terminator is left. */
  lemma {:induction false} CollapseLeavesNoRun(s: string)
    ensures NoMatch(RepeatingCharsPattern, CollapseRepeats(s))
    decreases |s|
  {
    if s != [] {
      var n := MatchLength(RepeatingCharsPattern, s);
      var rest := if n > 0 then s[n..] else s[1..];
      CollapseLeavesNoRun(rest);
      CollapseHead(s);
      assert CollapseRepeats(s) == [s[0]] + CollapseRepeats(rest);
      NoMatchCons(RepeatingCharsPattern, s[0], CollapseRepeats(rest));
    }
  }

  /** Collapsing twice is collapsing once. */
  lemma CollapseIdempotent(s: string)
    ensures CollapseRepeats(CollapseRepeats(s)) == CollapseRepeats(s)
  {
    CollapseLeavesNoRun(s);
    ReplaceAllUnchanged(RepeatingCharsPattern, CollapseRepeats(s));
  }

  function Repeat(c: char, n: nat): (r: string)
    ensures |r| == n && forall i :: 0 <= i < n ==> r[i] == c
  {
    seq(n, _ => c)
  }

  /**
   * A maximal run of n copies of c becomes one copy when n >= 4 and c is
   * not a line terminator, and is kept as it is otherwise.
   */
  lemma {:induction false} CollapseRun(c: char, n: nat, rest: string)
    requires n >= 1
    requires rest == [] || rest[0] != c
    ensures CollapseRepeats(Repeat(c, n) + rest)
         == (if n >= 4 && !IsLineTerminator(c) then [c] else Repeat(c, n)) + CollapseRepeats(rest)
    decreases n
  {
    var s := Repeat(c, n) + rest;
    SpanLikeRun(c, n, rest);
    RepeatSplit(c, n, rest);
    if n >= 4 && !IsLineTerminator(c) {
      CollapseAt(s, n);
    } else {
      KeepAt(s);
      var tail := CollapseRepeats(rest);
      if n > 1 {
        CollapseRun(c, n - 1, rest);
        assert CollapseRepeats(s[1..]) == Repeat(c, n - 1) + tail;
      } else {
        assert CollapseRepeats(s[1..]) == Repeat(c, n - 1) + tail;
      }
      ConcatAssoc([c], Repeat(c, n - 1), tail);
    }
  }

  lemma RepeatSplit(c: char, n: nat, rest: string)
    requires n >= 1
    ensures (Repeat(c, n) + rest)[0] == c
    ensures (Repeat(c, n) + rest)[1..] == Repeat(c, n - 1) + rest
    ensures (Repeat(c, n) + rest)[n..] == rest
    ensures [c] + Repeat(c, n - 1) == Repeat(c, n)
    ensures n == 1 ==> Repeat(c, n - 1) + rest == rest
  {
    assert Repeat(c, n - 1) + rest == (Repeat(c, n) + rest)[1..];
  }

  /** A run of n >= 4 copies at the start is replaced by one copy. */
  lemma CollapseAt(s: string, n: nat)
    requires 4 <= n <= |s| && !IsLineTerminator(s[0]) && CharRun(s, s[0]) == n
    ensures CollapseRepeats(s) == [s[0]] + CollapseRepeats(s[n..])
  {
  }

  /** Without a match at the start, the first character is kept. */
  lemma KeepAt(s: string)
    requires s != [] && (IsLineTerminator(s[0]) || CharRun(s, s[0]) < 4)
    ensures CollapseRepeats(s) == [s[0]] + CollapseRepeats(s[1..])
  {
  }

  lemma {:induction false} SpanLikeRun(c: char, n: nat, rest: string)
    requires rest == [] || rest[0] != c
    ensures CharRun(Repeat(c, n) + rest, c) == n
    decreases n
  {
    if n > 0 {
      assert (Repeat(c, n) + rest)[1..] == Repeat(c, n - 1) + rest;
      SpanLikeRun(c, n - 1, rest);
    } else {
      assert Repeat(c, n) + rest == rest;
    }
  }

  /**
   * The order of the rewrites matters: "@aaaaa" is a mention and is
   * deleted, while collapsing first would leave the two-character "@a".
   */
  lemma RewriteOrderMatters()
    ensures Clean("@aaaaa") == ""
    ensures StripMentions(CollapseRepeats("@aaaaa")) == "@a"
  {
    NoUrlWithoutWH("@aaaaa");
    MentionInExample();
    CollapseInExample();
    ShortMentionKept('a', "");
    assert ['@', 'a'] + "" == "@a";
  }

  /** A URL match starts with 'w' or 'h'. */
  lemma UrlStart(s: string)
    requires UrlMatch(s) > 0
    ensures s[0] == 'w' || s[0] == 'h'
  {
    if |s| > 4 && s[..4] == "www." {
      assert s[0] == s[..4][0];
    } else if |s| > 8 && s[..8] == "https://" {
      assert s[0] == s[..8][0];
    } else {
      assert s[0] == s[..7][0];
    }
  }

  /** A text without a `w` or an `h` has no URL to delete. */
  lemma NoUrlWithoutWH(s: string)
    requires forall i :: 0 <= i < |s| ==> s[i] != 'w' && s[i] != 'h'
    ensures StripUrls(s) == s
  {
    forall i | 0 <= i < |s| ensures MatchLength(UrlPattern, s[i..]) == 0 {
      assert s[i..][0] == s[i];
      if UrlMatch(s[i..]) > 0 {
        UrlStart(s[i..]);
      }
    }
    ReplaceAllUnchanged(UrlPattern, s);
  }

  lemma MentionInExample()
    ensures StripMentions("@aaaaa") == ""
  {
    assert "@aaaaa" == ['@', 'a'] + "aaaa" + "";
    MentionAtStart('a', "aaaa", "");
  }

  lemma CollapseInExample()
    ensures CollapseRepeats("@aaaaa") == "@a"
  {
    assert Repeat('@', 1) + "aaaaa" == "@aaaaa";
    CollapseRun('@', 1, "aaaaa");
    assert Repeat('a', 5) + "" == "aaaaa";
    CollapseRun('a', 5, "");
  }

  // ---------------------------------------------------------------------
  // preprocessFeed

  /** The cleaned texts of `feed` that are not blank, in feed order. */
  function Preprocessed(feed: seq<string>): (r: seq<string>)
  {
    DropBlank(Cleaned(feed))
  }

  /** Every text of the feed, cleaned, in order. */
  function Cleaned(feed: seq<string>): (cs: seq<string>)
    ensures |cs| == |feed|
  {
    seq(|feed|, i requires 0 <= i < |feed| => Clean(feed[i]))
  }

  /** The texts of `cs` that are not blank, in order. */
  function DropBlank(cs: seq<string>): seq<string>
  {
    if cs == [] then []
    else
      var c := cs[|cs| - 1];
      DropBlank(cs[..|cs| - 1]) + (if Blank(c) then [] else [c])
  }

  lemma {:induction false} DropBlankAppend(cs: seq<string>, ds: seq<string>)
    ensures DropBlank(cs + ds) == DropBlank(cs) + DropBlank(ds)
    decreases |ds|
  {
    if ds == [] {
      assert cs + ds == cs;
    } else {
      var ds' := ds[..|ds| - 1];
      assert (cs + ds)[..|cs + ds| - 1] == cs + ds';
      DropBlankAppend(cs, ds');
    }
  }

  /** Preprocessing works text by text: it distributes over concatenation. */
  lemma PreprocessedAppend(a: seq<string>, b: seq<string>)
    ensures Preprocessed(a + b) == Preprocessed(a) + Preprocessed(b)
  {
    assert Cleaned(a + b) == Cleaned(a) + Cleaned(b);
    DropBlankAppend(Cleaned(a), Cleaned(b));
  }

  /** What one text contributes. */
  lemma PreprocessedSingle(x: string)
    ensures Preprocessed([x]) == if Blank(Clean(x)) then [] else [Clean(x)]
  {
    var c := Clean(x);
    assert Cleaned([x]) == [c];
    assert [c][..0] == [];
    assert DropBlank([c]) == DropBlank([]) + (if Blank(c) then [] else [c]);
  }

  /** The kept texts are exactly the non-blank ones, and there are no more of them than texts. */
  lemma {:induction false} DropBlankMembers(cs: seq<string>)
    ensures |DropBlank(cs)| <= |cs|
    ensures forall x :: x in DropBlank(cs) <==> x in cs && !Blank(x)
  {
    if cs != [] {
      var init := cs[..|cs| - 1];
      DropBlankMembers(init);
      assert cs == init + [cs[|cs| - 1]];
    }
  }

  /**
   * A string is in the output exactly when it is the non-blank cleaned
   * form of some input text; the output is never longer than the input.
   */
  lemma PreprocessedMembers(feed: seq<string>)
    ensures |Preprocessed(feed)| <= |feed|
    ensures forall x :: x in Preprocessed(feed) <==> x in Cleaned(feed) && !Blank(x)
  {
    DropBlankMembers(Cleaned(feed));
  }

  lemma DropBlankStep(cs: seq<string>, i: nat)
    requires i < |cs|
    ensures DropBlank(cs[..i + 1]) == DropBlank(cs[..i]) + (if Blank(cs[i]) then [] else [cs[i]])
  {
    assert cs[..i + 1][..i] == cs[..i];
  }

  /** `preprocessFeed`: clean every text in order and drop the blank ones. */
  method PreprocessFeed(feed: seq<string>) returns (result: seq<string>)
    ensures result == Preprocessed(feed)
    ensures |result| <= |feed|
    ensures forall i :: 0 <= i < |result| ==> !Blank(result[i])
  {
    ghost var cs := Cleaned(feed);
    result := [];
    for i := 0 to |feed|
      invariant result == DropBlank(cs[..i])
    {
      var current := StripUrls(feed[i]);
      current := StripMentions(current);
      current := CollapseRepeats(current);
      assert current == cs[i];
      DropBlankStep(cs, i);
      if Blank(current) {
        continue;
      }
      result := result + [current];
    }
    assert cs[..|feed|] == cs;
    PreprocessedMembers(feed);
    assert forall i :: 0 <= i < |result| ==> result[i] in result;
  }

  // ---------------------------------------------------------------------
  // processResponse

  /** One label the classifier proposes for a text, with its probability. */
  datatype Score = Score(topic: string, probability: real)

  type Classification = seq<Score>

  /**
   * The classifier's response body as `processResponse` sees it after
   * parsing: text that does not parse (a ParseException), the JSON literal
   * `null`, a JSON value that is not an object or whose "result" entry is
   * not an array, an object without a "result" entry (the classifier's
   * error body), or the "result" array.
   */
  datatype Response =
    | Unparsable
    | JsonNull
    | WrongType
    | NoResult
    | Results(arr: seq<Classification>)

  /**
   * The outcome of `processResponse`: the map from cleaned text to its
   * classification, or the exception that escapes it: the
   * IndexOutOfBoundsException `feed.get(i)` throws when the classifier
   * returns more results than there are texts, the ClassCastException of
   * the `(JSONObject)` or `(JSONArray)` cast, or the NullPointerException
   * of calling a method on a null object or on the missing "result" array.
   */
  datatype Paired =
    | Paired(pairs: seq<(string, Classification)>)
    | FeedIndexOutOfBounds
    | ClassCastThrown
    | NullPointerThrown

  /** After i puts: the first i texts are the keys, each mapped to the result of its last position. */
  predicate PairedUpTo(feed: seq<string>, arr: seq<Classification>, m: seq<(string, Classification)>, i: nat)
    requires i <= |feed| && i <= |arr|
  {
    && DistinctKeys(m)
    && KeySet(m) == (set j | 0 <= j < i :: feed[j])
    && forall j :: 0 <= j < i ==> ToMap(m)[feed[j]] == arr[LastIndexOf(feed[..i], feed[j])]
  }

  /** One put of the pairing loop. */
  lemma PairStep(feed: seq<string>, arr: seq<Classification>, m: seq<(string, Classification)>, i: nat)
    requires i < |feed| && i < |arr| && PairedUpTo(feed, arr, m, i)
    ensures PairedUpTo(feed, arr, Put(m, feed[i], arr[i]), i + 1)
  {
    PutDistinct(m, feed[i], arr[i]);
    PairKeysStep(feed, m, i, arr[i]);
    PairValuesStep(feed, arr, m, i);
  }

  /** The put adds feed[i] to the keys. */
  lemma PairKeysStep(feed: seq<string>, m: seq<(string, Classification)>, i: nat, v: Classification)
    requires i < |feed| && KeySet(m) == (set j | 0 <= j < i :: feed[j])
    ensures KeySet(Put(m, feed[i], v)) == (set j | 0 <= j < i + 1 :: feed[j])
  {
    PutToMap(m, feed[i], v);
  }

  /** After the put, every text seen so far maps to the result at its last position. */
  lemma PairValuesStep(feed: seq<string>, arr: seq<Classification>, m: seq<(string, Classification)>, i: nat)
    requires i < |feed| && i < |arr| && PairedUpTo(feed, arr, m, i)
    ensures forall j :: 0 <= j < i + 1 ==>
      feed[j] in ToMap(Put(m, feed[i], arr[i])) &&
      ToMap(Put(m, feed[i], arr[i]))[feed[j]] == arr[LastIndexOf(feed[..i + 1], feed[j])]
  {
    var m' := Put(m, feed[i], arr[i]);
    PutToMap(m, feed[i], arr[i]);
    assert feed[..i + 1][..i] == feed[..i];
    forall j | 0 <= j < i + 1 ensures feed[j] in ToMap(m') && ToMap(m')[feed[j]] == arr[LastIndexOf(feed[..i + 1], feed[j])] {
      if feed[j] != feed[i] {
        assert LastIndexOf(feed[..i + 1], feed[j]) == LastIndexOf(feed[..i], feed[j]);
      }
    }
  }

  /**
   * `processResponse`: put feed[i] -> results[i] for every result, in
   * order. Only the ParseException is caught (the map stays empty); the
   * other exceptions escape.
   */
  method ProcessResponse(feed: seq<string>, response: Response) returns (r: Paired)
    ensures response.Unparsable? ==> r == Paired([])
    ensures response.WrongType? ==> r == ClassCastThrown
    ensures response.JsonNull? || response.NoResult? ==> r == NullPointerThrown
    ensures response.Results? && |response.arr| > |feed| ==> r == FeedIndexOutOfBounds
    ensures response.Results? && |response.arr| <= |feed| ==>
      var n := |response.arr|;
      && r.Paired?
      && DistinctKeys(r.pairs)
      && KeySet(r.pairs) == (set i | 0 <= i < n :: feed[i])
      && forall i :: 0 <= i < n ==>
           ToMap(r.pairs)[feed[i]] == response.arr[LastIndexOf(feed[..n], feed[i])]
  {
    match response {
      case Unparsable => return Paired([]);
      case WrongType => return ClassCastThrown;
      case JsonNull => return NullPointerThrown;
      case NoResult => return NullPointerThrown;
      case Results(_) =>
    }
    var arr := response.arr;
    var m: seq<(string, Classification)> := [];
    var i := 0;
    while i < |arr|
      invariant 0 <= i <= |arr| && i <= |feed|
      invariant PairedUpTo(feed, arr, m, i)
    {
      if i >= |feed| {
        return FeedIndexOutOfBounds;
      }
      PairStep(feed, arr, m, i);
      m := Put(m, feed[i], arr[i]);
      i := i + 1;
    }
    r := Paired(m);
  }
}
