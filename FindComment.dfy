/** Locating an earlier comment on an issue: the options and their defaults,
    the conjunction of author, substring and regular-expression filters, the
    scan direction, and the index into the matching comments. The list of
    comments is what the host returned for the issue; the regular-expression
    engine is a parameter, `matches(regex, text)`, standing for
    `text.match(regex) !== null`. */
module FindComment {
  import opened Wrappers
  import opened Text

  datatype User = User(login: string)

  /** A comment as the host lists it; `user` is absent for a deleted account
      and `body` may be absent. */
  datatype Comment = Comment(id: int, body: Option<string>, user: Option<User>, createdAt: string)

  /** A regular expression as the pair its constructor takes. */
  datatype Regex = Regex(pattern: string, flags: string)

  /** The options as the caller passes them. */
  datatype Options = Options(
    commentAuthor: Option<string>,
    bodyIncludes: Option<string>,
    bodyRegex: Option<string>,
    direction: Option<string>,
    nth: Option<int>)

  /** The options once `direction` and `nth` have their defaults. */
  datatype MatchOptions = MatchOptions(
    commentAuthor: Option<string>,
    bodyIncludes: Option<string>,
    bodyRegex: Option<string>,
    direction: string,
    nth: int)

  /** Destructuring with defaults: `direction` is "first" and `nth` is 0 when
      the caller leaves them out; everything else is passed through. */
  function WithDefaults(o: Options): (m: MatchOptions)
    ensures o.direction == None ==> m.direction == "first"
    ensures o.direction != None ==> m.direction == o.direction.value
    ensures o.nth == None ==> m.nth == 0
    ensures o.nth != None ==> m.nth == o.nth.value
    ensures m.commentAuthor == o.commentAuthor && m.bodyIncludes == o.bodyIncludes
    ensures m.bodyRegex == o.bodyRegex
  {
    MatchOptions(o.commentAuthor, o.bodyIncludes, o.bodyRegex,
                 o.direction.GetOr("first"), o.nth.GetOr(0))
  }

  // ---------------------------------------------------------------------------
  // Parsing `/pattern/flags`
  // ---------------------------------------------------------------------------

  predicate IsFlag(c: char) {
    c == 'g' || c == 'i' || c == 'm' || c == 's' || c == 'u' || c == 'y'
  }

  /** `s` matches `^(.)(.*?)\1([gimsuy]*)$` with a middle group of length `k`:
      a delimiter, `k` characters, the same delimiter, then only flag letters,
      where `.` matches no line terminator. */
  predicate DelimitedAt(s: string, k: nat) {
    && k + 2 <= |s|
    && (forall j :: 0 <= j <= k ==> !IsLineTerminator(s[j]))
    && s[k + 1] == s[0]
    && (forall j :: k + 2 <= j < |s| ==> IsFlag(s[j]))
  }

  /** The lazy `.*?` takes the shortest middle for which the rest matches. */
  predicate ShortestDelimitedAt(s: string, k: nat) {
    DelimitedAt(s, k) && forall k': nat :: k' < k ==> !DelimitedAt(s, k')
  }

  /** The backtracking search of the lazy group: try the closing delimiter
      after `k` middle characters, else take one more character. */
  function LazyMiddle(s: string, k: nat): (r: Option<nat>)
    requires k + 1 <= |s|
    requires forall j :: 0 <= j <= k ==> !IsLineTerminator(s[j])
    ensures r.Some? ==> k <= r.value && ShortestFrom(s, k, r.value)
    ensures r.None? ==> forall k': nat :: k <= k' ==> !DelimitedAt(s, k')
    decreases |s| - k
  {
    if k + 2 > |s| then None
    else if s[k + 1] == s[0] && forall j :: k + 2 <= j < |s| ==> IsFlag(s[j]) then
      Some(k)
    else if IsLineTerminator(s[k + 1]) then
      assert forall k': nat :: k < k' ==> !DelimitedAt(s, k') by {
        forall k': nat | k < k' ensures !DelimitedAt(s, k') {
          if k' + 2 <= |s| {
            assert IsLineTerminator(s[k + 1]);
          }
        }
      }
      None
    else
      LazyMiddle(s, k + 1)
  }

  /** `k` is a delimited split and none from `from` up to it is. */
  predicate ShortestFrom(s: string, from: nat, k: nat) {
    DelimitedAt(s, k) && forall k': nat :: from <= k' < k ==> !DelimitedAt(s, k')
  }

  /** `stringToRegex`: a delimited string `/pattern/flags` (any first character
      serves as the delimiter) becomes its pattern and flags, taking the
      shortest pattern; any other string is the pattern itself, without
      flags. */
  function StringToRegex(s: string): (r: Regex)
    ensures forall k: nat :: ShortestDelimitedAt(s, k) ==> r == Regex(s[1..k + 1], s[k + 2..])
    ensures (forall k: nat :: !DelimitedAt(s, k)) ==> r == Regex(s, "")
  {
    if |s| == 0 || IsLineTerminator(s[0]) then
      assert forall k: nat :: !DelimitedAt(s, k);
      Regex(s, "")
    else
      match LazyMiddle(s, 0)
      case Some(k) =>
        assert forall k': nat :: ShortestDelimitedAt(s, k') ==> k' == k by {
          forall k': nat | ShortestDelimitedAt(s, k') ensures k' == k {
            assert k <= k' by { assert DelimitedAt(s, k'); }
            assert k' <= k by { assert DelimitedAt(s, k); }
          }
        }
        Regex(s[1..k + 1], s[k + 2..])
      case None => Regex(s, "")
  }

  /** `/foo/i` is the pattern `foo` with the flag `i`. */
  lemma DelimitedExample()
    ensures StringToRegex("/foo/i") == Regex("foo", "i")
  {
    var s := "/foo/i";
    assert DelimitedAt(s, 3);
    assert !DelimitedAt(s, 0) && !DelimitedAt(s, 1) && !DelimitedAt(s, 2);
    assert ShortestDelimitedAt(s, 3);
  }

  /** Any first character serves as the delimiter: the undelimited-looking
      `test` is read as `t`, `es`, `t` with no flags, that is, the pattern `es`. */
  lemma AnyDelimiterExample()
    ensures StringToRegex("test") == Regex("es", "")
  {
    var s := "test";
    assert DelimitedAt(s, 2);
    assert !DelimitedAt(s, 0) && !DelimitedAt(s, 1);
    assert ShortestDelimitedAt(s, 2);
  }

  /** A string whose first character does not come back is a plain pattern. */
  lemma UndelimitedIsPlain(s: string)
    requires s != [] && s[0] !in s[1..]
    ensures StringToRegex(s) == Regex(s, "")
  {
    assert forall k: nat :: !DelimitedAt(s, k) by {
      forall k: nat ensures !DelimitedAt(s, k) {
        if k + 2 <= |s| {
          assert s[k + 1] == s[1..][k];
        }
      }
    }
  }

  // ---------------------------------------------------------------------------
  // The filters
  // ---------------------------------------------------------------------------

  /** `findCommentPredicate`: every filter that is supplied (non-empty) must
      hold; a comment without a user passes the author filter and a comment
      without a body (or with an empty one) passes both body filters. */
  function CommentMatches(o: MatchOptions, c: Comment, matches: (Regex, string) -> bool): (b: bool)
    ensures b && Truthy(o.commentAuthor) && c.user.Some? ==> c.user.value.login == o.commentAuthor.value
    ensures b && Truthy(o.bodyIncludes) && Truthy(c.body) ==>
      exists i :: OccursAt(c.body.value, o.bodyIncludes.value, i)
    ensures b && Truthy(o.bodyRegex) && Truthy(c.body) ==>
      matches(StringToRegex(o.bodyRegex.value), c.body.value)
    ensures b <==>
      && (Truthy(o.commentAuthor) && c.user.Some? ==> c.user.value.login == o.commentAuthor.value)
      && (Truthy(o.bodyIncludes) && Truthy(c.body) ==> exists i :: OccursAt(c.body.value, o.bodyIncludes.value, i))
      && (Truthy(o.bodyRegex) && Truthy(c.body) ==> matches(StringToRegex(o.bodyRegex.value), c.body.value))
    ensures c.user.None? && !Truthy(c.body) ==> b
    ensures !Truthy(o.commentAuthor) && !Truthy(o.bodyIncludes) && !Truthy(o.bodyRegex) ==> b
  {
    && (if Truthy(o.commentAuthor) && c.user.Some? then c.user.value.login == o.commentAuthor.value else true)
    && (if Truthy(o.bodyIncludes) && Truthy(c.body) then Includes(c.body.value, o.bodyIncludes.value) else true)
    && (if Truthy(o.bodyRegex) && Truthy(c.body) then matches(StringToRegex(o.bodyRegex.value), c.body.value) else true)
  }

  /** `comments.filter(findCommentPredicate)`: the matching comments, in order. */
  function Matching(o: MatchOptions, cs: seq<Comment>, matches: (Regex, string) -> bool): (r: seq<Comment>)
    ensures |r| <= |cs|
  {
    if cs == [] then []
    else (if CommentMatches(o, cs[0], matches) then [cs[0]] else []) + Matching(o, cs[1..], matches)
  }

  /** The filter keeps exactly the comments that match. */
  lemma {:induction false} MatchingMembers(o: MatchOptions, cs: seq<Comment>, matches: (Regex, string) -> bool)
    ensures forall c :: c in Matching(o, cs, matches) <==> c in cs && CommentMatches(o, c, matches)
  {
    if cs != [] {
      MatchingMembers(o, cs[1..], matches);
      assert forall c :: c in cs <==> c == cs[0] || c in cs[1..];
    }
  }

  /** Filtering distributes over concatenation. */
  lemma {:induction false} MatchingConcat(o: MatchOptions, a: seq<Comment>, b: seq<Comment>, matches: (Regex, string) -> bool)
    ensures Matching(o, a + b, matches) == Matching(o, a, matches) + Matching(o, b, matches)
  {
    if a != [] {
      assert (a + b)[1..] == a[1..] + b;
      MatchingConcat(o, a[1..], b, matches);
    } else {
      assert a + b == b;
    }
  }

  /** `Array.prototype.reverse` as a value. */
  function Reversed(s: seq<Comment>): (r: seq<Comment>)
    ensures |r| == |s|
  {
    if s == [] then [] else Reversed(s[1..]) + [s[0]]
  }

  lemma {:induction false} ReversedAt(s: seq<Comment>, k: nat)
    requires k < |s|
    ensures Reversed(s)[k] == s[|s| - 1 - k]
  {
    if k < |s| - 1 {
      ReversedAt(s[1..], k);
    }
  }

  lemma ReversedMembers(s: seq<Comment>)
    ensures forall c :: c in Reversed(s) <==> c in s
  {
    forall c ensures c in Reversed(s) <==> c in s {
      if c in s {
        var i :| 0 <= i < |s| && s[i] == c;
        ReversedAt(s, |s| - 1 - i);
      }
      if c in Reversed(s) {
        var k :| 0 <= k < |s| && Reversed(s)[k] == c;
        ReversedAt(s, k);
      }
    }
  }

  /** Reversing then filtering is filtering then reversing. */
  lemma {:induction false} MatchingReversed(o: MatchOptions, s: seq<Comment>, matches: (Regex, string) -> bool)
    ensures Matching(o, Reversed(s), matches) == Reversed(Matching(o, s, matches))
  {
    if s != [] {
      MatchingReversed(o, s[1..], matches);
      MatchingConcat(o, Reversed(s[1..]), [s[0]], matches);
      assert Matching(o, [s[0]], matches) == if CommentMatches(o, s[0], matches) then [s[0]] else [];
      var m := Matching(o, s[1..], matches);
      if CommentMatches(o, s[0], matches) {
        assert Matching(o, s, matches) == [s[0]] + m;
        assert ([s[0]] + m)[1..] == m;
      } else {
        assert Matching(o, s, matches) == m;
      }
    }
  }

  // ---------------------------------------------------------------------------
  // Locating the comment
  // ---------------------------------------------------------------------------

  /** The list in scan order: reversed when the direction is "last". */
  function ScanOrder(o: MatchOptions, cs: seq<Comment>): (s: seq<Comment>)
    ensures |s| == |cs|
    ensures o.direction != "last" ==> s == cs
    ensures o.direction == "last" ==> forall k :: 0 <= k < |cs| ==> s[k] == cs[|cs| - 1 - k]
  {
    if o.direction == "last" then
      assert forall k :: 0 <= k < |cs| ==> Reversed(cs)[k] == cs[|cs| - 1 - k] by {
        forall k | 0 <= k < |cs| ensures Reversed(cs)[k] == cs[|cs| - 1 - k] {
          ReversedAt(cs, k);
        }
      }
      Reversed(cs)
    else cs
  }

  /** What `findMatchingComment` returns: the `nth` matching comment in scan
      order, or nothing when `nth` is outside the matches. The result is one
      of the given comments and passes every filter. */
  function Located(o: MatchOptions, cs: seq<Comment>, matches: (Regex, string) -> bool): (r: Option<Comment>)
    ensures r.Some? ==> r.value in cs && CommentMatches(o, r.value, matches)
    ensures r.None? <==> !(0 <= o.nth < |Matching(o, ScanOrder(o, cs), matches)|)
  {
    ReversedMembers(cs);
    MatchingMembers(o, ScanOrder(o, cs), matches);
    var ms := Matching(o, ScanOrder(o, cs), matches);
    if 0 <= o.nth < |ms| then Some(ms[o.nth]) else None
  }

  /** The scan direction: "last" counts `nth` matches back from the end of
      the list, and any other direction counts forward from its start. */
  lemma LocatedByDirection(o: MatchOptions, cs: seq<Comment>, matches: (Regex, string) -> bool)
    ensures var ms := Matching(o, cs, matches);
      Located(o, cs, matches) ==
        if !(0 <= o.nth < |ms|) then None
        else if o.direction == "last" then Some(ms[|ms| - 1 - o.nth])
        else Some(ms[o.nth])
  {
    var ms := Matching(o, cs, matches);
    if o.direction == "last" {
      MatchingReversed(o, cs, matches);
      if 0 <= o.nth < |ms| {
        ReversedAt(ms, o.nth);
      }
    }
  }

  /** The located comment is exactly the one preceded, in scan order, by
      `nth` matching comments and itself matching. */
  lemma LocatedIsNthMatch(o: MatchOptions, cs: seq<Comment>, matches: (Regex, string) -> bool, c: Comment)
    ensures Located(o, cs, matches) == Some(c) <==>
      var s := ScanOrder(o, cs);
      exists i :: 0 <= i < |s| && s[i] == c && CommentMatches(o, c, matches)
                  && |Matching(o, s[..i], matches)| == o.nth
  {
    var s := ScanOrder(o, cs);
    var ms := Matching(o, s, matches);
    if Located(o, cs, matches) == Some(c) {
      MatchingIndex(o, s, matches, o.nth);
      var i :| 0 <= i < |s| && s[i] == ms[o.nth] && |Matching(o, s[..i], matches)| == o.nth;
      assert s[i] == c && CommentMatches(o, c, matches);
    }
    if exists i :: 0 <= i < |s| && s[i] == c && CommentMatches(o, c, matches)
                   && |Matching(o, s[..i], matches)| == o.nth {
      var i :| 0 <= i < |s| && s[i] == c && CommentMatches(o, c, matches)
               && |Matching(o, s[..i], matches)| == o.nth;
      MatchingAt(o, s, matches, i);
    }
  }

  /** The `k`-th match sits at an index of the list preceded by exactly `k`
      matches. */
  lemma {:induction false} MatchingIndex(o: MatchOptions, s: seq<Comment>, matches: (Regex, string) -> bool, k: nat)
    requires k < |Matching(o, s, matches)|
    ensures exists i :: 0 <= i < |s| && s[i] == Matching(o, s, matches)[k]
                        && |Matching(o, s[..i], matches)| == k
  {
    var ms := Matching(o, s, matches);
    var rest := Matching(o, s[1..], matches);
    if CommentMatches(o, s[0], matches) && k == 0 {
      assert s[..0] == [];
      assert s[0] == ms[0];
    } else {
      var k' := if CommentMatches(o, s[0], matches) then k - 1 else k;
      assert ms[k] == rest[k'];
      MatchingIndex(o, s[1..], matches, k');
      var i :| 0 <= i < |s[1..]| && s[1..][i] == rest[k'] && |Matching(o, s[1..][..i], matches)| == k';
      assert s[..i + 1][1..] == s[1..][..i];
      assert s[i + 1] == ms[k];
    }
  }

  /** A matching comment at index `i` is the match numbered by how many
      matches precede it. */
  lemma MatchingAt(o: MatchOptions, s: seq<Comment>, matches: (Regex, string) -> bool, i: nat)
    requires i < |s| && CommentMatches(o, s[i], matches)
    ensures var n := |Matching(o, s[..i], matches)|;
      n < |Matching(o, s, matches)| && Matching(o, s, matches)[n] == s[i]
  {
    assert s == s[..i] + [s[i]] + s[i + 1..];
    MatchingConcat(o, s[..i] + [s[i]], s[i + 1..], matches);
    MatchingConcat(o, s[..i], [s[i]], matches);
    assert Matching(o, [s[i]], matches) == [s[i]];
  }

  /** With no filter supplied every comment matches, so the result is simply
      the `nth` comment in scan order. */
  lemma {:induction false} NoFiltersSelectsNth(o: MatchOptions, cs: seq<Comment>, matches: (Regex, string) -> bool)
    requires !Truthy(o.commentAuthor) && !Truthy(o.bodyIncludes) && !Truthy(o.bodyRegex)
    ensures var s := ScanOrder(o, cs);
      Located(o, cs, matches) == if 0 <= o.nth < |s| then Some(s[o.nth]) else None
  {
    MatchingAll(o, ScanOrder(o, cs), matches);
  }

  lemma {:induction false} MatchingAll(o: MatchOptions, s: seq<Comment>, matches: (Regex, string) -> bool)
    requires !Truthy(o.commentAuthor) && !Truthy(o.bodyIncludes) && !Truthy(o.bodyRegex)
    ensures Matching(o, s, matches) == s
  {
    if s != [] {
      MatchingAll(o, s[1..], matches);
    }
  }

  /** The substring filter on a comment with a non-empty body holds exactly
      when the filter text occurs in the body. */
  lemma SubstringFilter(o: MatchOptions, c: Comment, matches: (Regex, string) -> bool)
    requires Truthy(o.bodyIncludes) && Truthy(c.body)
    requires !Truthy(o.commentAuthor) && !Truthy(o.bodyRegex)
    ensures CommentMatches(o, c, matches) <==> exists i :: OccursAt(c.body.value, o.bodyIncludes.value, i)
  {
  }

  // ---------------------------------------------------------------------------
  // The operations
  // ---------------------------------------------------------------------------

  /** `comments.reverse()`: reverses the array in place. */
  method ReverseInPlace(a: array<Comment>)
    modifies a
    ensures a[..] == Reversed(old(a[..]))
  {
    var n := a.Length;
    var i := 0;
    while i < n / 2
      invariant 0 <= i <= n / 2
      invariant a[..] == SwappedEnds(old(a[..]), i)
    {
      ghost var before := a[..];
      Swap(a, i, n - 1 - i);
      SwapEndsStep(old(a[..]), before, a[..], i);
      i := i + 1;
    }
    SwappedEndsComplete(old(a[..]), n / 2);
  }

  /** Swapping the next pair of mirrored elements extends the swapped ends
      by one. */
  lemma SwapEndsStep(s: seq<Comment>, before: seq<Comment>, after: seq<Comment>, i: nat)
    requires i < |s| / 2 && before == SwappedEnds(s, i)
    requires after == before[i := before[|s| - 1 - i]][|s| - 1 - i := before[i]]
    ensures after == SwappedEnds(s, i + 1)
  {
  }

  /** With half of the elements swapped with their mirrors, the sequence is
      reversed. */
  lemma SwappedEndsComplete(s: seq<Comment>, h: nat)
    requires |s| == 2 * h || |s| == 2 * h + 1
    ensures SwappedEnds(s, h) == Reversed(s)
  {
    var t := SwappedEnds(s, h);
    forall k | 0 <= k < |s| ensures t[k] == s[|s| - 1 - k] {
      if h <= k < |s| - h {
        assert k == |s| - 1 - k;
      }
    }
    MirrorIsReversed(s, t);
  }

  /** `s` with its first `i` and last `i` elements in mirrored positions. */
  ghost function SwappedEnds(s: seq<Comment>, i: nat): (r: seq<Comment>)
    ensures |r| == |s|
  {
    seq(|s|, k requires 0 <= k < |s| => if k < i || k >= |s| - i then s[|s| - 1 - k] else s[k])
  }

  /** Exchanges two elements of the array. */
  method Swap(a: array<Comment>, i: nat, j: nat)
    requires i < a.Length && j < a.Length
    modifies a
    ensures a[..] == old(a[..])[i := old(a[j])][j := old(a[i])]
  {
    var t := a[i];
    a[i] := a[j];
    a[j] := t;
  }

  /** A sequence holding the elements of another in mirrored positions is
      its reversal. */
  lemma MirrorIsReversed(s: seq<Comment>, t: seq<Comment>)
    requires |t| == |s|
    requires forall k :: 0 <= k < |s| ==> t[k] == s[|s| - 1 - k]
    ensures t == Reversed(s)
  {
    forall k | 0 <= k < |s| ensures t[k] == Reversed(s)[k] {
      ReversedAt(s, k);
    }
  }

  /** `findMatchingComment`: reverses the caller's array when the direction
      is "last", then returns the `nth` matching comment, if any. */
  method FindMatchingComment(o: MatchOptions, comments: array<Comment>, matches: (Regex, string) -> bool)
    returns (r: Option<Comment>)
    modifies comments
    ensures comments[..] == ScanOrder(o, old(comments[..]))
    ensures r == Located(o, old(comments[..]), matches)
  {
    if o.direction == "last" {
      ReverseInPlace(comments);
    }
    var matching := Matching(o, comments[..], matches);
    if 0 <= o.nth < |matching| {
      r := Some(matching[o.nth]);
    } else {
      r := None;
    }
  }

  /** `findComment` over the comments already fetched for the issue. */
  method FindCommentIn(options: Options, comments: array<Comment>, matches: (Regex, string) -> bool)
    returns (r: Option<Comment>)
    modifies comments
    ensures r == Located(WithDefaults(options), old(comments[..]), matches)
  {
    r := FindMatchingComment(WithDefaults(options), comments, matches);
  }

  /** Three comments that all match: scanning from the last gives the newest,
      scanning from the first gives the oldest. */
  lemma DirectionExample(a: Comment, b: Comment, c: Comment, matches: (Regex, string) -> bool)
    ensures var cs := [a, b, c];
      && Located(MatchOptions(None, None, None, "last", 0), cs, matches) == Some(c)
      && Located(MatchOptions(None, None, None, "first", 0), cs, matches) == Some(a)
  {
    var cs := [a, b, c];
    var last := MatchOptions(None, None, None, "last", 0);
    NoFiltersSelectsNth(last, cs, matches);
    ReversedAt(cs, 0);
    NoFiltersSelectsNth(MatchOptions(None, None, None, "first", 0), cs, matches);
  }

  /** A filter that no comment passes finds nothing, whatever `nth` is. */
  lemma NoMatchNotFound(o: MatchOptions, cs: seq<Comment>, matches: (Regex, string) -> bool)
    requires forall c :: c in cs ==> !CommentMatches(o, c, matches)
    ensures Located(o, cs, matches) == None
  {
    ReversedMembers(cs);
    MatchingNone(o, ScanOrder(o, cs), matches);
  }

  /** A list none of whose comments passes filters down to nothing. */
  lemma {:induction false} MatchingNone(o: MatchOptions, cs: seq<Comment>, matches: (Regex, string) -> bool)
    requires forall c :: c in cs ==> !CommentMatches(o, c, matches)
    ensures Matching(o, cs, matches) == []
  {
    if cs != [] {
      assert cs[0] in cs;
      assert forall c :: c in cs[1..] ==> c in cs;
      MatchingNone(o, cs[1..], matches);
    }
  }
}
