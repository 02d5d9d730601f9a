/** How a run finds the comment an earlier run posted: it searches the PR's
    comments for the first ten characters of its own fresh body, with the
    default direction and index. */
module Relocate {
  import opened Wrappers
  import opened Text
  import opened FindComment
  import opened RunPublish
  import opened CommentBody
  import opened CreateOrUpdateComment

  /** The search options the action passes: only `bodyIncludes`, set to the
      body's first ten characters. */
  function FingerprintOptions(body: string): (o: Options)
    requires |body| >= FingerprintLength
    ensures WithDefaults(o) == MatchOptions(None, Some(body[..FingerprintLength]), None, "first", 0)
  {
    Options(None, Some(body[..FingerprintLength]), None, None, None)
  }

  /** A comment an earlier run posted, whatever its packages, tag and commit
      and although it was truncated, passes the search of any later run. */
  lemma PostedCommentMatchesLaterSearch(
    oldPackages: seq<Package>, oldTag: string, oldSha: string,
    packages: seq<Package>, tag: string, commitSha: string,
    c: Comment, matches: (Regex, string) -> bool)
    requires c.body == Some(TruncateBody(GetCommentBody(oldPackages, oldTag, oldSha)))
    ensures var body := GetCommentBody(packages, tag, commitSha);
      CommentMatches(WithDefaults(FingerprintOptions(body)), c, matches)
  {
    var body := GetCommentBody(packages, tag, commitSha);
    var posted := GetCommentBody(oldPackages, oldTag, oldSha);
    var stored := c.body.value;
    var fingerprint := body[..FingerprintLength];
    FingerprintIsConstant(packages, tag, commitSha);
    FingerprintIsConstant(oldPackages, oldTag, oldSha);
    TruncateKeepsPrefix(posted, FingerprintLength);
    assert stored[0..FingerprintLength] == fingerprint;
    assert OccursAt(stored, fingerprint, 0);
  }

  /** When the PR holds a comment an earlier run posted, the search finds a
      comment: the first one, in list order, that passes the fingerprint
      filter. */
  lemma EarlierCommentIsFound(
    oldPackages: seq<Package>, oldTag: string, oldSha: string,
    packages: seq<Package>, tag: string, commitSha: string,
    comments: seq<Comment>, c: Comment, matches: (Regex, string) -> bool)
    requires c in comments
    requires c.body == Some(TruncateBody(GetCommentBody(oldPackages, oldTag, oldSha)))
    ensures var o := WithDefaults(FingerprintOptions(GetCommentBody(packages, tag, commitSha)));
      |Matching(o, comments, matches)| > 0 && Located(o, comments, matches) == Some(Matching(o, comments, matches)[0])
  {
    var o := WithDefaults(FingerprintOptions(GetCommentBody(packages, tag, commitSha)));
    PostedCommentMatchesLaterSearch(oldPackages, oldTag, oldSha, packages, tag, commitSha, c, matches);
    MatchingMembers(o, comments, matches);
    assert c in Matching(o, comments, matches);
  }

  /** Building a body, posting it (cut to the host's limit) and searching
      for its fingerprint among a list holding just that comment returns that
      comment. */
  lemma FingerprintRoundTrip(packages: seq<Package>, tag: string, commitSha: string, c: Comment,
                             matches: (Regex, string) -> bool)
    requires c.body == Some(TruncateBody(GetCommentBody(packages, tag, commitSha)))
    ensures Located(WithDefaults(FingerprintOptions(GetCommentBody(packages, tag, commitSha))), [c], matches) == Some(c)
  {
    var body := GetCommentBody(packages, tag, commitSha);
    PostedCommentMatchesLaterSearch(packages, tag, commitSha, packages, tag, commitSha, c, matches);
    var o := WithDefaults(FingerprintOptions(body));
    assert Matching(o, [c], matches) == [c];
  }
}
