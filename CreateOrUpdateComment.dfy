/** Posting the PR comment: update the comment found earlier, or create one
    on the issue, or do nothing, always sending a body cut to the host's
    size limit. The host's comment store for the repository is a class
    holding a map from comment id to the comment. */
module CreateOrUpdateComment {
  import opened Wrappers

  /** The most characters the host accepts in an issue comment. */
  const MaxBodyLength := 65536

  /** `truncateBody`: the body cut to the host's limit; a prefix of the body
      that is the whole body when it fits and exactly the limit otherwise. */
  function TruncateBody(body: string): (r: string)
    ensures r <= body
    ensures |r| == if |body| <= MaxBodyLength then |body| else MaxBodyLength
  {
    if |body| > MaxBodyLength then body[..MaxBodyLength] else body
  }

  /** Truncating is idempotent. */
  lemma TruncateBodyIdempotent(body: string)
    ensures TruncateBody(TruncateBody(body)) == TruncateBody(body)
  {
  }

  /** Truncation never touches the first `n` characters for `n` within the
      limit: in particular the fingerprint of a body survives. */
  lemma TruncateKeepsPrefix(body: string, n: nat)
    requires n <= |body| && n <= MaxBodyLength
    ensures |TruncateBody(body)| >= n && TruncateBody(body)[..n] == body[..n]
  {
  }

  /** How the host rejects a request. */
  datatype HostError = CommentNotFound(commentId: int) | BodyTooLong(length: nat)

  datatype StoredComment = StoredComment(issueNumber: int, body: string)

  /** The host's comments for the repository, keyed by id. */
  class CommentHost {
    var comments: map<int, StoredComment>
    var nextId: int

    /** Ids handed out so far are below `nextId`, and no stored body is over
        the limit. */
    ghost predicate Valid()
      reads this
    {
      && (forall id :: id in comments ==> id < nextId)
      && (forall id :: id in comments ==> |comments[id].body| <= MaxBodyLength)
    }

    constructor ()
      ensures Valid() && comments == map[]
    {
      comments := map[];
      nextId := 1;
    }

    /** The create-comment endpoint: a fresh id, or a rejection of an
        over-long body. */
    method Create(issueNumber: int, body: string) returns (r: Result<int, HostError>)
      requires Valid()
      modifies this
      ensures Valid()
      ensures |body| > MaxBodyLength ==> r == Failure(BodyTooLong(|body|)) && comments == old(comments)
      ensures |body| <= MaxBodyLength ==>
        && r.Success? && r.value !in old(comments)
        && comments == old(comments)[r.value := StoredComment(issueNumber, body)]
    {
      if |body| > MaxBodyLength {
        return Failure(BodyTooLong(|body|));
      }
      var id := nextId;
      comments := comments[id := StoredComment(issueNumber, body)];
      nextId := nextId + 1;
      r := Success(id);
    }

    /** The update-comment endpoint: replaces the body of an existing
        comment, or rejects an unknown id or an over-long body. */
    method Update(commentId: int, body: string) returns (r: Result<int, HostError>)
      requires Valid()
      modifies this
      ensures Valid()
      ensures commentId !in old(comments) ==> r == Failure(CommentNotFound(commentId)) && comments == old(comments)
      ensures commentId in old(comments) && |body| > MaxBodyLength ==>
        r == Failure(BodyTooLong(|body|)) && comments == old(comments)
      ensures commentId in old(comments) && |body| <= MaxBodyLength ==>
        && r == Success(commentId)
        && comments == old(comments)[commentId := old(comments)[commentId].(body := body)]
    {
      if commentId !in comments {
        return Failure(CommentNotFound(commentId));
      }
      if |body| > MaxBodyLength {
        return Failure(BodyTooLong(|body|));
      }
      comments := comments[commentId := comments[commentId].(body := body)];
      r := Success(commentId);
    }
  }

  /** `createComment`: creates one comment with the truncated body on the
      issue and returns its new id; the host never rejects it. */
  method CreateComment(host: CommentHost, issueNumber: int, body: string) returns (id: int)
    requires host.Valid()
    modifies host
    ensures host.Valid()
    ensures id !in old(host.comments)
    ensures host.comments == old(host.comments)[id := StoredComment(issueNumber, TruncateBody(body))]
  {
    var r := host.Create(issueNumber, TruncateBody(body));
    id := r.value;
  }

  /** `updateComment`: an empty body sends nothing; otherwise the comment's
      body becomes the truncated body. The id comes back unless the host
      does not know it. */
  method UpdateComment(host: CommentHost, commentId: int, body: string) returns (r: Result<int, HostError>)
    requires host.Valid()
    modifies host
    ensures host.Valid()
    ensures body == [] ==> r == Success(commentId) && host.comments == old(host.comments)
    ensures body != [] && commentId in old(host.comments) ==>
      && r == Success(commentId)
      && host.comments == old(host.comments)[commentId := old(host.comments)[commentId].(body := TruncateBody(body))]
    ensures body != [] && commentId !in old(host.comments) ==>
      r == Failure(CommentNotFound(commentId)) && host.comments == old(host.comments)
  {
    if body != [] {
      var sent := host.Update(commentId, TruncateBody(body));
      if sent.Failure? {
        return Failure(sent.error);
      }
    }
    r := Success(commentId);
  }

  /** `createOrUpdateComment`: a known comment id is updated (whether or not
      an issue number is given); otherwise a comment is created on the issue
      when there is one; otherwise nothing happens and there is no id. */
  method CreateOrUpdate(host: CommentHost, commentId: Option<int>, issueNumber: Option<int>, body: string)
    returns (r: Result<Option<int>, HostError>)
    requires host.Valid()
    modifies host
    ensures host.Valid()
    ensures commentId.Some? ==>
      var id := commentId.value;
      if body == [] then r == Success(Some(id)) && host.comments == old(host.comments)
      else if id in old(host.comments) then
        && r == Success(Some(id))
        && host.comments == old(host.comments)[id := old(host.comments)[id].(body := TruncateBody(body))]
      else r == Failure(CommentNotFound(id)) && host.comments == old(host.comments)
    ensures commentId.None? && issueNumber.Some? ==>
      && r.Success? && r.value.Some? && r.value.value !in old(host.comments)
      && host.comments == old(host.comments)[r.value.value := StoredComment(issueNumber.value, TruncateBody(body))]
    ensures commentId.None? && issueNumber.None? ==>
      r == Success(None) && host.comments == old(host.comments)
  {
    var id: Option<int> := None;
    if commentId.Some? {
      var updated := UpdateComment(host, commentId.value, body);
      if updated.Failure? {
        return Failure(updated.error);
      }
      id := Some(updated.value);
    } else if issueNumber.Some? {
      var created := CreateComment(host, issueNumber.value, body);
      id := Some(created);
    }
    r := Success(id);
  }

  /** A 70000-character body is sent as its first 65536 characters. */
  lemma TruncateExample(body: string)
    requires |body| == 70000
    ensures |TruncateBody(body)| == 65536 && TruncateBody(body) == body[..65536]
  {
  }
}
