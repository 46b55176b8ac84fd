/**
 * The records of the lockfile server: one post of a lockfile, one row of the
 * `lockfiles` table, the body of a PUT request, and the HTTP status codes the
 * handlers answer with.
 */
module Records {
  import opened Wrappers

  const STATUS_OK := 200
  const STATUS_BAD_REQUEST := 400
  const STATUS_FORBIDDEN := 403
  const STATUS_INTERNAL_SERVER_ERROR := 500

  /** One post of a lockfile. The four fields are opaque strings to the server. */
  datatype LockfileContent = LockfileContent(id: string, path: string, url: string, hash: string)

  /**
   * One row of the `lockfiles` table. The UUID primary key is modelled by a
   * number drawn from a counter and the timestamps by ticks of a counter clock.
   */
  datatype Lockfile = Lockfile(
    id: nat,
    repositoryName: string,
    repositoryId: string,
    content: seq<LockfileContent>,
    createdAt: nat,
    updatedAt: nat)

  /**
   * A PUT body after JSON decoding and before validation: a missing
   * `repositoryName` decodes to the empty string, a missing or null `posts`
   * to a nil slice (None), while `[]` is a present, empty list.
   */
  datatype PutBody = PutBody(repositoryName: string, posts: Option<seq<LockfileContent>>)

  /** A PUT request that passed validation. */
  datatype PutLockfileRequest = PutLockfileRequest(repositoryName: string, posts: seq<LockfileContent>)

  /**
   * Binding of the JSON body. `body` is None when the body is not a JSON
   * object of the expected shape. Both top-level fields carry the `required`
   * rule: a non-empty name and a non-nil posts slice. The fields of each post
   * are not checked, since the posts field has no rule that descends into the
   * list.
   */
  function ShouldBindJSON(body: Option<PutBody>): (r: Option<PutLockfileRequest>)
    ensures body.None? ==> r.None?
    ensures r.Some? ==> r.value.repositoryName != "" && r.value.repositoryName == body.value.repositoryName
  {
    match body
    case None => None
    case Some(b) =>
      if b.repositoryName == "" || b.posts.None? then None
      else Some(PutLockfileRequest(b.repositoryName, b.posts.value))
  }

  /** An empty name is a validation fault, whatever the posts. */
  lemma EmptyNameIsRejected(posts: Option<seq<LockfileContent>>)
    ensures ShouldBindJSON(Some(PutBody("", posts))) == None
  {
  }

  /**
   * Binding succeeds exactly for a non-empty name and present posts, and then
   * carries both over unchanged; an empty list of posts is accepted, and so
   * are posts whose own fields are empty.
   */
  lemma BindAcceptsExactlyNamedBodies(body: Option<PutBody>)
    ensures ShouldBindJSON(body).Some? <==>
              body.Some? && body.value.repositoryName != "" && body.value.posts.Some?
    ensures ShouldBindJSON(body).Some? ==>
              ShouldBindJSON(body).value.repositoryName == body.value.repositoryName &&
              ShouldBindJSON(body).value.posts == body.value.posts.value
  {
  }
}
