/**
 * The blog collection handler of app/api/blogs/route.ts.
 *
 * POST is a guarded insert into the `blogs` collection. GET runs the pipeline
 * `$lookup` + `$unwind` (an inner join of blogs with their author), `$project`
 * (a whitelist of fields) and `$sort` (newest first), hands it to `paginate`,
 * and turns each page item's `_id` into text.
 *
 * The session comes from the authentication layer and `new ObjectId(text)` is
 * a parameter; it yields None where the constructor throws.
 */
module Blogs {
  import opened Wrappers
  import opened Documents
  import opened Pagination

  datatype SessionUser = SessionUser(id: Option<string>)
  datatype Session = Session(user: Option<SessionUser>)

  /** The two fields read from the parsed JSON body; None when a field is absent. */
  datatype BlogFields = BlogFields(title: Option<string>, content: Option<string>)

  const Unauthorized: Reply := Reply(401, Error("Unauthorized"))
  const MissingFields: Reply := Reply(400, Error("Title and content are required"))
  const CreateFailed: Reply := Reply(500, Error("Failed to create blog"))

  predicate Authenticated(session: Option<Session>)
  {
    session.Some? && session.value.user.Some?
  }

  /**
   * One POST as one atomic step over the `blogs` collection: the reply and the
   * collection after it. `body` is None when `req.json()` fails; `newId` is the
   * `_id` the driver assigns (a clash fails the insert); the two times are the
   * two `new Date()` readings.
   */
  function CreateStep(blogs: seq<BlogDoc>, session: Option<Session>, body: Option<BlogFields>,
                      toObjectId: Option<string> -> Option<ObjectId>, newId: ObjectId,
                      createdAt: Time, updatedAt: Time): (Reply, seq<BlogDoc>)
  {
    if !Authenticated(session) then (Unauthorized, blogs)
    else
      match body
      case None => (CreateFailed, blogs)
      case Some(f) =>
        if Falsy(f.title) || Falsy(f.content) then (MissingFields, blogs)
        else
          match toObjectId(session.value.user.value.id)
          case None => (CreateFailed, blogs)
          case Some(author) =>
            if BlogIdTaken(blogs, newId) then (CreateFailed, blogs)
            else
              (Reply(201, Inserted(newId)),
               blogs + [BlogDoc(newId, f.title.value, f.content.value, author, createdAt, updatedAt)])
  }

  /** Without a session nothing is read from the body and nothing is inserted. */
  lemma UnauthenticatedRejected(blogs: seq<BlogDoc>, session: Option<Session>, body: Option<BlogFields>,
                                toObjectId: Option<string> -> Option<ObjectId>, newId: ObjectId,
                                createdAt: Time, updatedAt: Time)
    requires !Authenticated(session)
    ensures CreateStep(blogs, session, body, toObjectId, newId, createdAt, updatedAt) == (Unauthorized, blogs)
  {
  }

  /** With a session, a falsy title or content is rejected with 400 and nothing is inserted. */
  lemma MissingFieldRejected(blogs: seq<BlogDoc>, session: Option<Session>, f: BlogFields,
                             toObjectId: Option<string> -> Option<ObjectId>, newId: ObjectId,
                             createdAt: Time, updatedAt: Time)
    requires Authenticated(session)
    requires Falsy(f.title) || Falsy(f.content)
    ensures CreateStep(blogs, session, Some(f), toObjectId, newId, createdAt, updatedAt) == (MissingFields, blogs)
  {
  }

  /** Exactly when a POST succeeds, and the one blog it adds, owned by the session's user. */
  lemma CreateOutcome(blogs: seq<BlogDoc>, session: Option<Session>, body: Option<BlogFields>,
                      toObjectId: Option<string> -> Option<ObjectId>, newId: ObjectId,
                      createdAt: Time, updatedAt: Time)
    ensures var (reply, after) := CreateStep(blogs, session, body, toObjectId, newId, createdAt, updatedAt);
      && (reply.status == 201 <==>
            && Authenticated(session)
            && body.Some? && !Falsy(body.value.title) && !Falsy(body.value.content)
            && toObjectId(session.value.user.value.id).Some?
            && !BlogIdTaken(blogs, newId))
      && (reply.status == 201 ==>
            && reply.body == Inserted(newId)
            && after == blogs + [BlogDoc(newId, body.value.title.value, body.value.content.value,
                                         toObjectId(session.value.user.value.id).value,
                                         createdAt, updatedAt)])
      && (reply.status != 201 ==> after == blogs)
  {
  }

  /** A POST keeps blog ids unique. */
  lemma CreateKeepsUniqueIds(blogs: seq<BlogDoc>, session: Option<Session>, body: Option<BlogFields>,
                             toObjectId: Option<string> -> Option<ObjectId>, newId: ObjectId,
                             createdAt: Time, updatedAt: Time)
    requires UniqueBlogIds(blogs)
    ensures UniqueBlogIds(CreateStep(blogs, session, body, toObjectId, newId, createdAt, updatedAt).1)
  {
    var (reply, after) := CreateStep(blogs, session, body, toObjectId, newId, createdAt, updatedAt);
    if reply.status == 201 {
      assert !BlogIdTaken(blogs, newId);
      assert after[..|blogs|] == blogs && after[|blogs|].id == newId;
    }
  }

  class BlogCollection {
    var blogs: seq<BlogDoc>

    predicate Valid()
      reads this
    {
      UniqueBlogIds(blogs)
    }

    constructor ()
      ensures Valid() && blogs == []
    {
      blogs := [];
    }

    /** `POST /api/blogs` */
    method Post(session: Option<Session>, body: Option<BlogFields>,
                toObjectId: Option<string> -> Option<ObjectId>, newId: ObjectId,
                createdAt: Time, updatedAt: Time)
      returns (reply: Reply)
      requires Valid()
      modifies this
      ensures Valid()
      ensures (reply, blogs) == CreateStep(old(blogs), session, body, toObjectId, newId, createdAt, updatedAt)
    {
      CreateKeepsUniqueIds(blogs, session, body, toObjectId, newId, createdAt, updatedAt);
      if !Authenticated(session) {
        return Unauthorized;
      }
      if body.None? {
        return CreateFailed;
      }
      var f := body.value;
      if Falsy(f.title) || Falsy(f.content) {
        return MissingFields;
      }
      var author := toObjectId(session.value.user.value.id);
      if author.None? {
        return CreateFailed;
      }
      var newBlog := BlogDoc(newId, f.title.value, f.content.value, author.value, createdAt, updatedAt);
      if BlogIdTaken(blogs, newId) {
        return CreateFailed;
      }
      blogs := blogs + [newBlog];
      reply := Reply(201, Inserted(newId));
    }
  }

  // ---------------------------------------------------------------------------
  // GET: the listing pipeline

  /** A blog with its `authorInfo` after `$lookup` and `$unwind`. */
  datatype Joined = Joined(blog: BlogDoc, authorInfo: UserDoc)

  /** The author fields `$project` keeps. No password. */
  datatype AuthorInfo = AuthorInfo(username: Option<string>, email: string, imageUrl: Option<string>)

  /** A blog after `$project`: no `authorId`, and only the whitelisted author fields. */
  datatype Projected = Projected(
    id: ObjectId,
    title: string,
    content: string,
    createdAt: Time,
    updatedAt: Time,
    authorInfo: AuthorInfo)

  /** A page item as the handler returns it, with `_id` as text. */
  datatype BlogItem = BlogItem(
    id: string,
    title: string,
    content: string,
    createdAt: Time,
    updatedAt: Time,
    authorInfo: AuthorInfo)

  /** `$lookup`: the users whose `_id` equals the blog's `authorId`, in collection order. */
  function Lookup(b: BlogDoc, users: seq<UserDoc>): (r: seq<UserDoc>)
    ensures forall u :: u in r <==> u in users && u.id == b.authorId
  {
    if users == [] then []
    else (if users[0].id == b.authorId then [users[0]] else []) + Lookup(b, users[1..])
  }

  /** `$unwind` of one blog's lookup array: one joined document per matching user. */
  function Unwind(b: BlogDoc, matches: seq<UserDoc>): (r: seq<Joined>)
    ensures |r| == |matches|
    ensures forall j :: j in r <==> j.blog == b && j.authorInfo in matches
  {
    if matches == [] then [] else [Joined(b, matches[0])] + Unwind(b, matches[1..])
  }

  /** `$lookup` then `$unwind` over the whole collection: an inner join, orphans dropped. */
  function Join(blogs: seq<BlogDoc>, users: seq<UserDoc>): (r: seq<Joined>)
    ensures forall j :: j in r <==> j.blog in blogs && j.authorInfo in users && j.authorInfo.id == j.blog.authorId
  {
    if blogs == [] then [] else Unwind(blogs[0], Lookup(blogs[0], users)) + Join(blogs[1..], users)
  }

  function Project(j: Joined): Projected
  {
    Projected(j.blog.id, j.blog.title, j.blog.content, j.blog.createdAt, j.blog.updatedAt,
              AuthorInfo(j.authorInfo.username, j.authorInfo.email, j.authorInfo.imageUrl))
  }

  /** `$project` over the joined documents. */
  function ProjectAll(js: seq<Joined>): (r: seq<Projected>)
    ensures |r| == |js|
    ensures forall i :: 0 <= i < |js| ==> r[i] == Project(js[i])
  {
    if js == [] then [] else [Project(js[0])] + ProjectAll(js[1..])
  }

  predicate NewestFirst(ps: seq<Projected>)
  {
    forall i, j :: 0 <= i < j < |ps| ==> ps[i].createdAt >= ps[j].createdAt
  }

  /** Places one document into a newest-first sequence, ahead of those with the same time. */
  function Insert(p: Projected, ps: seq<Projected>): (r: seq<Projected>)
    ensures multiset(r) == multiset(ps) + multiset{p}
    ensures r[0] == if ps == [] || p.createdAt >= ps[0].createdAt then p else ps[0]
  {
    if ps == [] || p.createdAt >= ps[0].createdAt then [p] + ps
    else
      assert ps == [ps[0]] + ps[1..];
      [ps[0]] + Insert(p, ps[1..])
  }

  /** Inserting into a newest-first sequence keeps it newest first. */
  lemma {:induction false} InsertKeepsOrder(p: Projected, ps: seq<Projected>)
    requires NewestFirst(ps)
    ensures NewestFirst(Insert(p, ps))
  {
    if ps != [] && p.createdAt < ps[0].createdAt {
      var rest := Insert(p, ps[1..]);
      InsertKeepsOrder(p, ps[1..]);
      assert rest[0].createdAt <= ps[0].createdAt;
      assert Insert(p, ps) == [ps[0]] + rest;
    }
  }

  function SortNewestFirst(ps: seq<Projected>): (r: seq<Projected>)
    ensures NewestFirst(r)
    ensures multiset(r) == multiset(ps)
  {
    if ps == [] then []
    else
      assert ps == [ps[0]] + ps[1..];
      var rest := SortNewestFirst(ps[1..]);
      InsertKeepsOrder(ps[0], rest);
      Insert(ps[0], rest)
  }

  /** The pipeline the handler passes to `paginate`. */
  function BlogPipeline(blogs: seq<BlogDoc>, users: seq<UserDoc>): seq<Projected>
  {
    SortNewestFirst(ProjectAll(Join(blogs, users)))
  }

  /** `{ ...blog, _id: blog._id.toString() }`; `authorId` was projected away and stays undefined. */
  function ToItem(p: Projected): BlogItem
  {
    BlogItem(p.id.hex, p.title, p.content, p.createdAt, p.updatedAt, p.authorInfo)
  }

  /** The handler's `map` over a page: each item's `_id` as text, the page metadata unchanged. */
  function ItemsPage(page: PaginationResult<Projected>): (r: PaginationResult<BlogItem>)
    ensures |r.data| == |page.data|
    ensures forall k :: 0 <= k < |r.data| ==> r.data[k] == ToItem(page.data[k])
    ensures r.total == page.total && r.page == page.page && r.limit == page.limit
    ensures r.totalPages == page.totalPages
  {
    PaginationResult(seq(|page.data|, k requires 0 <= k < |page.data| => ToItem(page.data[k])),
                     page.total, page.page, page.limit, page.totalPages)
  }

  /**
   * `GET /api/blogs`: the parsed page and limit echoed, at most `limit` items,
   * each a stored blog with its own existing author, newest first.
   */
  function ListBlogs(q: Query, blogs: seq<BlogDoc>, users: seq<UserDoc>): (r: PaginationResult<BlogItem>)
    requires ValidQuery(q)
    ensures r == ItemsPage(PaginateWith(PageOf(q).value, LimitOf(q).value, BlogPipeline(blogs, users)))
    ensures r.page == PageOf(q).value && r.limit == LimitOf(q).value && |r.data| <= r.limit
    ensures forall k :: 0 <= k < |r.data| ==>
      exists b, u :: && b in blogs && u in users && u.id == b.authorId
                     && r.data[k] == BlogItem(b.id.hex, b.title, b.content, b.createdAt, b.updatedAt,
                                              AuthorInfo(u.username, u.email, u.imageUrl))
    ensures forall k, k' :: 0 <= k < k' < |r.data| ==> r.data[k].createdAt >= r.data[k'].createdAt
  {
    var pipeline := BlogPipeline(blogs, users);
    var page := PaginateWith(PageOf(q).value, LimitOf(q).value, pipeline);
    PageItemsHaveAuthors(page.page, page.limit, blogs, users);
    WindowNewestFirst(page.page, page.limit, pipeline);
    ItemsKeepOrder(page);
    ItemsPage(page)
  }

  // ---------------------------------------------------------------------------
  // What GET lists

  /** Some user's `_id` equals the blog's `authorId`. */
  predicate HasAuthor(b: BlogDoc, users: seq<UserDoc>)
  {
    exists i :: 0 <= i < |users| && users[i].id == b.authorId
  }

  /** The blogs whose author exists, in collection order. */
  function AuthoredBlogs(blogs: seq<BlogDoc>, users: seq<UserDoc>): (r: seq<BlogDoc>)
    ensures |r| <= |blogs|
    ensures forall b :: b in r <==> b in blogs && HasAuthor(b, users)
    ensures |r| == |blogs| <==> forall i :: 0 <= i < |blogs| ==> HasAuthor(blogs[i], users)
  {
    if blogs == [] then []
    else
      var rest := AuthoredBlogs(blogs[1..], users);
      assert forall i :: 0 < i < |blogs| ==> blogs[i] == blogs[1..][i - 1];
      if HasAuthor(blogs[0], users) then [blogs[0]] + rest else rest
  }

  /** Under a unique `_id`, a lookup finds one user for an authored blog and none for an orphan. */
  lemma {:induction false} LookupSize(b: BlogDoc, users: seq<UserDoc>)
    requires UniqueUserIds(users)
    ensures |Lookup(b, users)| == if HasAuthor(b, users) then 1 else 0
  {
    if users != [] {
      var rest := users[1..];
      assert UniqueUserIds(rest) by {
        forall i, j | 0 <= i < j < |rest| ensures rest[i].id != rest[j].id {
          assert rest[i] == users[i + 1] && rest[j] == users[j + 1];
        }
      }
      LookupSize(b, rest);
      if users[0].id == b.authorId {
        assert !HasAuthor(b, rest) by {
          forall i | 0 <= i < |rest| ensures rest[i].id != b.authorId {
            assert rest[i] == users[i + 1];
          }
        }
      } else {
        assert HasAuthor(b, users) <==> HasAuthor(b, rest) by {
          if HasAuthor(b, users) {
            var i :| 0 <= i < |users| && users[i].id == b.authorId;
            assert users[i] == rest[i - 1];
          }
          if HasAuthor(b, rest) {
            var i :| 0 <= i < |rest| && rest[i].id == b.authorId;
            assert rest[i] == users[i + 1];
          }
        }
      }
    }
  }

  /** Under a unique `_id`, the join holds exactly one document per authored blog. */
  lemma {:induction false} JoinSize(blogs: seq<BlogDoc>, users: seq<UserDoc>)
    requires UniqueUserIds(users)
    ensures |Join(blogs, users)| == |AuthoredBlogs(blogs, users)|
  {
    if blogs != [] {
      LookupSize(blogs[0], users);
      JoinSize(blogs[1..], users);
    }
  }

  /**
   * `total` counts what the pipeline yields: the blogs whose author exists,
   * which is fewer than the collection holds as soon as one blog is orphaned.
   */
  lemma TotalCountsAuthoredBlogs(q: Query, blogs: seq<BlogDoc>, users: seq<UserDoc>)
    requires ValidQuery(q) && UniqueUserIds(users)
    ensures ListBlogs(q, blogs, users).total == |AuthoredBlogs(blogs, users)| <= |blogs|
    ensures ListBlogs(q, blogs, users).total == |blogs| <==>
      forall i :: 0 <= i < |blogs| ==> HasAuthor(blogs[i], users)
  {
    JoinSize(blogs, users);
    var pipeline := BlogPipeline(blogs, users);
    assert |pipeline| == |multiset(pipeline)| == |multiset(ProjectAll(Join(blogs, users)))|;
  }

  /** Every pipeline document is a blog of the collection, projected with its existing author. */
  lemma PipelineFromAuthoredBlogs(blogs: seq<BlogDoc>, users: seq<UserDoc>, p: Projected)
    requires p in BlogPipeline(blogs, users)
    ensures exists b, u :: b in blogs && u in users && u.id == b.authorId && p == Project(Joined(b, u))
  {
    var js := Join(blogs, users);
    assert p in multiset(ProjectAll(js));
    var i :| 0 <= i < |js| && ProjectAll(js)[i] == p;
    assert js[i] in js;
    assert Joined(js[i].blog, js[i].authorInfo) == js[i];
  }

  /** Every blog whose author exists is in the pipeline, with that author's public fields. */
  lemma AuthoredBlogInPipeline(blogs: seq<BlogDoc>, users: seq<UserDoc>, b: BlogDoc, u: UserDoc)
    requires b in blogs && u in users && u.id == b.authorId
    ensures Project(Joined(b, u)) in BlogPipeline(blogs, users)
  {
    var js := Join(blogs, users);
    assert Joined(b, u) in js;
    var i :| 0 <= i < |js| && js[i] == Joined(b, u);
    assert ProjectAll(js)[i] == Project(Joined(b, u));
    assert Project(Joined(b, u)) in multiset(ProjectAll(js));
  }

  /** A blog whose author is missing never shows up, on any page. */
  lemma OrphanDropped(blogs: seq<BlogDoc>, users: seq<UserDoc>, b: BlogDoc)
    requires b in blogs && UniqueBlogIds(blogs) && !HasAuthor(b, users)
    ensures forall p :: p in BlogPipeline(blogs, users) ==> p.id != b.id
  {
    forall p | p in BlogPipeline(blogs, users) ensures p.id != b.id {
      PipelineFromAuthoredBlogs(blogs, users, p);
      var b', u :| b' in blogs && u in users && u.id == b'.authorId && p == Project(Joined(b', u));
    }
  }

  /**
   * A session whose user carries no id still creates a blog: the conversion of
   * the absent id (`new ObjectId(undefined)`) may produce a fresh id, which no
   * stored user has, and GET then never lists that blog.
   */
  lemma AbsentIdGivesOrphan(blogs: seq<BlogDoc>, users: seq<UserDoc>, f: BlogFields,
                            toObjectId: Option<string> -> Option<ObjectId>, generated: ObjectId,
                            newId: ObjectId, createdAt: Time, updatedAt: Time)
    requires !Falsy(f.title) && !Falsy(f.content)
    requires toObjectId(None) == Some(generated)
    requires forall i :: 0 <= i < |users| ==> users[i].id != generated
    requires UniqueBlogIds(blogs) && !BlogIdTaken(blogs, newId)
    ensures var (reply, after) :=
      CreateStep(blogs, Some(Session(Some(SessionUser(None)))), Some(f), toObjectId, newId, createdAt, updatedAt);
      && reply == Reply(201, Inserted(newId))
      && |after| == |blogs| + 1 && after[|blogs|].authorId == generated
      && forall p :: p in BlogPipeline(after, users) ==> p.id != newId
  {
    var session := Some(Session(Some(SessionUser(None))));
    var (reply, after) := CreateStep(blogs, session, Some(f), toObjectId, newId, createdAt, updatedAt);
    CreateKeepsUniqueIds(blogs, session, Some(f), toObjectId, newId, createdAt, updatedAt);
    assert after[|blogs|] in after;
    OrphanDropped(after, users, after[|blogs|]);
  }

  /**
   * Each listed item is a blog of the collection whose author exists, carrying
   * the blog's own fields and only the author's username, email and image.
   */
  lemma PageItemsHaveAuthors(page: int, limit: int, blogs: seq<BlogDoc>, users: seq<UserDoc>)
    requires page >= 1 && limit >= 1
    ensures var items := ItemsPage(PaginateWith(page, limit, BlogPipeline(blogs, users))).data;
      forall k :: 0 <= k < |items| ==>
        exists b, u :: && b in blogs && u in users && u.id == b.authorId
                       && items[k] == BlogItem(b.id.hex, b.title, b.content, b.createdAt, b.updatedAt,
                                               AuthorInfo(u.username, u.email, u.imageUrl))
  {
    var pipeline := BlogPipeline(blogs, users);
    var data := PaginateWith(page, limit, pipeline).data;
    var lo := WindowStart(page, limit, |pipeline|);
    var items := ItemsPage(PaginateWith(page, limit, pipeline)).data;
    forall k | 0 <= k < |items|
      ensures exists b, u :: && b in blogs && u in users && u.id == b.authorId
                             && items[k] == BlogItem(b.id.hex, b.title, b.content, b.createdAt, b.updatedAt,
                                                     AuthorInfo(u.username, u.email, u.imageUrl))
    {
      assert items[k] == ToItem(data[k]);
      assert data[k] == pipeline[lo + k];
      PipelineFromAuthoredBlogs(blogs, users, pipeline[lo + k]);
    }
  }

  /** A window of a newest-first sequence is newest first. */
  lemma WindowNewestFirst(page: int, limit: int, ps: seq<Projected>)
    requires page >= 1 && limit >= 1 && NewestFirst(ps)
    ensures NewestFirst(PaginateWith(page, limit, ps).data)
  {
  }

  /** The handler's `map` keeps the order of the page it maps. */
  lemma ItemsKeepOrder(page: PaginationResult<Projected>)
    requires NewestFirst(page.data)
    ensures var items := ItemsPage(page).data;
      forall k, k' :: 0 <= k < k' < |items| ==> items[k].createdAt >= items[k'].createdAt
  {
    var items := ItemsPage(page).data;
    assert forall k :: 0 <= k < |items| ==> items[k].createdAt == page.data[k].createdAt;
  }
}
