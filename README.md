# blog-fcd core in Dafny

A verified model of the server-side core of a Next.js blogging application
backed by MongoDB:

- the **route guard** (`middleware.ts`), which runs on every request and
  decides, from the path and whether a session token came with it, whether
  to let the request through or redirect it to `/login` or `/blogs`;
- the **pagination engine** (`utils/pagination.ts`), which reads `page` and
  `limit` from the query string, windows an aggregation pipeline's results
  with `$skip`/`$limit`, counts them with `$count` and reports
  `{data, total, page, limit, totalPages}`;
- the **registration handler** (`app/api/register/route.ts`), which checks an
  email/password body in a fixed order and inserts a user holding the
  password's digest into the `users` collection;
- the **blog collection handler** (`app/api/blogs/route.ts`): POST inserts a
  blog owned by the session's user; GET joins blogs with their authors,
  keeps a whitelist of fields, sorts newest first and paginates.

Files and modules:

| file | module | models |
|---|---|---|
| `wrappers.dfy` | `Wrappers` | `Option` for absent fields and lookups |
| `documents.dfy` | `Documents` | the `users` and `blogs` documents, ObjectIds, digests, JSON replies, JavaScript falsiness of a field |
| `route_guard.dfy` | `RouteGuard` | `middleware.ts` |
| `pagination.dfy` | `Pagination` | `utils/pagination.ts`, including `parseInt` of the parameters |
| `register.dfy` | `Register` | `app/api/register/route.ts` |
| `blogs.dfy` | `Blogs` | `app/api/blogs/route.ts` |

How the source's pieces appear in Dafny:

- The route guard is a pure function `RouteGuard.Decide(pathname, hasToken)`
  over `string` and `bool`, with `StartsWith` and `Contains` predicates and the
  constant route lists. Matching is by prefix, as `startsWith` does it, so
  `/blogsX` counts as protected and `/loginfoo` as public-only.
- An aggregation pipeline is abstracted as the sequence of documents it yields.
  `$skip`, `$limit`, `$count`, `$lookup`, `$unwind`, `$project` and `$sort`
  are each a function over sequences. `paginate` is the pure function
  `Pagination.PaginateWith` (numbers already parsed) and `Pagination.Paginate`
  (from the query string).
- Each collection the handlers write to is a class whose field is the
  collection's documents as a `seq`. `insertOne` appends to it. Each POST is one
  atomic step. It is written out as a pure step function
  (`Register.RegisterStep`, `Blogs.CreateStep`) that returns the reply and the
  new collection. A class method (`UserCollection.Post`, `BlogCollection.Post`)
  runs the handler's checks in the source's order and is proved to equal that
  step. The lemmas about each step state what the source promises.
- Password hashing (`hash` from bcryptjs) and `new ObjectId(session.user.id)`
  are parameters of the handlers, so nothing is assumed about them beyond
  being functions of their argument. Bcrypt's fresh salt and a newly
  generated id therefore appear as the value of that one call; each step calls
  each of them once.
  `toObjectId` takes the possibly absent id and returns None where the
  constructor would throw.
- The `_id` the driver gives a new document is an input.
  MongoDB keeps `_id` unique, so an insert whose `_id` is already taken fails.
  The handler's `catch` turns that failure into a 500, and the model does the
  same.
- The clock readings (`new Date()`) are inputs. So are the session
  (`getServerSession`) and the presence of a token (`getToken`).

Two modelling choices follow the code where a reader might expect otherwise.
`paginate` never clamps `page` or `limit`, so the model requires
`page >= 1 && limit >= 1` rather than inventing clamping. The registration
handler also answers 500 when the body is not JSON or the insert fails, and the
model includes those paths.

A third point concerns the blog author. POST stores
`authorId: new ObjectId(session.user.id)` (app/api/blogs/route.ts:30), and the
model passes that conversion in as `toObjectId`. When the session user carries
no id, `new ObjectId(undefined)` does not throw: the driver generates a new id.
The blog is then stored with an author no user has, and GET never lists it.
`Blogs.AbsentIdGivesOrphan` states this consequence.

## Model

| member | source | states |
|---|---|---|
| `RouteGuard.AnyStartsWith` | middleware.ts:18-21 | `routes.some(startsWith)` holds exactly when the path starts with one of the routes |
| `RouteGuard.Middleware` | middleware.ts:4-37 | a request is sent to `/login` exactly when its path is not pass-through, starts with `/blogs` and has no token; to `/blogs` exactly when it is not pass-through, starts with `/login` or `/register` and has a token; and passes otherwise |
| `RouteGuard.PassThroughAlwaysPasses` | middleware.ts:9-16 | a path under `/_next/`, `/api/` or `/static/`, or containing `.`, passes with or without a token |
| `RouteGuard.ProtectedWithoutTokenGoesToLogin` | middleware.ts:18-25 | a non-pass-through path starting with `/blogs` and no token redirects to `/login` |
| `RouteGuard.PublicOnlyWithTokenGoesToLanding` | middleware.ts:27-34 | a non-pass-through path starting with `/login` or `/register` and a token redirects to `/blogs` |
| `RouteGuard.DecisionTable` | middleware.ts:9-36 | for each outcome (redirect to `/login`, redirect to `/blogs`, pass), the exact condition that produces it, in both directions; every redirect target is `/login` or `/blogs` |
| `RouteGuard.NoRedirectAgainstSessionState` | middleware.ts:23-34 | without a token the guard never redirects to `/blogs`, and with a token it never redirects to `/login` |
| `RouteGuard.TargetsPass` | middleware.ts:18-36 | `/login` without a token passes, and `/blogs` with a token passes |
| `RouteGuard.NoRedirectLoop` | middleware.ts:18-36 | following a redirect with the same token state always ends in a pass |
| `RouteGuard.PrefixNotSegment` | middleware.ts:18-34 | `/blogsX` without a token redirects to `/login`, and `/loginfoo` with a token redirects to `/blogs` |
| `RouteGuard.OnlyTokenPresenceMatters` | middleware.ts:5-36 | any two tokens give the same decision, which is the decision with a token; no token gives the decision without one |
| `Pagination.ParamOr` | utils/pagination.ts:18-19 | `get(name)` falling back on the default text gives the fallback for an absent or empty parameter and the parameter otherwise |
| `Pagination.LeadingDigits` | utils/pagination.ts:18-19 | the digit run `parseInt` reads is the longest all-digit prefix of the text |
| `Pagination.ParseDecimal` | utils/pagination.ts:18-19 | `parseInt` reads the decimal text of every natural number back as that number |
| `Pagination.Defaults` | utils/pagination.ts:18-19 | an absent or empty `page` reads as 1, and an absent or empty `limit` reads as 10 |
| `Pagination.SkipStage` | utils/pagination.ts:25 | `$skip n` drops the first n results, leaving nothing when n is at least their number |
| `Pagination.LimitStage` | utils/pagination.ts:26 | `$limit n` keeps a prefix of at most n results |
| `Pagination.CountStage` | utils/pagination.ts:31 | `$count` yields one document holding the number of results, or none for an empty input |
| `Pagination.SkipOf` | utils/pagination.ts:20 | `skip = (page - 1) * limit` is a natural number equal to that product |
| `Pagination.CeilDiv` | utils/pagination.ts:41 | `Math.ceil(total / limit)`: the least r with `r * limit >= total` |
| `Pagination.PaginateWith` | utils/pagination.ts:12-43 | data is the results from `(page-1)*limit` up to `page*limit`, clipped, so at most `limit` of them; total is the number of results; page and limit are echoed; totalPages is `ceil(total/limit)` |
| `Pagination.Paginate` | utils/pagination.ts:12-43 | for a query whose page and limit parse to at least 1: the parsed values are echoed, data is that page's clipped window of at most `limit` results, total is the number of results, totalPages is `ceil(total/limit)`, and an absent or empty `page` or `limit` gives 1 or 10 |
| `Pagination.DefaultPage` | utils/pagination.ts:18-30 | with no parameters, page 1 of limit 10 holds the first ten results |
| `Pagination.PageHolding` | utils/pagination.ts:20-30 | result position i lies between the starts of page p and page p+1 for the page p it computes |
| `Pagination.WindowHolds` | utils/pagination.ts:20-26 | of n results, position i lies in the window of page p exactly when p is the page PageHolding computes for i |
| `Pagination.PageOfPosition` | utils/pagination.ts:20-30 | result position i lies in the window of page p exactly when p is that page, and that page holds `results[i]` there |
| `Pagination.WindowsDisjoint` | utils/pagination.ts:20-30 | no result position lies in the windows of two different pages |
| `Pagination.PagesUpToIsPrefix` | utils/pagination.ts:20-30 | pages 1..n concatenated are the first `min(n*limit, total)` results |
| `Pagination.PageLengthIsDataLength` | utils/pagination.ts:20-26 | the data of page n has as many results as its window is wide |
| `Pagination.LengthsUpToIsPrefixLength` | utils/pagination.ts:20-30 | the lengths of pages 1..n sum to `min(n*limit, total)` |
| `Pagination.AllPagesCoverResults` | utils/pagination.ts:20-41 | with totalPages as `paginate` reports it, pages 1..totalPages concatenated are all the results, and their lengths sum to total |
| `Pagination.BeyondLastPage` | utils/pagination.ts:20-41 | a page past totalPages has empty data while total still counts every result |
| `Pagination.NoEmptyPageWithin` | utils/pagination.ts:20-41 | every page from 1 to totalPages holds at least one result |
| `Pagination.TotalIndependentOfWindow` | utils/pagination.ts:31-34 | total is the same whatever page and limit are asked for |
| `Pagination.EmptyResults` | utils/pagination.ts:31-41 | an empty pipeline result gives empty data, total 0 and totalPages 0 |
| `Register.Validate` | app/api/register/route.ts:10-22 | a body passes exactly when email and password are non-empty and the password has at least 6 characters; a missing field is reported before a short password; both are 400s |
| `Register.FindByEmail` | app/api/register/route.ts:27 | `findOne({ email })` finds a user exactly when one in the collection has that email, and what it finds has that email |
| `Register.MissingFieldRejected` | app/api/register/route.ts:10-15 | a missing or empty email or password gives 400 and leaves the collection unchanged, whatever else the request holds |
| `Register.ShortPasswordRejected` | app/api/register/route.ts:17-22 | a password under 6 characters gives 400 and leaves the collection unchanged |
| `Register.DuplicateEmailRejected` | app/api/register/route.ts:27-34 | a valid body whose email is already stored gives 409 and leaves the collection unchanged |
| `Register.RegisterOutcome` | app/api/register/route.ts:7-54 | the reply is 201 exactly when the body parses, passes validation, names a new email and gets a free `_id`; then exactly one user is appended, holding that email and `hash(password)`; on every other reply the collection is unchanged |
| `Register.RegisterKeepsWellFormed` | app/api/register/route.ts:27-42 | registration keeps emails, and ids, unique in the collection |
| `Register.SecondRegistrationConflicts` | app/api/register/route.ts:27-42 | after a 201 for an email, a valid registration with the same email gives 409 |
| `Register.UserCollection.constructor` | app/api/register/route.ts:27-42 | a new users collection is empty and well formed |
| `Register.UserCollection.Post` | app/api/register/route.ts:5-55 | the handler's checks, run in order on the stored collection, give the reply and new collection of one registration step and keep emails unique |
| `Blogs.UnauthenticatedRejected` | app/api/blogs/route.ts:9-12 | without a session or session user the reply is 401 and nothing is inserted, whatever the body |
| `Blogs.MissingFieldRejected` | app/api/blogs/route.ts:14-21 | with a session, a falsy title or content gives 400 and nothing is inserted |
| `Blogs.CreateOutcome` | app/api/blogs/route.ts:8-41 | the reply is 201 exactly when there is a session, the body parses with title and content, `new ObjectId(session.user.id)` succeeds and the new `_id` is free; then exactly one blog is appended with the given title and content and `authorId` that converted id, and the reply carries its id; otherwise nothing changes |
| `Blogs.CreateKeepsUniqueIds` | app/api/blogs/route.ts:27-36 | creating a blog keeps blog ids unique |
| `Blogs.AbsentIdGivesOrphan` | app/api/blogs/route.ts:8-41 | a session user without an id, whose conversion yields an id no user has, still gets a 201, and the stored blog is one GET never lists |
| `Blogs.BlogCollection.constructor` | app/api/blogs/route.ts:25-35 | a new blogs collection is empty |
| `Blogs.BlogCollection.Post` | app/api/blogs/route.ts:8-41 | the handler's checks, run in order on the stored collection, give the reply and new collection of one creation step and keep ids unique |
| `Blogs.Lookup` | app/api/blogs/route.ts:51-57 | `$lookup` gives a blog exactly the users whose `_id` is its `authorId` |
| `Blogs.Unwind` | app/api/blogs/route.ts:58 | `$unwind` gives one joined document per looked-up user, and none when there were none |
| `Blogs.Join` | app/api/blogs/route.ts:50-58 | a (blog, user) pair is in the join exactly when the blog is stored, the user is stored and the user's `_id` is the blog's `authorId` |
| `Blogs.ProjectAll` | app/api/blogs/route.ts:59-70 | `$project` maps each joined document to one with only `_id`, title, content, the two times and the author's username, email and image |
| `Blogs.Insert` | app/api/blogs/route.ts:71 | inserting a document adds exactly that document, and the first element is the newer of it and the old first element |
| `Blogs.InsertKeepsOrder` | app/api/blogs/route.ts:71 | inserting into a newest-first sequence keeps it newest first |
| `Blogs.SortNewestFirst` | app/api/blogs/route.ts:71 | `$sort: { createdAt: -1 }` yields a permutation of its input ordered non-increasing by `createdAt` |
| `Blogs.ItemsPage` | app/api/blogs/route.ts:76-82 | the `map` over a page turns each item into its text-id form, one for one and in order, and passes total, page, limit and totalPages through |
| `Blogs.ListBlogs` | app/api/blogs/route.ts:43-82 | GET echoes the parsed page and limit and lists at most `limit` items; each item is a stored blog with its own id as text, title, content and times, whose author exists, with only that author's username, email and image; the items are non-increasing by `createdAt` |
| `Blogs.AuthoredBlogs` | app/api/blogs/route.ts:50-58 | the blogs whose author exists are at most all blogs, and are all of them exactly when no blog is orphaned |
| `Blogs.LookupSize` | app/api/blogs/route.ts:51-58 | with unique user ids, the lookup of a blog finds one user when its author exists and none otherwise |
| `Blogs.JoinSize` | app/api/blogs/route.ts:50-58 | with unique user ids, the join holds one document per blog whose author exists |
| `Blogs.TotalCountsAuthoredBlogs` | app/api/blogs/route.ts:74 | GET's total counts the blogs whose author exists, not every stored blog, and equals the collection's size exactly when no blog is orphaned |
| `Blogs.PipelineFromAuthoredBlogs` | app/api/blogs/route.ts:49-72 | every document the pipeline yields is the projection of a stored blog with its stored author |
| `Blogs.AuthoredBlogInPipeline` | app/api/blogs/route.ts:49-72 | every stored blog whose author exists is yielded by the pipeline with that author's public fields |
| `Blogs.OrphanDropped` | app/api/blogs/route.ts:50-58 | a blog whose author is missing is never yielded |
| `Blogs.PageItemsHaveAuthors` | app/api/blogs/route.ts:49-80 | on any page and limit, each mapped item is a stored blog with its own id as text, title, content and times, whose author exists, with only that author's username, email and image |
| `Blogs.WindowNewestFirst` | app/api/blogs/route.ts:71-74 | a page of a newest-first sequence is newest first |
| `Blogs.ItemsKeepOrder` | app/api/blogs/route.ts:76-80 | the `map` keeps a newest-first page newest first |

Some members carry no contract of their own; the lemmas named here
characterise them.

- `RouteGuard.Decide` (middleware.ts:4-37), the decision itself: `DecisionTable`, `NoRedirectLoop`.
- `RouteGuard.IsPassThrough` (middleware.ts:9-14): `PassThroughAlwaysPasses`, `DecisionTable`.
- `Documents.Falsy`, JavaScript `!x` on a string field (app/api/register/route.ts:10, app/api/blogs/route.ts:16): `Register.Validate`, `Register.MissingFieldRejected`, `Blogs.MissingFieldRejected`.
- `Pagination.ParseInt`, `parseInt(…, 10)` (utils/pagination.ts:18-19): `LeadingDigits`, `ParseDecimal`.
- `Pagination.PageOf` and `Pagination.LimitOf` (utils/pagination.ts:18-19): `Defaults`, `ParseDecimal`, `Paginate`.
- `Pagination.TotalOf`, `totalResult[0]?.count || 0` (utils/pagination.ts:34): `CountStage` and `PaginateWith` (total is the number of results), `EmptyResults`.
- `Pagination.PageLength`, the width of a page's window: `PageLengthIsDataLength` ties it to the length of that page's data.
- `RouteGuard.IsProtected`, `isProtectedRoute` (middleware.ts:18-21): `DecisionTable`, `ProtectedWithoutTokenGoesToLogin`.
- `RouteGuard.IsPublicOnly`, `isPublicRoute` (middleware.ts:27-30): `DecisionTable`, `PublicOnlyWithTokenGoesToLanding`.
- `Blogs.Authenticated`, the negation of `!session || !session.user` (app/api/blogs/route.ts:10): `UnauthenticatedRejected`, `CreateOutcome`.
- `Register.RegisterStep` (app/api/register/route.ts:5-55): `RegisterOutcome`, `RegisterKeepsWellFormed`.
- `Register.NewUser`, the document `insertOne` stores (app/api/register/route.ts:38-42): `RegisterOutcome`.
- `Blogs.CreateStep` (app/api/blogs/route.ts:8-41): `CreateOutcome`, `CreateKeepsUniqueIds`.
- `Blogs.Project` (app/api/blogs/route.ts:59-70): `ProjectAll`, `PipelineFromAuthoredBlogs`.
- `Blogs.BlogPipeline`, the pipeline at app/api/blogs/route.ts:49-72: `PipelineFromAuthoredBlogs`, `AuthoredBlogInPipeline`, `OrphanDropped`, `TotalCountsAuthoredBlogs`.
- `Blogs.ToItem` (app/api/blogs/route.ts:76-80): `ItemsPage`, `ListBlogs`.

`Pagination.Times` is the product `n * limit` as repeated addition, so that the
proofs about page windows stay linear. `TimesIsProduct` (it equals `n * limit`)
and `TimesMonotone` (it grows with `n`) are helpers for that encoding and not
properties of the source.

## Left out

- Pagination.Paginate: requires that `page` and `limit` parse to at least 1. The source does not reject NaN, zero or negative values. They produce a NaN or negative `$skip`, or a `$limit` of 0, which the database refuses, and that failure reaches the caller's 500 path. The model does not follow that path.
- Pagination.ParseInt: models an optional sign followed by the longest run of decimal digits, with None standing for NaN. It does not skip the leading whitespace that `parseInt` skips, and it does not bound the magnitude the way a JavaScript number does.
- Blogs.SortNewestFirst: keeps documents with equal `createdAt` in input order, one fixed order. MongoDB's `$sort` does not promise any order among ties, and each GET runs the sort again, so separate page requests may order equal-`createdAt` blogs differently and such a blog can appear on two pages or on none. The cross-page lemmas (`Pagination.WindowsDisjoint`, `Pagination.PagesUpToIsPrefix`, `Pagination.AllPagesCoverResults`) assume one fixed result order, which carries over to the blog listing when `createdAt` values are distinct.
- The `Promise.all` in `paginate` is modelled as two reads of the same snapshot. The two reads do not share a transaction, so under concurrent writes the page and the total can disagree. The model does not capture that.
- Registration's check-then-insert race is not modelled. Two concurrent requests can both miss the existing email and both insert it. Each request is one atomic step here.
- Hashing is a parameter. The bcrypt internals and the cost factor 12 are not modelled.
- `getToken` and `getServerSession` are not modelled: signature, expiry and the next-auth configuration are outside the model. The model takes only "token present" and "session with a user whose id may be absent" from them.
- Blogs.CreateOutcome: `toObjectId` is unconstrained, so the model does not say that an absent id yields a generated id instead of a 500; `Blogs.AbsentIdGivesOrphan` shows what follows when it does.
- `new ObjectId(...)` parsing and `toString` are not modelled. Ids are opaque, with their hex text as `toString`. Conversion is a parameter, and where it fails the POST replies 500.
- Database failures other than a duplicate `_id`, the connection (`clientPromise`), `DB_NAME`, and `console.error` logging are not modelled. Those failures end in the handlers' 500 path.
- Request bodies are modelled as either not JSON (500) or JSON whose fields are strings or absent. Non-string JSON values such as numbers or objects are not modelled. `password.length` is counted in characters, not UTF-16 code units.
- The route matcher `config.matcher` (middleware.ts:39-41) is framework routing configuration and is not modelled.
- GET's `authorId: blog.authorId?.toString()` is always undefined, because `$project` removed `authorId`. So the model's `BlogItem` has no `authorId` field.
- Not part of this model: the React pages, the fixture data, login (credential checks in the next-auth route) and the per-blog and per-user routes.
