# PawAdopt server core in Dafny

This project models the request handlers of the PawAdopt Express/MongoDB server
(`index.js`) over in-memory collections, and proves what those handlers promise.
The modelled handlers cover users, pets and donation campaigns:

- **`verifyAdmin`** (`Users.AdminGate`). It refuses a request unless its `email` header is non-empty and the first stored user with that email has the role `admin`.
- **User routes.**
  - `POST /users` inserts a user unless that email is already taken.
  - `PUT /users` upserts by email, merging the body and stamping `updatedAt`.
  - `PATCH /users/admin/:id` promotes one user to admin, behind the gate.
  - `GET /users/:email` looks a user up.
- **The pet catalog `GET /pets/all`** (`Pets`, `Paging`, `Ordering`).
  - `parseInt(...) || default` reads the paging parameters.
  - The query document is built one condition at a time.
  - Matches are counted, sorted newest first, skipped and limited.
  - `hasMore` is computed against the exact count of matches.
- **Pet records.**
  - `POST /pets` stamps `createdAt`.
  - `GET /pets/:id` looks a pet up.
  - `PATCH /pets/:id` is a `$set` merge.
  - `PATCH /pets/:id/adopt` sets the `adopted` flag.
  - `DELETE /pets/:id` deletes, behind the gate.
  - `GET /pets/admin` lists every pet, behind the gate.
- **Donation campaigns.**
  - `POST` stores the body as sent.
  - The paged list has `nextPage` and `hasMore = page * limit < total`.
  - `GET /:id` looks a campaign up.
  - `PUT /:id` is a `$set` merge.
  - `PATCH /:id/pause` stores `paused`.
  - `DELETE /:id` deletes.
- **Express route dispatch for `GET`** (`Routing`). The first registered route whose pattern matches the path runs.

The model is layered as follows:

- **Documents** are datatypes whose optional fields are `Option`s. `None` is a field that is absent or null.
- **Request bodies** are records whose `Some` fields are the ones the client supplied.
- **Pure functions** state each operation on a collection (a `seq`). Lemmas prove its properties:
  - a store invariant is preserved: ids are distinct and below the id counter, and user emails are unique;
  - round trips: create, then find;
  - "nothing else changes";
  - the catalog returns exactly what was requested;
  - the `hasMore` formulas agree with each other.
- **The class `Server.Server`** holds the three collections and the id counter. Each route is a method:
  - its `modifies` clause names the server;
  - it keeps `Valid()`;
  - it ties the new state to those functions and states what it leaves untouched.
- **The catalog query document** is built step by step in `Pets.BuildQuery`, as the handler builds it.

The store's behaviour is modelled as follows:

- `findOne`, `updateOne` and `deleteOne` act on the first document that matches (`Common.FirstWhere`).
- Ids are abstract numbers from a counter.
- Timestamps are parameters (`now`).

## Model

| member | source | states |
|---|---|---|
| Common.FirstWhere | index.js:66 | the position found is the first document satisfying the filter; none is found only when no document satisfies it |
| Common.UpdateByKeyExact | index.js:94-97 | with distinct ids, `updateOne({_id})` changes exactly the document with that id and keeps ids distinct |
| Common.DeleteByKeyExact | index.js:162 | with distinct ids, `deleteOne({_id})` leaves exactly the documents with other ids, in their order (the sequence without the matched position, or unchanged when no id matches), and keeps keys distinct |
| Paging.ParseInt | index.js:117 | `parseInt` without a radix: text starting with a non-zero digit is a number; a negative result needs a `-` |
| Paging.ParseIntShow | index.js:117 | `parseInt` reads back every integer written in decimal, followed by anything that does not continue the number |
| Paging.IntOr | index.js:117-118 | `parseInt(x) \|\| d` is the number `x` parses to when that number exists and is not 0, and `d` when `x` is missing, is not a number or parses to 0; it is never 0 when `d` is not |
| Paging.ReadPaging | index.js:191-192 | page and limit are never 0 after defaulting |
| Paging.PagingDefaults | index.js:117-118 | missing parameters give page 1 and limit 6; `?page=n&limit=m` gives `n` and `m`, with 0 replaced by the default |
| Paging.Slice | index.js:135-136 | `.skip().limit()` returns the documents at positions `skip .. skip+limit`, at most `limit` of them |
| Paging.HasMoreIffNextPageNonEmpty | index.js:138 | `skip + returned < total` holds exactly when the next page is not empty |
| Paging.PageFormulasAgree | index.js:201 | from page 1 on with a positive limit, `page * limit < total` agrees with `skip + returned < total`, whether or not the page is full |
| Paging.PagesCoverPrefix | index.js:119 | pages 1..n together are exactly the first `n * limit` documents |
| Paging.HasMoreIffUnseen | index.js:138 | `hasMore` holds exactly when pages 1..page have returned fewer documents than match |
| Paging.SomePageHolds | index.js:119 | with a fixed positive limit, every document is on some page |
| Ordering.SortDesc | index.js:134 | `.sort({createdAt: -1})` yields a newest-first permutation of its input |
| Ordering.Insert | index.js:134 | inserting adds exactly that document, one longer, with it or the old first document in front |
| Ordering.InsertSorted | index.js:134 | inserting into a newest-first sequence keeps it newest first |
| Ordering.SortKeepsMembers | index.js:134 | sorting neither loses nor adds a document |
| Ordering.SliceOfSorted | index.js:134-136 | a page cut from a sorted sequence is sorted and holds only its documents |
| Users.FindByEmail | index.js:65-66 | `findOne({email})` finds a user exactly when one has that email, and returns one with that email |
| Users.Create | index.js:63-69 | `POST /users` leaves the store as it is when the email exists, and otherwise appends the body |
| Users.CreateKeepsValid | index.js:63-69 | `POST /users` keeps emails and ids unique; the store is unchanged exactly when the email was taken |
| Users.Upsert | index.js:83-89 | `PUT /users` merges into the user with that email if one exists, and otherwise inserts one |
| Users.UpsertKeepsValid | index.js:83-89 | `PUT /users` never creates a second user with an email; afterwards the user with that email carries the supplied fields and the new `updatedAt`; only that user changes |
| Users.Promote | index.js:94-97 | `updateOne({_id}, {$set: {role: "admin"}})` keeps the number of users, and every user either stays as it was or has that id and only its `role` set to `"admin"` |
| Users.PromoteOnlyTouchesRole | index.js:92-98 | promotion sets `role = "admin"` on the user with that id, changes nothing else, and keeps ids and emails unique |
| Users.AdminGate | index.js:48-60 | the reason "no email header" is given exactly for requests without a non-empty `email` header; the gate passes only for a stored admin with that email, and refuses as "not an admin" otherwise |
| Users.AdminGateExact | index.js:48-60 | with unique emails, the gate passes exactly when the header names a stored user whose role is `"admin"` |
| Pets.QueryMeansRequested | index.js:120-129 | the query document `Pets.QueryOf` builds, as evaluated by `Pets.Matches`, matches a pet exactly when the pet meets every supplied criterion: name contains `search` ignoring case, category equals `category`, not adopted only for `adopted=false`, owner equals `email` |
| Pets.BuildQuery | index.js:124-129 | adding one condition per supplied parameter yields the query that selects exactly the requested pets |
| Pets.FilterCounts | index.js:131-133 | the documents `countDocuments(query)` counts and `find(query)` returns are the stored pets that match, each as many times as it is stored, and no others |
| Pets.Listing | index.js:131-140 | refused exactly for a negative skip; otherwise the page is the newest-first matches from position `skip` on, exactly `min(limit, matches - skip)` of them (none past the end, all the rest for a limit of 0), and `hasMore` holds exactly when matches remain after the page |
| Pets.WindowSound | index.js:132-137 | every pet on a page is a stored matching pet, newest first |
| Pets.CatalogSound | index.js:116-141 | for `Pets.Catalog`, the whole handler: refused exactly for a negative skip; otherwise the page holds exactly `min(limit, matches - skip)` pets (none past the end), newest first, each stored and meeting every criterion, and they are the matches ranked `skip` onwards |
| Pets.CatalogHasMore | index.js:131-138 | a page at or past the last match is empty without `hasMore`; from page 1 on with a positive limit, `hasMore` holds exactly when the next page is not empty, and exactly when earlier pages have not returned every match |
| Pets.ListingReachesEveryMatch | index.js:117-137 | paging with a fixed positive limit reaches every stored pet that meets the criteria |
| Pets.Find | index.js:143-148 | `findOne({_id})` returns a stored pet with that id, or nothing only when no pet has it |
| Pets.CreateThenFind | index.js:102-107 | after `Pets.Create`, a created pet is found under its new id with the body's fields and `createdAt = now`; ids stay distinct |
| Pets.SetAdopted | index.js:166-174 | every pet either stays as it was or has that id and only `adopted` replaced: `true` without a body, the body's `adopted` (null when missing) otherwise |
| Pets.SetAdoptedOnlyTouchesAdopted | index.js:166-174 | adopting changes only `adopted`, only on the pet with that id |
| Pets.Patch | index.js:150-158 | every pet either stays as it was or has that id and is merged with the body |
| Pets.PatchOnlyTouchesThatPet | index.js:150-158 | a patch overwrites the supplied fields of the pet with that id and changes no other pet |
| Pets.Delete | index.js:160-164 | at most one pet is removed, no pet is added, and every pet with another id stays |
| Pets.DeleteRemovesOnlyThatPet | index.js:160-164 | deleting leaves exactly the pets with other ids |
| Campaigns.CreatedAt | index.js:196 | a campaign without `createdAt` sorts after every campaign that has one |
| Campaigns.Find | index.js:213-220 | `findOne({_id})` returns a stored campaign with that id, or nothing only when no campaign has it |
| Campaigns.CreateThenFind | index.js:185-188 | after `Campaigns.Create`, a created campaign is found under its new id with every field of the body; ids stay distinct |
| Campaigns.List | index.js:190-202 | refused exactly for a negative skip; otherwise the page is the newest-first campaigns from position `skip` on, exactly `min(limit, total - skip)` of them (none past the end), with `nextPage = page + 1` and `hasMore` exactly when `page * limit < total` |
| Campaigns.ListSound | index.js:190-202 | refused exactly for a negative skip; otherwise the page holds exactly `min(limit, total - skip)` stored campaigns (none past the end), newest first, exactly those ranked `skip` onwards, and `nextPage = page + 1` |
| Campaigns.ListHasMore | index.js:200-201 | from page 1 on with a positive limit, `page * limit < total` equals the catalog's `skip + returned < total`; then it holds exactly when the next page is not empty, and exactly when earlier pages have not returned every campaign, and it is false past the end |
| Campaigns.NegativeLimitHasMore | index.js:191-202 | with `?limit=-6` and one to six stored campaigns, the one page returns every campaign newest first and still reports `hasMore`, while the page after it is empty |
| Campaigns.ListCorrected | index.js:190-202 | the list with `hasMore = skip + returned < total`: the same page and `nextPage`, and `hasMore` exactly when campaigns remain after the page, for every limit |
| Campaigns.ListCorrectedAgrees | index.js:200-201 | from page 1 on with a positive limit, the corrected list is the list as written |
| Campaigns.Update | index.js:222-228 | every campaign either stays as it was or has that id and is merged with the body |
| Campaigns.UpdateOnlyTouchesThatCampaign | index.js:222-228 | an update overwrites the supplied fields of the campaign with that id and changes no other campaign |
| Campaigns.Pause | index.js:230-236 | every campaign either stays as it was or has that id and only `paused` replaced by the body's value (null when missing) |
| Campaigns.PauseOnlyTouchesPaused | index.js:230-236 | pausing changes only `paused`, only on the campaign with that id |
| Campaigns.Delete | index.js:238-243 | at most one campaign is removed, no campaign is added, and every campaign with another id stays |
| Campaigns.DeleteRemovesOnlyThatCampaign | index.js:238-243 | deleting leaves exactly the campaigns with other ids |
| Server.Server.constructor | index.js:33-41 | the server starts with empty collections, which are valid |
| Server.Server.PostUser | index.js:63-69 | answers "already exists" exactly when the email is taken, leaving everything unchanged; otherwise appends the body under a fresh id; the invariant is kept |
| Server.Server.GetUser | index.js:77-81 | returns the one user with that email, or nothing exactly when none has it |
| Server.Server.PutUser | index.js:83-90 | upserts by email, inserting exactly when no user has the email; the user with that email then carries the new `updatedAt`; pets and campaigns are untouched |
| Server.Server.PromoteUser | index.js:92-98 | refuses with the gate's reason and changes nothing unless the header names an admin; otherwise promotes the user with that id and reports whether one matched |
| Server.Server.PostPet | index.js:102-107 | inserts the body stamped with `now` under a fresh id, which then finds it |
| Server.Server.ListPets | index.js:116-141 | the step-by-step handler computes exactly the catalog page: sorted, and only stored pets meeting every criterion |
| Server.Server.GetPet | index.js:143-148 | returns a stored pet with that id, or nothing exactly when none has it |
| Server.Server.PatchPet | index.js:150-158 | merges the body into the pet with that id only, and reports whether one matched |
| Server.Server.DeletePet | index.js:160-164 | refuses and changes nothing unless the header names an admin; otherwise removes exactly the pet with that id |
| Server.Server.AdoptPet | index.js:166-174 | sets `adopted` on the pet with that id only, and reports whether one matched |
| Server.Server.AdminPets | index.js:176-179 | returns every pet to an admin, and refuses with the gate's reason otherwise |
| Server.Server.PostCampaign | index.js:185-188 | inserts the body as sent under a fresh id, which then finds it |
| Server.Server.ListCampaigns | index.js:190-202 | the handler computes exactly the campaign page: sorted, only stored campaigns, `nextPage = page + 1` |
| Server.Server.GetCampaign | index.js:213-220 | returns a stored campaign with that id, or nothing exactly when none has it |
| Server.Server.UpdateCampaign | index.js:222-228 | merges the body into the campaign with that id only, and reports whether one matched |
| Server.Server.PauseCampaign | index.js:230-236 | sets `paused` on the campaign with that id only, and reports whether one matched |
| Server.Server.DeleteCampaign | index.js:238-243 | removes exactly the campaign with that id, with no admin check |
| Routing.Dispatch | index.js:143-179 | the chosen handler belongs to the first registered route whose pattern matches; there is none exactly when no route matches |
| Routing.AdminListingShadowed | index.js:143-179 | as registered, `GET /pets/admin` runs the `/pets/:id` handler, and no path reaches the admin listing |
| Routing.CorrectedReachesAdminListing | index.js:143-179 | with `/pets/admin` registered before `/pets/:id`, `GET /pets/admin` reaches the admin listing, and every other path is dispatched as before |

## What the handlers do not check

The model does what the code does, including these gaps:

- `POST /pets` stores the body with `createdAt` added. It does not set `adopted = false`.
- `PATCH /pets/:id/adopt` has no owner or admin check.
- A new user gets no default role.
- `POST /users` and `PUT /users` store whatever `role` the body carries.
- Only `PATCH /users/admin/:id`, `DELETE /pets/:id` and `GET /pets/admin` are behind `verifyAdmin`.
- Campaign delete is open to everyone.

## Findings

| source | as written | input that shows it | evidently intended | confidence | as-written member | corrected member |
|---|---|---|---|---|---|---|
| index.js:143-179 | `GET /pets/:id` is registered before `GET /pets/admin`, and Express runs the first route that matches | `GET /pets/admin` dispatches to the by-id handler with `id = "admin"`, so the admin-only listing of all pets never runs | register `/pets/admin` before `/pets/:id`, as `/pets/all` already is | high (not executed) | Routing.AdminListingShadowed | Routing.CorrectedReachesAdminListing |
| index.js:191-202 | `hasMore = page * limit < total`, while the page is cut with `.limit(limit)`, which the driver takes as `\|limit\|` | `GET /donations-campaigns?limit=-6` with six campaigns returns all six and `hasMore: true`, although no campaign remains | `hasMore` tells whether campaigns remain after the page, as the pet catalog's `skip + pets.length < totalCount` does | medium (not executed) | Campaigns.NegativeLimitHasMore | Campaigns.ListCorrected |

## Left out

- **I/O and plumbing are not modelled:**
  - Express setup, CORS and JSON body parsing
  - `app.listen`
  - the MongoDB connection, ping and logging
  - response status codes and JSON encoding
- **`Server.Server.AdminPets` is not corrected.** The handler is modelled as written. `Routing` shows that no request reaches it with the routes as registered.
- **Stripe and payments are not modelled:**
  - `POST /create-payment-intent`, a call to an external gateway with floating-point `Math.round(amount * 100)`
  - the payment routes: `POST`, `GET`, `GET /user` and `DELETE`
- **Some plain reads are left out:**
  - `GET /users`
  - `GET /pets?email`
  - `GET /donations-campaigns/user`

  Each is a find with at most one equality filter, outside the modelled core.
- **Ids are abstract numbers from a counter.** ObjectId generation and the parsing of malformed ids, which throws inside the driver, are not modelled.
- **Timestamps are parameters.** `new Date().toISOString()` is a natural number `now`, because ISO strings sort chronologically.
- **Arbitrary body fields are not modelled.** Bodies are records of the fields the routes use; other fields a client sends, and `$set` of explicit nulls, are not modelled.
- **Timestamps in bodies are numbers.** A campaign's `createdAt` is whatever the client sent. `PATCH /pets/:id` does `$set: req.body` (index.js:152), so a client can also overwrite a pet's `createdAt`, and the catalog sorts by it (index.js:134). Both are natural numbers here; strings of other shapes and values of other types are not modelled.
- **`Paging.ParseInt` is only partly modelled:**
  - It skips only space, tab, CR and LF. It does not skip the other Unicode white space that JavaScript skips.
  - It uses exact integers. It does not model the double-precision rounding of very long digit runs.
  - It does not model a query parameter given twice, which arrives as an array.
- **`Pets.ContainsIgnoringCase` is only partly modelled.** It treats `search` as a literal, ASCII case-insensitive substring. Regular-expression metacharacters and Unicode case folding are not modelled.
- **`Ordering.SortDesc` fixes the order of ties.** It is a stable sort, so pets or campaigns with equal `createdAt` keep store order. MongoDB leaves their order unspecified.
- **Each request is one atomic step.** The model runs requests one at a time, each to completion. `POST /users` does a `findOne` and then an `insertOne` (index.js:66-68), and no unique index on `email` is created. So two concurrent requests with the same new email can both insert. `Users.EmailsUnique` and `Server.Server.Valid` hold only for requests that run one after another.
- **Query parameters and body fields are single scalar values.** Each is a string or a boolean, or absent. Express can hand a handler other shapes, which are not modelled:
  - a repeated `?category=` arrives as an array (index.js:121, 127);
  - with the extended query parser, `?email[$ne]=x` puts a query operator into `req.query.email` (index.js:123, 129), and the catalog then returns pets whose owner is not `x`;
  - a JSON body whose `email` is an object becomes an operator in `findOne({ email })` (index.js:65-66).
- **`Campaigns.List` assumes one consistent snapshot.** It takes `estimatedDocumentCount` as the exact size of the snapshot the page is cut from, and runs count and find against that same snapshot. Concurrent writers and the estimate's approximation are not modelled.
- **`Pets.Catalog` assumes the same for `countDocuments` and `find`.**
- **`Routing.Dispatch` covers `GET` routes only.** It compares path segments exactly. Express's case-insensitive matching, trailing-slash tolerance and percent-decoding are not modelled.
- **`Campaigns.Pause` assumes a request body.** The pause route reads `req.body.paused` with no fallback (index.js:233). Without a body that read throws and nothing is written. `Campaigns.Pause` and `Server.Server.PauseCampaign` always write, with `paused` absent when the body lacks it.
- **`Server.Server.ListCampaigns` keeps the formula as written.** It returns `Campaigns.List`, with `hasMore = page * limit < total`; the corrected list is `Campaigns.ListCorrected`.
- **`Pets.AdoptedValue` models both body cases.** `req.body \|\| {...}` is modelled for a missing body and for a present one. Whether the JSON parser leaves the body missing depends on the Express version, which is not part of this model.
