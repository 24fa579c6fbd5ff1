/** The `pets` collection: the catalog query of `GET /pets/all`, and `POST /pets`,
    `GET /pets/:id`, `PATCH /pets/:id`, `PATCH /pets/:id/adopt`, `DELETE /pets/:id`. */
module Pets {
  import opened Common
  import opened Paging
  import opened Ordering

  /** A stored pet; `email` is the owner's. `None` is a field that is absent or null. */
  datatype Pet = Pet(id: Id, email: Option<string>, name: Option<string>, category: Option<string>,
                     adopted: Option<bool>, createdAt: nat)

  /** The fields of a request body: `Some` for a field the body supplies. */
  datatype PetBody = PetBody(email: Option<string>, name: Option<string>, category: Option<string>,
                             adopted: Option<bool>, createdAt: Option<nat>)

  function IdOf(p: Pet): Id { p.id }
  function CreatedAt(p: Pet): int { p.createdAt }

  /** Distinct ids below the id counter. */
  predicate StoreValid(pets: seq<Pet>, nextId: Id)
  {
    KeysDistinct(pets, IdOf) && forall p :: p in pets ==> p.id < nextId
  }

  // ---------------------------------------------------------------------------
  // Case-insensitive search, `{ $regex: search, $options: "i" }` on a literal search text

  function Lower(c: char): char
  {
    if 'A' <= c <= 'Z' then ((c as int) - ('A' as int) + ('a' as int)) as char else c
  }

  predicate OccursAt(needle: string, hay: string, i: nat)
    requires i + |needle| <= |hay|
  {
    forall k :: 0 <= k < |needle| ==> Lower(hay[i + k]) == Lower(needle[k])
  }

  predicate ContainsIgnoringCase(hay: string, needle: string)
  {
    exists i: nat :: i + |needle| <= |hay| && OccursAt(needle, hay, i)
  }

  // ---------------------------------------------------------------------------
  // The query document of GET /pets/all

  /** The query string of `GET /pets/all`; every parameter may be missing. */
  datatype CatalogParams = CatalogParams(page: Option<string>, limit: Option<string>,
                                         search: Option<string>, category: Option<string>,
                                         adopted: Option<string>, email: Option<string>)

  /** A MongoDB query document over pets: each `Some` field is one condition. */
  datatype PetQuery = PetQuery(name: Option<string>, category: Option<string>,
                               adopted: Option<bool>, email: Option<string>)

  /** How the store evaluates a query document on a pet. */
  predicate Matches(p: Pet, q: PetQuery)
  {
    && (q.name.Some? ==> p.name.Some? && ContainsIgnoringCase(p.name.value, q.name.value))
    && (q.category.Some? ==> p.category == q.category)
    && (q.adopted.Some? ==> p.adopted == q.adopted)
    && (q.email.Some? ==> p.email == q.email)
  }

  /** The query document built from the parameters. */
  function QueryOf(params: CatalogParams): PetQuery
  {
    var search := OrEmpty(params.search);
    var category := OrEmpty(params.category);
    PetQuery(if search != "" then Some(search) else None,
             if category != "" then Some(category) else None,
             if params.adopted == Some("false") then Some(false) else None,
             if Truthy(params.email) then params.email else None)
  }

  /** What a client asks for: the name contains `search` ignoring case when `search` is
      given; the category equals `category` when given; the pet is not adopted when
      `adopted` is exactly `"false"`, and adoption is not constrained otherwise; the
      owner email equals `email` when given. */
  predicate Requested(params: CatalogParams, p: Pet)
  {
    && (Truthy(params.search) ==> p.name.Some? && ContainsIgnoringCase(p.name.value, params.search.value))
    && (Truthy(params.category) ==> p.category == params.category)
    && (params.adopted == Some("false") ==> p.adopted == Some(false))
    && (Truthy(params.email) ==> p.email == params.email)
  }

  /** The query document selects exactly the pets the client asked for. */
  lemma {:induction false} QueryMeansRequested(params: CatalogParams, p: Pet)
    ensures Matches(p, QueryOf(params)) <==> Requested(params, p)
  {
  }

  /** The query of `GET /pets/all` as the handler builds it: start from `{}` and add
      one condition per supplied parameter. */
  method BuildQuery(params: CatalogParams) returns (q: PetQuery)
    ensures q == QueryOf(params)
    ensures forall p :: Matches(p, q) <==> Requested(params, p)
  {
    var search := OrEmpty(params.search);
    var category := OrEmpty(params.category);
    var adopted: Option<bool> := if params.adopted == Some("false") then Some(false) else None;
    q := PetQuery(None, None, None, None);
    if search != "" {
      q := q.(name := Some(search));
    }
    if category != "" {
      q := q.(category := Some(category));
    }
    if adopted.Some? {
      q := q.(adopted := adopted);
    }
    if Truthy(params.email) {
      q := q.(email := params.email);
    }
  }

  // ---------------------------------------------------------------------------
  // countDocuments, find().sort().skip().limit()

  /** The matching pets in store order. */
  function Filter(pets: seq<Pet>, q: PetQuery): (r: seq<Pet>)
    ensures |r| <= |pets|
    ensures forall p :: p in r <==> p in pets && Matches(p, q)
  {
    if pets == [] then []
    else
      assert pets == [pets[0]] + pets[1..];
      (if Matches(pets[0], q) then [pets[0]] else []) + Filter(pets[1..], q)
  }

  /** `countDocuments(query)` counts the matching pets: every matching pet is kept as
      many times as it is stored, and no other pet is kept. */
  lemma {:induction false} FilterCounts(pets: seq<Pet>, q: PetQuery)
    ensures forall p :: multiset(Filter(pets, q))[p] == if Matches(p, q) then multiset(pets)[p] else 0
  {
    if pets != [] {
      FilterCounts(pets[1..], q);
      assert pets == [pets[0]] + pets[1..];
      assert multiset(pets) == multiset{pets[0]} + multiset(pets[1..]);
    }
  }

  /** The matching pets, newest first. */
  function Ranked(pets: seq<Pet>, q: PetQuery): seq<Pet>
  {
    SortDesc(Filter(pets, q), CreatedAt)
  }

  datatype CatalogPage = CatalogPage(pets: seq<Pet>, hasMore: bool)

  /** The response of `GET /pets/all` for a built query and page request: the matches
      ranked newest first from `skip` on, at most `limit` of them (all of them for a
      limit of 0), with `hasMore` telling whether matches are left after them; `None`
      when the store rejects a negative skip. */
  function Listing(store: seq<Pet>, q: PetQuery, paging: Paging): (r: Option<CatalogPage>)
    ensures r.Some? <==> Skip(paging) >= 0
    ensures r.Some? ==>
              var ranked := Ranked(store, q);
              && |r.value.pets| == (if Skip(paging) >= |ranked| then 0
                                    else if paging.limit == 0 then |ranked| - Skip(paging)
                                    else Min(Abs(paging.limit), |ranked| - Skip(paging)))
              && (forall k :: 0 <= k < |r.value.pets| ==> r.value.pets[k] == ranked[Skip(paging) + k])
              && (r.value.hasMore <==> Skip(paging) + |r.value.pets| < |ranked|)
  {
    match WindowOf(paging)
    case None => None
    case Some(w) =>
      var totalCount := |Filter(store, q)|;
      var ranked := Ranked(store, q);
      assert |ranked| == totalCount;
      var pets := Slice(ranked, w);
      Some(CatalogPage(pets, CountHasMore(w.skip, |pets|, totalCount)))
  }

  /** The response of `GET /pets/all`. */
  function Catalog(store: seq<Pet>, params: CatalogParams): Option<CatalogPage>
  {
    Listing(store, QueryOf(params), ReadPaging(params.page, params.limit))
  }

  /** A window of the ranked matches holds stored matching pets, newest first. */
  lemma {:induction false} WindowSound(store: seq<Pet>, q: PetQuery, w: Window)
    ensures var pets := Slice(Ranked(store, q), w);
            && SortedDesc(pets, CreatedAt)
            && forall p :: p in pets ==> p in store && Matches(p, q)
  {
    var matching := Filter(store, q);
    var ranked := SortDesc(matching, CreatedAt);
    var pets := Slice(ranked, w);
    SliceOfSorted(ranked, w, CreatedAt);
    forall p | p in pets ensures p in matching {
      SortKeepsMembers(matching, CreatedAt, p);
    }
  }

  /** Every returned pet is a stored pet meeting every supplied criterion; a page holds
      at most `limit` pets, newest first, and is exactly the run of the newest-first
      matches that starts at `skip`. Only a negative skip is refused. */
  lemma {:induction false} CatalogSound(store: seq<Pet>, params: CatalogParams)
    ensures var paging := ReadPaging(params.page, params.limit);
            var r := Catalog(store, params);
            && (r.Some? <==> Skip(paging) >= 0)
            && (r.Some? ==>
                  && |r.value.pets| <= Abs(paging.limit)
                  && |r.value.pets| == (if Skip(paging) >= |Ranked(store, QueryOf(params))| then 0
                                        else Min(Abs(paging.limit), |Ranked(store, QueryOf(params))| - Skip(paging)))
                  && SortedDesc(r.value.pets, CreatedAt)
                  && (forall p :: p in r.value.pets ==> p in store && Requested(params, p))
                  && (forall k :: 0 <= k < |r.value.pets| ==>
                        r.value.pets[k] == Ranked(store, QueryOf(params))[Skip(paging) + k]))
  {
    var paging := ReadPaging(params.page, params.limit);
    match WindowOf(paging)
    case None =>
    case Some(w) =>
      var q := QueryOf(params);
      var pets := Slice(Ranked(store, q), w);
      assert Catalog(store, params) == Some(CatalogPage(pets, CountHasMore(w.skip, |pets|, |Filter(store, q)|)));
      WindowSound(store, q, w);
      forall p | p in pets ensures Requested(params, p) {
        QueryMeansRequested(params, p);
      }
  }

  /** `hasMore` compares against the exact number of matches: it holds exactly when the
      next page is not empty, and exactly when pages 1..page have not yet returned every
      match. A page that starts at or past the last match is empty, without `hasMore`. */
  lemma {:induction false} CatalogHasMore(store: seq<Pet>, params: CatalogParams)
    ensures var paging := ReadPaging(params.page, params.limit);
            var r := Catalog(store, params);
            var ranked := Ranked(store, QueryOf(params));
            && (r.Some? && Skip(paging) >= |ranked| ==> r.value.pets == [] && !r.value.hasMore)
            && (r.Some? && paging.page >= 1 && paging.limit >= 1 ==>
                  && (r.value.hasMore <==> Slice(ranked, Window(Skip(paging) + paging.limit, paging.limit)) != [])
                  && (r.value.hasMore <==> |PagesUpTo(ranked, paging.page, paging.limit)| < |ranked|))
  {
    var paging := ReadPaging(params.page, params.limit);
    var q := QueryOf(params);
    var ranked := Ranked(store, q);
    assert |ranked| == |Filter(store, q)|;
    if paging.page >= 1 && paging.limit >= 1 {
      PageFormulasAgree(ranked, paging);
      HasMoreIffNextPageNonEmpty(ranked, Skip(paging), paging.limit);
      HasMoreIffUnseen(ranked, paging);
    }
  }

  /** Paging through with a fixed limit reaches every matching pet: the pet of rank `i`
      among the newest-first matches is on page `i / limit + 1`. (`PagingDefaults` gives
      the page request that the texts `?page=N&limit=M` become.) */
  lemma {:induction false} ListingReachesEveryMatch(store: seq<Pet>, params: CatalogParams, limit: int, p: Pet)
    requires limit >= 1
    requires p in store && Requested(params, p)
    ensures exists page: int ::
              page >= 1 &&
              var r := Listing(store, QueryOf(params), Paging(page, limit));
              r.Some? && p in r.value.pets
  {
    var q := QueryOf(params);
    QueryMeansRequested(params, p);
    var matching := Filter(store, q);
    assert p in matching;
    SortKeepsMembers(matching, CreatedAt, p);
    var ranked := SortDesc(matching, CreatedAt);
    SomePageHolds(ranked, p, limit);
    var page :| page >= 1 && WindowOf(Paging(page, limit)).Some?
                && p in Slice(ranked, WindowOf(Paging(page, limit)).value);
    var r := Listing(store, q, Paging(page, limit));
    assert r.Some? && p in r.value.pets;
  }

  // ---------------------------------------------------------------------------
  // POST /pets, GET /pets/:id

  /** The document `insertOne(pet)` stores after `pet.createdAt` is stamped. */
  function NewPet(body: PetBody, id: Id, now: nat): Pet
  {
    Pet(id, body.email, body.name, body.category, body.adopted, now)
  }

  function Create(pets: seq<Pet>, body: PetBody, id: Id, now: nat): seq<Pet>
  {
    pets + [NewPet(body, id, now)]
  }

  /** `findOne({ _id: id })`. */
  function Find(pets: seq<Pet>, id: Id): (r: Option<Pet>)
    ensures r.Some? ==> r.value in pets && r.value.id == id
    ensures r.None? ==> forall p :: p in pets ==> p.id != id
  {
    match FirstWhere(pets, (p: Pet) => p.id == id)
    case None => None
    case Some(i) => Some(pets[i])
  }

  /** Creating a pet and then fetching it by its new id gives back every field of the
      body, with `createdAt` set to the creation time; the store stays valid. */
  lemma {:induction false} CreateThenFind(pets: seq<Pet>, nextId: Id, body: PetBody, now: nat)
    requires StoreValid(pets, nextId)
    ensures StoreValid(Create(pets, body, nextId, now), nextId + 1)
    ensures var found := Find(Create(pets, body, nextId, now), nextId);
            && found.Some?
            && found.value.email == body.email && found.value.name == body.name
            && found.value.category == body.category && found.value.adopted == body.adopted
            && found.value.createdAt == now
  {
    var r := Create(pets, body, nextId, now);
    forall i, j | 0 <= i < j < |r| ensures IdOf(r[i]) != IdOf(r[j]) {
      if j == |pets| {
        assert r[i] in pets;
      }
    }
    FirstWhereKeyUnique(r, IdOf, nextId, |pets|);
  }

  // ---------------------------------------------------------------------------
  // PATCH /pets/:id, PATCH /pets/:id/adopt, DELETE /pets/:id

  /** `$set: req.body` on one pet: every supplied field is overwritten. */
  function Apply(p: Pet, body: PetBody): (r: Pet)
    ensures r.id == p.id
  {
    Pet(p.id, Override(body.email, p.email), Override(body.name, p.name),
        Override(body.category, p.category), Override(body.adopted, p.adopted),
        if body.createdAt.Some? then body.createdAt.value else p.createdAt)
  }

  /** `PATCH /pets/:id`: the pet with that id is merged with the body, and no other pet
      changes. */
  function Patch(pets: seq<Pet>, id: Id, body: PetBody): (r: seq<Pet>)
    ensures |r| == |pets|
    ensures forall k :: 0 <= k < |pets| ==>
              r[k] == pets[k] || (pets[k].id == id && r[k] == Apply(pets[k], body))
  {
    UpdateByKey(pets, IdOf, id, (p: Pet) => Apply(p, body))
  }

  /** The body of `PATCH /pets/:id/adopt`: none at all, or one whose `adopted` field may
      be missing. */
  datatype AdoptBody = NoBody | Body(adopted: Option<bool>)

  /** `const { adopted } = req.body || { adopted: true }`, stored by `$set`; a missing
      field is `undefined`, which the driver writes as null. */
  function AdoptedValue(b: AdoptBody): (v: Option<bool>)
    ensures b.NoBody? ==> v == Some(true)
    ensures b.Body? ==> v == b.adopted
  {
    match b
    case NoBody => Some(true)
    case Body(a) => a
  }

  function SetAdoptedOn(p: Pet, v: Option<bool>): Pet
  {
    p.(adopted := v)
  }

  /** `PATCH /pets/:id/adopt`: only `adopted` changes, and only on a pet with that id. */
  function SetAdopted(pets: seq<Pet>, id: Id, b: AdoptBody): (r: seq<Pet>)
    ensures |r| == |pets|
    ensures forall k :: 0 <= k < |pets| ==>
              r[k] == pets[k] || (pets[k].id == id && r[k] == pets[k].(adopted := AdoptedValue(b)))
  {
    UpdateByKey(pets, IdOf, id, (p: Pet) => SetAdoptedOn(p, AdoptedValue(b)))
  }

  /** Setting the adoption flag changes only `adopted`, only on the pet with that id. */
  lemma {:induction false} SetAdoptedOnlyTouchesAdopted(pets: seq<Pet>, nextId: Id, id: Id, b: AdoptBody)
    requires StoreValid(pets, nextId)
    ensures StoreValid(SetAdopted(pets, id, b), nextId)
    ensures var r := SetAdopted(pets, id, b);
            |r| == |pets| &&
            forall k :: 0 <= k < |pets| ==>
              r[k] == if pets[k].id == id then pets[k].(adopted := AdoptedValue(b)) else pets[k]
  {
    var f := (p: Pet) => SetAdoptedOn(p, AdoptedValue(b));
    UpdateByKeyExact(pets, IdOf, id, f, IdOf);
    UpdatedIdsBelow(pets, SetAdopted(pets, id, b), nextId);
  }

  /** A patch overwrites the supplied fields of the pet with that id and changes no
      other pet. */
  lemma {:induction false} PatchOnlyTouchesThatPet(pets: seq<Pet>, nextId: Id, id: Id, body: PetBody)
    requires StoreValid(pets, nextId)
    ensures StoreValid(Patch(pets, id, body), nextId)
    ensures var r := Patch(pets, id, body);
            |r| == |pets| &&
            forall k :: 0 <= k < |pets| ==>
              r[k] == if pets[k].id == id then Apply(pets[k], body) else pets[k]
  {
    var f := (p: Pet) => Apply(p, body);
    UpdateByKeyExact(pets, IdOf, id, f, IdOf);
    UpdatedIdsBelow(pets, Patch(pets, id, body), nextId);
  }

  lemma {:induction false} UpdatedIdsBelow(pets: seq<Pet>, r: seq<Pet>, nextId: Id)
    requires forall p :: p in pets ==> p.id < nextId
    requires |r| == |pets| && forall k :: 0 <= k < |r| ==> r[k].id == pets[k].id
    ensures forall p :: p in r ==> p.id < nextId
  {
    forall p | p in r ensures p.id < nextId {
      var k :| 0 <= k < |r| && r[k] == p;
      assert pets[k] in pets;
    }
  }

  /** `DELETE /pets/:id`: at most one pet goes, it has that id, and every pet with
      another id stays. */
  function Delete(pets: seq<Pet>, id: Id): (r: seq<Pet>)
    ensures |pets| - 1 <= |r| <= |pets|
    ensures forall p :: p in r ==> p in pets
    ensures forall p :: p in pets && p.id != id ==> p in r
  {
    DeleteByKey(pets, IdOf, id)
  }

  /** Deleting removes the pet with that id and keeps every other pet. */
  lemma {:induction false} DeleteRemovesOnlyThatPet(pets: seq<Pet>, nextId: Id, id: Id)
    requires StoreValid(pets, nextId)
    ensures StoreValid(Delete(pets, id), nextId)
    ensures forall p :: p in Delete(pets, id) <==> p in pets && p.id != id
  {
    DeleteByKeyExact(pets, IdOf, id, IdOf);
  }
}
