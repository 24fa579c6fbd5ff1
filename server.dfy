/** The route handlers of the PawAdopt server over in-memory `users`, `pets` and
    `donations-campaigns` collections. Each handler reads or replaces the collections it
    touches; `nextId` hands out the ids the store would generate. */
module Server {
  import opened Common
  import opened Paging
  import Users
  import Pets
  import Campaigns
  import opened Ordering

  /** The response of `POST /users`. */
  datatype UserCreation = AlreadyExists | InsertedUser(id: Id)

  /** The response of a write behind `verifyAdmin`: a 403 with its reason, or the number
      of documents the write matched. */
  datatype GatedWrite = Forbidden(reason: Users.Gate) | Written(count: nat)

  /** The response of `GET /pets/admin`: a 403 with its reason, or every pet. */
  datatype GatedRead = Refused(reason: Users.Gate) | AllPets(pets: seq<Pets.Pet>)

  /** `matchedCount` / `deletedCount` of a write by id: 1 when a document has that id. */
  function CountOf(found: Option<nat>): (n: nat)
    ensures n == 1 <==> found.Some?
    ensures n <= 1
  {
    if found.Some? then 1 else 0
  }

  class Server {
    var users: seq<Users.User>
    var pets: seq<Pets.Pet>
    var campaigns: seq<Campaigns.Campaign>
    var nextId: Id

    /** Every collection has distinct ids below `nextId`; user emails are unique. */
    ghost predicate Valid()
      reads this
    {
      && Users.StoreValid(users, nextId)
      && Pets.StoreValid(pets, nextId)
      && Campaigns.StoreValid(campaigns, nextId)
    }

    /** Empty collections. */
    constructor ()
      ensures Valid()
      ensures users == [] && pets == [] && campaigns == [] && nextId == 0
    {
      users := [];
      pets := [];
      campaigns := [];
      nextId := 0;
    }

    // -------------------------------------------------------------------------
    // Users

    /** `POST /users`: insert the body unless its email is taken. */
    method PostUser(body: Users.UserBody) returns (r: UserCreation)
      requires Valid()
      modifies this
      ensures Valid()
      ensures r == AlreadyExists <==> Users.HasEmail(old(users), body.email)
      ensures r.AlreadyExists? ==> users == old(users) && nextId == old(nextId)
      ensures r.InsertedUser? ==>
                && r.id == old(nextId) && nextId == old(nextId) + 1
                && users == old(users) + [Users.Inserted(body, r.id)]
      ensures users == Users.Create(old(users), body, old(nextId))
      ensures pets == old(pets) && campaigns == old(campaigns)
    {
      var existing := Users.FindByEmail(users, body.email);
      if existing.Some? {
        return AlreadyExists;
      }
      Users.CreateKeepsValid(users, nextId, body);
      users := users + [Users.Inserted(body, nextId)];
      r := InsertedUser(nextId);
      nextId := nextId + 1;
    }

    /** `GET /users/:email`: the user with that email, or nothing (`{}`). */
    method GetUser(email: string) returns (r: Option<Users.User>)
      requires Valid()
      ensures r.Some? <==> Users.HasEmail(users, Some(email))
      ensures r.Some? ==> r.value in users && r.value.email == Some(email)
      ensures r.Some? ==> forall u :: u in users && u.email == Some(email) ==> u == r.value
    {
      var found := Users.FindByEmail(users, Some(email));
      if found.None? {
        return None;
      }
      r := Some(users[found.value]);
      forall u | u in users && u.email == Some(email) ensures u == r.value {
        var k :| 0 <= k < |users| && users[k] == u;
        assert Users.EmailOf(users[k]) == Users.EmailOf(users[found.value]);
      }
    }

    /** `PUT /users`: merge the body into the user with its email and stamp `updatedAt`,
        or insert a user when none has that email. */
    method PutUser(body: Users.UserBody, now: nat) returns (upserted: Option<Id>)
      requires Valid()
      modifies this
      ensures Valid()
      ensures users == Users.Upsert(old(users), body, now, old(nextId))
      ensures upserted.None? <==> Users.HasEmail(old(users), body.email)
      ensures upserted.Some? ==> upserted.value == old(nextId) && nextId == old(nextId) + 1
      ensures upserted.None? ==> nextId == old(nextId) && |users| == |old(users)|
      ensures var found := Users.FindByEmail(users, body.email);
              found.Some? && users[found.value].updatedAt == Some(now)
      ensures pets == old(pets) && campaigns == old(campaigns)
    {
      Users.UpsertKeepsValid(users, nextId, body, now);
      var existing := Users.FindByEmail(users, body.email);
      users := Users.Upsert(users, body, now, nextId);
      if existing.Some? {
        upserted := None;
      } else {
        upserted := Some(nextId);
        nextId := nextId + 1;
      }
    }

    /** `PATCH /users/admin/:id` behind `verifyAdmin`: refused without changes unless the
        `email` header names an admin; otherwise the user with that id becomes an admin. */
    method PromoteUser(header: Option<string>, id: Id) returns (r: GatedWrite)
      requires Valid()
      modifies this
      ensures Valid()
      ensures r.Forbidden? <==> Users.AdminGate(old(users), header) != Users.Pass
      ensures r.Forbidden? ==> r.reason == Users.AdminGate(old(users), header) && users == old(users)
      ensures r.Written? ==>
                && users == Users.Promote(old(users), id)
                && (r.count == 1 <==> exists u :: u in old(users) && u.id == id)
      ensures pets == old(pets) && campaigns == old(campaigns) && nextId == old(nextId)
    {
      var gate := Users.AdminGate(users, header);
      if gate != Users.Pass {
        return Forbidden(gate);
      }
      var found := FirstWhere(users, (u: Users.User) => u.id == id);
      Users.PromoteOnlyTouchesRole(users, nextId, id);
      users := Users.Promote(users, id);
      r := Written(CountOf(found));
    }

    // -------------------------------------------------------------------------
    // Pets

    /** `POST /pets`: stamp `createdAt` with the current time and insert the body. */
    method PostPet(body: Pets.PetBody, now: nat) returns (id: Id)
      requires Valid()
      modifies this
      ensures Valid()
      ensures id == old(nextId) && nextId == old(nextId) + 1
      ensures pets == Pets.Create(old(pets), body, id, now)
      ensures var found := Pets.Find(pets, id);
              && found.Some? && found.value.createdAt == now
              && found.value.name == body.name && found.value.category == body.category
              && found.value.email == body.email && found.value.adopted == body.adopted
      ensures users == old(users) && campaigns == old(campaigns)
    {
      Pets.CreateThenFind(pets, nextId, body, now);
      id := nextId;
      pets := Pets.Create(pets, body, id, now);
      nextId := nextId + 1;
    }

    /** `GET /pets/all`: build the query condition by condition, count the matches, and
        cut the requested page from the newest-first matches. */
    method ListPets(params: Pets.CatalogParams) returns (r: Option<Pets.CatalogPage>)
      ensures r == Pets.Catalog(pets, params)
      ensures r.Some? ==>
                && SortedDesc(r.value.pets, Pets.CreatedAt)
                && forall p :: p in r.value.pets ==> p in pets && Pets.Requested(params, p)
    {
      var q := Pets.BuildQuery(params);
      var page := IntOr(params.page, DefaultPage);
      var limit := IntOr(params.limit, DefaultLimit);
      var paging := Paging(page, limit);
      assert paging == ReadPaging(params.page, params.limit);
      var skip := (page - 1) * limit;
      var totalCount := |Pets.Filter(pets, q)|;
      if skip < 0 {
        assert WindowOf(paging).None?;
        return None;
      }
      var w := Window(skip, Abs(limit));
      assert WindowOf(paging) == Some(w);
      var found := Slice(Pets.Ranked(pets, q), w);
      var hasMore := skip + |found| < totalCount;
      r := Some(Pets.CatalogPage(found, hasMore));
      assert r == Pets.Listing(pets, q, paging);
      assert SortedDesc(found, Pets.CreatedAt) && forall p :: p in found ==> p in pets && Pets.Requested(params, p) by {
        Pets.CatalogSound(pets, params);
      }
    }

    /** `GET /pets/:id`: the pet with that id, or 404. */
    method GetPet(id: Id) returns (r: Option<Pets.Pet>)
      ensures r.Some? ==> r.value in pets && r.value.id == id
      ensures r.None? <==> forall p :: p in pets ==> p.id != id
    {
      r := Pets.Find(pets, id);
    }

    /** `PATCH /pets/:id`: overwrite the supplied fields of the pet with that id. */
    method PatchPet(id: Id, body: Pets.PetBody) returns (matched: nat)
      requires Valid()
      modifies this
      ensures Valid()
      ensures pets == Pets.Patch(old(pets), id, body)
      ensures matched == 1 <==> exists p :: p in old(pets) && p.id == id
      ensures forall k :: 0 <= k < |old(pets)| ==>
                pets[k] == if old(pets)[k].id == id then Pets.Apply(old(pets)[k], body) else old(pets)[k]
      ensures users == old(users) && campaigns == old(campaigns) && nextId == old(nextId)
    {
      matched := CountOf(FirstWhere(pets, (p: Pets.Pet) => p.id == id));
      Pets.PatchOnlyTouchesThatPet(pets, nextId, id, body);
      pets := Pets.Patch(pets, id, body);
    }

    /** `PATCH /pets/:id/adopt`: store the body's `adopted` (true without a body) on the
        pet with that id. No owner or role check is made. */
    method AdoptPet(id: Id, body: Pets.AdoptBody) returns (matched: nat)
      requires Valid()
      modifies this
      ensures Valid()
      ensures pets == Pets.SetAdopted(old(pets), id, body)
      ensures matched == 1 <==> exists p :: p in old(pets) && p.id == id
      ensures forall k :: 0 <= k < |old(pets)| ==>
                pets[k] == if old(pets)[k].id == id then old(pets)[k].(adopted := Pets.AdoptedValue(body))
                           else old(pets)[k]
      ensures users == old(users) && campaigns == old(campaigns) && nextId == old(nextId)
    {
      matched := CountOf(FirstWhere(pets, (p: Pets.Pet) => p.id == id));
      Pets.SetAdoptedOnlyTouchesAdopted(pets, nextId, id, body);
      pets := Pets.SetAdopted(pets, id, body);
    }

    /** `DELETE /pets/:id` behind `verifyAdmin`. */
    method DeletePet(header: Option<string>, id: Id) returns (r: GatedWrite)
      requires Valid()
      modifies this
      ensures Valid()
      ensures r.Forbidden? <==> Users.AdminGate(old(users), header) != Users.Pass
      ensures r.Forbidden? ==> r.reason == Users.AdminGate(old(users), header) && pets == old(pets)
      ensures r.Written? ==>
                && pets == Pets.Delete(old(pets), id)
                && (forall p :: p in pets <==> p in old(pets) && p.id != id)
                && (r.count == 1 <==> exists p :: p in old(pets) && p.id == id)
      ensures users == old(users) && campaigns == old(campaigns) && nextId == old(nextId)
    {
      var gate := Users.AdminGate(users, header);
      if gate != Users.Pass {
        return Forbidden(gate);
      }
      var found := FirstWhere(pets, (p: Pets.Pet) => p.id == id);
      Pets.DeleteRemovesOnlyThatPet(pets, nextId, id);
      pets := Pets.Delete(pets, id);
      r := Written(CountOf(found));
    }

    /** `GET /pets/admin` behind `verifyAdmin`: every pet, for an admin only. */
    method AdminPets(header: Option<string>) returns (r: GatedRead)
      ensures r.Refused? <==> Users.AdminGate(users, header) != Users.Pass
      ensures r.Refused? ==> r.reason == Users.AdminGate(users, header)
      ensures r.AllPets? ==> r.pets == pets
    {
      var gate := Users.AdminGate(users, header);
      if gate != Users.Pass {
        return Refused(gate);
      }
      r := AllPets(pets);
    }

    // -------------------------------------------------------------------------
    // Donation campaigns

    /** `POST /donations-campaigns`: insert the body as sent. */
    method PostCampaign(body: Campaigns.CampaignBody) returns (id: Id)
      requires Valid()
      modifies this
      ensures Valid()
      ensures id == old(nextId) && nextId == old(nextId) + 1
      ensures campaigns == Campaigns.Create(old(campaigns), body, id)
      ensures var found := Campaigns.Find(campaigns, id);
              && found.Some? && found.value.title == body.title && found.value.createdBy == body.createdBy
              && found.value.paused == body.paused && found.value.createdAt == body.createdAt
      ensures users == old(users) && pets == old(pets)
    {
      Campaigns.CreateThenFind(campaigns, nextId, body);
      id := nextId;
      campaigns := Campaigns.Create(campaigns, body, id);
      nextId := nextId + 1;
    }

    /** `GET /donations-campaigns`: one page of all campaigns, newest first. */
    method ListCampaigns(page: Option<string>, limit: Option<string>) returns (r: Option<Campaigns.CampaignPage>)
      ensures r == Campaigns.List(campaigns, page, limit)
      ensures r.Some? ==>
                && r.value.nextPage == ReadPaging(page, limit).page + 1
                && SortedDesc(r.value.campaigns, Campaigns.CreatedAt)
                && forall c :: c in r.value.campaigns ==> c in campaigns
    {
      var p := IntOr(page, DefaultPage);
      var l := IntOr(limit, DefaultLimit);
      var paging := Paging(p, l);
      assert paging == ReadPaging(page, limit);
      var skip := (p - 1) * l;
      if skip < 0 {
        assert WindowOf(paging).None?;
        return None;
      }
      var w := Window(skip, Abs(l));
      assert WindowOf(paging) == Some(w);
      var found := Slice(Campaigns.Newest(campaigns), w);
      var total := |campaigns|;
      var hasMore := p * l < total;
      r := Some(Campaigns.CampaignPage(found, p + 1, hasMore));
      assert r == Campaigns.List(campaigns, page, limit) by {
        assert hasMore == PageHasMore(paging, total);
        assert Campaigns.List(campaigns, page, limit)
            == Some(Campaigns.CampaignPage(Slice(Campaigns.Newest(campaigns), w), paging.page + 1, PageHasMore(paging, total)));
      }
      Campaigns.ListSound(campaigns, page, limit);
    }

    /** `GET /donations-campaigns/:id`: the campaign with that id, or 404. */
    method GetCampaign(id: Id) returns (r: Option<Campaigns.Campaign>)
      ensures r.Some? ==> r.value in campaigns && r.value.id == id
      ensures r.None? <==> forall c :: c in campaigns ==> c.id != id
    {
      r := Campaigns.Find(campaigns, id);
    }

    /** `PUT /donations-campaigns/:id`: overwrite the supplied fields. */
    method UpdateCampaign(id: Id, body: Campaigns.CampaignBody) returns (matched: nat)
      requires Valid()
      modifies this
      ensures Valid()
      ensures campaigns == Campaigns.Update(old(campaigns), id, body)
      ensures matched == 1 <==> exists c :: c in old(campaigns) && c.id == id
      ensures forall k :: 0 <= k < |old(campaigns)| ==>
                campaigns[k] == if old(campaigns)[k].id == id then Campaigns.Apply(old(campaigns)[k], body)
                                else old(campaigns)[k]
      ensures users == old(users) && pets == old(pets) && nextId == old(nextId)
    {
      matched := CountOf(FirstWhere(campaigns, (c: Campaigns.Campaign) => c.id == id));
      Campaigns.UpdateOnlyTouchesThatCampaign(campaigns, nextId, id, body);
      campaigns := Campaigns.Update(campaigns, id, body);
    }

    /** `PATCH /donations-campaigns/:id/pause`: store the body's `paused` (null when the
        body has none). */
    method PauseCampaign(id: Id, paused: Option<bool>) returns (matched: nat)
      requires Valid()
      modifies this
      ensures Valid()
      ensures campaigns == Campaigns.Pause(old(campaigns), id, paused)
      ensures matched == 1 <==> exists c :: c in old(campaigns) && c.id == id
      ensures forall k :: 0 <= k < |old(campaigns)| ==>
                campaigns[k] == if old(campaigns)[k].id == id then old(campaigns)[k].(paused := paused)
                                else old(campaigns)[k]
      ensures users == old(users) && pets == old(pets) && nextId == old(nextId)
    {
      matched := CountOf(FirstWhere(campaigns, (c: Campaigns.Campaign) => c.id == id));
      Campaigns.PauseOnlyTouchesPaused(campaigns, nextId, id, paused);
      campaigns := Campaigns.Pause(campaigns, id, paused);
    }

    /** `DELETE /donations-campaigns/:id`: no admin check. */
    method DeleteCampaign(id: Id) returns (deleted: nat)
      requires Valid()
      modifies this
      ensures Valid()
      ensures campaigns == Campaigns.Delete(old(campaigns), id)
      ensures forall c :: c in campaigns <==> c in old(campaigns) && c.id != id
      ensures deleted == 1 <==> exists c :: c in old(campaigns) && c.id == id
      ensures users == old(users) && pets == old(pets) && nextId == old(nextId)
    {
      deleted := CountOf(FirstWhere(campaigns, (c: Campaigns.Campaign) => c.id == id));
      Campaigns.DeleteRemovesOnlyThatCampaign(campaigns, nextId, id);
      campaigns := Campaigns.Delete(campaigns, id);
    }
  }
}
