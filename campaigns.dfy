/** The `donations-campaigns` collection: `POST`, the paged `GET`, `GET /:id`, `PUT /:id`,
    `PATCH /:id/pause` and `DELETE /:id`. */
module Campaigns {
  import opened Common
  import opened Paging
  import opened Ordering

  /** A stored campaign; the body is stored as sent, so every field but the id may be
      absent. */
  datatype Campaign = Campaign(id: Id, createdBy: Option<string>, title: Option<string>,
                               paused: Option<bool>, createdAt: Option<nat>)

  /** The fields of a request body: `Some` for a field the body supplies. */
  datatype CampaignBody = CampaignBody(createdBy: Option<string>, title: Option<string>,
                                       paused: Option<bool>, createdAt: Option<nat>)

  function IdOf(c: Campaign): Id { c.id }

  /** The `createdAt: -1` sort key: a missing timestamp sorts after every present one. */
  function CreatedAt(c: Campaign): (k: int)
    ensures c.createdAt.None? <==> k < 0
  {
    if c.createdAt.Some? then c.createdAt.value else -1
  }

  /** Distinct ids below the id counter. */
  predicate StoreValid(campaigns: seq<Campaign>, nextId: Id)
  {
    KeysDistinct(campaigns, IdOf) && forall c :: c in campaigns ==> c.id < nextId
  }

  // ---------------------------------------------------------------------------
  // POST /donations-campaigns, GET /donations-campaigns/:id

  /** `insertOne(req.body)`: the body as sent, under a new id; no timestamp is added. */
  function NewCampaign(body: CampaignBody, id: Id): Campaign
  {
    Campaign(id, body.createdBy, body.title, body.paused, body.createdAt)
  }

  function Create(campaigns: seq<Campaign>, body: CampaignBody, id: Id): seq<Campaign>
  {
    campaigns + [NewCampaign(body, id)]
  }

  /** `findOne({ _id: id })`. */
  function Find(campaigns: seq<Campaign>, id: Id): (r: Option<Campaign>)
    ensures r.Some? ==> r.value in campaigns && r.value.id == id
    ensures r.None? ==> forall c :: c in campaigns ==> c.id != id
  {
    match FirstWhere(campaigns, (c: Campaign) => c.id == id)
    case None => None
    case Some(i) => Some(campaigns[i])
  }

  /** A created campaign is found under its new id with every field of the body, and the
      store stays valid. */
  lemma {:induction false} CreateThenFind(campaigns: seq<Campaign>, nextId: Id, body: CampaignBody)
    requires StoreValid(campaigns, nextId)
    ensures StoreValid(Create(campaigns, body, nextId), nextId + 1)
    ensures var found := Find(Create(campaigns, body, nextId), nextId);
            && found.Some?
            && found.value.createdBy == body.createdBy && found.value.title == body.title
            && found.value.paused == body.paused && found.value.createdAt == body.createdAt
  {
    var r := Create(campaigns, body, nextId);
    forall i, j | 0 <= i < j < |r| ensures IdOf(r[i]) != IdOf(r[j]) {
      if j == |campaigns| {
        assert r[i] in campaigns;
      }
    }
    FirstWhereKeyUnique(r, IdOf, nextId, |campaigns|);
  }

  // ---------------------------------------------------------------------------
  // GET /donations-campaigns?page&limit

  datatype CampaignPage = CampaignPage(campaigns: seq<Campaign>, nextPage: int, hasMore: bool)

  /** All campaigns, newest first. */
  function Newest(campaigns: seq<Campaign>): seq<Campaign>
  {
    SortDesc(campaigns, CreatedAt)
  }

  /** The response of `GET /donations-campaigns`: the campaigns ranked newest first
      from `skip` on, at most `limit` of them, with `nextPage` one past the requested
      page; `None` when the store rejects a negative skip. The total is the size of the
      same snapshot the page is cut from. */
  function List(campaigns: seq<Campaign>, page: Option<string>, limit: Option<string>): (r: Option<CampaignPage>)
    ensures var paging := ReadPaging(page, limit);
            && (r.Some? <==> Skip(paging) >= 0)
            && (r.Some? ==>
                  && r.value.nextPage == paging.page + 1
                  && (r.value.hasMore <==> PageHasMore(paging, |campaigns|))
                  && |r.value.campaigns| == (if Skip(paging) >= |campaigns| then 0
                                             else Min(Abs(paging.limit), |campaigns| - Skip(paging)))
                  && forall k :: 0 <= k < |r.value.campaigns| ==>
                       r.value.campaigns[k] == Newest(campaigns)[Skip(paging) + k])
  {
    var paging := ReadPaging(page, limit);
    match WindowOf(paging)
    case None => None
    case Some(w) =>
      Some(CampaignPage(Slice(Newest(campaigns), w), paging.page + 1, PageHasMore(paging, |campaigns|)))
  }

  /** A page is the run of the newest-first campaigns that starts at `skip`, at most
      `limit` long, newest first; `nextPage` is one past the requested page. Only a
      negative skip is refused. */
  lemma {:induction false} ListSound(campaigns: seq<Campaign>, page: Option<string>, limit: Option<string>)
    ensures var paging := ReadPaging(page, limit);
            var r := List(campaigns, page, limit);
            && (r.Some? <==> Skip(paging) >= 0)
            && (r.Some? ==>
                  && r.value.nextPage == paging.page + 1
                  && |r.value.campaigns| <= Abs(paging.limit)
                  && |r.value.campaigns| == (if Skip(paging) >= |campaigns| then 0
                                             else Min(Abs(paging.limit), |campaigns| - Skip(paging)))
                  && SortedDesc(r.value.campaigns, CreatedAt)
                  && (forall c :: c in r.value.campaigns ==> c in campaigns)
                  && (forall k :: 0 <= k < |r.value.campaigns| ==>
                        r.value.campaigns[k] == Newest(campaigns)[Skip(paging) + k]))
  {
    var paging := ReadPaging(page, limit);
    match WindowOf(paging)
    case None =>
    case Some(w) =>
      var newest := Newest(campaigns);
      assert List(campaigns, page, limit) == Some(CampaignPage(Slice(newest, w), paging.page + 1,
                                                               PageHasMore(paging, |campaigns|)));
      SliceOfSorted(newest, w, CreatedAt);
      forall c | c in newest ensures c in campaigns {
        SortKeepsMembers(campaigns, CreatedAt, c);
      }
  }

  /** From page 1 on, the campaign `hasMore` is the catalog's `skip + returned < total`
      on the same page, holds exactly when the next page is not empty, and exactly when
      pages 1..page have not yet returned every campaign. */
  lemma {:induction false} ListHasMore(campaigns: seq<Campaign>, page: Option<string>, limit: Option<string>)
    ensures var paging := ReadPaging(page, limit);
            var r := List(campaigns, page, limit);
            var newest := Newest(campaigns);
            paging.page >= 1 && paging.limit >= 1 ==>
              && r.Some?
              && (r.value.hasMore <==> CountHasMore(Skip(paging), |r.value.campaigns|, |campaigns|))
              && (r.value.hasMore <==> Slice(newest, Window(Skip(paging) + paging.limit, paging.limit)) != [])
              && (r.value.hasMore <==> |PagesUpTo(newest, paging.page, paging.limit)| < |newest|)
              && (Skip(paging) >= |campaigns| ==> r.value.campaigns == [] && !r.value.hasMore)
  {
    var paging := ReadPaging(page, limit);
    var newest := Newest(campaigns);
    if paging.page >= 1 && paging.limit >= 1 {
      PageFormulasAgree(newest, paging);
      HasMoreIffNextPageNonEmpty(newest, Skip(paging), paging.limit);
      HasMoreIffUnseen(newest, paging);
    }
  }

  /** `?limit=-6` with no `page` reads as page 1 and limit -6. */
  lemma {:induction false} ReadNegativeLimit()
    ensures ReadPaging(None, Some(Show(-6))) == Paging(1, -6)
  {
    var text := Show(-6);
    assert ParseInt(text) == Some(-6) by {
      ParseIntShow(-6, "");
      assert text + "" == text;
    }
    assert IntOr(Some(text), DefaultLimit) == -6;
  }

  /** `?limit=-6` on a store of one to six campaigns: the single page already holds every
      campaign, yet `page * limit < total` reports more, and the page after it is empty. */
  lemma {:induction false} NegativeLimitHasMore(campaigns: seq<Campaign>)
    requires 0 < |campaigns| <= 6
    ensures List(campaigns, None, Some(Show(-6))) == Some(CampaignPage(Newest(campaigns), 2, true))
    ensures Slice(Newest(campaigns), Window(|campaigns|, 6)) == []
  {
    var paging := ReadPaging(None, Some(Show(-6)));
    ReadNegativeLimit();
    assert WindowOf(paging) == Some(Window(0, 6));
    var newest := Newest(campaigns);
    assert Slice(newest, Window(0, 6)) == newest by {
      assert |newest| == |campaigns|;
    }
    assert PageHasMore(paging, |campaigns|);
    assert List(campaigns, None, Some(Show(-6)))
        == Some(CampaignPage(Slice(newest, Window(0, 6)), paging.page + 1, PageHasMore(paging, |campaigns|)));
  }

  /** The campaign list with the catalog's `skip + returned < total` as `hasMore`: the
      same page, and `hasMore` exactly when campaigns remain after it, for every limit. */
  function ListCorrected(campaigns: seq<Campaign>, page: Option<string>, limit: Option<string>): (r: Option<CampaignPage>)
    ensures var paging := ReadPaging(page, limit);
            && (r.Some? <==> Skip(paging) >= 0)
            && (r.Some? ==>
                  && List(campaigns, page, limit).Some?
                  && r.value.campaigns == List(campaigns, page, limit).value.campaigns
                  && r.value.nextPage == paging.page + 1
                  && (r.value.hasMore <==>
                        Slice(Newest(campaigns), Window(Skip(paging) + |r.value.campaigns|, Abs(paging.limit))) != []))
  {
    match List(campaigns, page, limit)
    case None => None
    case Some(pg) =>
      Some(pg.(hasMore := CountHasMore(Skip(ReadPaging(page, limit)), |pg.campaigns|, |campaigns|)))
  }

  /** For every page from 1 on with a positive limit, the corrected list is the list as
      written: the correction only changes requests with a negative limit. */
  lemma {:induction false} ListCorrectedAgrees(campaigns: seq<Campaign>, page: Option<string>, limit: Option<string>)
    ensures var paging := ReadPaging(page, limit);
            paging.page >= 1 && paging.limit >= 1 ==>
              ListCorrected(campaigns, page, limit) == List(campaigns, page, limit)
  {
    var paging := ReadPaging(page, limit);
    if paging.page >= 1 && paging.limit >= 1 {
      PageFormulasAgree(Newest(campaigns), paging);
    }
  }

  // ---------------------------------------------------------------------------
  // PUT /donations-campaigns/:id, PATCH /donations-campaigns/:id/pause, DELETE

  /** `$set: req.body` on one campaign: every supplied field is overwritten. */
  function Apply(c: Campaign, body: CampaignBody): Campaign
  {
    Campaign(c.id, Override(body.createdBy, c.createdBy), Override(body.title, c.title),
             Override(body.paused, c.paused), Override(body.createdAt, c.createdAt))
  }

  /** `PUT /donations-campaigns/:id`: the campaign with that id is merged with the body,
      and no other campaign changes. */
  function Update(campaigns: seq<Campaign>, id: Id, body: CampaignBody): (r: seq<Campaign>)
    ensures |r| == |campaigns|
    ensures forall k :: 0 <= k < |campaigns| ==>
              r[k] == campaigns[k] || (campaigns[k].id == id && r[k] == Apply(campaigns[k], body))
  {
    UpdateByKey(campaigns, IdOf, id, (c: Campaign) => Apply(c, body))
  }

  /** `$set: { paused: req.body.paused }`; a body without `paused` stores null. */
  function SetPausedOn(c: Campaign, paused: Option<bool>): Campaign
  {
    c.(paused := paused)
  }

  /** `PATCH /donations-campaigns/:id/pause`: only `paused` changes, and only on a
      campaign with that id. */
  function Pause(campaigns: seq<Campaign>, id: Id, paused: Option<bool>): (r: seq<Campaign>)
    ensures |r| == |campaigns|
    ensures forall k :: 0 <= k < |campaigns| ==>
              r[k] == campaigns[k] || (campaigns[k].id == id && r[k] == campaigns[k].(paused := paused))
  {
    UpdateByKey(campaigns, IdOf, id, (c: Campaign) => SetPausedOn(c, paused))
  }

  /** `DELETE /donations-campaigns/:id`: at most one campaign goes, it has that id, and
      every campaign with another id stays. */
  function Delete(campaigns: seq<Campaign>, id: Id): (r: seq<Campaign>)
    ensures |campaigns| - 1 <= |r| <= |campaigns|
    ensures forall c :: c in r ==> c in campaigns
    ensures forall c :: c in campaigns && c.id != id ==> c in r
  {
    DeleteByKey(campaigns, IdOf, id)
  }

  lemma {:induction false} UpdatedIdsBelow(campaigns: seq<Campaign>, r: seq<Campaign>, nextId: Id)
    requires forall c :: c in campaigns ==> c.id < nextId
    requires |r| == |campaigns| && forall k :: 0 <= k < |r| ==> r[k].id == campaigns[k].id
    ensures forall c :: c in r ==> c.id < nextId
  {
    forall c | c in r ensures c.id < nextId {
      var k :| 0 <= k < |r| && r[k] == c;
      assert campaigns[k] in campaigns;
    }
  }

  /** An update overwrites the supplied fields of the campaign with that id, keeps the
      others, and changes no other campaign. */
  lemma {:induction false} UpdateOnlyTouchesThatCampaign(campaigns: seq<Campaign>, nextId: Id, id: Id,
                                                         body: CampaignBody)
    requires StoreValid(campaigns, nextId)
    ensures StoreValid(Update(campaigns, id, body), nextId)
    ensures var r := Update(campaigns, id, body);
            |r| == |campaigns| &&
            forall k :: 0 <= k < |campaigns| ==>
              r[k] == if campaigns[k].id == id then Apply(campaigns[k], body) else campaigns[k]
  {
    UpdateByKeyExact(campaigns, IdOf, id, (c: Campaign) => Apply(c, body), IdOf);
    UpdatedIdsBelow(campaigns, Update(campaigns, id, body), nextId);
  }

  /** Pausing changes only `paused`, only on the campaign with that id. */
  lemma {:induction false} PauseOnlyTouchesPaused(campaigns: seq<Campaign>, nextId: Id, id: Id,
                                                  paused: Option<bool>)
    requires StoreValid(campaigns, nextId)
    ensures StoreValid(Pause(campaigns, id, paused), nextId)
    ensures var r := Pause(campaigns, id, paused);
            |r| == |campaigns| &&
            forall k :: 0 <= k < |campaigns| ==>
              r[k] == if campaigns[k].id == id then campaigns[k].(paused := paused) else campaigns[k]
  {
    UpdateByKeyExact(campaigns, IdOf, id, (c: Campaign) => SetPausedOn(c, paused), IdOf);
    UpdatedIdsBelow(campaigns, Pause(campaigns, id, paused), nextId);
  }

  /** Deleting removes the campaign with that id and keeps every other campaign. */
  lemma {:induction false} DeleteRemovesOnlyThatCampaign(campaigns: seq<Campaign>, nextId: Id, id: Id)
    requires StoreValid(campaigns, nextId)
    ensures StoreValid(Delete(campaigns, id), nextId)
    ensures forall c :: c in Delete(campaigns, id) <==> c in campaigns && c.id != id
  {
    DeleteByKeyExact(campaigns, IdOf, id, IdOf);
  }
}
