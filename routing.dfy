/** How Express picks the handler of a `GET` request: the routes are tried in the order
    they were registered and the first whose path pattern matches runs. */
module Routing {
  import opened Common

  /** One segment of a path pattern: literal text, or a `:name` parameter. */
  datatype Segment = Lit(text: string) | Param

  /** The `GET` handlers of the server. */
  datatype Handler =
    | Root | ListUsers | UserByEmail
    | PetsByOwner | PetCatalog | PetById | AdminPets
    | CampaignList | CampaignsByCreator | CampaignById
    | PaymentList | PaymentsByDonator

  datatype Route = Route(pattern: seq<Segment>, handler: Handler)

  /** A literal matches itself; a parameter matches any non-empty segment. */
  predicate SegmentMatches(seg: Segment, s: string)
  {
    match seg
    case Lit(text) => s == text
    case Param => s != ""
  }

  /** A request path, split at `/`, matches a pattern segment by segment. */
  predicate PathMatches(pattern: seq<Segment>, path: seq<string>)
  {
    |pattern| == |path| && forall k :: 0 <= k < |path| ==> SegmentMatches(pattern[k], path[k])
  }

  /** The handler of the first registered route that matches, if any. */
  function Dispatch(routes: seq<Route>, path: seq<string>): (r: Option<Handler>)
    ensures r.None? <==> forall i :: 0 <= i < |routes| ==> !PathMatches(routes[i].pattern, path)
    ensures r.Some? ==>
              exists i :: 0 <= i < |routes| && PathMatches(routes[i].pattern, path)
                       && routes[i].handler == r.value
                       && forall j :: 0 <= j < i ==> !PathMatches(routes[j].pattern, path)
  {
    if routes == [] then None
    else if PathMatches(routes[0].pattern, path) then Some(routes[0].handler)
    else
      var r := Dispatch(routes[1..], path);
      assert r.Some? ==> exists i :: 1 <= i < |routes| && PathMatches(routes[i].pattern, path)
                              && routes[i].handler == r.value
                              && forall j :: 0 <= j < i ==> !PathMatches(routes[j].pattern, path) by {
        if r.Some? {
          var i :| 0 <= i < |routes[1..]| && PathMatches(routes[1..][i].pattern, path)
                   && routes[1..][i].handler == r.value
                   && forall j :: 0 <= j < i ==> !PathMatches(routes[1..][j].pattern, path);
          forall j | 0 <= j < i + 1 ensures !PathMatches(routes[j].pattern, path) {
            if j > 0 {
              assert routes[j] == routes[1..][j - 1];
            }
          }
        }
      }
      assert r.None? ==> forall i :: 0 <= i < |routes| ==> !PathMatches(routes[i].pattern, path) by {
        if r.None? {
          forall i | 0 <= i < |routes| ensures !PathMatches(routes[i].pattern, path) {
            if i > 0 {
              assert routes[i] == routes[1..][i - 1];
            }
          }
        }
      }
      r
  }

  /** A route that does not match a path has no say in where that path goes. */
  lemma {:induction false} DispatchSkipsNonMatching(routes: seq<Route>, i: nat, path: seq<string>)
    requires i < |routes| && !PathMatches(routes[i].pattern, path)
    ensures Dispatch(routes, path) == Dispatch(RemoveAt(routes, i), path)
  {
    var rest := RemoveAt(routes, i);
    if i == 0 {
      assert rest == routes[1..];
    } else {
      assert rest[0] == routes[0];
      if !PathMatches(routes[0].pattern, path) {
        DispatchSkipsNonMatching(routes[1..], i - 1, path);
        assert rest[1..] == RemoveAt(routes[1..], i - 1);
      }
    }
  }

  /** A route whose every path is also matched by an earlier route never runs, when no
      other route has its handler. */
  lemma {:induction false} ShadowedNeverRuns(routes: seq<Route>, i: nat, j: nat, path: seq<string>)
    requires j < i < |routes|
    requires forall k :: 0 <= k < |routes| && k != i ==> routes[k].handler != routes[i].handler
    requires PathMatches(routes[i].pattern, path) ==> PathMatches(routes[j].pattern, path)
    ensures Dispatch(routes, path) != Some(routes[i].handler)
  {
  }

  // ---------------------------------------------------------------------------
  // The GET routes as registered

  const PetByIdRoute := Route([Lit("pets"), Param], PetById)
  const AdminPetsRoute := Route([Lit("pets"), Lit("admin")], AdminPets)

  /** The routes before and after the two `/pets/...` routes, in registration order. */
  function Before(): seq<Route>
  {
    [ Route([], Root),
      Route([Lit("users")], ListUsers),
      Route([Lit("users"), Param], UserByEmail),
      Route([Lit("pets")], PetsByOwner),
      Route([Lit("pets"), Lit("all")], PetCatalog) ]
  }

  function After(): seq<Route>
  {
    [ Route([Lit("donations-campaigns")], CampaignList),
      Route([Lit("donations-campaigns"), Lit("user")], CampaignsByCreator),
      Route([Lit("donations-campaigns"), Param], CampaignById),
      Route([Lit("donations-payments")], PaymentList),
      Route([Lit("donations-payments"), Lit("user")], PaymentsByDonator) ]
  }

  /** The `GET` routes in the order the server registers them: `/pets/:id` comes before
      `/pets/admin`. */
  function AsWritten(): seq<Route>
  {
    Before() + [PetByIdRoute, AdminPetsRoute] + After()
  }

  /** Only the path `/pets/admin` matches the admin listing's pattern. */
  lemma {:induction false} AdminPatternOnly(path: seq<string>)
    ensures PathMatches(AdminPetsRoute.pattern, path) <==> path == ["pets", "admin"]
  {
    if PathMatches(AdminPetsRoute.pattern, path) {
      assert path[0] == "pets" && path[1] == "admin";
      assert path == ["pets", "admin"];
    }
  }

  /** `GET /pets/admin` is taken by the `/pets/:id` handler with `id = "admin"`, and no
      request path at all reaches the admin listing. */
  lemma {:induction false} AdminListingShadowed()
    ensures Dispatch(AsWritten(), ["pets", "admin"]) == Some(PetById)
    ensures forall path :: Dispatch(AsWritten(), path) != Some(AdminPets)
  {
    var routes := AsWritten();
    assert routes[5] == PetByIdRoute && routes[6] == AdminPetsRoute;
    assert PathMatches(PetByIdRoute.pattern, ["pets", "admin"]);
    forall i | 0 <= i < 5 ensures !PathMatches(routes[i].pattern, ["pets", "admin"]) {
      assert routes[i] == Before()[i];
      assert |routes[i].pattern| != 2 || !SegmentMatches(routes[i].pattern[0], "pets")
             || !SegmentMatches(routes[i].pattern[1], "admin");
    }
    forall k | 0 <= k < |routes| && k != 6 ensures routes[k].handler != AdminPets {
      if k < 5 {
        assert routes[k] == Before()[k];
      } else if k > 6 {
        assert routes[k] == After()[k - 7];
      }
    }
    forall path ensures Dispatch(routes, path) != Some(AdminPets) {
      AdminPatternOnly(path);
      ShadowedNeverRuns(routes, 6, 5, path);
    }
  }

  /** The intended order: the literal `/pets/admin` registered before `/pets/:id`. */
  function Corrected(): seq<Route>
  {
    Before() + [AdminPetsRoute, PetByIdRoute] + After()
  }

  /** In the intended order `GET /pets/admin` reaches the admin listing, and every other
      path goes exactly where it goes today. */
  lemma {:induction false} CorrectedReachesAdminListing()
    ensures Dispatch(Corrected(), ["pets", "admin"]) == Some(AdminPets)
    ensures forall path :: path != ["pets", "admin"] ==> Dispatch(Corrected(), path) == Dispatch(AsWritten(), path)
  {
    var routes := Corrected();
    var written := AsWritten();
    assert routes[5] == AdminPetsRoute;
    assert PathMatches(AdminPetsRoute.pattern, ["pets", "admin"]);
    forall i | 0 <= i < 5 ensures !PathMatches(routes[i].pattern, ["pets", "admin"]) {
      assert routes[i] == Before()[i];
      assert |routes[i].pattern| != 2 || !SegmentMatches(routes[i].pattern[0], "pets")
             || !SegmentMatches(routes[i].pattern[1], "admin");
    }
    assert written[6] == AdminPetsRoute;
    assert RemoveAt(routes, 5) == RemoveAt(written, 6);
    forall path | path != ["pets", "admin"] ensures Dispatch(routes, path) == Dispatch(written, path) {
      AdminPatternOnly(path);
      DispatchSkipsNonMatching(routes, 5, path);
      DispatchSkipsNonMatching(written, 6, path);
    }
  }
}
