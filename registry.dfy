/** The registry operations of the page: adding and editing a site from the
    form, deleting by id, and the case-insensitive search filter. */
module Registry {
  import opened Sites
  import opened Text

  /** The values read from the site form. `interval` and `responseThreshold`
      are `parseInt` results (`None` for NaN). */
  datatype SiteForm = SiteForm(
    name: string,
    url: string,
    interval: Option<int>,
    responseThreshold: Option<int>,
    notifications: Channels)

  /** A site created from the form: not yet checked, so `unknown`, with an
      empty history, no check time and a latency of 0. */
  function NewSite(id: string, form: SiteForm, createdAt: int): (s: Site)
    ensures s.status == Unknown && s.history == [] && s.lastChecked == None
    ensures s.responseTime == Some(0)
    ensures s.id == id && s.name == form.name && s.url == form.url
    ensures s.interval == form.interval && s.responseThreshold == form.responseThreshold
    ensures s.notifications == Some(form.notifications) && s.createdAt == createdAt
  {
    Site(id, form.name, form.url, form.interval, form.responseThreshold,
         Unknown, Some(0), None, [], Some(form.notifications), createdAt)
  }

  /** Editing replaces the form's fields and keeps everything the monitor
      itself maintains: the id, status, latency, check time, history and
      creation time. */
  function EditSite(site: Site, form: SiteForm): (s: Site)
    ensures s.id == site.id && s.status == site.status && s.history == site.history
    ensures s.responseTime == site.responseTime && s.lastChecked == site.lastChecked
    ensures s.createdAt == site.createdAt
    ensures s.name == form.name && s.url == form.url && s.interval == form.interval
    ensures s.responseThreshold == form.responseThreshold
    ensures s.notifications == Some(form.notifications)
  {
    site.(name := form.name, url := form.url, interval := form.interval,
          responseThreshold := form.responseThreshold,
          notifications := Some(form.notifications))
  }

  /** The edit branch of the form: the first site with the id is edited in
      place; with no such site the registry is unchanged. */
  function EditInRegistry(sites: seq<Site>, id: string, form: SiteForm): (r: seq<Site>)
    ensures |r| == |sites|
    ensures forall i :: 0 <= i < |sites| ==> r[i].id == sites[i].id && r[i].status == sites[i].status
    ensures forall i :: 0 <= i < |sites| && Some(i) != FindIndex(sites, id) ==> r[i] == sites[i]
    ensures FindIndex(sites, id).Some? ==> r[FindIndex(sites, id).value] == EditSite(sites[FindIndex(sites, id).value], form)
  {
    match FindIndex(sites, id)
    case None => sites
    case Some(i) => sites[i := EditSite(sites[i], form)]
  }

  /** Adding appends the new site after all existing ones; ids stay unique
      exactly when the new id is not already taken. */
  lemma AddKeepsUniqueIds(sites: seq<Site>, s: Site)
    requires UniqueIds(sites)
    ensures UniqueIds(sites + [s]) <==> s.id !in Ids(sites)
  {
    var r := sites + [s];
    if s.id in Ids(sites) {
      var k :| 0 <= k < |sites| && Ids(sites)[k] == s.id;
      assert r[k].id == r[|sites|].id;
    } else {
      forall i, j | 0 <= i < j < |r| ensures r[i].id != r[j].id {
        if j == |sites| {
          assert Ids(sites)[i] == r[i].id;
        }
      }
    }
  }

  /** `sites.filter(s => s.id !== siteId)`. */
  function RemoveId(sites: seq<Site>, id: string): (r: seq<Site>)
    ensures |r| <= |sites|
  {
    if sites == [] then []
    else (if sites[0].id != id then [sites[0]] else []) + RemoveId(sites[1..], id)
  }

  /** Deleting keeps exactly the sites with another id. */
  lemma {:induction false} RemoveIdMembers(sites: seq<Site>, id: string, s: Site)
    ensures s in RemoveId(sites, id) <==> s in sites && s.id != id
  {
    if sites != [] {
      RemoveIdMembers(sites[1..], id, s);
      assert s in sites <==> s == sites[0] || s in sites[1..];
    }
  }

  /** The registry shrinks exactly when some site has the id (the condition
      under which the source saves and re-renders). */
  lemma {:induction false} RemoveIdChanges(sites: seq<Site>, id: string)
    ensures |RemoveId(sites, id)| == |sites| <==> id !in Ids(sites)
  {
    if sites != [] {
      RemoveIdChanges(sites[1..], id);
      assert Ids(sites) == [sites[0].id] + Ids(sites[1..]);
      assert |RemoveId(sites[1..], id)| <= |sites[1..]|;
    }
  }

  /** Deleting keeps the other sites in their order: removal distributes over
      concatenation. */
  lemma {:induction false} RemoveIdAppend(a: seq<Site>, b: seq<Site>, id: string)
    ensures RemoveId(a + b, id) == RemoveId(a, id) + RemoveId(b, id)
  {
    if a == [] {
      assert a + b == b;
    } else {
      assert (a + b)[1..] == a[1..] + b;
      RemoveIdAppend(a[1..], b, id);
    }
  }

  /** Removing the only site with an id from between two others. */
  lemma RemoveIdMiddle(before: seq<Site>, x: Site, after: seq<Site>)
    requires forall k :: 0 <= k < |before| ==> before[k].id != x.id
    requires forall k :: 0 <= k < |after| ==> after[k].id != x.id
    ensures RemoveId(before + [x] + after, x.id) == before + after
  {
    var id := x.id;
    RemoveIdAbsent(before, id);
    RemoveIdAbsent(after, id);
    assert RemoveId([x], id) == [] by {
      assert [x][1..] == [];
    }
    RemoveIdAppend(before, [x], id);
    assert RemoveId(before + [x], id) == before;
    RemoveIdAppend(before + [x], after, id);
  }

  /** In a registry with unique ids, deleting an id that is present removes
      exactly that one site and keeps the others in place. */
  lemma DeleteOne(sites: seq<Site>, i: nat)
    requires UniqueIds(sites) && i < |sites|
    ensures RemoveId(sites, sites[i].id) == sites[..i] + sites[i + 1..]
  {
    var before, x, after := sites[..i], sites[i], sites[i + 1..];
    assert sites == before + [x] + after;
    forall k | 0 <= k < |before| ensures before[k].id != x.id {
      assert before[k] == sites[k];
    }
    forall k | 0 <= k < |after| ensures after[k].id != x.id {
      assert after[k] == sites[i + 1 + k];
    }
    RemoveIdMiddle(before, x, after);
  }

  /** Deleting an id no site has leaves the registry as it is. */
  lemma {:induction false} RemoveIdAbsent(sites: seq<Site>, id: string)
    requires forall k :: 0 <= k < |sites| ==> sites[k].id != id
    ensures RemoveId(sites, id) == sites
  {
    if sites != [] {
      RemoveIdAbsent(sites[1..], id);
    }
  }

  /** The search match: the lower-cased name or url contains the term. */
  predicate Matches(site: Site, term: string) {
    Includes(ToLower(site.name), term) || Includes(ToLower(site.url), term)
  }

  /** The sites matching an already lower-cased term, in order. */
  function KeepMatching(sites: seq<Site>, term: string): (r: seq<Site>)
    ensures |r| <= |sites|
  {
    if sites == [] then []
    else (if Matches(sites[0], term) then [sites[0]] else []) + KeepMatching(sites[1..], term)
  }

  /** The kept sites are exactly the matching ones. */
  lemma {:induction false} KeepMatchingMembers(sites: seq<Site>, term: string, s: Site)
    ensures s in KeepMatching(sites, term) <==> s in sites && Matches(s, term)
  {
    if sites != [] {
      KeepMatchingMembers(sites[1..], term, s);
      assert s in sites <==> s == sites[0] || s in sites[1..] by {
        assert sites == [sites[0]] + sites[1..];
      }
    }
  }

  /** `getFilteredSites`: every site for an empty term, otherwise the sites
      whose lower-cased name or url contains the lower-cased term. */
  function FilterSites(sites: seq<Site>, term: string): (r: seq<Site>)
    ensures ToLower(term) == "" ==> r == sites
    ensures |r| <= |sites|
  {
    var t := ToLower(term);
    if t == [] then sites else KeepMatching(sites, t)
  }

  /** A site is shown exactly when it is registered and its lower-cased name or
      url contains the lower-cased term (which the empty term always is). */
  lemma FilterMembers(sites: seq<Site>, term: string, s: Site)
    ensures s in FilterSites(sites, term) <==> s in sites && Matches(s, ToLower(term))
  {
    var t := ToLower(term);
    if t == [] {
      IncludesEmpty(ToLower(s.name));
    } else {
      KeepMatchingMembers(sites, t, s);
    }
  }

  /** The filter keeps the registry order: it distributes over concatenation. */
  lemma {:induction false} KeepMatchingAppend(a: seq<Site>, b: seq<Site>, term: string)
    ensures KeepMatching(a + b, term) == KeepMatching(a, term) + KeepMatching(b, term)
  {
    if a == [] {
      assert a + b == b;
    } else {
      var head := if Matches(a[0], term) then [a[0]] else [];
      assert (a + b)[0] == a[0] && (a + b)[1..] == a[1..] + b;
      KeepMatchingAppend(a[1..], b, term);
      assert KeepMatching(a + b, term) == head + (KeepMatching(a[1..], term) + KeepMatching(b, term));
    }
  }

  /** An empty term is matched by every site, so keeping its matches keeps all. */
  lemma {:induction false} KeepMatchingEmpty(sites: seq<Site>)
    ensures KeepMatching(sites, "") == sites
  {
    if sites != [] {
      IncludesEmpty(ToLower(sites[0].name));
      KeepMatchingEmpty(sites[1..]);
    }
  }

  /** The filter is case-insensitive in the term. */
  lemma FilterIgnoresTermCase(sites: seq<Site>, term: string)
    ensures FilterSites(sites, term) == FilterSites(sites, ToLower(term))
  {
    ToLowerIdempotent(term);
  }

  /** The filter of a registry is the filter of its parts, in the same order. */
  lemma FilterAppend(a: seq<Site>, b: seq<Site>, term: string)
    ensures FilterSites(a + b, term) == FilterSites(a, term) + FilterSites(b, term)
  {
    if ToLower(term) != "" {
      KeepMatchingAppend(a, b, ToLower(term));
    }
  }
}
