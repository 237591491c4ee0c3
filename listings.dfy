/**
 * The listing collection and the handlers of the property controller that
 * read or change it: the filtered, paginated listing with its categories,
 * the favourites toggle, rating, the owner-checked update and delete, and
 * the listing read back with the caller's rating.
 *
 * The listing schema is not part of this model; the fields below are the
 * ones the controller reads and writes. Images and their upload service
 * are left out. The collection is kept in insertion order with creation
 * times that do not decrease, so the `createdAt` descending sort reads it
 * backwards.
 */
module Listings {
  import opened Base
  import opened JsOps
  import opened Models
  import opened Favourites
  import opened Ratings
  import opened Accounts

  datatype Property = Property(
    id: Id,
    titre: string,
    description: string,
    prix: real,
    ville: string,
    adresse: string,
    categorie: string,
    utilisateur: Id,
    favoris: seq<Id>,
    evaluations: seq<Evaluation>,
    noteMoyenne: real,
    createdAt: int)

  /** ps is sorted by `createdAt`, oldest first. */
  ghost predicate ByCreation(ps: seq<Property>)
  {
    forall i, j :: 0 <= i < j < |ps| ==> ps[i].createdAt <= ps[j].createdAt
  }

  predicate UniqueIds(ps: seq<Property>)
  {
    forall i, j :: 0 <= i < j < |ps| ==> ps[i].id != ps[j].id
  }

  /** What the collection keeps true: ids are unique, creation order is kept, and each listing has at most one evaluation per account. */
  ghost predicate ListingsValid(ps: seq<Property>)
  {
    UniqueIds(ps) && ByCreation(ps) && forall i :: 0 <= i < |ps| ==> OnePerUser(ps[i].evaluations)
  }

  /** `Property.findById(pid)`, as a position: the listing with id pid, or -1. */
  function FindProperty(ps: seq<Property>, pid: Id): (r: int)
    ensures -1 <= r < |ps|
    ensures r == -1 <==> forall i :: 0 <= i < |ps| ==> ps[i].id != pid
    ensures 0 <= r ==> ps[r].id == pid
  {
    if ps == [] then -1
    else if ps[0].id == pid then 0
    else
      var k := FindProperty(ps[1..], pid);
      if k == -1 then -1 else k + 1
  }

  /* ---------------------------------------------------------------- */
  /* getAllProperty                                                     */
  /* ---------------------------------------------------------------- */

  /**
   * The query parameters of `getAllProperty` that shape the filter. An
   * empty string is a parameter not given; `prixMin`/`prixMax` are `None`
   * when not given and otherwise the number they convert to.
   */
  datatype ListingQuery = ListingQuery(ville: string, categorie: string, prixMin: Option<real>, prixMax: Option<real>, search: string)

  /**
   * A listing answers the query: the search pattern, when given, matches
   * the title, description, city or category (`matches(pattern, field)`
   * stands for the database's case-insensitive regular expression match);
   * city and category, when given, are equal; the price lies within the
   * bounds given, both inclusive.
   */
  predicate Selected(p: Property, q: ListingQuery, matches: (string, string) -> bool)
  {
    (q.search == "" || matches(q.search, p.titre) || matches(q.search, p.description)
                    || matches(q.search, p.ville) || matches(q.search, p.categorie))
    && (q.ville == "" || p.ville == q.ville)
    && (q.categorie == "" || p.categorie == q.categorie)
    && (q.prixMin.None? || p.prix >= q.prixMin.value)
    && (q.prixMax.None? || p.prix <= q.prixMax.value)
  }

  /** The listings answering the query, in collection order. */
  function Filter(ps: seq<Property>, q: ListingQuery, matches: (string, string) -> bool): (r: seq<Property>)
    ensures |r| <= |ps|
    ensures forall p :: p in r <==> p in ps && Selected(p, q, matches)
  {
    if ps == [] then []
    else (if Selected(ps[0], q, matches) then [ps[0]] else []) + Filter(ps[1..], q, matches)
  }

  /** Each matching listing is kept as many times as the collection holds it, and no other listing is: the reported total is the number of matches. */
  lemma {:induction false} FilterMultiplicity(ps: seq<Property>, q: ListingQuery, matches: (string, string) -> bool)
    ensures forall p :: multiset(Filter(ps, q, matches))[p] == if Selected(p, q, matches) then multiset(ps)[p] else 0
  {
    if ps != [] {
      FilterMultiplicity(ps[1..], q, matches);
      assert ps == [ps[0]] + ps[1..];
    }
  }

  /** Filtering keeps the creation order. */
  lemma {:induction false} FilterByCreation(ps: seq<Property>, q: ListingQuery, matches: (string, string) -> bool)
    requires ByCreation(ps)
    ensures ByCreation(Filter(ps, q, matches))
  {
    if ps != [] {
      var rest := Filter(ps[1..], q, matches);
      FilterByCreation(ps[1..], q, matches);
      forall p | p in rest
        ensures ps[0].createdAt <= p.createdAt
      {
        var j :| 0 <= j < |ps[1..]| && ps[1..][j] == p;
        assert p == ps[j + 1];
      }
    }
  }

  /** `.skip(skip).limit(limit)` on a cursor: a limit of 0 means no limit, a negative one counts as its absolute value. */
  function Window<T>(s: seq<T>, skip: nat, limit: int): (r: seq<T>)
    ensures skip >= |s| ==> r == []
    ensures skip < |s| ==> skip + |r| <= |s| && r == s[skip..skip + |r|]
    ensures limit == 0 && skip < |s| ==> |r| == |s| - skip
    ensures limit != 0 ==> |r| <= Abs(limit)
    ensures limit != 0 && skip + Abs(limit) <= |s| ==> |r| == Abs(limit)
    ensures limit != 0 && skip < |s| < skip + Abs(limit) ==> |r| == |s| - skip
  {
    var rest := if skip <= |s| then s[skip..] else [];
    if limit == 0 || |rest| <= Abs(limit) then rest else rest[..Abs(limit)]
  }

  function Abs(n: int): nat
  {
    if n < 0 then -n else n
  }

  /** The categories of the listings, in order. */
  function CategoriesOf(ps: seq<Property>): (r: seq<string>)
    ensures |r| == |ps| && forall i :: 0 <= i < |ps| ==> r[i] == ps[i].categorie
  {
    seq(|ps|, i requires 0 <= i < |ps| => ps[i].categorie)
  }

  /** The body of a successful `getAllProperty` answer. `totalPages` is `None` where `Math.ceil(total / 0)` is not a number. */
  datatype ListingPage = ListingPage(total: nat, page: int, limit: int, totalPages: Option<int>,
                                     properties: seq<Property>, categories: seq<string>)

  /** A negative skip makes the database refuse the query, and the handler fails. */
  datatype ListingResult = ListingFailed | Listed(listing: ListingPage)

  /**
   * `getAllProperty`: `page` and `limit` default to 1 and 10 when absent;
   * the matching listings, newest first, are windowed by
   * `skip = (page - 1) * limit` and `limit`; the categories are those of the
   * listings shown, each once.
   */
  function GetAllProperty(ps: seq<Property>, q: ListingQuery, matches: (string, string) -> bool,
                          pageQ: Option<int>, limitQ: Option<int>): (r: ListingResult)
    ensures r.Listed? ==> |r.listing.properties| <= r.listing.total <= |ps|
    ensures r.Listed? ==> forall p :: p in r.listing.properties ==> p in ps && Selected(p, q, matches)
  {
    var page := if pageQ.Some? then pageQ.value else 1;
    var limit := if limitQ.Some? then limitQ.value else 10;
    var skip := (page - 1) * limit;
    if skip < 0 then ListingFailed
    else
      var matched := Filter(ps, q, matches);
      var shown := Window(Reverse(matched), skip, limit);
      Listed(ListingPage(|matched|, page, limit,
                         if limit == 0 then None else Some(CeilDiv(|matched|, limit)),
                         shown, DistinctInOrder(CategoriesOf(shown))))
  }

  /** The listing fails exactly when the skip `(page - 1) * limit` is negative; otherwise it echoes page and limit and counts every matching listing. */
  lemma ListingFailsOnNegativeSkip(ps: seq<Property>, q: ListingQuery, matches: (string, string) -> bool,
                                   pageQ: Option<int>, limitQ: Option<int>)
    ensures var page := if pageQ.Some? then pageQ.value else 1;
            var limit := if limitQ.Some? then limitQ.value else 10;
            var r := GetAllProperty(ps, q, matches, pageQ, limitQ);
            (r.ListingFailed? <==> (page - 1) * limit < 0)
            && (r.Listed? ==> r.listing.total == |Filter(ps, q, matches)| && r.listing.page == page && r.listing.limit == limit)
  {
  }

  /**
   * The page shown is the window of the matching listings, newest first,
   * that starts at the skip; it is empty once the skip reaches the total,
   * and no longer than the limit unless the limit is 0.
   */
  lemma ListingWindow(ps: seq<Property>, q: ListingQuery, matches: (string, string) -> bool,
                      pageQ: Option<int>, limitQ: Option<int>)
    ensures var page := if pageQ.Some? then pageQ.value else 1;
            var limit := if limitQ.Some? then limitQ.value else 10;
            var skip := (page - 1) * limit;
            var matched := Filter(ps, q, matches);
            var r := GetAllProperty(ps, q, matches, pageQ, limitQ);
            r.Listed? ==>
              (skip < |matched| ==> r.listing.properties == Reverse(matched)[skip..skip + |r.listing.properties|])
              && (skip >= |matched| ==> r.listing.properties == [])
              && (limit != 0 ==> |r.listing.properties| <= Abs(limit))
              && (limit != 0 && skip + Abs(limit) <= |matched| ==> |r.listing.properties| == Abs(limit))
  {
    if GetAllProperty(ps, q, matches, pageQ, limitQ).Listed? {
      var skip := ShownWindow(ps, q, matches, pageQ, limitQ);
      assert |Reverse(Filter(ps, q, matches))| == |Filter(ps, q, matches)|;
    }
  }

  /**
   * Every listing shown is in the collection and answers the query: the
   * city and the category equal the ones given, and the price lies within
   * the bounds given, both inclusive.
   */
  lemma ListingSelected(ps: seq<Property>, q: ListingQuery, matches: (string, string) -> bool,
                        pageQ: Option<int>, limitQ: Option<int>)
    ensures var r := GetAllProperty(ps, q, matches, pageQ, limitQ);
            r.Listed? ==> forall p :: p in r.listing.properties ==>
              p in ps && Selected(p, q, matches)
              && (q.ville != "" ==> p.ville == q.ville)
              && (q.categorie != "" ==> p.categorie == q.categorie)
              && (q.prixMin.Some? ==> q.prixMin.value <= p.prix)
              && (q.prixMax.Some? ==> p.prix <= q.prixMax.value)
  {
    if GetAllProperty(ps, q, matches, pageQ, limitQ).Listed? {
      var skip := ShownWindow(ps, q, matches, pageQ, limitQ);
      WindowMembers(Filter(ps, q, matches), skip, if limitQ.Some? then limitQ.value else 10);
    }
  }

  /** Whatever a window over a reversed list shows is in the list. */
  lemma WindowMembers(m: seq<Property>, skip: nat, limit: int)
    ensures forall p :: p in Window(Reverse(m), skip, limit) ==> p in m
  {
    var w := Window(Reverse(m), skip, limit);
    WindowReversed(m, skip, limit);
    forall p | p in w
      ensures p in m
    {
      var i :| 0 <= i < |w| && w[i] == p;
      assert p == m[|m| - 1 - (skip + i)];
    }
  }

  /** A successful listing shows the window, at the non-negative skip, of the matching listings read backwards. */
  lemma ShownWindow(ps: seq<Property>, q: ListingQuery, matches: (string, string) -> bool,
                    pageQ: Option<int>, limitQ: Option<int>) returns (skip: nat)
    requires GetAllProperty(ps, q, matches, pageQ, limitQ).Listed?
    ensures var page := if pageQ.Some? then pageQ.value else 1;
            var limit := if limitQ.Some? then limitQ.value else 10;
            skip == (page - 1) * limit
            && GetAllProperty(ps, q, matches, pageQ, limitQ).listing.properties
               == Window(Reverse(Filter(ps, q, matches)), skip, limit)
  {
    var page := if pageQ.Some? then pageQ.value else 1;
    var limit := if limitQ.Some? then limitQ.value else 10;
    skip := (page - 1) * limit;
  }

  /** Position i of a window over a reversed list is position |m| - 1 - (skip + i) of the list. */
  lemma WindowReversed(m: seq<Property>, skip: nat, limit: int)
    ensures var w := Window(Reverse(m), skip, limit);
            forall i :: 0 <= i < |w| ==> skip + i < |m| && w[i] == m[|m| - 1 - (skip + i)]
  {
  }

  /** `totalPages` is the ceiling of the total over the limit, and missing when the limit is 0. */
  lemma ListingTotalPages(ps: seq<Property>, q: ListingQuery, matches: (string, string) -> bool,
                          pageQ: Option<int>, limitQ: Option<int>)
    ensures var limit := if limitQ.Some? then limitQ.value else 10;
            var r := GetAllProperty(ps, q, matches, pageQ, limitQ);
            r.Listed? ==>
              (r.listing.totalPages.None? <==> limit == 0)
              && (limit > 0 ==> (r.listing.totalPages.value - 1) * limit < r.listing.total <= r.listing.totalPages.value * limit)
              && (limit > 0 ==> (r.listing.totalPages.value == 0 <==> r.listing.total == 0))
  {
    var limit := if limitQ.Some? then limitQ.value else 10;
    var r := GetAllProperty(ps, q, matches, pageQ, limitQ);
    if r.Listed? && limit > 0 {
      CeilDivZero(r.listing.total, limit);
    }
  }

  /** The categories are those of the listings shown, each once, in order of first appearance. */
  lemma ListingCategories(ps: seq<Property>, q: ListingQuery, matches: (string, string) -> bool,
                          pageQ: Option<int>, limitQ: Option<int>)
    ensures var r := GetAllProperty(ps, q, matches, pageQ, limitQ);
            r.Listed? ==>
              var l := r.listing;
              (forall c :: c in l.categories <==> exists p :: p in l.properties && p.categorie == c)
              && (forall i, j :: 0 <= i < j < |l.categories| ==> l.categories[i] != l.categories[j])
              && (forall i, j :: 0 <= i < j < |l.categories| ==>
                    IndexOf(CategoriesOf(l.properties), l.categories[i]) < IndexOf(CategoriesOf(l.properties), l.categories[j]))
  {
    var r := GetAllProperty(ps, q, matches, pageQ, limitQ);
    if r.Listed? {
      var l := r.listing;
      var cats := CategoriesOf(l.properties);
      forall c
        ensures c in l.categories <==> exists p :: p in l.properties && p.categorie == c
      {
        if c in cats {
          var i :| 0 <= i < |cats| && cats[i] == c;
          assert l.properties[i] in l.properties;
        }
        if exists p :: p in l.properties && p.categorie == c {
          var p :| p in l.properties && p.categorie == c;
          var i :| 0 <= i < |l.properties| && l.properties[i] == p;
          assert cats[i] == c;
        }
      }
    }
  }

  /** Over a collection kept in creation order, every page lists its listings newest first. */
  lemma ListingNewestFirst(ps: seq<Property>, q: ListingQuery, matches: (string, string) -> bool,
                           pageQ: Option<int>, limitQ: Option<int>)
    requires ByCreation(ps)
    ensures var r := GetAllProperty(ps, q, matches, pageQ, limitQ);
            r.Listed? ==> forall i, j :: 0 <= i < j < |r.listing.properties| ==>
              r.listing.properties[i].createdAt >= r.listing.properties[j].createdAt
  {
    var r := GetAllProperty(ps, q, matches, pageQ, limitQ);
    if r.Listed? {
      var matched := Filter(ps, q, matches);
      FilterByCreation(ps, q, matches);
      var skip := ShownWindow(ps, q, matches, pageQ, limitQ);
      WindowReversed(matched, skip, if limitQ.Some? then limitQ.value else 10);
      var shown := r.listing.properties;
      forall i, j | 0 <= i < j < |shown|
        ensures shown[i].createdAt >= shown[j].createdAt
      {
        assert shown[i] == matched[|matched| - 1 - (skip + i)];
        assert shown[j] == matched[|matched| - 1 - (skip + j)];
      }
    }
  }

  /** Page 0 with a positive limit, and page 2 or later with a negative limit, make the skip negative and the listing fail. */
  lemma ListingNegativeSkip(ps: seq<Property>, q: ListingQuery, matches: (string, string) -> bool, limit: int)
    ensures limit > 0 ==> GetAllProperty(ps, q, matches, Some(0), Some(limit)).ListingFailed?
    ensures limit < 0 ==> GetAllProperty(ps, q, matches, Some(2), Some(limit)).ListingFailed?
    ensures GetAllProperty(ps, q, matches, Some(0), Some(0)).Listed?
  {
  }

  /* ---------------------------------------------------------------- */
  /* Rating, update, read-back                                          */
  /* ---------------------------------------------------------------- */

  /** The listing after `rateProperty`: the caller's evaluation upserted and `noteMoyenne` recomputed. */
  function RateListing(p: Property, uid: Id, rating: real): (r: Property)
    ensures r.evaluations == Upsert(p.evaluations, uid, rating)
    ensures r == p.(evaluations := r.evaluations, noteMoyenne := r.noteMoyenne)
  {
    var evs := Upsert(p.evaluations, uid, rating);
    p.(evaluations := evs, noteMoyenne := Mean(evs))
  }

  /**
   * After rating, `noteMoyenne` is the sum of the notes over their number,
   * the caller's rating is the note given, every other account's rating is
   * unchanged, and one evaluation per account is kept.
   */
  lemma RatingRecomputesMean(p: Property, uid: Id, rating: real, other: Id)
    requires OnePerUser(p.evaluations)
    ensures var r := RateListing(p, uid, rating);
            r.noteMoyenne * (|r.evaluations| as real) == SumNotes(r.evaluations)
            && UserRating(r.evaluations, uid) == Some(rating)
            && (other != uid ==> UserRating(r.evaluations, other) == UserRating(p.evaluations, other))
            && OnePerUser(r.evaluations)
  {
    RatedMean(p, uid, rating);
    UpsertRatings(p.evaluations, uid, rating, other);
    UpsertShape(p.evaluations, uid, rating);
  }

  /** The recomputed average times the number of evaluations is their total. */
  lemma RatedMean(p: Property, uid: Id, rating: real)
    ensures var r := RateListing(p, uid, rating);
            r.noteMoyenne * (|r.evaluations| as real) == SumNotes(r.evaluations)
  {
    var r := RateListing(p, uid, rating);
    assert r.noteMoyenne == Mean(r.evaluations);
    MeanTimesCount(r.evaluations);
  }

  /** The fields `updateProperty` may overwrite; an empty string or `None` is a field not supplied. */
  datatype PropertyEdit = PropertyEdit(titre: string, description: string, prix: Option<real>,
                                       ville: string, adresse: string, categorie: string)

  /** The listing after `updateProperty`'s loop: each of the six fields takes the supplied value when that value is truthy. */
  function EditListing(p: Property, e: PropertyEdit): (r: Property)
    ensures r.id == p.id && r.utilisateur == p.utilisateur && r.favoris == p.favoris
    ensures r.evaluations == p.evaluations && r.noteMoyenne == p.noteMoyenne && r.createdAt == p.createdAt
    ensures r.titre == (if e.titre != "" then e.titre else p.titre)
    ensures r.description == (if e.description != "" then e.description else p.description)
    ensures r.prix == (if e.prix.Some? && e.prix.value != 0.0 then e.prix.value else p.prix)
    ensures r.ville == (if e.ville != "" then e.ville else p.ville)
    ensures r.adresse == (if e.adresse != "" then e.adresse else p.adresse)
    ensures r.categorie == (if e.categorie != "" then e.categorie else p.categorie)
  {
    p.(titre := if e.titre != "" then e.titre else p.titre,
       description := if e.description != "" then e.description else p.description,
       prix := if e.prix.Some? && e.prix.value != 0.0 then e.prix.value else p.prix,
       ville := if e.ville != "" then e.ville else p.ville,
       adresse := if e.adresse != "" then e.adresse else p.adresse,
       categorie := if e.categorie != "" then e.categorie else p.categorie)
  }

  /** An edit that supplies nothing leaves the listing as it is, and applying the same edit twice is applying it once. */
  lemma EditListingIdempotent(p: Property, e: PropertyEdit)
    ensures EditListing(EditListing(p, e), e) == EditListing(p, e)
    ensures EditListing(p, PropertyEdit("", "", None, "", "", "")) == p
  {
  }

  /** What `getPropertyWithRating` answers for a listing that exists. */
  datatype RatingView = RatingView(property: Property, userRating: Option<real>, averageRating: real)

  /** `getPropertyWithRating`: `None` when the listing is missing (404). */
  function GetPropertyWithRating(ps: seq<Property>, pid: Id, caller: Id): (r: Option<RatingView>)
    ensures r.None? <==> FindProperty(ps, pid) == -1
    ensures r.Some? ==>
      (r.value.property.id == pid && r.value.property in ps && r.value.averageRating == r.value.property.noteMoyenne
       && r.value.userRating == UserRating(r.value.property.evaluations, caller))
  {
    var k := FindProperty(ps, pid);
    if k == -1 then None
    else Some(RatingView(ps[k], UserRating(ps[k].evaluations, caller), ps[k].noteMoyenne))
  }

  /** Right after the caller rates a listing, reading it back gives the caller's note and the recomputed average. */
  lemma RateThenRead(ps: seq<Property>, k: nat, caller: Id, rating: real)
    requires UniqueIds(ps) && k < |ps|
    ensures var rated := ps[k := RateListing(ps[k], caller, rating)];
            var v := GetPropertyWithRating(rated, ps[k].id, caller);
            v.Some? && v.value.userRating == Some(rating)
            && v.value.averageRating == Mean(Upsert(ps[k].evaluations, caller, rating))
  {
    var rated := ps[k := RateListing(ps[k], caller, rating)];
    assert forall i :: 0 <= i < |rated| ==> rated[i].id == ps[i].id;
    UpsertRatings(ps[k].evaluations, caller, rating, caller);
    var j := FindProperty(rated, ps[k].id);
    assert rated[k].id == ps[k].id;
    assert j == k;
  }

  /* ---------------------------------------------------------------- */
  /* The store                                                          */
  /* ---------------------------------------------------------------- */

  datatype ToggleOutcome = ToggleNotFound | ToggleServerError | Toggled
  datatype RateOutcome = RateNotFound | Rated(noteMoyenne: real)
  datatype OwnerOutcome = ListingNotFound | Unauthorized | Done

  /** Removing one listing keeps the collection valid. */
  lemma RemoveKeepsValid(ps: seq<Property>, k: nat)
    requires ListingsValid(ps) && k < |ps|
    ensures ListingsValid(ps[..k] + ps[k + 1..])
  {
    var t := ps[..k] + ps[k + 1..];
    forall i | 0 <= i < |t|
      ensures t[i] == ps[if i < k then i else i + 1]
    {
    }
  }

  /** Replacing one listing by another with the same id and creation time, and one evaluation per account, keeps the collection valid. */
  lemma ReplaceKeepsValid(ps: seq<Property>, k: nat, p: Property)
    requires ListingsValid(ps) && k < |ps|
    requires p.id == ps[k].id && p.createdAt == ps[k].createdAt && OnePerUser(p.evaluations)
    ensures ListingsValid(ps[k := p])
  {
  }

  class PropertyStore {
    var properties: seq<Property>

    ghost predicate Valid()
      reads this
    {
      ListingsValid(properties)
    }

    constructor (initial: seq<Property>)
      requires ListingsValid(initial)
      ensures Valid() && properties == initial
    {
      properties := initial;
    }

    /**
     * `toggleFavori`: a missing listing is a 404 and a missing account a
     * server error, both changing nothing; otherwise the account's and the
     * listing's `favoris` arrays are edited together.
     */
    method ToggleFavori(users: AccountStore, uid: Id, pid: Id) returns (r: ToggleOutcome)
      requires Valid() && users.Valid()
      modifies this, users
      ensures Valid() && users.Valid()
      ensures FindProperty(old(properties), pid) == -1 ==>
        r == ToggleNotFound && properties == old(properties) && users.accounts == old(users.accounts)
      ensures FindProperty(old(properties), pid) != -1 && uid >= |old(users.accounts)| ==>
        r == ToggleServerError && properties == old(properties) && users.accounts == old(users.accounts)
      ensures FindProperty(old(properties), pid) != -1 && uid < |old(users.accounts)| ==>
        var k := FindProperty(old(properties), pid);
        var f := Toggle(Favs(old(users.accounts)[uid].favoris, old(properties)[k].favoris), pid, uid);
        r == Toggled
        && users.accounts == old(users.accounts)[uid := old(users.accounts)[uid].(favoris := f.user)]
        && properties == old(properties)[k := old(properties)[k].(favoris := f.property)]
    {
      var k := FindProperty(properties, pid);
      if k == -1 {
        return ToggleNotFound;
      }
      if uid >= |users.accounts| {
        return ToggleServerError;
      }
      var f := Toggle(Favs(users.accounts[uid].favoris, properties[k].favoris), pid, uid);
      SaveSameEmail(users.accounts, uid, users.accounts[uid].(favoris := f.user));
      users.accounts := users.accounts[uid := users.accounts[uid].(favoris := f.user)];
      ReplaceKeepsValid(properties, k, properties[k].(favoris := f.property));
      properties := properties[k := properties[k].(favoris := f.property)];
      r := Toggled;
    }

    /** `rateProperty`: a missing listing is a 404; otherwise the caller's evaluation is upserted and the average recomputed. */
    method RateProperty(pid: Id, uid: Id, rating: real) returns (r: RateOutcome)
      requires Valid()
      modifies this
      ensures Valid()
      ensures FindProperty(old(properties), pid) == -1 ==> r == RateNotFound && properties == old(properties)
      ensures FindProperty(old(properties), pid) != -1 ==>
        var k := FindProperty(old(properties), pid);
        properties == old(properties)[k := RateListing(old(properties)[k], uid, rating)]
        && r == Rated(properties[k].noteMoyenne)
    {
      var k := FindProperty(properties, pid);
      if k == -1 {
        return RateNotFound;
      }
      var p := RateListing(properties[k], uid, rating);
      UpsertShape(properties[k].evaluations, uid, rating);
      ReplaceKeepsValid(properties, k, p);
      properties := properties[k := p];
      r := Rated(p.noteMoyenne);
    }

    /** `updateProperty`: a missing listing is a 404, another owner a 401; otherwise the truthy supplied fields overwrite. */
    method UpdateProperty(pid: Id, caller: Id, e: PropertyEdit) returns (r: OwnerOutcome)
      requires Valid()
      modifies this
      ensures Valid()
      ensures FindProperty(old(properties), pid) == -1 ==> r == ListingNotFound && properties == old(properties)
      ensures FindProperty(old(properties), pid) != -1 ==>
        var k := FindProperty(old(properties), pid);
        if old(properties)[k].utilisateur != caller then r == Unauthorized && properties == old(properties)
        else r == Done && properties == old(properties)[k := EditListing(old(properties)[k], e)]
    {
      var k := FindProperty(properties, pid);
      if k == -1 {
        return ListingNotFound;
      }
      if properties[k].utilisateur != caller {
        return Unauthorized;
      }
      ReplaceKeepsValid(properties, k, EditListing(properties[k], e));
      properties := properties[k := EditListing(properties[k], e)];
      r := Done;
    }

    /** `deleteProperty`: a missing listing is a 404, another owner a 401; otherwise the listing is removed. */
    method DeleteProperty(pid: Id, caller: Id) returns (r: OwnerOutcome)
      requires Valid()
      modifies this
      ensures Valid()
      ensures FindProperty(old(properties), pid) == -1 ==> r == ListingNotFound && properties == old(properties)
      ensures FindProperty(old(properties), pid) != -1 ==>
        var k := FindProperty(old(properties), pid);
        if old(properties)[k].utilisateur != caller then r == Unauthorized && properties == old(properties)
        else r == Done && properties == old(properties)[..k] + old(properties)[k + 1..]
      ensures FindProperty(properties, pid) == -1 <==> r != Unauthorized
    {
      var k := FindProperty(properties, pid);
      if k == -1 {
        return ListingNotFound;
      }
      if properties[k].utilisateur != caller {
        return Unauthorized;
      }
      RemoveKeepsValid(properties, k);
      properties := properties[..k] + properties[k + 1..];
      r := Done;
    }
  }
}
