/** The read-only views over the store: `available_requests` (exclusion,
    genre and audience-size filters, newest-first order, blocked dates),
    the action dates of `home`, and the lists and acceptance counts of
    `show_requests`. */
module Listing {
  import opened Wrappers
  import opened Dates
  import opened Schema
  import opened Reservation

  // ---------------------------------------------------------------------
  // GROUPSIZE_RANGES
  // ---------------------------------------------------------------------

  /** `GROUPSIZE_RANGES[key]` as a half-open interval [low, high); `None`
      where the lookup raises `KeyError`. */
  function GroupSizeRange(key: string): (r: Option<(int, int)>)
    ensures r.Some? ==> r.value.0 < r.value.1
  {
    if key == "size1" then Some((0, 100))
    else if key == "size2" then Some((100, 500))
    else if key == "size3" then Some((500, 1000))
    else if key == "size4" then Some((1000, 1000000))
    else None
  }

  predicate InRange(count: int, range: (int, int)) {
    range.0 <= count < range.1
  }

  /** The range table and the stored choice set have the same keys. */
  lemma {:induction false} RangesMatchChoices(key: string)
    ensures GroupSizeRange(key).Some? <==> GroupSizeFromKey(key).Some?
  {
  }

  /** The bucket a subscriber count falls in. */
  function BucketOf(count: int): (g: GroupSize)
    requires 0 <= count < 1000000
    ensures InRange(count, GroupSizeRange(GroupSizeKey(g)).value)
  {
    if count < 100 then Size1 else if count < 500 then Size2 else if count < 1000 then Size3 else Size4
  }

  /** The four ranges partition [0, 1000000): every count in it lies in
      exactly one, and a count outside it in none, so such an author never
      shows up under an audience-size filter. */
  lemma {:induction false} RangesPartition(count: int, g: GroupSize)
    ensures InRange(count, GroupSizeRange(GroupSizeKey(g)).value) <==>
      0 <= count < 1000000 && g == BucketOf(count)
  {
  }

  // ---------------------------------------------------------------------
  // Newest-first order
  // ---------------------------------------------------------------------

  /** `a` is listed before `b`: a later start date, or the same start date
      and a larger id. */
  predicate ListedBefore(requests: map<RequestId, BlogRequest>, a: RequestId, b: RequestId)
    requires a in requests && b in requests
  {
    Before(requests[b].startDate, requests[a].startDate) ||
    (requests[a].startDate == requests[b].startDate && a > b)
  }

  /** Two different requests are always listed one way or the other, and
      the order is transitive: a strict total order. */
  lemma {:induction false} ListedBeforeTotal(requests: map<RequestId, BlogRequest>, a: RequestId, b: RequestId)
    requires a in requests && b in requests && a != b
    ensures ListedBefore(requests, a, b) != ListedBefore(requests, b, a)
  {
  }

  lemma {:induction false} ListedBeforeTransitive(requests: map<RequestId, BlogRequest>, a: RequestId, b: RequestId, c: RequestId)
    requires a in requests && b in requests && c in requests
    requires ListedBefore(requests, a, b) && ListedBefore(requests, b, c)
    ensures ListedBefore(requests, a, c)
  {
  }

  /** `m` is listed before every other request of `ids`. */
  predicate IsLatest(requests: map<RequestId, BlogRequest>, ids: set<RequestId>, m: RequestId)
    requires ids <= requests.Keys
  {
    m in ids && forall x :: x in ids && x != m ==> ListedBefore(requests, m, x)
  }

  lemma {:induction false} LatestExists(requests: map<RequestId, BlogRequest>, ids: set<RequestId>)
    requires ids != {} && ids <= requests.Keys
    ensures exists m :: IsLatest(requests, ids, m)
    decreases |ids|
  {
    var x :| x in ids;
    if ids == {x} {
      assert IsLatest(requests, ids, x);
    } else {
      var rest := ids - {x};
      LatestExists(requests, rest);
      var m :| IsLatest(requests, rest, m);
      ListedBeforeTotal(requests, m, x);
      if ListedBefore(requests, m, x) {
        forall y | y in ids && y != m ensures ListedBefore(requests, m, y) {
          if y != x {
            assert y in rest;
          }
        }
        assert IsLatest(requests, ids, m);
      } else {
        forall y | y in ids && y != x ensures ListedBefore(requests, x, y) {
          if y != m {
            assert y in rest;
            ListedBeforeTransitive(requests, x, m, y);
          }
        }
        assert IsLatest(requests, ids, x);
      }
    }
  }

  /** The request of `ids` that comes first in the listing. */
  ghost function Latest(requests: map<RequestId, BlogRequest>, ids: set<RequestId>): (m: RequestId)
    requires ids != {} && ids <= requests.Keys
    ensures m in ids
    ensures forall x {:trigger ListedBefore(requests, m, x)} :: x in ids && x != m ==> ListedBefore(requests, m, x)
  {
    LatestExists(requests, ids);
    var m :| IsLatest(requests, ids, m);
    m
  }

  /** `.order_by('-start_date')` over a set of request ids: each id once,
      and nothing else. */
  ghost function SortByStartDesc(requests: map<RequestId, BlogRequest>, ids: set<RequestId>): (s: seq<RequestId>)
    requires ids <= requests.Keys
    ensures |s| == |ids|
    ensures forall i :: 0 <= i < |s| ==> s[i] in ids
    ensures forall x :: x in ids ==> x in s
    decreases |ids|
  {
    if ids == {} then []
    else
      var m := Latest(requests, ids);
      var rest := SortByStartDesc(requests, ids - {m});
      assert forall i :: 0 <= i < |rest| ==> rest[i] in ids - {m};
      [m] + rest
  }

  /** Each id of `s` at most once, every one listed before those after it. */
  predicate NewestFirst(requests: map<RequestId, BlogRequest>, s: seq<RequestId>)
    requires forall i :: 0 <= i < |s| ==> s[i] in requests
  {
    forall i, j :: 0 <= i < j < |s| ==> s[i] != s[j] && ListedBefore(requests, s[i], s[j])
  }

  lemma {:induction false} PrependNewest(requests: map<RequestId, BlogRequest>, m: RequestId, rest: seq<RequestId>)
    requires m in requests && forall i :: 0 <= i < |rest| ==> rest[i] in requests
    requires NewestFirst(requests, rest)
    requires forall i :: 0 <= i < |rest| ==> rest[i] != m && ListedBefore(requests, m, rest[i])
    ensures NewestFirst(requests, [m] + rest)
  {
    var s := [m] + rest;
    forall i, j | 0 <= i < j < |s| ensures s[i] != s[j] && ListedBefore(requests, s[i], s[j]) {
      assert s[j] == rest[j - 1];
      if i > 0 {
        assert s[i] == rest[i - 1];
      }
    }
  }

  /** No id is listed twice, and later positions never have a later start
      date. */
  lemma {:induction false} SortedNewestFirst(requests: map<RequestId, BlogRequest>, ids: set<RequestId>)
    requires ids <= requests.Keys
    ensures NewestFirst(requests, SortByStartDesc(requests, ids))
    ensures var s := SortByStartDesc(requests, ids);
      forall i, j :: 0 <= i < j < |s| ==> s[i] != s[j] && !Before(requests[s[i]].startDate, requests[s[j]].startDate)
    decreases |ids|
  {
    var s := SortByStartDesc(requests, ids);
    if ids != {} {
      var m := Latest(requests, ids);
      var rest := SortByStartDesc(requests, ids - {m});
      SortedNewestFirst(requests, ids - {m});
      forall k | 0 <= k < |rest| ensures rest[k] != m && ListedBefore(requests, m, rest[k]) {
        assert rest[k] in ids - {m};
      }
      PrependNewest(requests, m, rest);
      assert s == [m] + rest;
    }
    assert NewestFirst(requests, s);
  }

  // ---------------------------------------------------------------------
  // available_requests
  // ---------------------------------------------------------------------

  /** The author of `id` has a profile whose genre key equals `genre`
      (`filter(user__profile__genres=genre)`; no profile or NULL never
      matches). */
  predicate GenreMatches(db: Db, id: RequestId, genre: string)
    requires id in db.requests
  {
    var owner := db.requests[id].owner;
    owner in db.profiles && db.profiles[owner].genres.Some? &&
    GenreKey(db.profiles[owner].genres.value) == genre
  }

  /** The author of `id` has `low <= subscribers_count < high`. */
  predicate SizeMatches(db: Db, id: RequestId, range: (int, int))
    requires id in db.requests
  {
    var owner := db.requests[id].owner;
    owner in db.profiles && db.profiles[owner].subscribersCount.Some? &&
    InRange(db.profiles[owner].subscribersCount.value, range)
  }

  /** A request survives the exclusions and the filters that were given
      (an empty query parameter is no filter). */
  predicate Candidate(db: Db, viewer: UserId, genre: string, range: Option<(int, int)>, id: RequestId)
    requires id in db.requests
  {
    db.requests[id].owner != viewer &&
    !HasSaved(db.saves, viewer, id) &&
    (genre != "" ==> GenreMatches(db, id, genre)) &&
    (range.Some? ==> SizeMatches(db, id, range.value))
  }

  /** The request list of `available_requests`, newest first; `None` where
      an unknown `groupsize` parameter makes the range lookup raise. */
  ghost function AvailableRequests(db: Db, viewer: UserId, genre: string, groupsize: string): Option<seq<RequestId>>
  {
    var range := if groupsize == "" then None else GroupSizeRange(groupsize);
    if groupsize != "" && range.None? then None
    else Some(SortByStartDesc(db.requests, set id | id in db.requests && Candidate(db, viewer, genre, range, id)))
  }

  /** The listing is refused exactly for an unknown `groupsize` key. */
  lemma {:induction false} ListingRefused(db: Db, viewer: UserId, genre: string, groupsize: string)
    ensures AvailableRequests(db, viewer, genre, groupsize).None? <==>
      groupsize != "" && GroupSizeFromKey(groupsize).None?
  {
    RangesMatchChoices(groupsize);
  }

  /** What the listing holds: exactly the requests that are neither the
      viewer's own nor already claimed by the viewer and that pass the
      given filters ... */
  lemma {:induction false} ListingContents(db: Db, viewer: UserId, genre: string, groupsize: string)
    ensures var r := AvailableRequests(db, viewer, genre, groupsize);
      r.Some? ==>
        forall id :: id in r.value <==>
          id in db.requests && db.requests[id].owner != viewer && !HasSaved(db.saves, viewer, id) &&
          (genre != "" ==> GenreMatches(db, id, genre)) &&
          (groupsize != "" ==> SizeMatches(db, id, GroupSizeRange(groupsize).value))
  {
    var range := if groupsize == "" then None else GroupSizeRange(groupsize);
    if !(groupsize != "" && range.None?) {
      var ids := set id | id in db.requests && Candidate(db, viewer, genre, range, id);
      var s := SortByStartDesc(db.requests, ids);
      assert AvailableRequests(db, viewer, genre, groupsize) == Some(s);
      forall id ensures id in s <==> id in ids {
        if id in s {
          var i :| 0 <= i < |s| && s[i] == id;
        }
      }
    }
  }

  /** ... each once, newest first. */
  lemma {:induction false} ListingOrder(db: Db, viewer: UserId, genre: string, groupsize: string)
    ensures var r := AvailableRequests(db, viewer, genre, groupsize);
      r.Some? ==>
        var s := r.value;
        forall i, j :: 0 <= i < j < |s| ==>
          s[i] in db.requests && s[j] in db.requests &&
          s[i] != s[j] && !Before(db.requests[s[i]].startDate, db.requests[s[j]].startDate)
  {
    var range := if groupsize == "" then None else GroupSizeRange(groupsize);
    if !(groupsize != "" && range.None?) {
      var ids := set id | id in db.requests && Candidate(db, viewer, genre, range, id);
      var s := SortByStartDesc(db.requests, ids);
      assert AvailableRequests(db, viewer, genre, groupsize) == Some(s);
      SortedNewestFirst(db.requests, ids);
      forall i, j | 0 <= i < j < |s|
        ensures s[i] in db.requests && s[j] in db.requests &&
          s[i] != s[j] && !Before(db.requests[s[i]].startDate, db.requests[s[j]].startDate)
      {
      }
    }
  }

  /** The filters in the terms of the profile: with a genre filter every
      author has that genre; with an audience-size filter every author's
      count lies in the bucket's range; and the viewer never sees their own
      request or one they have claimed, so the `saved` annotation is always
      false. */
  lemma {:induction false} ListingFilters(db: Db, viewer: UserId, genre: string, groupsize: string, id: RequestId)
    requires AvailableRequests(db, viewer, genre, groupsize).Some?
    requires id in AvailableRequests(db, viewer, genre, groupsize).value
    ensures id in db.requests
    ensures db.requests[id].owner != viewer && !HasSaved(db.saves, viewer, id)
    ensures genre != "" ==>
      var p := db.profiles[db.requests[id].owner];
      p.genres.Some? && GenreKey(p.genres.value) == genre
    ensures groupsize != "" ==>
      var p := db.profiles[db.requests[id].owner];
      var g := GroupSizeFromKey(groupsize).value;
      p.subscribersCount.Some? && InRange(p.subscribersCount.value, GroupSizeRange(GroupSizeKey(g)).value)
  {
    ListingContents(db, viewer, genre, groupsize);
    RangesMatchChoices(groupsize);
  }

  // ---------------------------------------------------------------------
  // Blocked dates
  // ---------------------------------------------------------------------

  /** The non-NULL dates claimed on `pk`. */
  function ClaimedDates(saves: map<SaveId, SavedRequest>, pk: RequestId): (r: set<CalendarDate>)
    ensures forall d :: d in r <==> DateTakenOn(saves, pk, d)
  {
    set k | k in saves && saves[k].request == pk && saves[k].shareDueDate.Some? :: saves[k].shareDueDate.value
  }

  /** The `%Y-%m-%d` strings of the non-NULL dates claimed on `pk`
      (`values_list('share_due_date')`, `None` skipped, `strftime`). */
  function TakenDates(saves: map<SaveId, SavedRequest>, pk: RequestId): set<string> {
    set d | d in ClaimedDates(saves, pk) :: IsoFormat(d)
  }

  /** A date's string is blocked on a request exactly when some claim on
      that request holds that date. */
  lemma {:induction false} TakenDatesIff(saves: map<SaveId, SavedRequest>, pk: RequestId, d: CalendarDate)
    ensures IsoFormat(d) in TakenDates(saves, pk) <==> DateTakenOn(saves, pk, d)
  {
    var claimed := ClaimedDates(saves, pk);
    if IsoFormat(d) in TakenDates(saves, pk) {
      var e :| e in claimed && IsoFormat(e) == IsoFormat(d);
      FormatInjective(e, d);
    }
  }

  /** The loop that fills `blocked_dates`: one entry per listed request,
      holding that request's taken dates. */
  method BlockedDates(db: Db, listing: seq<RequestId>) returns (blocked: map<RequestId, set<string>>)
    ensures blocked.Keys == set i | 0 <= i < |listing| :: listing[i]
    ensures forall id :: id in blocked ==> blocked[id] == TakenDates(db.saves, id)
  {
    blocked := map[];
    for i := 0 to |listing|
      invariant blocked.Keys == set j | 0 <= j < i :: listing[j]
      invariant forall id :: id in blocked ==> blocked[id] == TakenDates(db.saves, id)
    {
      blocked := blocked[listing[i] := TakenDates(db.saves, listing[i])];
    }
  }

  /** Round trip through the claim handler: a created claim's date is
      blocked on its request afterwards. */
  lemma {:induction false} CreatedDateBlocked(db: Db, user: UserId, pk: RequestId, posted: string, today: CalendarDate)
    requires Consistent(db)
    ensures var r := Toggle(db, user, pk, true, posted, today);
      r.outcome.Created? ==> IsoFormat(ParseIsoDate(posted).value) in TakenDates(r.db.saves, pk)
  {
    var r := Toggle(db, user, pk, true, posted, today);
    if r.outcome.Created? {
      CreatedIff(db, user, pk, true, posted, today);
      var d := ParseIsoDate(posted).value;
      assert r.db.saves[db.nextSaveId] == SavedRequest(user, pk, Some(d));
      TakenDatesIff(r.db.saves, pk, d);
    }
  }

  /** ... and a withdrawn claim's date is no longer blocked, since no other
      claim on the request can hold it. */
  lemma {:induction false} WithdrawnDateFreed(db: Db, user: UserId, pk: RequestId, k: SaveId, today: CalendarDate)
    requires Consistent(db) && NoDoubleBooking(db.saves)
    requires k in db.saves && db.saves[k].user == user && db.saves[k].request == pk
    requires db.saves[k].shareDueDate.Some?
    ensures var r := Toggle(db, user, pk, true, "", today);
      r.outcome.Withdrawn? && IsoFormat(db.saves[k].shareDueDate.value) !in TakenDates(r.db.saves, pk)
  {
    var d := db.saves[k].shareDueDate.value;
    var rest := Unsave(db.saves, user, pk);
    assert HasSaved(db.saves, user, pk);
    assert Toggle(db, user, pk, true, "", today) == ToggleResult(Withdrawn, db.(saves := rest));
    forall j | j in rest && rest[j].request == pk
      ensures rest[j].shareDueDate != Some(d)
    {
      assert j != k && rest[j] == db.saves[j];
    }
    TakenDatesIff(rest, pk, d);
  }

  // ---------------------------------------------------------------------
  // home: action dates
  // ---------------------------------------------------------------------

  /** The requests the user has claimed and does not own
      (`filter(saves__user=user).exclude(user=user)`). */
  function ActionRequests(db: Db, user: UserId): set<RequestId> {
    set id | id in db.requests && HasSaved(db.saves, user, id) && db.requests[id].owner != user
  }

  /** Their start dates as `%Y-%m-%d` strings. */
  function ActionDates(db: Db, user: UserId): set<string> {
    set id | id in ActionRequests(db, user) :: IsoFormat(db.requests[id].startDate)
  }

  /** After a user claims someone else's request, that request's start date
      is one of the user's action dates; a claim on one's own request never
      adds one. */
  lemma {:induction false} ClaimAddsActionDate(db: Db, user: UserId, pk: RequestId, posted: string, today: CalendarDate)
    requires Consistent(db)
    ensures var r := Toggle(db, user, pk, true, posted, today);
      r.outcome.Created? && db.requests[pk].owner != user ==>
        IsoFormat(db.requests[pk].startDate) in ActionDates(r.db, user)
    ensures var r := Toggle(db, user, pk, true, posted, today);
      r.outcome.Created? && db.requests[pk].owner == user ==>
        ActionDates(r.db, user) == ActionDates(db, user)
  {
    var r := Toggle(db, user, pk, true, posted, today);
    if r.outcome.Created? {
      CreatedIff(db, user, pk, true, posted, today);
      NewClaimActionRequests(db, user, pk, db.nextSaveId, ParseIsoDate(posted));
    }
  }

  /** A new claim row of `user` on `pk` adds `pk` to the user's action
      requests when someone else owns it, and changes nothing otherwise. */
  lemma {:induction false} NewClaimActionRequests(db: Db, user: UserId, pk: RequestId, k: SaveId, d: Option<CalendarDate>)
    requires pk in db.requests && k !in db.saves
    ensures var after := db.(saves := db.saves[k := SavedRequest(user, pk, d)]);
      ActionRequests(after, user) ==
        ActionRequests(db, user) + (if db.requests[pk].owner != user then {pk} else {})
  {
    var saves := db.saves[k := SavedRequest(user, pk, d)];
    var after := db.(saves := saves);
    assert HasSaved(saves, user, pk) by {
      assert saves[k].user == user && saves[k].request == pk;
    }
    forall id | id != pk ensures HasSaved(saves, user, id) == HasSaved(db.saves, user, id) {
      if HasSaved(saves, user, id) {
        var j :| j in saves && saves[j].user == user && saves[j].request == id;
        assert j != k && j in db.saves;
      }
      if HasSaved(db.saves, user, id) {
        var j :| j in db.saves && db.saves[j].user == user && db.saves[j].request == id;
        assert j in saves && saves[j] == db.saves[j];
      }
    }
  }

  // ---------------------------------------------------------------------
  // show_requests
  // ---------------------------------------------------------------------

  /** The claim rows on `pk`. */
  function ClaimKeys(saves: map<SaveId, SavedRequest>, pk: RequestId): set<SaveId> {
    set k | k in saves && saves[k].request == pk
  }

  /** The number of claims on `pk` (`SavedRequest.objects.filter(request=req).count()`). */
  function ClaimCount(saves: map<SaveId, SavedRequest>, pk: RequestId): nat {
    |ClaimKeys(saves, pk)|
  }

  /** The users who claimed `pk`. */
  function Claimants(saves: map<SaveId, SavedRequest>, pk: RequestId): set<UserId> {
    set k | k in ClaimKeys(saves, pk) :: saves[k].user
  }

  /** The loop that sets `acceptance_count` on each of the user's requests. */
  method AcceptanceCounts(db: Db, created: seq<RequestId>) returns (counts: seq<nat>)
    ensures |counts| == |created|
    ensures forall i :: 0 <= i < |created| ==> counts[i] == ClaimCount(db.saves, created[i])
  {
    counts := [];
    for i := 0 to |created|
      invariant |counts| == i
      invariant forall j :: 0 <= j < i ==> counts[j] == ClaimCount(db.saves, created[j])
    {
      counts := counts + [ClaimCount(db.saves, created[i])];
    }
  }

  /** Because a user holds at most one claim per request, a request's
      acceptance count is the number of distinct users who claimed it. */
  lemma {:induction false} AcceptanceCountIsClaimants(saves: map<SaveId, SavedRequest>, pk: RequestId)
    requires UniquePerUserRequest(saves)
    ensures ClaimCount(saves, pk) == |Claimants(saves, pk)|
  {
    var keys := ClaimKeys(saves, pk);
    assert forall a, b :: a in keys && b in keys && a != b ==> saves[a].user != saves[b].user;
    InjectiveImage(saves, keys);
  }

  lemma {:induction false} InjectiveImage(saves: map<SaveId, SavedRequest>, keys: set<SaveId>)
    requires keys <= saves.Keys
    requires forall a, b :: a in keys && b in keys && a != b ==> saves[a].user != saves[b].user
    ensures |set k | k in keys :: saves[k].user| == |keys|
    decreases |keys|
  {
    if keys != {} {
      var k :| k in keys;
      var rest := keys - {k};
      InjectiveImage(saves, rest);
      var img := set j | j in keys :: saves[j].user;
      var imgRest := set j | j in rest :: saves[j].user;
      assert img == imgRest + {saves[k].user};
      assert saves[k].user !in imgRest;
    }
  }

  /** The user's own requests, newest first (`created_requests`). */
  ghost function CreatedRequests(db: Db, user: UserId): seq<RequestId> {
    SortByStartDesc(db.requests, set id | id in db.requests && db.requests[id].owner == user)
  }

  /** Other users' requests the user has claimed, newest first
      (`accepted_requests`). */
  ghost function AcceptedRequests(db: Db, user: UserId): seq<RequestId> {
    SortByStartDesc(db.requests, ActionRequests(db, user))
  }

  /** Every accepted request's start date is an action date ... */
  lemma {:induction false} AcceptedAreActionDates(db: Db, user: UserId)
    ensures var s := AcceptedRequests(db, user);
      forall i :: 0 <= i < |s| ==>
        s[i] in db.requests && IsoFormat(db.requests[s[i]].startDate) in ActionDates(db, user)
  {
    var ids := ActionRequests(db, user);
    var s := AcceptedRequests(db, user);
    forall i | 0 <= i < |s|
      ensures s[i] in db.requests && IsoFormat(db.requests[s[i]].startDate) in ActionDates(db, user)
    {
      assert s[i] in ids;
    }
  }

  /** ... and every action date is the start date of an accepted request. */
  lemma {:induction false} ActionDatesCovered(db: Db, user: UserId)
    ensures var s := AcceptedRequests(db, user);
      forall x :: x in ActionDates(db, user) ==>
        exists i :: 0 <= i < |s| && s[i] in db.requests && x == IsoFormat(db.requests[s[i]].startDate)
  {
    var ids := ActionRequests(db, user);
    var s := AcceptedRequests(db, user);
    forall x | x in ActionDates(db, user)
      ensures exists i :: 0 <= i < |s| && s[i] in db.requests && x == IsoFormat(db.requests[s[i]].startDate)
    {
      var id :| id in ids && x == IsoFormat(db.requests[id].startDate);
      assert id in s;
      var i :| 0 <= i < |s| && s[i] == id;
    }
  }
}
