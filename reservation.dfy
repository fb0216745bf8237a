/** The claim handler `toggle_save_request`: for one request to
    `/requests/<pk>/save/` by a logged-in user it either withdraws the
    caller's claim, rejects the submission, creates a claim, or leaves the
    store as it is. The check that a date is free and the insert that
    follows are modelled as one sequential step; `today` is a parameter. */
module Reservation {
  import opened Wrappers
  import opened Dates
  import opened Schema

  /** What the handler answers. */
  datatype ToggleOutcome =
    | NotFound                    // no request with that pk: 404
    | NoResponse                  // not a POST: the view returns nothing, Django raises
    | Withdrawn                   // the caller's claim was deleted; redirect
    | Created(id: SaveId)         // a claim was inserted; redirect
    | Kept                        // the caller already holds a claim; nothing changes; redirect
    | BadDateFormat               // "invalid date format" error page
    | OutOfWindow(minAllowed: CalendarDate, maxAllowed: CalendarDate)  // "choose a date from .. to .." error page
    | DateTaken                   // "this day is already taken" message; redirect
    | DateRequired                // "a date must be chosen" error page
    | ServerError                 // the raw date string failed Django's own coercion

  predicate IsRejection(o: ToggleOutcome) {
    o.NotFound? || o.NoResponse? || o.BadDateFormat? || o.OutOfWindow? ||
    o.DateTaken? || o.DateRequired? || o.ServerError?
  }

  datatype ToggleResult = ToggleResult(outcome: ToggleOutcome, db: Db)

  /** The claims left after `filter(user=u, request=pk).delete()`. */
  function Unsave(saves: map<SaveId, SavedRequest>, u: UserId, pk: RequestId): (r: map<SaveId, SavedRequest>)
    ensures !HasSaved(r, u, pk)
    ensures forall k :: k in r <==> k in saves && !(saves[k].user == u && saves[k].request == pk)
    ensures forall k :: k in r ==> r[k] == saves[k]
  {
    map k | k in saves && !(saves[k].user == u && saves[k].request == pk) :: saves[k]
  }

  /** The window a posted date must fall in: from the later of today and
      `available_from`, to `available_to`, both ends included. */
  predicate InWindow(d: CalendarDate, br: BlogRequest, today: CalendarDate) {
    !Before(d, MaxDate(today, br.availableFrom)) && !Before(br.availableTo, d)
  }

  /** The handler, branch by branch. `posted` is the `share_due_date` form
      field, the empty string standing for a missing one (both are falsy).
      The taken-date filter and the insert hand Django the raw string, which
      it coerces with its own pattern; `DjangoAgrees` shows that where that
      coercion succeeds it yields the date strptime parsed. */
  function Toggle(db: Db, user: UserId, pk: RequestId, isPost: bool, posted: string, today: CalendarDate): ToggleResult
  {
    if pk !in db.requests then ToggleResult(NotFound, db)
    else if !isPost then ToggleResult(NoResponse, db)
    else
      var br := db.requests[pk];
      var held := HasSaved(db.saves, user, pk);
      if held && posted == "" then
        ToggleResult(Withdrawn, db.(saves := Unsave(db.saves, user, pk)))
      else if posted != "" then
        match ParseIsoDate(posted)
        case None => ToggleResult(BadDateFormat, db)
        case Some(d) =>
          var minAllowed := MaxDate(today, br.availableFrom);
          if Before(d, minAllowed) || Before(br.availableTo, d) then
            ToggleResult(OutOfWindow(minAllowed, br.availableTo), db)
          else if DjangoDate(posted).None? then
            ToggleResult(ServerError, db)
          else if DateTakenOn(db.saves, pk, d) then
            ToggleResult(DateTaken, db)
          else if held then
            ToggleResult(Kept, db)
          else
            var id := db.nextSaveId;
            ToggleResult(Created(id), db.(saves := db.saves[id := SavedRequest(user, pk, Some(d))], nextSaveId := id + 1))
      else
        ToggleResult(DateRequired, db)
  }

  // ---------------------------------------------------------------------
  // Properties
  // ---------------------------------------------------------------------

  /** Only a withdrawal or a creation changes the store; every rejection and
      the holder's resubmission leave it exactly as it was. */
  lemma {:induction false} RejectedMeansUnchanged(db: Db, user: UserId, pk: RequestId, isPost: bool, posted: string, today: CalendarDate)
    ensures var r := Toggle(db, user, pk, isPost, posted, today);
      (IsRejection(r.outcome) || r.outcome.Kept?) ==> r.db == db
    ensures var r := Toggle(db, user, pk, isPost, posted, today);
      r.db.users == db.users && r.db.profiles == db.profiles && r.db.requests == db.requests
  {
  }

  /** Withdrawing: with a claim held and no date posted, exactly the
      caller's claim on this request goes and every other claim stays. */
  lemma {:induction false} WithdrawRemovesExactlyOwnClaim(db: Db, user: UserId, pk: RequestId, today: CalendarDate)
    requires Consistent(db)
    requires pk in db.requests && HasSaved(db.saves, user, pk)
    ensures var r := Toggle(db, user, pk, true, "", today);
      r.outcome == Withdrawn &&
      (exists k :: k in db.saves && db.saves[k].user == user && db.saves[k].request == pk &&
        r.db.saves == map j | j in db.saves && j != k :: db.saves[j]) &&
      !HasSaved(r.db.saves, user, pk)
  {
    var k :| k in db.saves && db.saves[k].user == user && db.saves[k].request == pk;
    var r := Toggle(db, user, pk, true, "", today);
    assert r.db.saves == map j | j in db.saves && j != k :: db.saves[j];
  }

  /** Withdrawing without a claim is an error that changes nothing, so a
      second withdrawal right after a first one is answered with an error,
      not silently ignored. */
  lemma {:induction false} SecondWithdrawFails(db: Db, user: UserId, pk: RequestId, today: CalendarDate)
    requires pk in db.requests
    ensures var first := Toggle(db, user, pk, true, "", today);
      first.outcome.Withdrawn? || first.outcome == DateRequired
    ensures var first := Toggle(db, user, pk, true, "", today);
      var second := Toggle(first.db, user, pk, true, "", today);
      second.outcome == DateRequired && second.db == first.db
  {
    var first := Toggle(db, user, pk, true, "", today);
    assert !HasSaved(first.db.saves, user, pk);
  }

  /** A posted string strptime refuses is rejected and changes nothing. */
  lemma {:induction false} MalformedDateRejected(db: Db, user: UserId, pk: RequestId, posted: string, today: CalendarDate)
    requires pk in db.requests && posted != "" && ParseIsoDate(posted).None?
    ensures Toggle(db, user, pk, true, posted, today) == ToggleResult(BadDateFormat, db)
  {
  }

  /** A posted date is refused as out of window exactly when it parses and
      lies before max(today, available_from) or after available_to. */
  lemma {:induction false} OutOfWindowIff(db: Db, user: UserId, pk: RequestId, posted: string, today: CalendarDate)
    requires pk in db.requests && posted != ""
    ensures var r := Toggle(db, user, pk, true, posted, today);
      r.outcome.OutOfWindow? <==>
        ParseIsoDate(posted).Some? && !InWindow(ParseIsoDate(posted).value, db.requests[pk], today)
    ensures var r := Toggle(db, user, pk, true, posted, today);
      r.outcome.OutOfWindow? ==>
        r.db == db && r.outcome.maxAllowed == db.requests[pk].availableTo &&
        r.outcome.minAllowed == MaxDate(today, db.requests[pk].availableFrom)
  {
  }

  /** A date already claimed on this request, by anyone including the
      caller, is refused and changes nothing. */
  lemma {:induction false} TakenDateRejected(db: Db, user: UserId, pk: RequestId, posted: string, today: CalendarDate)
    requires pk in db.requests && posted != ""
    requires ParseIsoDate(posted).Some? && InWindow(ParseIsoDate(posted).value, db.requests[pk], today)
    requires DjangoDate(posted).Some?
    requires DateTakenOn(db.saves, pk, ParseIsoDate(posted).value)
    ensures Toggle(db, user, pk, true, posted, today) == ToggleResult(DateTaken, db)
  {
  }

  /** A claim is created exactly when the request exists, the call is a
      POST, the date parses, lies in the window, survives Django's coercion
      and is free, and the caller holds no claim on this request. Nothing
      here asks whether the caller owns the request: an owner can claim a
      date on their own request. */
  lemma {:induction false} CreatedIff(db: Db, user: UserId, pk: RequestId, isPost: bool, posted: string, today: CalendarDate)
    ensures var r := Toggle(db, user, pk, isPost, posted, today);
      r.outcome.Created? <==>
        pk in db.requests && isPost && ParseIsoDate(posted).Some? &&
        InWindow(ParseIsoDate(posted).value, db.requests[pk], today) &&
        DjangoDate(posted).Some? &&
        !DateTakenOn(db.saves, pk, ParseIsoDate(posted).value) &&
        !HasSaved(db.saves, user, pk)
    ensures var r := Toggle(db, user, pk, isPost, posted, today);
      r.outcome.Created? ==>
        r.outcome.id == db.nextSaveId &&
        r.db == db.(saves := db.saves[db.nextSaveId := SavedRequest(user, pk, ParseIsoDate(posted))],
                    nextSaveId := db.nextSaveId + 1)
  {
    if ParseIsoDate(posted).Some? {
      assert posted != "";
    }
  }

  /** The open question of resubmission, as the handler settles it: a
      caller who already holds a claim and posts another free date inside
      the window gets a plain redirect, and the store does not change. The
      claim is neither moved nor duplicated. */
  lemma {:induction false} ResubmitKeepsClaim(db: Db, user: UserId, pk: RequestId, posted: string, today: CalendarDate)
    requires pk in db.requests && HasSaved(db.saves, user, pk)
    requires ParseIsoDate(posted).Some? && InWindow(ParseIsoDate(posted).value, db.requests[pk], today)
    requires DjangoDate(posted).Some? && !DateTakenOn(db.saves, pk, ParseIsoDate(posted).value)
    ensures Toggle(db, user, pk, true, posted, today) == ToggleResult(Kept, db)
  {
    assert posted != "";
  }

  /** Every step keeps the storage invariants and the absence of double
      bookings. `user` is the logged-in caller, so a user row exists. */
  lemma {:induction false} TogglePreservesInvariants(db: Db, user: UserId, pk: RequestId, isPost: bool, posted: string, today: CalendarDate)
    requires Consistent(db) && NoDoubleBooking(db.saves) && user in db.users
    ensures var r := Toggle(db, user, pk, isPost, posted, today);
      Consistent(r.db) && NoDoubleBooking(r.db.saves)
  {
    var r := Toggle(db, user, pk, isPost, posted, today);
    if r.outcome.Withdrawn? {
      UnsavePreserves(db, user, pk);
    } else if r.outcome.Created? {
      CreatedIff(db, user, pk, isPost, posted, today);
      InsertPreserves(db, user, pk, ParseIsoDate(posted).value);
    } else {
      RejectedMeansUnchanged(db, user, pk, isPost, posted, today);
    }
  }

  lemma {:induction false} UnsavePreserves(db: Db, user: UserId, pk: RequestId)
    requires Consistent(db) && NoDoubleBooking(db.saves)
    ensures var r := db.(saves := Unsave(db.saves, user, pk));
      Consistent(r) && NoDoubleBooking(r.saves)
  {
  }

  /** Inserting a claim for a pair that holds none, on a date that is free,
      under a fresh key, keeps both invariants. */
  lemma {:induction false} InsertPreserves(db: Db, user: UserId, pk: RequestId, d: CalendarDate)
    requires Consistent(db) && NoDoubleBooking(db.saves) && user in db.users && pk in db.requests
    requires !HasSaved(db.saves, user, pk) && !DateTakenOn(db.saves, pk, d)
    ensures var id := db.nextSaveId;
      var r := db.(saves := db.saves[id := SavedRequest(user, pk, Some(d))], nextSaveId := id + 1);
      Consistent(r) && NoDoubleBooking(r.saves)
  {
    var id := db.nextSaveId;
    var c := SavedRequest(user, pk, Some(d));
    var saves := db.saves[id := c];
    assert id !in db.saves;
    forall a, b | a in saves && b in saves && a != b
      ensures !(saves[a].user == saves[b].user && saves[a].request == saves[b].request)
    {
      if a == id { assert saves[b] == db.saves[b]; }
      else if b == id { assert saves[a] == db.saves[a]; }
    }
    forall a, b | a in saves && b in saves && a != b && saves[a].request == saves[b].request
      ensures saves[a].shareDueDate.None? || saves[a].shareDueDate != saves[b].shareDueDate
    {
      if a == id { assert saves[b] == db.saves[b]; }
      else if b == id { assert saves[a] == db.saves[a]; }
    }
  }
}
