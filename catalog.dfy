/** The owner-only edits of a blog request: `update_request`, which changes
    one field named in a JSON body, and `delete_request`, which removes the
    request with every claim on it. Both answer 404 to anyone but the
    request's owner, so the caller can neither change nor learn about
    another user's request. */
module Catalog {
  import opened Wrappers
  import opened Dates
  import opened Schema

  /** A JSON value as `data.get(...)` returns it: a string, `None` (the key
      is missing or holds `null`), or any other scalar (a number or a
      boolean). */
  datatype JsonValue = JString(s: string) | JNull | JScalar

  /** The request body: decodable text `json.loads` refuses, a document
      that is not an object (so `data.get` raises), or an object read for
      its `field` and `value` keys. Bytes that do not decode raise
      `UnicodeDecodeError`, which is not a `JSONDecodeError`; the view
      answers it through `except Exception`, so such a body is given as
      `NotObject`, whose answer is the same `Failed`. */
  datatype JsonBody = Malformed | NotObject | Object(field: JsonValue, value: JsonValue)

  /** The JSON answers of `update_request`. */
  datatype UpdateOutcome =
    | MethodNotAllowed    // not a POST: {"success": false, "error": "Method not allowed"}
    | NotFound            // no such request, or not the caller's: 404
    | InvalidJson         // json.JSONDecodeError
    | NameLength          // book_name shorter than 1 or longer than 255 characters
    | DateFormat          // start_date that strptime refuses
    | FieldNotAllowed     // any field other than book_name and start_date
    | Failed              // another exception, reported with its message
    | Updated             // {"success": true}

  datatype UpdateResult = UpdateResult(outcome: UpdateOutcome, db: Db)

  /** `get_object_or_404(BlogRequest, pk=pk, user=request.user)` finds it. */
  predicate Owns(db: Db, user: UserId, pk: RequestId) {
    pk in db.requests && db.requests[pk].owner == user
  }

  /** A `book_name` the view accepts: from 1 to 255 characters. */
  predicate BookNameOk(s: string) {
    1 <= |s| <= BookNameMax
  }

  /** `update_request`, in the order the view checks: the method, the
      owner lookup, the JSON decoding, then the field. A value of the wrong
      type makes `len` or `strptime` raise `TypeError`, which the view's
      last `except` reports as a failure. */
  function UpdateRequest(db: Db, user: UserId, pk: RequestId, isPost: bool, body: JsonBody): UpdateResult
  {
    if !isPost then UpdateResult(MethodNotAllowed, db)
    else if !Owns(db, user, pk) then UpdateResult(NotFound, db)
    else
      var br := db.requests[pk];
      match body
      case Malformed => UpdateResult(InvalidJson, db)
      case NotObject => UpdateResult(Failed, db)
      case Object(field, value) =>
        if field == JString("book_name") then
          match value
          case JString(s) =>
            if !BookNameOk(s) then UpdateResult(NameLength, db)
            else UpdateResult(Updated, db.(requests := db.requests[pk := br.(bookName := s)]))
          case _ => UpdateResult(Failed, db)
        else if field == JString("start_date") then
          match value
          case JString(s) =>
            (match ParseIsoDate(s)
             case None => UpdateResult(DateFormat, db)
             case Some(d) => UpdateResult(Updated, db.(requests := db.requests[pk := br.(startDate := d)])))
          case _ => UpdateResult(Failed, db)
        else UpdateResult(FieldNotAllowed, db)
  }

  /** The answers of `delete_request`. */
  datatype DeleteOutcome =
    | NotAllowed          // `@require_POST`: 405
    | Missing             // no such request, or not the caller's: 404
    | Deleted             // {"success": true}

  datatype DeleteResult = DeleteResult(outcome: DeleteOutcome, db: Db)

  /** `delete_request`: POST only, owner only, then the cascading delete. */
  function DeleteRequest(db: Db, user: UserId, pk: RequestId, isPost: bool): DeleteResult
  {
    if !isPost then DeleteResult(NotAllowed, db)
    else if !Owns(db, user, pk) then DeleteResult(Missing, db)
    else DeleteResult(Deleted, DeleteRequestCascade(db, pk))
  }

  // ---------------------------------------------------------------------
  // Properties of update_request
  // ---------------------------------------------------------------------

  /** Only the owner's POST can change anything; anyone else is told the
      request does not exist. */
  lemma {:induction false} UpdateOnlyByOwner(db: Db, user: UserId, pk: RequestId, isPost: bool, body: JsonBody)
    ensures var r := UpdateRequest(db, user, pk, isPost, body);
      r.outcome.Updated? ==> isPost && Owns(db, user, pk)
    ensures var r := UpdateRequest(db, user, pk, isPost, body);
      isPost && !Owns(db, user, pk) ==> r.outcome == NotFound
  {
  }

  /** A rejected update leaves the store as it was; an accepted one changes
      the one request and nothing else, and keeps its owner and its window. */
  lemma {:induction false} UpdateFrame(db: Db, user: UserId, pk: RequestId, isPost: bool, body: JsonBody)
    ensures var r := UpdateRequest(db, user, pk, isPost, body);
      !r.outcome.Updated? ==> r.db == db
    ensures var r := UpdateRequest(db, user, pk, isPost, body);
      r.outcome.Updated? ==>
        r.db.users == db.users && r.db.profiles == db.profiles && r.db.saves == db.saves &&
        r.db.nextRequestId == db.nextRequestId && r.db.nextSaveId == db.nextSaveId &&
        r.db.requests.Keys == db.requests.Keys &&
        (forall id :: id in r.db.requests && id != pk ==> r.db.requests[id] == db.requests[id]) &&
        r.db.requests[pk].owner == db.requests[pk].owner &&
        r.db.requests[pk].availableFrom == db.requests[pk].availableFrom &&
        r.db.requests[pk].availableTo == db.requests[pk].availableTo
  {
  }

  /** A new `book_name` is stored exactly when it has 1 to 255 characters. */
  lemma {:induction false} BookNameAcceptedIff(db: Db, user: UserId, pk: RequestId, s: string)
    requires Owns(db, user, pk)
    ensures var r := UpdateRequest(db, user, pk, true, Object(JString("book_name"), JString(s)));
      (r.outcome == Updated <==> 1 <= |s| <= 255) &&
      (r.outcome != Updated ==> r.outcome == NameLength) &&
      (r.outcome == Updated ==> r.db == db.(requests := db.requests[pk := db.requests[pk].(bookName := s)]))
  {
  }

  /** A new `start_date` is stored exactly when it reads as `YYYY-MM-DD`,
      and what is stored is the date it reads as. */
  lemma {:induction false} StartDateAcceptedIff(db: Db, user: UserId, pk: RequestId, s: string)
    requires Owns(db, user, pk)
    ensures var r := UpdateRequest(db, user, pk, true, Object(JString("start_date"), JString(s)));
      (r.outcome == Updated <==> ParseIsoDate(s).Some?) &&
      (r.outcome != Updated ==> r.outcome == DateFormat) &&
      (r.outcome == Updated ==> r.db == db.(requests := db.requests[pk := db.requests[pk].(startDate := ParseIsoDate(s).value)]))
  {
  }

  /** Formatting a stored date and sending it back stores the same date. */
  lemma {:induction false} StartDateRoundTrip(db: Db, user: UserId, pk: RequestId, d: CalendarDate)
    requires Owns(db, user, pk)
    ensures var r := UpdateRequest(db, user, pk, true, Object(JString("start_date"), JString(IsoFormat(d))));
      r.outcome == Updated && r.db == db.(requests := db.requests[pk := db.requests[pk].(startDate := d)])
  {
    ParseFormat(d);
    StartDateAcceptedIff(db, user, pk, IsoFormat(d));
  }

  /** Any field other than `book_name` and `start_date` is refused. */
  lemma {:induction false} OtherFieldRejected(db: Db, user: UserId, pk: RequestId, field: JsonValue, value: JsonValue)
    requires Owns(db, user, pk)
    requires field != JString("book_name") && field != JString("start_date")
    ensures UpdateRequest(db, user, pk, true, Object(field, value)) == UpdateResult(FieldNotAllowed, db)
  {
  }

  /** Replacing a request row by one with the same owner and a name that
      fits keeps the storage invariants: no claim refers to a row field. */
  lemma {:induction false} ReplaceRequestSound(db: Db, pk: RequestId, br: BlogRequest)
    requires Consistent(db) && NoDoubleBooking(db.saves)
    requires pk in db.requests && br.owner == db.requests[pk].owner && |br.bookName| <= BookNameMax
    ensures var after := db.(requests := db.requests[pk := br]);
      Consistent(after) && NoDoubleBooking(after.saves)
  {
    var after := db.(requests := db.requests[pk := br]);
    assert after.requests.Keys == db.requests.Keys;
    assert ReferencesExist(after);
    assert FieldsFit(after);
  }

  /** An accepted update keeps the store consistent and free of double
      bookings: the name fits its column and no claim is touched. */
  lemma {:induction false} UpdatePreservesInvariants(db: Db, user: UserId, pk: RequestId, isPost: bool, body: JsonBody)
    requires Consistent(db) && NoDoubleBooking(db.saves)
    ensures var r := UpdateRequest(db, user, pk, isPost, body);
      Consistent(r.db) && NoDoubleBooking(r.db.saves)
  {
    var r := UpdateRequest(db, user, pk, isPost, body);
    if r.outcome.Updated? {
      var br := db.requests[pk];
      var s := body.value.s;
      if body.field == JString("book_name") {
        assert r.db == db.(requests := db.requests[pk := br.(bookName := s)]);
        ReplaceRequestSound(db, pk, br.(bookName := s));
      } else {
        assert r.db == db.(requests := db.requests[pk := br.(startDate := ParseIsoDate(s).value)]);
        ReplaceRequestSound(db, pk, br.(startDate := ParseIsoDate(s).value));
      }
    } else {
      assert r.db == db;
    }
  }

  // ---------------------------------------------------------------------
  // Properties of delete_request
  // ---------------------------------------------------------------------

  /** Only the owner's POST deletes; a delete removes exactly the request
      and the claims on it, and keeps the store consistent. */
  lemma {:induction false} DeleteOnlyByOwner(db: Db, user: UserId, pk: RequestId, isPost: bool)
    requires Consistent(db) && NoDoubleBooking(db.saves)
    ensures var r := DeleteRequest(db, user, pk, isPost);
      (r.outcome == Deleted <==> isPost && Owns(db, user, pk)) &&
      (r.outcome != Deleted ==> r.db == db)
    ensures var r := DeleteRequest(db, user, pk, isPost);
      r.outcome == Deleted ==>
        r.db.requests.Keys == db.requests.Keys - {pk} &&
        (forall k :: k in db.saves ==> (k in r.db.saves <==> db.saves[k].request != pk)) &&
        Consistent(r.db) && NoDoubleBooking(r.db.saves)
  {
    if isPost && Owns(db, user, pk) {
      DeleteRequestCascadeSound(db, pk);
      DeleteRequestCascadeExact(db, pk);
    }
  }
}
