/** The store as the views change it: the tables are fields the handlers
    update in place, one step after another, as the ORM calls in the views
    do. Each handler is proved to leave exactly the state, and give exactly
    the answer, that the corresponding function of the old state describes,
    and to keep the storage invariants. */
module Store {
  import opened Wrappers
  import opened Dates
  import opened Schema
  import opened Reservation
  import opened Catalog

  class Store {
    var users: set<UserId>
    var profiles: map<UserId, Profile>
    var requests: map<RequestId, BlogRequest>
    var saves: map<SaveId, SavedRequest>
    var nextRequestId: RequestId
    var nextSaveId: SaveId

    /** The current contents of the tables. */
    function Db(): Db
      reads this
    {
      Schema.Db(users, profiles, requests, saves, nextRequestId, nextSaveId)
    }

    /** The storage constraints, and the one-date-per-claim rule the claim
        handler keeps. */
    predicate Valid()
      reads this
    {
      Consistent(Db()) && NoDoubleBooking(saves)
    }

    constructor (db: Db)
      ensures Db() == db
    {
      users, profiles, requests, saves := db.users, db.profiles, db.requests, db.saves;
      nextRequestId, nextSaveId := db.nextRequestId, db.nextSaveId;
    }

    /** `toggle_save_request`, statement by statement. The invariants are
        kept for a caller who is a registered user, as `@login_required`
        ensures. */
    method ToggleSaveRequest(user: UserId, pk: RequestId, isPost: bool, posted: string, today: CalendarDate)
      returns (outcome: ToggleOutcome)
      modifies this
      ensures var r := Toggle(old(Db()), user, pk, isPost, posted, today);
        outcome == r.outcome && Db() == r.db
      ensures old(Valid()) && user in old(users) ==> Valid()
    {
      ghost var before := Db();
      if pk !in requests {
        return ToggleOutcome.NotFound;
      }
      if !isPost {
        return NoResponse;
      }
      var br := requests[pk];
      var held := HasSaved(saves, user, pk);
      if held && posted == "" {
        saves := Unsave(saves, user, pk);
        outcome := Withdrawn;
      } else if posted != "" {
        var parsed := ParseIsoDate(posted);
        if parsed.None? {
          return BadDateFormat;
        }
        var d := parsed.value;
        var minAllowed := MaxDate(today, br.availableFrom);
        if Before(d, minAllowed) || Before(br.availableTo, d) {
          return OutOfWindow(minAllowed, br.availableTo);
        }
        if DjangoDate(posted).None? {
          return ServerError;
        }
        if DateTakenOn(saves, pk, d) {
          return DateTaken;
        }
        if !held {
          var id := nextSaveId;
          saves := saves[id := SavedRequest(user, pk, Some(d))];
          nextSaveId := id + 1;
          outcome := Created(id);
        } else {
          outcome := Kept;
        }
      } else {
        return DateRequired;
      }
      if Consistent(before) && NoDoubleBooking(before.saves) && user in before.users {
        TogglePreservesInvariants(before, user, pk, isPost, posted, today);
      }
    }

    /** `update_request`: look the request up, then assign the one field. */
    method UpdateRequest(user: UserId, pk: RequestId, isPost: bool, body: JsonBody)
      returns (outcome: UpdateOutcome)
      modifies this
      ensures var r := Catalog.UpdateRequest(old(Db()), user, pk, isPost, body);
        outcome == r.outcome && Db() == r.db
      ensures old(Valid()) ==> Valid()
    {
      ghost var before := Db();
      if Valid() {
        UpdatePreservesInvariants(before, user, pk, isPost, body);
      }
      if !isPost {
        return MethodNotAllowed;
      }
      if !Owns(Db(), user, pk) {
        return UpdateOutcome.NotFound;
      }
      var br := requests[pk];
      match body
      case Malformed =>
        outcome := InvalidJson;
      case NotObject =>
        outcome := Failed;
      case Object(field, value) =>
        if field == JString("book_name") {
          if !value.JString? {
            return Failed;
          }
          if !BookNameOk(value.s) {
            return NameLength;
          }
          br := br.(bookName := value.s);
        } else if field == JString("start_date") {
          if !value.JString? {
            return Failed;
          }
          var parsed := ParseIsoDate(value.s);
          if parsed.None? {
            return DateFormat;
          }
          br := br.(startDate := parsed.value);
        } else {
          return FieldNotAllowed;
        }
        requests := requests[pk := br];
        outcome := Updated;
    }

    /** `delete_request`: the request and, by CASCADE, every claim on it. */
    method DeleteRequest(user: UserId, pk: RequestId, isPost: bool) returns (outcome: DeleteOutcome)
      modifies this
      ensures var r := Catalog.DeleteRequest(old(Db()), user, pk, isPost);
        outcome == r.outcome && Db() == r.db
      ensures old(Valid()) ==> Valid()
    {
      if !isPost {
        return NotAllowed;
      }
      if !Owns(Db(), user, pk) {
        return Missing;
      }
      if Valid() {
        DeleteRequestCascadeSound(Db(), pk);
      }
      saves := map k | k in saves && saves[k].request != pk :: saves[k];
      requests := map id | id in requests && id != pk :: requests[id];
      outcome := Deleted;
    }
  }
}
