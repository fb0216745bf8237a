/** The persistent store behind the views: users, one profile per user,
    blog requests and the saved requests (claims) on them, with the storage
    invariants the Django models declare: the unique (user, request) pair,
    the one-to-one profile, the column lengths, and the CASCADE deletes.

    Field names follow the views, which read `start_date`,
    `available_from`, `available_to`, `share_due_date`, `genres` and
    `subscribers_count`; the model classes declare older names for some of
    them. Rows carry the auto-increment primary key Django assigns. */
module Schema {
  import opened Wrappers
  import opened Dates

  type UserId = nat
  type RequestId = nat
  type SaveId = nat

  // ---------------------------------------------------------------------
  // Choice sets
  // ---------------------------------------------------------------------

  datatype Genre = Genre1 | Genre2 | Genre3 | Genre4
  datatype GroupSize = Size1 | Size2 | Size3 | Size4

  /** The stored key of a genre choice. */
  function GenreKey(g: Genre): string {
    match g
    case Genre1 => "genre1"
    case Genre2 => "genre2"
    case Genre3 => "genre3"
    case Genre4 => "genre4"
  }

  function GenreFromKey(s: string): (g: Option<Genre>)
    ensures g.Some? ==> GenreKey(g.value) == s
  {
    if s == "genre1" then Some(Genre1)
    else if s == "genre2" then Some(Genre2)
    else if s == "genre3" then Some(Genre3)
    else if s == "genre4" then Some(Genre4)
    else None
  }

  /** The stored key of an audience-size choice. */
  function GroupSizeKey(g: GroupSize): string {
    match g
    case Size1 => "size1"
    case Size2 => "size2"
    case Size3 => "size3"
    case Size4 => "size4"
  }

  function GroupSizeFromKey(s: string): (g: Option<GroupSize>)
    ensures g.Some? ==> GroupSizeKey(g.value) == s
  {
    if s == "size1" then Some(Size1)
    else if s == "size2" then Some(Size2)
    else if s == "size3" then Some(Size3)
    else if s == "size4" then Some(Size4)
    else None
  }

  /** A stored value is one of the declared choices, and each choice reads
      back as itself. */
  lemma {:induction false} ChoiceKeys(g: Genre, z: GroupSize)
    ensures GenreFromKey(GenreKey(g)) == Some(g)
    ensures GroupSizeFromKey(GroupSizeKey(z)) == Some(z)
  {
  }

  // ---------------------------------------------------------------------
  // Rows
  // ---------------------------------------------------------------------

  const BookNameMax := 255
  const TelegramMax := 100

  /** A profile row. `genres` holds a genre choice key or NULL;
      `subscribers_count` is the audience size the listing filters on. */
  datatype Profile = Profile(genres: Option<Genre>, subscribersCount: Option<int>, telegramNickname: string)

  /** A blog request row. */
  datatype BlogRequest = BlogRequest(
    owner: UserId,
    bookName: string,
    startDate: CalendarDate,
    availableFrom: CalendarDate,
    availableTo: CalendarDate)

  /** A saved-request row: one user's claim of one date on one request.
      `share_due_date` is nullable. */
  datatype SavedRequest = SavedRequest(user: UserId, request: RequestId, shareDueDate: Option<CalendarDate>)

  /** The tables, with the next values of the two primary-key sequences. */
  datatype Db = Db(
    users: set<UserId>,
    profiles: map<UserId, Profile>,
    requests: map<RequestId, BlogRequest>,
    saves: map<SaveId, SavedRequest>,
    nextRequestId: RequestId,
    nextSaveId: SaveId)

  // ---------------------------------------------------------------------
  // Storage invariants
  // ---------------------------------------------------------------------

  /** `unique_save_per_user_request`: no two rows share (user, request). */
  predicate UniquePerUserRequest(saves: map<SaveId, SavedRequest>) {
    forall a, b :: a in saves && b in saves && a != b ==>
      !(saves[a].user == saves[b].user && saves[a].request == saves[b].request)
  }

  /** Every foreign key points at an existing row; the key sequences are
      ahead of every key in use. */
  predicate ReferencesExist(db: Db) {
    (forall u :: u in db.profiles ==> u in db.users) &&
    (forall r :: r in db.requests ==> db.requests[r].owner in db.users && r < db.nextRequestId) &&
    (forall k :: k in db.saves ==>
      db.saves[k].user in db.users && db.saves[k].request in db.requests && k < db.nextSaveId)
  }

  /** The declared column lengths. */
  predicate FieldsFit(db: Db) {
    (forall r :: r in db.requests ==> |db.requests[r].bookName| <= BookNameMax) &&
    (forall u :: u in db.profiles ==> |db.profiles[u].telegramNickname| <= TelegramMax)
  }

  predicate Consistent(db: Db) {
    UniquePerUserRequest(db.saves) && ReferencesExist(db) && FieldsFit(db)
  }

  /** No two claims on one request hold the same date. The schema has no
      such constraint; the claim handler keeps it by checking before it
      inserts. */
  predicate NoDoubleBooking(saves: map<SaveId, SavedRequest>) {
    forall a, b :: a in saves && b in saves && a != b && saves[a].request == saves[b].request ==>
      saves[a].shareDueDate.None? || saves[a].shareDueDate != saves[b].shareDueDate
  }

  // ---------------------------------------------------------------------
  // Queries shared by the views
  // ---------------------------------------------------------------------

  /** `SavedRequest.objects.filter(user=u, request=pk).exists()`. */
  predicate HasSaved(saves: map<SaveId, SavedRequest>, u: UserId, pk: RequestId) {
    exists k :: k in saves && saves[k].user == u && saves[k].request == pk
  }

  /** `SavedRequest.objects.filter(request=pk, share_due_date=d).exists()`. */
  predicate DateTakenOn(saves: map<SaveId, SavedRequest>, pk: RequestId, d: CalendarDate) {
    exists k :: k in saves && saves[k].request == pk && saves[k].shareDueDate == Some(d)
  }

  // ---------------------------------------------------------------------
  // Cascading deletes
  // ---------------------------------------------------------------------

  /** `BlogRequest.delete()`: the row goes, and with it (CASCADE on
      `SavedRequest.request`) every claim on it. */
  function DeleteRequestCascade(db: Db, pk: RequestId): (r: Db)
    ensures pk !in r.requests
    ensures forall k :: k in r.saves ==> r.saves[k].request != pk
  {
    db.(requests := map id | id in db.requests && id != pk :: db.requests[id],
        saves := map k | k in db.saves && db.saves[k].request != pk :: db.saves[k])
  }

  /** `User.delete()`: CASCADE removes the user's profile, the user's
      requests with every claim on them, and the user's own claims. */
  function DeleteUserCascade(db: Db, u: UserId): (r: Db)
  {
    var requests := map id | id in db.requests && db.requests[id].owner != u :: db.requests[id];
    db.(users := db.users - {u},
        profiles := map v | v in db.profiles && v != u :: db.profiles[v],
        requests := requests,
        saves := map k | k in db.saves && db.saves[k].user != u && db.saves[k].request in requests :: db.saves[k])
  }

  /** Dropping claims keeps both claim invariants. */
  lemma {:induction false} SubSaves(saves: map<SaveId, SavedRequest>, sub: map<SaveId, SavedRequest>)
    requires UniquePerUserRequest(saves) && NoDoubleBooking(saves)
    requires forall k :: k in sub ==> k in saves && sub[k] == saves[k]
    ensures UniquePerUserRequest(sub) && NoDoubleBooking(sub)
  {
  }

  /** Deleting a request keeps the store consistent and free of double
      bookings. */
  lemma {:induction false} DeleteRequestCascadeSound(db: Db, pk: RequestId)
    requires Consistent(db) && NoDoubleBooking(db.saves)
    ensures var r := DeleteRequestCascade(db, pk);
      Consistent(r) && NoDoubleBooking(r.saves)
  {
    var r := DeleteRequestCascade(db, pk);
    SubSaves(db.saves, r.saves);
    assert ReferencesExist(r) by {
      forall k | k in r.saves ensures r.saves[k].request in r.requests {
        assert r.saves[k] == db.saves[k];
      }
    }
  }

  /** Deleting a request removes exactly that row and the claims on it. */
  lemma {:induction false} DeleteRequestCascadeExact(db: Db, pk: RequestId)
    ensures var r := DeleteRequestCascade(db, pk);
      r.requests.Keys == db.requests.Keys - {pk} &&
      (forall id :: id in r.requests ==> r.requests[id] == db.requests[id]) &&
      (forall k :: k in db.saves ==> (k in r.saves <==> db.saves[k].request != pk)) &&
      (forall k :: k in r.saves ==> r.saves[k] == db.saves[k]) &&
      r.users == db.users && r.profiles == db.profiles
  {
  }

  /** Deleting a user keeps the store consistent and free of double
      bookings. */
  lemma {:induction false} DeleteUserCascadeSound(db: Db, u: UserId)
    requires Consistent(db) && NoDoubleBooking(db.saves)
    ensures var r := DeleteUserCascade(db, u);
      Consistent(r) && NoDoubleBooking(r.saves)
  {
    var r := DeleteUserCascade(db, u);
    SubSaves(db.saves, r.saves);
    assert ReferencesExist(r) by {
      forall k | k in r.saves
        ensures r.saves[k].user in r.users && r.saves[k].request in r.requests && k < r.nextSaveId
      {
        assert r.saves[k] == db.saves[k];
      }
    }
  }

  /** Deleting a user leaves nothing that refers to them: no profile, no
      request they own, no claim they made or that was on their requests;
      everything else stays. */
  lemma {:induction false} DeleteUserCascadeExact(db: Db, u: UserId)
    requires Consistent(db)
    ensures var r := DeleteUserCascade(db, u);
      u !in r.users && u !in r.profiles &&
      (forall id :: id in r.requests ==> r.requests[id].owner != u) &&
      (forall k :: k in r.saves ==> r.saves[k].user != u) &&
      (forall id :: id in db.requests && db.requests[id].owner != u ==>
        id in r.requests && r.requests[id] == db.requests[id]) &&
      (forall k :: k in db.saves && db.saves[k].user != u && db.requests[db.saves[k].request].owner != u ==>
        k in r.saves) &&
      (forall k :: k in r.saves ==> r.saves[k] == db.saves[k]) &&
      r.users == db.users - {u} &&
      (forall v :: v in db.profiles && v != u ==> v in r.profiles && r.profiles[v] == db.profiles[v])
  {
  }
}
