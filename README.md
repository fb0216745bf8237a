# Blog-Repost: the date-slot reservation core, modelled in Dafny

Blog-Repost is a Django site where book bloggers publish *blog requests*. A
blog request asks other bloggers to repost a book. Another user *claims* a
request by picking a repost date (`share_due_date`) inside the request's
availability window. Only one claim per request may hold a given day. The
owner of a request can rename it, move its start date or delete it. The
browser side adds four pieces: a registration form check, an inline editor
for a request's fields, the CSRF cookie reader, and a month calendar. The
calendar marks the days a repost is due.

The model covers:

- **The store** (`schema.dfy`). Users, one profile per user, blog requests
  and saved requests (claims). It carries the invariants the Django models
  declare: the unique (user, request) pair, foreign keys, the column
  lengths and the choice sets. It also gives the cascading deletes of a
  request and of a user.
- **Dates** (`dates.dfy`, `text.dfy`). `strptime(s, '%Y-%m-%d')` as
  CPython's pattern reads it, including one-digit and space-padded
  fields, for ASCII digits. It also models `strftime`, Django's own
  `DateField` string coercion, and the JavaScript string built-ins the
  scripts use (`split`, `trim`, `padStart` and UTF-16 `length`).
- **`toggle_save_request`** (`reservation.dfy`, and `store.dfy` for the
  imperative handler). The claim state machine: withdraw, reject, create,
  or leave a held claim as it is.
- **`available_requests`, `home` and `show_requests`** (`listing.dfy`). The
  exclusions and filters, the newest-first order, the blocked dates, the
  action dates and the acceptance counts.
- **`update_request` and `delete_request`** (`catalog.dfy`, and
  `store.dfy`). The owner-only edits.
- **`validateForm`** (`registration.dfy`).
- **`getCookie`, `formatDateForInput` and the edit life cycle**
  (`inline_edit.dfy`).
- **Month navigation, day keys, day classification and `renderCalendar`'s
  Monday-first rows** (`calendar.dfy`).

Each view is a function from the old store to an outcome and the new store.
The class `Store.Store` holds the tables as fields and runs the same steps
in place. Each of its handlers is proved to produce exactly what the
function describes and to keep the invariants.

Where the views and the model classes disagree on field names, the model
follows the views. `main/views.py` reads `start_date`, `available_from`,
`available_to`, `share_due_date`, `genres` and `subscribers_count`.
`main/models.py` declares `date_exchange` on `BlogRequest`, `genre` and
`groupsize` on `UserProfile`, and no date on `SavedRequest`. The storage
invariants (the unique pair, one profile per user, the CASCADE deletes, the
column lengths) come from `main/models.py`.

## Model

| member | source | states |
|---|---|---|
| Text.Split | static/scripts/inline-edit.js:103 | `split` on one character always gives at least one piece; its shape and inverse are `Text.SplitJoin` and `Text.JoinSplit` |
| Text.Trim | static/scripts/inline-edit.js:6 | JavaScript `trim`; what it removes is `Text.TrimShape`, that it settles after one call is `Text.TrimIdempotent` |
| Text.Utf16Length | static/scripts/registration.js:50 | JavaScript `length` lies between the character count and twice it; sums and the Basic Multilingual Plane are `Text.Utf16LengthConcat` and `Text.Utf16LengthBmp` |
| Text.PadStart | static/scripts/calendar.js:47-48 | `padStart` left-pads to the width with the fill character, keeps the string as its suffix and never truncates |
| Text.PadTwo | static/scripts/calendar.js:47-48 | `String(n).padStart(2, '0')` of a month or day below 100 is its two decimal digits |
| Text.SplitJoin | static/scripts/inline-edit.js:103 | `split` gives one piece more than there are separators, no piece holds the separator, and joining the pieces restores the string |
| Text.JoinSplit | static/scripts/inline-edit.js:103-105 | joining separator-free pieces and splitting again returns the same pieces |
| Text.TrimShape | static/scripts/inline-edit.js:6 | `trim` removes only ECMAScript white space, from both ends, and leaves a string that starts and ends with a non-space |
| Text.TrimIdempotent | static/scripts/registration.js:46-51 | trimming twice is trimming once |
| Text.Utf16LengthConcat | static/scripts/registration.js:50 | JavaScript `length` of a concatenation is the sum of the lengths |
| Text.Utf16LengthBmp | static/scripts/registration.js:80 | on the Basic Multilingual Plane `length` is the number of characters |
| Dates.ParseIsoDate | main/views.py:126 | `strptime(s, '%Y-%m-%d')`, giving only valid calendar dates; its fields are `Dates.MonthField` and `Dates.DayField`, its inverse `Dates.ParseFormat` |
| Dates.IsoFormat | main/views.py:98 | `strftime("%Y-%m-%d")` writes ten characters; the layout is `Dates.IsoFormatShape`, injectivity `Dates.FormatInjective`, the round trip `Dates.ParseFormat` |
| Dates.DjangoDate | main/views.py:134-141 | Django's coercion of the raw date string; how it relates to strptime is `Dates.DjangoAgrees` and `Dates.SpacePaddedDay` |
| Dates.MaxDate | main/views.py:130 | `max(today, available_from)` is one of the two and is not before either |
| Dates.MonthField | main/views.py:126 | the `%m` directive reads only months 1 to 12 |
| Dates.DayField | main/views.py:126 | the `%d` directive reads only days 1 to 31 |
| Dates.IsoFormatShape | main/views.py:98 | `strftime("%Y-%m-%d")` writes ten characters, digits with `-` at positions 4 and 7 |
| Dates.ParseFormat | main/views.py:126 | strptime reads back exactly the date strftime wrote |
| Dates.FormatInjective | main/views.py:97-98 | two different dates never publish the same date string |
| Dates.DjangoAgrees | main/views.py:134-145 | where strptime accepts a string, Django's coercion of the same raw string succeeds exactly when the day is not a space and a digit, and then yields the same date |
| Dates.SpacePaddedDay | main/views.py:126-134 | `2025-01- 5` is accepted by strptime and refused by Django's coercion |
| Schema.GenreFromKey | main/models.py:13-18 | a key read as a genre choice is that choice's stored key |
| Schema.GroupSizeFromKey | main/models.py:6-11 | a key read as a size choice is that choice's stored key |
| Schema.ChoiceKeys | main/models.py:6-18 | every genre and size choice reads back as itself from its stored key |
| Schema.DeleteRequestCascade | main/models.py:54 | after deleting a request it is gone and no claim refers to it |
| Schema.SubSaves | main/models.py:57-63 | dropping claims keeps the unique (user, request) pair and the one-claim-per-date rule |
| Schema.DeleteRequestCascadeSound | main/models.py:44-63 | deleting a request keeps every storage invariant and the absence of double bookings |
| Schema.DeleteRequestCascadeExact | main/models.py:54 | deleting a request removes exactly that row and the claims on it; every other row is unchanged |
| Schema.DeleteUserCascade | main/models.py:28-54 | the `on_delete=CASCADE` rules for a user; its properties are `Schema.DeleteUserCascadeSound` and `Schema.DeleteUserCascadeExact` |
| Schema.DeleteUserCascadeSound | main/models.py:28-63 | deleting a user keeps every storage invariant and the absence of double bookings |
| Schema.DeleteUserCascadeExact | main/models.py:28-54 | after deleting a user nothing refers to them, and every row not tied to them survives unchanged |
| Reservation.Toggle | main/views.py:112-147 | `toggle_save_request` as a function of the store; its outcomes are stated by `Reservation.CreatedIff`, `Reservation.RejectedMeansUnchanged`, `Reservation.WithdrawRemovesExactlyOwnClaim`, `Reservation.OutOfWindowIff`, `Reservation.TakenDateRejected` and `Reservation.TogglePreservesInvariants` |
| Reservation.Unsave | main/views.py:121 | the filtered delete removes exactly the caller's claims on the request and keeps the rest unchanged |
| Reservation.RejectedMeansUnchanged | main/views.py:114-147 | every rejection, and a resubmission by a holder, leaves the store unchanged; no step touches users, profiles or requests |
| Reservation.WithdrawRemovesExactlyOwnClaim | main/views.py:117-121 | with a claim held and no date posted, exactly that one claim is removed and all other claims stay |
| Reservation.SecondWithdrawFails | main/views.py:120-147 | a withdrawal without a claim is the "date required" error and changes nothing, so a second withdrawal is not a silent no-op |
| Reservation.MalformedDateRejected | main/views.py:125-128 | a date strptime refuses is rejected with the store unchanged |
| Reservation.OutOfWindowIff | main/views.py:130-132 | a date is refused as out of window exactly when it parses and lies before max(today, available_from) or after available_to; the answer names both bounds and changes nothing |
| Reservation.TakenDateRejected | main/views.py:134-137 | a date any claim on the request already holds, the caller's included, is refused with the store unchanged |
| Reservation.CreatedIff | main/views.py:139-145 | a claim is created exactly when the request exists, the call is a POST, the date parses, is in the window, passes Django's coercion and is free, and the caller holds no claim on it; the new row is the only change |
| Reservation.ResubmitKeepsClaim | main/views.py:139-145 | a holder posting another free in-window date gets a redirect and the store does not change |
| Reservation.TogglePreservesInvariants | main/views.py:112-147 | every outcome keeps the storage invariants and the absence of double bookings |
| Reservation.UnsavePreserves | main/views.py:121 | the withdrawal keeps both invariants |
| Reservation.InsertPreserves | main/views.py:134-145 | inserting a claim for a pair that holds none, on a free date, keeps both invariants |
| Listing.GroupSizeRange | main/views.py:69-74 | each range is a non-empty half-open interval |
| Listing.RangesMatchChoices | main/views.py:69-74 | the range table has exactly the stored size choices as keys |
| Listing.BucketOf | main/views.py:69-74 | every count in [0, 1000000) falls in its bucket's range |
| Listing.RangesPartition | main/views.py:69-74 | the four ranges partition [0, 1000000); a count outside lies in none |
| Listing.ListedBeforeTotal | main/views.py:89-91 | two different requests are always listed in one order or the other |
| Listing.ListedBeforeTransitive | main/views.py:89-91 | the listing order is transitive |
| Listing.LatestExists | main/views.py:89-91 | every non-empty set of requests has a first one in the listing order |
| Listing.Latest | main/views.py:89-91 | the chosen request is in the set and listed before all others |
| Listing.SortByStartDesc | main/views.py:91 | `order_by('-start_date')` lists each request of the set once and nothing else |
| Listing.SortedNewestFirst | main/views.py:89-91 | the sorted list has no repeats and never puts an earlier start date before a later one |
| Listing.AvailableRequests | main/views.py:76-91 | the `available_requests` query; stated by `Listing.ListingRefused`, `Listing.ListingContents`, `Listing.ListingOrder` and `Listing.ListingFilters` |
| Listing.ListingRefused | main/views.py:85-86 | the listing fails exactly for an unknown `groupsize` key |
| Listing.ListingContents | main/views.py:79-87 | the listing holds exactly the requests that are not the viewer's own, not claimed by the viewer, and pass the given filters |
| Listing.ListingOrder | main/views.py:89-91 | the listing holds each request once, newest first |
| Listing.ListingFilters | main/views.py:80-89 | with a genre filter every author has that genre; with a size filter every author's count is in the bucket's range; no listed request is the viewer's own or already claimed by the viewer |
| Listing.ClaimedDates | main/views.py:96-98 | a date is collected exactly when some claim on the request holds it |
| Listing.TakenDates | main/views.py:96-98 | the dates blocked on one request; stated by `Listing.TakenDatesIff`, `Listing.CreatedDateBlocked` and `Listing.WithdrawnDateFreed` |
| Listing.TakenDatesIff | main/views.py:96-98 | a date string is blocked on a request exactly when a claim on it holds that date |
| Listing.BlockedDates | main/views.py:94-99 | the loop gives one entry per listed request, holding that request's taken dates |
| Listing.CreatedDateBlocked | main/views.py:94-99 | after a claim is created its date is blocked on its request |
| Listing.WithdrawnDateFreed | main/views.py:94-99 | after a withdrawal the claim's date is no longer blocked |
| Listing.ActionRequests | main/views.py:30-31 | the requests of others the user has claimed; stated by `Listing.NewClaimActionRequests` |
| Listing.ActionDates | main/views.py:30-34 | the home view's action dates; stated by `Listing.ClaimAddsActionDate`, `Listing.AcceptedAreActionDates` and `Listing.ActionDatesCovered` |
| Listing.ClaimAddsActionDate | main/views.py:30-34 | claiming someone else's request adds its start date to the claimer's action dates; claiming one's own request adds none |
| Listing.NewClaimActionRequests | main/views.py:30-33 | a new claim row adds its request to the claimer's action requests exactly when someone else owns it |
| Listing.CreatedRequests | main/views.py:160 | the user's own requests, newest first; their counts are `Listing.AcceptanceCounts` and `Listing.AcceptanceCountIsClaimants` |
| Listing.AcceptedRequests | main/views.py:167-168 | the requests of others the user claimed, newest first; stated by `Listing.AcceptedAreActionDates` and `Listing.ActionDatesCovered` |
| Listing.AcceptanceCounts | main/views.py:163-164 | the loop sets each of the user's requests' count to the number of claims on it |
| Listing.AcceptanceCountIsClaimants | main/views.py:164 | since a user claims a request at most once, the count equals the number of distinct claimants |
| Listing.AcceptedAreActionDates | main/views.py:167-168 | every accepted request's start date is one of the user's action dates |
| Listing.ActionDatesCovered | main/views.py:167-168 | every action date is the start date of an accepted request |
| Catalog.UpdateRequest | main/views.py:204-237 | `update_request` as a function of the store; stated by `Catalog.UpdateOnlyByOwner`, `Catalog.UpdateFrame`, `Catalog.BookNameAcceptedIff`, `Catalog.StartDateAcceptedIff`, `Catalog.OtherFieldRejected` and `Catalog.UpdatePreservesInvariants` |
| Catalog.DeleteRequest | main/views.py:239-247 | `delete_request` as a function of the store; stated by `Catalog.DeleteOnlyByOwner` |
| Catalog.UpdateOnlyByOwner | main/views.py:204-209 | only the owner's POST can update; anyone else's POST is answered 404 |
| Catalog.UpdateFrame | main/views.py:204-237 | a refused update changes nothing; an accepted one changes only that request, keeping its owner and window |
| Catalog.BookNameAcceptedIff | main/views.py:216-219 | a name is stored exactly when it has 1 to 255 characters, otherwise the length error; the store changes in that name only |
| Catalog.StartDateAcceptedIff | main/views.py:221-227 | a start date is stored exactly when strptime reads it, as the date it reads; otherwise the format error |
| Catalog.StartDateRoundTrip | main/views.py:221-227 | sending a date's `%Y-%m-%d` text stores exactly that date |
| Catalog.OtherFieldRejected | main/views.py:228-229 | any other field is refused and nothing changes |
| Catalog.ReplaceRequestSound | main/views.py:219-231 | replacing a request by one with the same owner and a name that fits keeps every invariant |
| Catalog.UpdatePreservesInvariants | main/views.py:216-232 | every update outcome keeps the storage invariants and the absence of double bookings |
| Catalog.DeleteOnlyByOwner | main/views.py:239-247 | a delete happens exactly for the owner's POST; it removes exactly the request and its claims and keeps the invariants; otherwise nothing changes |
| Store.Store.ToggleSaveRequest | main/views.py:112-147 | the in-place handler gives the outcome and leaves the store that the claim function describes, and keeps the invariants for a registered caller |
| Store.Store.UpdateRequest | main/views.py:204-237 | the in-place handler matches the update function and keeps the invariants |
| Store.Store.DeleteRequest | main/views.py:239-247 | the in-place handler matches the delete function and keeps the invariants |
| Registration.RegistrationForm.ValidateForm | static/scripts/registration.js:42-93 | each input ends with exactly its rule's message, only the Telegram input is rewritten (by normalisation), and the result is true exactly when no message was set |
| Registration.UsernameCheck | static/scripts/registration.js:45-53 | the user name rule; stated by `Registration.UsernameAcceptedIff` and `Registration.UsernameCheckTrimmed` |
| Registration.EmailCheck | static/scripts/registration.js:55-60 | the e-mail rule, with the browser's type check as a parameter; stated by `Registration.FormAcceptedIff` |
| Registration.TelegramCheck | static/scripts/registration.js:62-70 | the optional nickname rule; stated by `Registration.BlankTelegramUntouched` and `Registration.NormalizeIdempotent` |
| Registration.NormalizeTelegram | static/scripts/registration.js:71-74 | the `@` rewrite of a valid nickname; stated by `Registration.NormalizeShape`, `Registration.NormalizedHasAt` and `Registration.NormalizedNicknameFits` |
| Registration.PasswordCheck | static/scripts/registration.js:77-83 | the password rule; stated by `Registration.PasswordAcceptedIff`, `Registration.YoIsNotALetter` and `Registration.CyrillicPasswordAccepted` |
| Registration.ConfirmCheck | static/scripts/registration.js:85-90 | the confirmation rule; stated by `Registration.ConfirmIsExact` |
| Registration.Verdicts | static/scripts/registration.js:42-93 | the message each input ends with; stated by `Registration.FormAcceptedIff` and `Registration.RegistrationForm.ValidateForm` |
| Registration.FormAcceptedIff | static/scripts/registration.js:42-93 | the form passes exactly when the user name, e-mail, nickname, password and confirmation rules all hold |
| Registration.UsernameAcceptedIff | static/scripts/registration.js:46-53 | a user name passes exactly when its trimmed length is at least 3; a blank one is reported missing |
| Registration.BlankTelegramUntouched | static/scripts/registration.js:64-66 | a blank nickname is never an error and is left as typed |
| Registration.NormalizeShape | static/scripts/registration.js:67-74 | a valid nickname without `@` becomes `@` plus its trimmed text; every other value is left as typed |
| Registration.NormalizeIdempotent | static/scripts/registration.js:64-75 | checking the normalised value gives the same verdict, and normalising again changes nothing |
| Registration.NormalizedHasAt | static/scripts/registration.js:71-74 | a valid non-blank nickname starts with `@` after normalisation |
| Registration.NormalizedNicknameFits | static/scripts/registration.js:65-74 | a valid nickname, normalised and trimmed, has at most 33 characters, each one UTF-16 code unit, so it fits the 100-character `telegram_nickname` column |
| Registration.UsernameCheckTrimmed | static/scripts/registration.js:47-50 | the user name verdict is the same for the field and for its trimmed text |
| Registration.PasswordAcceptedIff | static/scripts/registration.js:78-83 | a password passes exactly when it has 8 code units, a Latin or Cyrillic letter and an ASCII digit |
| Registration.YoIsNotALetter | static/scripts/registration.js:16 | Ё is outside the letter class, so `ЁЁЁЁЁЁЁ1` is refused |
| Registration.CyrillicPasswordAccepted | static/scripts/registration.js:16-17 | `пароль12` is accepted |
| Registration.ConfirmIsExact | static/scripts/registration.js:86-90 | the confirmation is compared with the untrimmed password |
| InlineEdit.CookieValue | static/scripts/inline-edit.js:1-14 | `getCookie` as a function; stated by `InlineEdit.EmptyCookieIsNull`, `InlineEdit.FirstMatchWins`, `InlineEdit.NoMatchIsNull` and `InlineEdit.LongerNameNoMatch` |
| InlineEdit.GetCookie | static/scripts/inline-edit.js:1-14 | the loop returns the decoded value of the first matching entry, or null |
| InlineEdit.EmptyCookieIsNull | static/scripts/inline-edit.js:2-3 | an empty cookie string gives null |
| InlineEdit.FirstMatchWins | static/scripts/inline-edit.js:4-10 | the first entry whose trimmed text starts with `name=` decides, whatever follows |
| InlineEdit.NoMatchIsNull | static/scripts/inline-edit.js:5-13 | without a matching entry the answer is null |
| InlineEdit.LongerNameNoMatch | static/scripts/inline-edit.js:7 | a cookie whose name only starts with `name` does not match |
| InlineEdit.FormatDateForInput | static/scripts/inline-edit.js:101-108 | `formatDateForInput`; stated by `InlineEdit.DottedReversed`, `InlineEdit.NotThreePartsUnchanged` and `InlineEdit.DisplayedDateRoundTrip` |
| InlineEdit.DottedReversed | static/scripts/inline-edit.js:101-106 | `dd.mm.yyyy` becomes `yyyy-mm-dd` |
| InlineEdit.NotThreePartsUnchanged | static/scripts/inline-edit.js:107 | a string without exactly two dots is returned unchanged |
| InlineEdit.DisplayedDateRoundTrip | static/scripts/inline-edit.js:101-108 | a date shown as `dd.mm.yyyy` is turned into the text strptime reads back as that date |
| InlineEdit.InputType | static/scripts/inline-edit.js:32 | the input is a date picker exactly for `date_exchange`, and a text input otherwise |
| InlineEdit.EditableElement.MakeEditable | static/scripts/inline-edit.js:23-38 | the element is emptied; the input holds the trimmed text, reformatted for a date, and the original is kept |
| InlineEdit.EditableElement.SaveEdit | static/scripts/inline-edit.js:53-76 | a blank or unchanged value sends nothing and restores the original; any other value shows the saving notice and sends the trimmed value |
| InlineEdit.EditableElement.CancelEdit | static/scripts/inline-edit.js:97-99 | the original text is restored |
| InlineEdit.EditableElement.Settle | static/scripts/inline-edit.js:77-94 | on success the element shows the new value, on failure or a network error the original |
| InlineEdit.EditorNameEdits | static/scripts/inline-edit.js:53-76 | a name edit the editor sends to the owner's request is refused only for being longer than 255 characters |
| InlineEdit.DateEditRefused | main/views.py:216-229 | the editor's `date_exchange` edits are always refused as a field not allowed, and change nothing |
| Calendar.PrevMonth | static/scripts/calendar.js:110-117 | the previous-month button; stated by `Calendar.NavigationSteps` and `Calendar.PrevNextInverse` |
| Calendar.NextMonth | static/scripts/calendar.js:118-125 | the next-month button; stated by `Calendar.NavigationSteps` and `Calendar.PrevNextInverse` |
| Calendar.NavigationSteps | static/scripts/calendar.js:110-125 | both buttons keep the month in 1..12 and move exactly one month; 12 goes to 1 of the next year and 1 to 12 of the year before |
| Calendar.PrevNextInverse | static/scripts/calendar.js:110-125 | previous then next, or next then previous, returns to the same month |
| Calendar.CalendarState.Prev | static/scripts/calendar.js:110-117 | the globals move back one month and stay valid |
| Calendar.CalendarState.Next | static/scripts/calendar.js:118-125 | the globals move forward one month and stay valid |
| Calendar.DateKey | static/scripts/calendar.js:46-49 | the day's key string; stated by `Calendar.DateKeyPadded` and `Calendar.DateKeyIsIso` |
| Calendar.DateKeyPadded | static/scripts/calendar.js:46-49 | the day key is the year, then month and day padded to two digits, joined by `-` |
| Calendar.DateKeyIsIso | static/scripts/calendar.js:46-49 | for four-digit years the key is the server's `%Y-%m-%d` text of the date |
| Calendar.Classify | static/scripts/calendar.js:54-72 | the colour class of a day; stated by `Calendar.ClassifyCases` and `Calendar.ActionDayIffClaimed` |
| Calendar.ClassifyCases | static/scripts/calendar.js:54-72 | a day in both lists is an action day, a day in neither is neutral, and only a request day links, to a non-zero id |
| Calendar.ActionDayIffClaimed | static/scripts/calendar.js:10-12 | with the home view's action dates, a day is an action day exactly when the user claimed another user's request starting that day |
| Calendar.LeadingBlanks | static/scripts/calendar.js:35-36 | the number of leading blanks is in 0..6 |
| Calendar.MondayFirst | static/scripts/calendar.js:35-36 | a month starting on Monday has no blanks and one starting on Sunday has six |
| Calendar.MonthCells | static/scripts/calendar.js:35-89 | the month has its blanks and then one cell per day |
| Calendar.MonthCellAt | static/scripts/calendar.js:37-72 | each cell is a blank before the first day, and otherwise the cell of its day with its key and kind |
| Calendar.SundayColumn | static/scripts/calendar.js:81 | the day-of-week test finds Sunday exactly when the current row already holds six cells |
| Calendar.RowsNeeded | static/scripts/calendar.js:81-91 | full rows plus a kept partial row make ceil(cells / 7) rows |
| Calendar.PlaceCell | static/scripts/calendar.js:81-87 | the cell joins the layout in order; a row closes on Sunday with exactly seven cells |
| Calendar.DayCellOf | static/scripts/calendar.js:45-72 | one pass builds exactly the month's cell for that day |
| Calendar.IsSunday | static/scripts/calendar.js:81 | the row-closing test holds exactly when the current row holds six cells |
| Calendar.CloseLayout | static/scripts/calendar.js:91 | keeping a non-empty last row completes the layout |
| Calendar.LayDay | static/scripts/calendar.js:44-88 | one pass of the day loop extends the layout by exactly that day's cell |
| Calendar.LayDays | static/scripts/calendar.js:44-89 | the day loop lays out every cell of the month in order, in rows of seven plus a partial row |
| Calendar.RenderCalendar | static/scripts/calendar.js:17-94 | the rows hold the month's cells in reading order, each day exactly once; every row has 1 to 7 cells, all but the last have 7, and there are ceil(cells / 7) rows |

## Left out

- Django plumbing: `render`, `redirect`, `messages`, templates, the HTTP_REFERER choice of redirect, `@login_required` (the caller is a parameter), `login` and the JSON response bodies. Each outcome is a constructor of an outcome datatype.
- `Listing.ActionDates` is for a signed-in user. `home` gives an anonymous visitor an empty list (main/views.py:35-36); that branch is not modelled.
- `Catalog.UpdateRequest` takes the body already read. A body whose bytes do not decode raises `UnicodeDecodeError`, answered through the generic `except Exception`; it is modelled as `JsonBody.NotObject`, which gives the same `Failed` answer, not as `JsonBody.Malformed`.
- Concurrency and atomicity. The lookup for a free date and the insert that follows are one sequential step. Nothing is claimed about two requests racing, and the schema has no (request, date) constraint that would catch it.
- `date.today()`, `new Date()` and the weekday of the first of the month are parameters.
- The `register`, `profile`, `public_profile`, `create_request` and `request_details` views, `main/forms.py`, `main/admin.py`, `main/urls.py` and `static/scripts/available-requests.js` are not part of this model. They are form plumbing, display, routing or DOM toggling.
- `Schema.DeleteUserCascade`: no view deletes users. The cascade is modelled for the declared `on_delete` rules only.
- `update_request` with a list or object as the JSON `value` is not modelled. `len` succeeds on those and the row would receive a non-string. Numbers, booleans and null are modelled, as the failures they raise.
- `blog_request.save()` and `delete()` raising a database error is not modelled. The `except Exception` branch is modelled only for the `TypeError` a wrong value type raises.
- `decodeURIComponent` is a parameter of `InlineEdit.GetCookie`, so its URIError is not modelled.
- `toLocaleDateString` in `formatDateForDisplay` is the parameter `display` of `InlineEdit.EditableElement.Settle`.
- `email.checkValidity()` is the boolean parameter `emailTypeValid`.
- The live `input` listeners of the registration page and the submit handler's payload preview are not modelled.
- `Registration.RegistrationForm.ValidateForm` reports the message kind of each input, not its Russian text.
- `InlineEdit.EditorNameEdits`: it states only the refusals. What an accepted name stores is stated by `Catalog.BookNameAcceptedIff`.
- `getCookie`'s prefix test and `formatDateForInput` compare characters rather than UTF-16 code units. They agree on cookie names and date text, which lie in the Basic Multilingual Plane.
- `Dates.ParseIsoDate` reads ASCII digits only. CPython's `%Y`, `%m` and `%d` match `\d`, which admits every Unicode decimal digit, and `int()` reads them, so a date such as `٢٠٢٥-01-05` is accepted by `toggle_save_request` and `update_request` but refused by `Reservation.Toggle` and `Catalog.UpdateRequest`. `Dates.DjangoDate` has the same limit against Django's `date_re`.
- `Dates.IsoFormat` pads the year to four digits, as `isoformat` does. `strftime("%Y")` passes the year to the C library, which may leave years below 1000 unpadded (`5-01-01`); for those years `Dates.ParseFormat`'s round trip assumes the padded form.
- `Calendar.DateKeyIsIso` covers years from 1000 on. Below that, `getFullYear()` is not zero-padded while `Dates.IsoFormat` pads to four digits. JavaScript `Date`'s mapping of years 0 to 99 onto the 1900s is not modelled.
- The calendar's header row of weekday names, colours, titles, hover handlers and click targets are not modelled; the link target of a request day is kept as the request id.
- `updateCalendarHeader` is modelled as `Calendar.CalendarState.Title` without a contract.
- The action dates, accepted requests and created requests are modelled as sets, then sorted. The query's possible duplicate rows are not modelled; the calendar only tests membership.
- `Listing.TakenDates` and `Listing.BlockedDates`: each request's blocked dates are a set of strings, while the view builds a list in the order the claim query returns them. That order is not modelled; the page only tests membership.
- The listing's order among requests with the same start date is left to the database. The model breaks ties by descending id.
- `saved` annotation of the listing is not modelled as a field. `Listing.ListingFilters` shows it is always false.
