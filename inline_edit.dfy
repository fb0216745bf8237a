/** The inline editor of the request pages: `getCookie`, which reads the
    CSRF token out of `document.cookie`; `formatDateForInput`, which turns a
    displayed `dd.mm.yyyy` into the `yyyy-mm-dd` a date input takes; and the
    element life cycle of an edit (open, save or cancel). Prefixes and
    lengths are compared on characters; for the well-formed strings a page
    holds this agrees with JavaScript's UTF-16 indexing. */
module InlineEdit {
  import opened Wrappers
  import opened Text
  import opened Dates
  import opened Schema
  import opened Catalog

  // ---------------------------------------------------------------------
  // getCookie
  // ---------------------------------------------------------------------

  /** `cookie.substring(0, name.length + 1) === name + '='`. */
  predicate NamedEntry(cookie: string, name: string) {
    |name| + 1 <= |cookie| && cookie[..|name| + 1] == name + "="
  }

  /** The answer for the entries from a given one on: the decoded value of
      the first entry whose trimmed text starts with `name=`, or null. */
  function Lookup(entries: seq<string>, name: string, decode: string -> string): (v: Option<string>)
    decreases |entries|
  {
    if |entries| == 0 then None
    else
      var c := Trim(entries[0]);
      if NamedEntry(c, name) then Some(decode(c[|name| + 1..]))
      else Lookup(entries[1..], name, decode)
  }

  /** What `getCookie(name)` returns for the cookie string `cookie`;
      `decodeURIComponent` is the parameter `decode`. */
  function CookieValue(cookie: string, name: string, decode: string -> string): Option<string> {
    if cookie == "" then None else Lookup(Split(cookie, ';'), name, decode)
  }

  /** `getCookie`: the loop over the `;`-separated entries that stops at
      the first match. */
  method GetCookie(cookie: string, name: string, decode: string -> string) returns (cookieValue: Option<string>)
    ensures cookieValue == CookieValue(cookie, name, decode)
  {
    cookieValue := None;
    if cookie != "" {
      var cookies := Split(cookie, ';');
      var i := 0;
      while i < |cookies|
        invariant 0 <= i <= |cookies|
        invariant cookieValue == None
        invariant Lookup(cookies, name, decode) == Lookup(cookies[i..], name, decode)
      {
        var c := Trim(cookies[i]);
        if NamedEntry(c, name) {
          cookieValue := Some(decode(c[|name| + 1..]));
          break;
        }
        assert cookies[i..][1..] == cookies[i + 1..];
        i := i + 1;
      }
    }
  }

  /** An empty cookie string gives null. */
  lemma {:induction false} EmptyCookieIsNull(name: string, decode: string -> string)
    ensures CookieValue("", name, decode) == None
  {
  }

  /** The first matching entry decides, whatever the later entries hold;
      without a matching entry the answer is null. */
  lemma {:induction false} FirstMatchWins(entries: seq<string>, name: string, decode: string -> string, j: nat)
    requires j < |entries| && NamedEntry(Trim(entries[j]), name)
    requires forall i :: 0 <= i < j ==> !NamedEntry(Trim(entries[i]), name)
    ensures Lookup(entries, name, decode) == Some(decode(Trim(entries[j])[|name| + 1..]))
  {
    if j > 0 {
      var tail := entries[1..];
      assert !NamedEntry(Trim(entries[0]), name);
      assert tail[j - 1] == entries[j];
      forall i | 0 <= i < j - 1 ensures !NamedEntry(Trim(tail[i]), name) {
        assert tail[i] == entries[i + 1];
      }
      FirstMatchWins(tail, name, decode, j - 1);
    }
  }

  lemma {:induction false} NoMatchIsNull(entries: seq<string>, name: string, decode: string -> string)
    requires forall i :: 0 <= i < |entries| ==> !NamedEntry(Trim(entries[i]), name)
    ensures Lookup(entries, name, decode) == None
  {
    if |entries| > 0 {
      assert !NamedEntry(Trim(entries[0]), name);
      NoMatchIsNull(entries[1..], name, decode);
    }
  }

  /** A cookie whose name merely starts with `name` does not match: the `=`
      must follow the name at once. */
  lemma {:induction false} LongerNameNoMatch(entry: string, name: string)
    requires |entry| > |name| && entry[..|name|] == name && entry[|name|] != '='
    ensures !NamedEntry(entry, name)
  {
  }

  // ---------------------------------------------------------------------
  // formatDateForInput
  // ---------------------------------------------------------------------

  /** "25.08.2025" becomes "2025-08-25": with exactly three dot-separated
      parts they are written in reverse order joined by `-`; anything else
      is returned as it is. */
  function FormatDateForInput(dateString: string): string {
    var parts := Split(dateString, '.');
    if |parts| == 3 then parts[2] + "-" + parts[1] + "-" + parts[0] else dateString
  }

  lemma {:induction false} DottedReversed(d: string, m: string, y: string)
    requires '.' !in d && '.' !in m && '.' !in y
    ensures FormatDateForInput(d + "." + m + "." + y) == y + "-" + m + "-" + d
  {
    assert [d, m, y][1..] == [m, y] && [m, y][1..] == [y];
    assert Join([m, y], '.') == m + "." + y;
    assert d + "." + m + "." + y == Join([d, m, y], '.');
    JoinSplit([d, m, y], '.');
  }

  /** A string without exactly two dots is passed through. */
  lemma {:induction false} NotThreePartsUnchanged(s: string)
    requires CountChar(s, '.') != 2
    ensures FormatDateForInput(s) == s
  {
    SplitJoin(s, '.');
  }

  /** A date shown as `dd.mm.yyyy` is turned into the text strptime reads
      back as that same date. */
  lemma {:induction false} DisplayedDateRoundTrip(d: CalendarDate)
    requires d.year >= 1000
    ensures var shown := TwoDigits(d.day) + "." + TwoDigits(d.month) + "." + NatToDecimal(d.year);
      ParseIsoDate(FormatDateForInput(shown)) == Some(d)
  {
    var y := NatToDecimal(d.year);
    assert Pow10(4) == 10000 && Pow10(3) == 1000;
    DecimalLengthExact(d.year, 4);
    assert forall i :: 0 <= i < |TwoDigits(d.day)| ==> TwoDigits(d.day)[i] != '.';
    assert forall i :: 0 <= i < |TwoDigits(d.month)| ==> TwoDigits(d.month)[i] != '.';
    assert forall i :: 0 <= i < |y| ==> y[i] != '.';
    DottedReversed(TwoDigits(d.day), TwoDigits(d.month), y);
    assert PadStart(y, 4, '0') == y;
    assert IsoFormat(d) == y + "-" + TwoDigits(d.month) + "-" + TwoDigits(d.day);
    ParseFormat(d);
  }

  // ---------------------------------------------------------------------
  // Editing an element
  // ---------------------------------------------------------------------

  /** `input.type`: a date picker for the `date_exchange` field only. */
  function InputType(field: string): (t: string)
    ensures t == "date" <==> field == "date_exchange"
    ensures t != "date" ==> t == "text"
  {
    if field == "date_exchange" then "date" else "text"
  }

  /** The update call `saveEdit` sends: `{"field": ..., "value": ...}`. */
  datatype UpdateCall = UpdateCall(field: string, value: string)

  const SavingText := "Сохранение..."

  class EditableElement {
    var textContent: string

    constructor (text: string)
      ensures textContent == text
    {
      textContent := text;
    }

    /** `makeEditable`: the element is emptied and an input opened holding
        the trimmed text, reformatted when it is a date. Returns the input's
        type, its value, and the original value kept for a cancel. */
    method MakeEditable(field: string) returns (inputType: string, inputValue: string, original: string)
      modifies this
      ensures original == Trim(old(textContent)) && textContent == ""
      ensures inputType == InputType(field)
      ensures inputValue == (if field == "date_exchange" then FormatDateForInput(original) else original)
    {
      original := Trim(textContent);
      inputType := InputType(field);
      inputValue := if field == "date_exchange" then FormatDateForInput(original) else original;
      textContent := "";
    }

    /** `saveEdit`: a blank or unchanged value restores the original text
        and sends nothing; any other value shows the saving notice and
        sends the trimmed value. */
    method SaveEdit(inputValue: string, field: string, original: string) returns (sent: Option<UpdateCall>)
      modifies this
      ensures var v := Trim(inputValue);
        (v == "" || v == original) ==> sent == None && textContent == original
      ensures var v := Trim(inputValue);
        !(v == "" || v == original) ==> sent == Some(UpdateCall(field, v)) && textContent == SavingText
    {
      var newValue := Trim(inputValue);
      if newValue == "" || newValue == original {
        CancelEdit(original);
        return None;
      }
      textContent := SavingText;
      sent := Some(UpdateCall(field, newValue));
    }

    /** `cancelEdit`. */
    method CancelEdit(original: string)
      modifies this
      ensures textContent == original
    {
      textContent := original;
    }

    /** The answer to the update call: on success the element shows the
        new value (a date through the browser's `toLocaleDateString`, the
        parameter `display`); on failure, or a network error, the original. */
    method Settle(success: bool, call: UpdateCall, original: string, display: string -> string)
      modifies this
      ensures success ==> textContent == (if call.field == "date_exchange" then display(call.value) else call.value)
      ensures !success ==> textContent == original
    {
      if success {
        textContent := if call.field == "date_exchange" then display(call.value) else call.value;
      } else {
        textContent := original;
      }
    }
  }

  // ---------------------------------------------------------------------
  // The editor against update_request
  // ---------------------------------------------------------------------

  /** What `update_request` receives for an update call. */
  function Body(call: UpdateCall): JsonBody {
    Object(JString(call.field), JString(call.value))
  }

  /** The editor never sends a blank value, so on the owner's request a
      name edit it sends is refused only for being longer than 255
      characters. */
  lemma {:induction false} EditorNameEdits(db: Db, user: UserId, pk: RequestId, inputValue: string, original: string)
    requires Owns(db, user, pk)
    requires var v := Trim(inputValue); !(v == "" || v == original)
    ensures var v := Trim(inputValue);
      var r := UpdateRequest(db, user, pk, true, Body(UpdateCall("book_name", v)));
      (r.outcome == Updated <==> |v| <= 255) && (r.outcome != Updated ==> r.outcome == NameLength)
  {
    BookNameAcceptedIff(db, user, pk, Trim(inputValue));
  }

  /** The one field the editor edits with a date picker, `date_exchange`,
      is not a field `update_request` accepts: such an edit is always
      refused and changes nothing. */
  lemma {:induction false} DateEditRefused(db: Db, user: UserId, pk: RequestId, value: string)
    requires Owns(db, user, pk)
    ensures UpdateRequest(db, user, pk, true, Body(UpdateCall("date_exchange", value))) ==
      UpdateResult(FieldNotAllowed, db)
  {
    OtherFieldRejected(db, user, pk, JString("date_exchange"), JString(value));
  }
}
