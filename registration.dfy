/** The registration page's client-side check, `validateForm`: it clears
    each field's validity message, sets one where a rule fails, lowers an
    `ok` flag that starts raised, and rewrites the Telegram field with a
    leading `@` when the nickname is valid but lacks one. String lengths are
    JavaScript's, in UTF-16 code units. */
module Registration {
  import opened Text

  /** The validity message a field is left with; `NoError` is the cleared
      message. */
  datatype FieldError =
    | NoError
    | UsernameRequired       // "enter a user name"
    | UsernameTooShort       // "at least 3 characters"
    | EmailInvalid           // "enter a valid e-mail"
    | TelegramFormat         // "nickname as @username (5-32 Latin letters, digits, _)"
    | PasswordWeak           // "password: at least 8 characters, a letter and a digit"
    | PasswordsDiffer        // "passwords must match"

  // ---------------------------------------------------------------------
  // The rules, one field at a time
  // ---------------------------------------------------------------------

  function UsernameCheck(value: string): FieldError {
    var u := Trim(value);
    if u == "" then UsernameRequired
    else if Utf16Length(u) < 3 then UsernameTooShort
    else NoError
  }

  /** `email.checkValidity()` is the browser's own type check, passed in. */
  function EmailCheck(value: string, typeValid: bool): FieldError {
    if Trim(value) == "" || !typeValid then EmailInvalid else NoError
  }

  /** `[A-Za-z0-9_]`. */
  predicate IsNickChar(c: char) {
    'A' <= c <= 'Z' || 'a' <= c <= 'z' || '0' <= c <= '9' || c == '_'
  }

  predicate NickRun(w: string) {
    5 <= |w| <= 32 && forall i :: 0 <= i < |w| ==> IsNickChar(w[i])
  }

  /** `/^@?[A-Za-z0-9_]{5,32}$/`. Every character the class admits is a
      single UTF-16 code unit, so counting characters counts code units. */
  predicate TelegramPattern(t: string) {
    NickRun(t) || (|t| >= 1 && t[0] == '@' && NickRun(t[1..]))
  }

  /** The Telegram field is optional: only a non-blank value is checked. */
  function TelegramCheck(value: string): FieldError {
    var tg := Trim(value);
    if tg != "" && !TelegramPattern(tg) then TelegramFormat else NoError
  }

  /** What the field holds afterwards: `'@' + tg` when the trimmed value is
      valid and does not start with `@`, otherwise the value as it was. */
  function NormalizeTelegram(value: string): string {
    var tg := Trim(value);
    if tg != "" && TelegramPattern(tg) && tg[0] != '@' then "@" + tg else value
  }

  /** `/[A-Za-zА-Яа-я]/`: Latin letters and the Cyrillic block U+0410 to
      U+044F, which leaves out Ё and ё. */
  predicate IsFormLetter(c: char) {
    'A' <= c <= 'Z' || 'a' <= c <= 'z' || 'А' <= c <= 'я'
  }

  predicate HasLetter(s: string) {
    exists i :: 0 <= i < |s| && IsFormLetter(s[i])
  }

  /** `/\d/`, which in JavaScript is the ASCII digits only. */
  predicate HasDigit(s: string) {
    exists i :: 0 <= i < |s| && IsDigit(s[i])
  }

  /** The password is taken as typed, untrimmed. */
  function PasswordCheck(pw: string): FieldError {
    if pw == "" || Utf16Length(pw) < 8 || !HasLetter(pw) || !HasDigit(pw) then PasswordWeak else NoError
  }

  function ConfirmCheck(confirm: string, pw: string): FieldError {
    if confirm != pw then PasswordsDiffer else NoError
  }

  // ---------------------------------------------------------------------
  // The form
  // ---------------------------------------------------------------------

  /** What the five inputs hold. */
  datatype Fields = Fields(username: string, email: string, telegram: string, password: string, confirm: string)

  /** The validity message each input is left with. */
  datatype Messages = Messages(username: FieldError, email: FieldError, telegram: FieldError,
                               password: FieldError, confirm: FieldError)

  predicate AllClear(m: Messages) {
    m.username == NoError && m.email == NoError && m.telegram == NoError &&
    m.password == NoError && m.confirm == NoError
  }

  /** The message every rule gives the inputs `f`. */
  function Verdicts(f: Fields, emailTypeValid: bool): Messages {
    Messages(UsernameCheck(f.username), EmailCheck(f.email, emailTypeValid), TelegramCheck(f.telegram),
             PasswordCheck(f.password), ConfirmCheck(f.confirm, f.password))
  }

  class RegistrationForm {
    var fields: Fields
    var messages: Messages

    constructor (fields: Fields)
      ensures this.fields == fields && AllClear(messages)
    {
      this.fields := fields;
      messages := Messages(NoError, NoError, NoError, NoError, NoError);
    }

    /** `validateForm`, input by input in the page's order: the input's
        message is cleared and then set where its rule fails, which also
        lowers the flag; a valid nickname without `@` gets one. The answer
        is true exactly when no input was given a message. */
    method ValidateForm(emailTypeValid: bool) returns (ok: bool)
      modifies this
      ensures messages == Verdicts(old(fields), emailTypeValid)
      ensures fields == old(fields).(telegram := NormalizeTelegram(old(fields).telegram))
      ensures ok <==> AllClear(messages)
    {
      ok := true;

      messages := messages.(username := UsernameCheck(fields.username));
      if messages.username != NoError {
        ok := false;
      }

      messages := messages.(email := EmailCheck(fields.email, emailTypeValid));
      if messages.email != NoError {
        ok := false;
      }

      messages := messages.(telegram := NoError);
      var tg := Trim(fields.telegram);
      if tg != "" {
        if !TelegramPattern(tg) {
          messages := messages.(telegram := TelegramFormat);
          ok := false;
        } else if tg[0] != '@' {
          fields := fields.(telegram := "@" + tg);
        }
      }

      var pw := fields.password;
      messages := messages.(password := PasswordCheck(pw));
      if messages.password != NoError {
        ok := false;
      }

      messages := messages.(confirm := ConfirmCheck(fields.confirm, pw));
      if messages.confirm != NoError {
        ok := false;
      }
    }
  }

  // ---------------------------------------------------------------------
  // Properties
  // ---------------------------------------------------------------------

  /** A user name is accepted exactly when, trimmed, it is at least three
      UTF-16 code units long; blank names are refused as missing. */
  lemma {:induction false} UsernameAcceptedIff(value: string)
    ensures UsernameCheck(value) == NoError <==> Utf16Length(Trim(value)) >= 3
    ensures Trim(value) == "" ==> UsernameCheck(value) == UsernameRequired
  {
  }

  /** A blank Telegram field is never an error and is left as it was. */
  lemma {:induction false} BlankTelegramUntouched(value: string)
    requires Trim(value) == ""
    ensures TelegramCheck(value) == NoError && NormalizeTelegram(value) == value
  {
  }

  /** A valid nickname without `@` gains one in front of its trimmed text;
      any other value is left exactly as typed, surrounding spaces
      included. */
  lemma {:induction false} NormalizeShape(value: string)
    ensures var tg := Trim(value);
      TelegramCheck(value) == NoError && tg != "" && tg[0] != '@' ==> NormalizeTelegram(value) == "@" + tg
    ensures var tg := Trim(value);
      tg == "" || tg[0] == '@' || TelegramCheck(value) != NoError ==> NormalizeTelegram(value) == value
  {
  }

  /** Checking the normalised value again accepts it and changes nothing:
      normalisation is idempotent and keeps the verdict. */
  lemma {:induction false} NormalizeIdempotent(value: string)
    ensures TelegramCheck(NormalizeTelegram(value)) == TelegramCheck(value)
    ensures NormalizeTelegram(NormalizeTelegram(value)) == NormalizeTelegram(value)
  {
    var tg := Trim(value);
    if tg != "" && TelegramPattern(tg) && tg[0] != '@' {
      var n := "@" + tg;
      TrimShape(value);
      assert n[|n| - 1] == tg[|tg| - 1];
      TrimNoSpace(n);
      assert n[1..] == tg;
      assert NickRun(tg);
    }
  }

  /** A normalised valid nickname starts with `@` once trimmed. */
  lemma {:induction false} NormalizedHasAt(value: string)
    requires Trim(value) != "" && TelegramCheck(value) == NoError
    ensures var n := Trim(NormalizeTelegram(value)); n != "" && n[0] == '@'
  {
    var tg := Trim(value);
    if tg[0] != '@' {
      var n := "@" + tg;
      TrimShape(value);
      assert n[|n| - 1] == tg[|tg| - 1];
      TrimNoSpace(n);
    } else {
      assert NormalizeTelegram(value) == value;
    }
  }

  /** An accepted non-blank nickname, once normalised and trimmed, is at
      most 33 characters (`@` and 32 nickname characters), all of them
      single UTF-16 code units, so it fits the profile's 100-character
      `telegram_nickname` column. */
  lemma {:induction false} NormalizedNicknameFits(value: string)
    requires Trim(value) != "" && TelegramCheck(value) == NoError
    ensures var n := Trim(NormalizeTelegram(value)); Utf16Length(n) == |n| <= 33
  {
    var tg := Trim(value);
    if tg[0] != '@' {
      var n := "@" + tg;
      TrimShape(value);
      assert n[|n| - 1] == tg[|tg| - 1];
      TrimNoSpace(n);
      AtNickLength(tg);
    } else {
      assert NormalizeTelegram(value) == value;
      assert tg == "@" + tg[1..];
      AtNickLength(tg[1..]);
    }
  }

  /** `@` followed by a nickname counts one UTF-16 code unit per character. */
  lemma {:induction false} AtNickLength(w: string)
    requires NickRun(w)
    ensures Utf16Length("@" + w) == |"@" + w| <= 33
  {
    Utf16LengthBmp(w);
    Utf16LengthConcat("@", w);
  }

  /** The user name rule reads the trimmed value, so trimming the field
      first does not change its verdict. */
  lemma {:induction false} UsernameCheckTrimmed(value: string)
    ensures UsernameCheck(Trim(value)) == UsernameCheck(value)
  {
    TrimIdempotent(value);
  }

  /** The form is accepted exactly when every input passes its rule: a
      user name of at least three code units, a non-blank e-mail the
      browser accepts, a blank or well-formed nickname, a strong password
      and an identical confirmation. */
  lemma {:induction false} FormAcceptedIff(f: Fields, emailTypeValid: bool)
    ensures AllClear(Verdicts(f, emailTypeValid)) <==>
      Utf16Length(Trim(f.username)) >= 3 && Trim(f.email) != "" && emailTypeValid &&
      (Trim(f.telegram) == "" || TelegramPattern(Trim(f.telegram))) &&
      Utf16Length(f.password) >= 8 && HasLetter(f.password) && HasDigit(f.password) &&
      f.confirm == f.password
  {
    UsernameAcceptedIff(f.username);
    PasswordAcceptedIff(f.password);
  }

  /** A password is accepted exactly when it has at least eight UTF-16 code
      units, a Latin or Cyrillic letter and an ASCII digit. */
  lemma {:induction false} PasswordAcceptedIff(pw: string)
    ensures PasswordCheck(pw) == NoError <==> Utf16Length(pw) >= 8 && HasLetter(pw) && HasDigit(pw)
  {
  }

  /** Ё is not in the letter class: a password whose only letters are Ё is
      refused even though it is long enough and has a digit. */
  lemma {:induction false} YoIsNotALetter()
    ensures PasswordCheck("ЁЁЁЁЁЁЁ1") == PasswordWeak
  {
    var weak := "ЁЁЁЁЁЁЁ1";
    assert !HasLetter(weak) by {
      forall i | 0 <= i < |weak| ensures !IsFormLetter(weak[i]) {}
    }
  }

  /** The rest of the Cyrillic alphabet is: an eight-letter password of
      Cyrillic letters and digits is accepted. */
  lemma {:induction false} CyrillicPasswordAccepted()
    ensures PasswordCheck("пароль12") == NoError
  {
    var good := "пароль12";
    assert Utf16Length(good) >= |good| == 8;
    assert IsFormLetter(good[0]) && IsDigit(good[6]);
  }

  /** The confirmation is compared with the password as typed, so a
      confirmation that drops the password's surrounding spaces is refused. */
  lemma {:induction false} ConfirmIsExact(pw: string)
    requires Trim(pw) != pw
    ensures ConfirmCheck(Trim(pw), pw) == PasswordsDiffer
  {
  }
}
