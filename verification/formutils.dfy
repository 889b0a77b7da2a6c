/** The shared helpers of Utils/utils.js: the form validators, the
    defaulting storage read and the relative-time wording. */
module FormUtils {
  import opened Js

  // Email

  /** A character of `[^\s@]`. */
  predicate Plain(c: char) {
    !IsSpace(c) && c != '@'
  }

  /** Every character except the one at `at` is plain. */
  predicate PlainExcept(s: string, at: int) {
    forall k :: 0 <= k < |s| && k != at ==> Plain(s[k])
  }

  /** The language of `^[^\s@]+@[^\s@]+\.[^\s@]+$`, by positions: an '@'
      after at least one character, a '.' at least one character after it
      and before the last character, and nothing else that is whitespace
      or '@'. */
  predicate EmailShape(s: string) {
    exists at, dot :: 0 < at && at + 1 < dot < |s| - 1 && s[at] == '@' && s[dot] == '.' && PlainExcept(s, at)
  }

  /** Whitespace or '@': what `[^\s@]` excludes. */
  predicate Special(c: char) {
    !Plain(c)
  }

  predicate IsDot(c: char) {
    c == '.'
  }

  /** `validateEmail`: the first character that is whitespace or '@' must
      be an '@' with a non-empty local part before it; the domain after it
      holds no such character and has a '.' strictly inside it. */
  function ValidateEmail(email: string): bool {
    match FindIndex(email, Special)
    case None => false
    case Some(at) =>
      var domain := email[at + 1..];
      && email[at] == '@' && at > 0
      && FindIndex(domain, Special).None?
      && |domain| >= 3
      && FindIndex(domain[1..|domain| - 1], IsDot).Some?
  }

  /** Whatever the scan accepts has the pattern's shape. */
  lemma ValidateEmailShaped(email: string)
    requires ValidateEmail(email)
    ensures EmailShape(email)
  {
    var at := FindIndex(email, Special).value;
    var domain := email[at + 1..];
    var inner := domain[1..|domain| - 1];
    var k := FindIndex(inner, IsDot).value;
    var dot := at + 2 + k;
    assert email[dot] == inner[k];
    forall j | 0 <= j < |email| && j != at
      ensures Plain(email[j])
    {
      if j > at {
        assert email[j] == domain[j - at - 1];
      }
    }
    assert 0 < at && at + 1 < dot < |email| - 1 && email[at] == '@' && email[dot] == '.' && PlainExcept(email, at);
  }

  /** Whatever has the pattern's shape passes the scan. */
  lemma ShapedEmailValid(email: string, at: nat, dot: nat)
    requires 0 < at && at + 1 < dot < |email| - 1 && email[at] == '@' && email[dot] == '.' && PlainExcept(email, at)
    ensures ValidateEmail(email)
  {
    assert Special(email[at]);
    assert FindIndex(email, Special) == Some(at);
    var domain := email[at + 1..];
    forall j | 0 <= j < |domain|
      ensures Plain(domain[j])
    {
      assert domain[j] == email[at + 1 + j];
    }
    var inner := domain[1..|domain| - 1];
    assert IsDot(inner[dot - at - 2]);
  }

  /** The scan accepts exactly the strings the pattern describes. */
  lemma ValidateEmailIffShape(email: string)
    ensures ValidateEmail(email) <==> EmailShape(email)
  {
    if ValidateEmail(email) {
      ValidateEmailShaped(email);
    }
    if EmailShape(email) {
      var at, dot :| 0 < at && at + 1 < dot < |email| - 1 && email[at] == '@' && email[dot] == '.' && PlainExcept(email, at);
      ShapedEmailValid(email, at, dot);
    }
  }

  /** A typical address passes and one with a space fails. */
  lemma EmailExamples()
    ensures ValidateEmail("a@b.ru")
    ensures !ValidateEmail("a b@c.ru")
  {
    ShapedEmailValid("a@b.ru", 1, 3);
    var bad := "a b@c.ru";
    assert !Special(bad[0]) && Special(bad[1]);
    assert FindIndex(bad, Special) == Some(1);
  }

  // Phone

  /** `phone.replace(/\s/g, '')`. */
  function StripSpaces(s: string): (r: string)
    ensures forall i :: 0 <= i < |r| ==> !IsSpace(r[i]) && r[i] in s
    ensures forall i :: 0 <= i < |s| && !IsSpace(s[i]) ==> s[i] in r
  {
    Filter(s, (c: char) => !IsSpace(c))
  }

  /** One element of an anchored pattern. */
  datatype Token =
    | Optional(chars: seq<char>)  // `[...]?`
    | OneOf(chars: seq<char>)     // `[...]`
    | Digits(n: nat)              // `\d{n}`

  /** `^\+?[78][-\(]?\d{3}\)?-?\d{3}-?\d{2}-?\d{2}$`. */
  const PhonePattern: seq<Token> :=
    [Optional("+"), OneOf("78"), Optional("-("), Digits(3), Optional(")"), Optional("-"),
     Digits(3), Optional("-"), Digits(2), Optional("-"), Digits(2)]

  /** `\d{n}` at the front of `s`. */
  predicate DigitsAhead(s: string, n: nat) {
    n <= |s| && AllDigits(s[..n])
  }

  /** Anchored matching of tokens i.. of a list, taking an optional
      character whenever it is there. That is exact for patterns where no
      optional character can also start the token after it, as in the
      phone pattern. */
  predicate MatchFrom(s: string, toks: seq<Token>, i: nat)
    decreases |toks| - i
  {
    if i >= |toks| then s == []
    else match toks[i]
      case Optional(cs) => MatchFrom(if |s| > 0 && s[0] in cs then s[1..] else s, toks, i + 1)
      case OneOf(cs) => |s| > 0 && s[0] in cs && MatchFrom(s[1..], toks, i + 1)
      case Digits(n) => DigitsAhead(s, n) && MatchFrom(s[n..], toks, i + 1)
  }

  /** `validatePhone`: the pattern on the number with whitespace removed. */
  predicate ValidatePhone(phone: string) {
    MatchFrom(StripSpaces(phone), PhonePattern, 0)
  }

  function DigitCount(s: string): (n: nat)
    ensures n <= |s|
  {
    Count(s, IsDigit)
  }

  lemma DigitCountCons(s: string)
    requires |s| > 0
    ensures DigitCount(s) == (if IsDigit(s[0]) then 1 else 0) + DigitCount(s[1..])
  {
  }

  lemma {:induction false} DigitsAheadCount(s: string, n: nat)
    requires DigitsAhead(s, n)
    ensures DigitCount(s) == n + DigitCount(s[n..])
    decreases n
  {
    if n > 0 {
      DigitCountCons(s);
      assert s[..n][0] == s[0];
      assert s[1..][..n - 1] == s[..n][1..];
      DigitsAheadCount(s[1..], n - 1);
      assert s[1..][n - 1..] == s[n..];
    }
  }

  /** The digits tokens i.. demand. */
  function TokenDigits(toks: seq<Token>, i: nat): nat
    decreases |toks| - i
  {
    if i >= |toks| then 0
    else
      (match toks[i]
       case Optional(_) => 0
       case OneOf(_) => 1
       case Digits(n) => n) + TokenDigits(toks, i + 1)
  }

  /** Optional characters are not digits; a class holds only digits. */
  predicate WellFormed(toks: seq<Token>) {
    forall i :: 0 <= i < |toks| ==> match toks[i]
      case Optional(cs) => forall k :: 0 <= k < |cs| ==> !IsDigit(cs[k])
      case OneOf(cs) => AllDigits(cs)
      case Digits(_) => true
  }

  /** A string matching a well-formed token list has exactly the digits the
      list demands. */
  lemma {:induction false} MatchedDigits(s: string, toks: seq<Token>, i: nat)
    requires WellFormed(toks) && MatchFrom(s, toks, i)
    ensures DigitCount(s) == TokenDigits(toks, i)
    decreases |toks| - i
  {
    if i < |toks| {
      match toks[i]
      case Optional(cs) =>
        if |s| > 0 && s[0] in cs {
          DigitCountCons(s);
          MatchedDigits(s[1..], toks, i + 1);
        } else {
          MatchedDigits(s, toks, i + 1);
        }
      case OneOf(cs) =>
        DigitCountCons(s);
        MatchedDigits(s[1..], toks, i + 1);
      case Digits(n) =>
        DigitsAheadCount(s, n);
        MatchedDigits(s[n..], toks, i + 1);
    }
  }

  /** The phone pattern demands eleven digits and its optional characters
      are separators. */
  lemma PhonePatternFacts()
    ensures WellFormed(PhonePattern)
    ensures TokenDigits(PhonePattern, 0) == 11
  {
  }

  /** Whatever separators it carries, an accepted number has exactly eleven
      digits. */
  lemma AcceptedPhoneHasElevenDigits(phone: string)
    requires ValidatePhone(phone)
    ensures DigitCount(StripSpaces(phone)) == 11
  {
    PhonePatternFacts();
    MatchedDigits(StripSpaces(phone), PhonePattern, 0);
  }

  /** The last seven digits of a bare number match the rest of the phone
      pattern. */
  lemma PhoneExampleTail()
    ensures MatchFrom("1234567", PhonePattern, 4)
  {
    assert MatchFrom("67", PhonePattern, 10);
    assert MatchFrom("67", PhonePattern, 9);
    assert MatchFrom("4567", PhonePattern, 8);
    assert MatchFrom("4567", PhonePattern, 7);
    assert MatchFrom("1234567", PhonePattern, 6);
    assert MatchFrom("1234567", PhonePattern, 5);
  }

  /** A bare number of eleven digits starting with 8 passes. */
  lemma PhoneExampleBare()
    ensures MatchFrom("89991234567", PhonePattern, 0)
  {
    PhoneExampleTail();
    assert "9991234567"[3..] == "1234567";
    assert MatchFrom("9991234567", PhonePattern, 3);
    assert MatchFrom("9991234567", PhonePattern, 2);
    assert "89991234567"[1..] == "9991234567";
    assert MatchFrom("89991234567", PhonePattern, 1);
  }

  // Required fields

  /** `validateRequired`: the value is non-empty after trimming. */
  predicate ValidateRequired(value: string) {
    value != "" && |Trim(value)| > 0
  }

  /** A required field is filled iff it has a non-whitespace character. */
  lemma RequiredIffNotBlank(value: string)
    ensures ValidateRequired(value) <==> exists i :: 0 <= i < |value| && !IsSpace(value[i])
  {
    BlankIffAllSpace(value);
  }

  // Storage

  /** Local storage as `LocalStorageManager` sees it: each key holds a
      stored JSON text, already classified as missing, unparsable or
      parsed. */
  type StorageArea<T> = map<string, Stored<T>>

  function EntryOf<T>(area: StorageArea<T>, key: string): Stored<T> {
    if key in area then area[key] else Absent
  }

  /** `LocalStorageManager.get(key, defaultValue)`. */
  function Get<T>(area: StorageArea<T>, key: string, default: T): (r: T)
    ensures key !in area ==> r == default
    ensures key in area && area[key].Parsed? ==> r == area[key].value
    ensures key in area && !area[key].Parsed? ==> r == default
  {
    ValueOr(EntryOf(area, key), default)
  }

  /** `LocalStorageManager.set(key, value)`: the JSON text of the value is
      written, and `true` returned, unless the browser refuses the write
      (`accepted` false: the exception is caught, `false` returned, nothing
      changes). What was written reads back as the value under its key, and
      every other key reads as before. */
  function Set<T(!new)>(area: StorageArea<T>, key: string, value: T, accepted: bool): (r: (StorageArea<T>, bool))
    ensures r.1 == accepted
    ensures accepted ==> forall d :: Get(r.0, key, d) == value
    ensures forall k, d :: k != key ==> Get(r.0, k, d) == Get(area, k, d)
    ensures !accepted ==> r.0 == area
  {
    if accepted then (area[key := Parsed(value)], true) else (area, false)
  }

  /** `LocalStorageManager.remove(key)`: the key afterwards reads as the
      default, and every other key as before. */
  function Remove<T(!new)>(area: StorageArea<T>, key: string): (r: StorageArea<T>)
    ensures forall d :: Get(r, key, d) == d
    ensures forall k, d :: k != key ==> Get(r, k, d) == Get(area, k, d)
  {
    area - {key}
  }

  // Relative time

  const MinuteMs := 60000
  const HourMs := 3600000
  const DayMs := 86400000

  datatype RelativeTime = JustNow | MinutesAgo(minutes: int) | HoursAgo(hours: int) | DaysAgo(days: int) | FullDate

  /** `getRelativeTime`: the difference in whole minutes, hours and days
      (rounded down) picks the wording; a week or more shows the date.
      A date in the future reads as "just now". */
  function GetRelativeTime(now: int, date: int): (r: RelativeTime)
    ensures r == JustNow <==> now - date < MinuteMs
    ensures r.MinutesAgo? <==> MinuteMs <= now - date < HourMs
    ensures r.HoursAgo? <==> HourMs <= now - date < DayMs
    ensures r.DaysAgo? <==> DayMs <= now - date < 7 * DayMs
    ensures r == FullDate <==> now - date >= 7 * DayMs
    ensures r.MinutesAgo? ==> 1 <= r.minutes < 60 && r.minutes * MinuteMs <= now - date < (r.minutes + 1) * MinuteMs
    ensures r.HoursAgo? ==> 1 <= r.hours < 24 && r.hours * HourMs <= now - date < (r.hours + 1) * HourMs
    ensures r.DaysAgo? ==> 1 <= r.days < 7 && r.days * DayMs <= now - date < (r.days + 1) * DayMs
  {
    var diff := now - date;
    var mins := diff / MinuteMs;
    var hours := diff / HourMs;
    var days := diff / DayMs;
    if mins < 1 then JustNow
    else if mins < 60 then MinutesAgo(mins)
    else if hours < 24 then HoursAgo(hours)
    else if days < 7 then DaysAgo(days)
    else FullDate
  }

  function Rank(r: RelativeTime): nat {
    match r
    case JustNow => 0
    case MinutesAgo(_) => 1
    case HoursAgo(_) => 2
    case DaysAgo(_) => 3
    case FullDate => 4
  }

  /** An older date never gets a finer wording than a newer one. */
  lemma RelativeTimeMonotone(now: int, older: int, newer: int)
    requires older <= newer
    ensures Rank(GetRelativeTime(now, older)) >= Rank(GetRelativeTime(now, newer))
  {
  }
}
