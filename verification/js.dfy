/** Models of the JavaScript built-ins the storefront code leans on: optional
    values, String.prototype.trim / toLowerCase / includes / split, Array
    join and slice, parseInt and Number on decimal text, decimal rendering of
    integers, and the truncating remainder operator. */
module Js {

  /** A value that may be absent: `undefined`, `null`, or a failed parse. */
  datatype Option<+T> = None | Some(value: T) {
    function GetOr(default: T): T {
      match this
      case Some(v) => v
      case None => default
    }
  }

  /** What `JSON.parse(localStorage.getItem(key))` yields: no value (or an
      empty one), text the parser rejects, or a parsed value. */
  datatype Stored<T> = Absent | Unparsable | Parsed(value: T)

  /** Reading a stored JSON value with a fallback, as both
      `LocalStorageManager.get` and `safeJSONParse` do: the parsed value,
      or the default when the text is missing, empty or not JSON. */
  function ValueOr<T>(stored: Stored<T>, default: T): (r: T)
    ensures stored.Parsed? ==> r == stored.value
    ensures !stored.Parsed? ==> r == default
  {
    match stored
    case Parsed(v) => v
    case _ => default
  }

  /** The smaller of two numbers, `Math.min`. */
  function Min(a: int, b: int): int {
    if a <= b then a else b
  }

  /** Truthiness of an optional text value: present and non-empty. */
  predicate Truthy(o: Option<string>) {
    o.Some? && o.value != ""
  }

  /** `o || d` on an optional text value. */
  function OrElse(o: Option<string>, d: string): (r: string)
    ensures Truthy(o) ==> r == o.value
    ensures !Truthy(o) ==> r == d
  {
    if Truthy(o) then o.value else d
  }

  // ---------------------------------------------------------------------
  // Characters

  /** The WhiteSpace and LineTerminator code points of ECMAScript: what
      `trim()` strips and what the regex class `\s` matches. */
  predicate IsSpace(c: char) {
    c in SpaceChars || '\U{2000}' <= c <= '\U{200A}'
  }

  /** The single whitespace and line-terminator characters outside the
      range U+2000..U+200A. */
  const SpaceChars: set<char> :=
    {' ', '\t', '\n', '\r', '\U{000B}', '\U{000C}', '\U{00A0}', '\U{1680}',
     '\U{2028}', '\U{2029}', '\U{202F}', '\U{205F}', '\U{3000}', '\U{FEFF}'}

  /** The regex class `\d`: ASCII decimal digits only. */
  predicate IsDigit(c: char) {
    '0' <= c <= '9'
  }

  predicate AllDigits(s: string) {
    forall i :: 0 <= i < |s| ==> IsDigit(s[i])
  }

  /** `toLowerCase` on Latin and Cyrillic capitals (U+0400..U+042F); every
      other code point is left as it is. */
  function LowerChar(c: char): (r: char)
    ensures IsDigit(c) ==> r == c
  {
    if 'A' <= c <= 'Z' then (c as int + 32) as char
    else if '\U{0410}' <= c <= '\U{042F}' then (c as int + 32) as char
    else if '\U{0400}' <= c <= '\U{040F}' then (c as int + 80) as char
    else c
  }

  /** `toUpperCase` on Latin and Cyrillic small letters (U+0430..U+045F). */
  function UpperChar(c: char): char {
    if 'a' <= c <= 'z' then (c as int - 32) as char
    else if '\U{0430}' <= c <= '\U{044F}' then (c as int - 32) as char
    else if '\U{0450}' <= c <= '\U{045F}' then (c as int - 80) as char
    else c
  }

  function Lower(s: string): (r: string)
    ensures |r| == |s|
    ensures forall i :: 0 <= i < |s| ==> r[i] == LowerChar(s[i])
  {
    if |s| == 0 then [] else [LowerChar(s[0])] + Lower(s[1..])
  }

  /** Lower-casing works character by character, so it splits over a
      concatenation. */
  lemma LowerConcat(a: string, b: string)
    ensures Lower(a + b) == Lower(a) + Lower(b)
  {
    assert forall i :: 0 <= i < |a + b| ==> Lower(a + b)[i] == (Lower(a) + Lower(b))[i];
  }

  function Upper(s: string): (r: string)
    ensures |r| == |s|
    ensures forall i :: 0 <= i < |s| ==> r[i] == UpperChar(s[i])
  {
    if |s| == 0 then [] else [UpperChar(s[0])] + Upper(s[1..])
  }

  // ---------------------------------------------------------------------
  // trim

  /** No leading and no trailing whitespace. */
  predicate IsTrimmed(s: string) {
    |s| == 0 || (!IsSpace(s[0]) && !IsSpace(s[|s| - 1]))
  }

  function TrimStart(s: string): (r: string)
    ensures |r| <= |s| && r == s[|s| - |r|..]
    ensures |r| == 0 || !IsSpace(r[0])
    ensures forall i :: 0 <= i < |s| - |r| ==> IsSpace(s[i])
  {
    if |s| > 0 && IsSpace(s[0]) then
      var r := TrimStart(s[1..]);
      assert s[1..][|s| - 1 - |r|..] == s[|s| - |r|..];
      assert forall i :: 1 <= i < |s| - |r| ==> s[i] == s[1..][i - 1];
      r
    else s
  }

  function TrimEnd(s: string): (r: string)
    ensures |r| <= |s| && r == s[..|r|]
    ensures |r| == 0 || !IsSpace(r[|r| - 1])
    ensures forall i :: |r| <= i < |s| ==> IsSpace(s[i])
  {
    if |s| > 0 && IsSpace(s[|s| - 1]) then TrimEnd(s[..|s| - 1]) else s
  }

  /** A prefix without trailing space of a suffix without leading space is
      a trimmed infix. */
  lemma TrimParts(s: string, t: string, r: string)
    requires |t| <= |s| && t == s[|s| - |t|..] && (|t| == 0 || !IsSpace(t[0]))
    requires |r| <= |t| && r == t[..|r|] && (|r| == 0 || !IsSpace(r[|r| - 1]))
    ensures IsTrimmed(r)
    ensures |s| - |t| + |r| <= |s| && r == s[|s| - |t|..|s| - |t| + |r|]
  {
    assert |r| > 0 ==> r[0] == t[0];
  }

  /** `String.prototype.trim`: the infix left after dropping the leading
      and the trailing whitespace, and nothing else. */
  function Trim(s: string): (r: string)
    ensures IsTrimmed(r)
    ensures var a := |s| - |TrimStart(s)|;
      a + |r| <= |s| && r == s[a..a + |r|]
  {
    var t := TrimStart(s);
    var r := TrimEnd(t);
    TrimParts(s, t, r);
    r
  }

  lemma TrimOfTrimmed(s: string)
    requires IsTrimmed(s)
    ensures Trim(s) == s
  {
  }

  /** Trimming a trimmed text behind one leading space gives the text. */
  lemma TrimLeadingSpace(v: string)
    requires IsTrimmed(v)
    ensures Trim(" " + v) == v
  {
    assert (" " + v)[1..] == v;
    assert TrimStart(" " + v) == TrimStart(v);
  }

  /** A string is blank iff trimming it leaves nothing, i.e. it holds only
      whitespace. */
  lemma BlankIffAllSpace(s: string)
    ensures |Trim(s)| == 0 <==> forall i :: 0 <= i < |s| ==> IsSpace(s[i])
  {
    var r := Trim(s);
    if |r| > 0 {
      assert s[|s| - |TrimStart(s)|] == r[0];
    }
  }

  // ---------------------------------------------------------------------
  // includes

  /** `s.includes(sub)`. */
  predicate Includes(s: string, sub: string)
    decreases |s|
  {
    if |sub| > |s| then false
    else if sub <= s then true
    else if |s| == 0 then false
    else Includes(s[1..], sub)
  }

  /** `sub` occurs in `s` starting at index `i`. */
  predicate OccursAt(s: string, sub: string, i: int) {
    0 <= i <= |s| - |sub| && s[i..i + |sub|] == sub
  }

  lemma SliceOfTail<T>(s: seq<T>, a: nat, b: nat)
    requires a <= b < |s|
    ensures s[1..][a..b] == s[a + 1..b + 1]
  {
  }

  lemma {:induction false} IncludesHasOccurrence(s: string, sub: string)
    requires Includes(s, sub)
    ensures exists i :: OccursAt(s, sub, i)
    decreases |s|
  {
    if sub <= s {
      assert OccursAt(s, sub, 0);
    } else {
      IncludesHasOccurrence(s[1..], sub);
      var i :| OccursAt(s[1..], sub, i);
      SliceOfTail(s, i, i + |sub|);
      assert OccursAt(s, sub, i + 1);
    }
  }

  lemma {:induction false} OccurrenceIncludes(s: string, sub: string, i: int)
    requires OccursAt(s, sub, i)
    ensures Includes(s, sub)
    decreases i
  {
    if i == 0 {
      assert sub <= s;
    } else if !(sub <= s) {
      SliceOfTail(s, i - 1, i - 1 + |sub|);
      OccurrenceIncludes(s[1..], sub, i - 1);
    }
  }

  /** `includes` means: `sub` occurs at some position of `s`. */
  lemma IncludesIff(s: string, sub: string)
    ensures Includes(s, sub) <==> exists i :: OccursAt(s, sub, i)
  {
    if Includes(s, sub) {
      IncludesHasOccurrence(s, sub);
    }
    forall i | OccursAt(s, sub, i) ensures Includes(s, sub) {
      OccurrenceIncludes(s, sub, i);
    }
  }

  // ---------------------------------------------------------------------
  // split / join on a single-character separator

  /** `s.split(sep)`: never empty; no part contains the separator. */
  function Split(s: string, sep: char): (parts: seq<string>)
    ensures |parts| >= 1
    ensures forall i :: 0 <= i < |parts| ==> sep !in parts[i]
    decreases |s|
  {
    if |s| == 0 then [""]
    else
      var rest := Split(s[1..], sep);
      if s[0] == sep then [""] + rest
      else [[s[0]] + rest[0]] + rest[1..]
  }

  /** `parts.join(sep)`. */
  function Join(parts: seq<string>, sep: char): string
    decreases |parts|
  {
    if |parts| == 0 then ""
    else if |parts| == 1 then parts[0]
    else parts[0] + [sep] + Join(parts[1..], sep)
  }

  /** Joining the pieces of a split restores the text. */
  lemma {:induction false} JoinSplit(s: string, sep: char)
    ensures Join(Split(s, sep), sep) == s
    decreases |s|
  {
    if |s| > 0 {
      var rest := Split(s[1..], sep);
      JoinSplit(s[1..], sep);
      if s[0] == sep {
        assert s == [sep] + s[1..];
      } else {
        var parts := Split(s, sep);
        assert parts[0] == [s[0]] + rest[0];
        assert parts[1..] == rest[1..];
        if |rest| == 1 {
          assert Join(parts, sep) == [s[0]] + rest[0];
        } else {
          assert Join(rest, sep) == rest[0] + [sep] + Join(rest[1..], sep);
        }
        assert s == [s[0]] + s[1..];
      }
    }
  }

  /** Splitting text that starts with a separator-free piece `a`. */
  lemma {:induction false} SplitPrefix(a: string, t: string, sep: char)
    requires sep !in a
    ensures Split(a + t, sep) == [a + Split(t, sep)[0]] + Split(t, sep)[1..]
    decreases |a|
  {
    if |a| > 0 {
      var st := Split(t, sep);
      SplitPrefix(a[1..], t, sep);
      var rest := Split(a[1..] + t, sep);
      assert rest == [a[1..] + st[0]] + st[1..];
      assert (a + t)[1..] == a[1..] + t;
      assert (a + t)[0] == a[0] && a[0] in a;
      assert Split(a + t, sep) == [[a[0]] + rest[0]] + rest[1..];
      assert rest[1..] == st[1..];
      assert [a[0]] + (a[1..] + st[0]) == a + st[0];
    } else {
      var st := Split(t, sep);
      assert a + t == t;
      assert a + st[0] == st[0];
      assert st == [st[0]] + st[1..];
    }
  }

  /** Text without the separator splits into itself. */
  lemma SplitNoSep(s: string, sep: char)
    requires sep !in s
    ensures Split(s, sep) == [s]
  {
    SplitPrefix(s, "", sep);
    assert s + "" == s;
  }

  /** Splitting at the first separator, at index i: the first piece is the
      text before it and the other pieces join back to the text after it. */
  lemma SplitAtFirst(s: string, sep: char, i: nat)
    requires i < |s| && s[i] == sep && sep !in s[..i]
    ensures |Split(s, sep)| >= 2
    ensures Split(s, sep)[0] == s[..i]
    ensures Join(Split(s, sep)[1..], sep) == s[i + 1..]
  {
    var t := s[i..];
    assert s == s[..i] + t;
    SplitPrefix(s[..i], t, sep);
    assert t[0] == sep && t[1..] == s[i + 1..];
    var st := Split(t, sep);
    assert st == [""] + Split(s[i + 1..], sep);
    assert s[..i] + "" == s[..i];
    JoinSplit(s[i + 1..], sep);
  }

  /** Splitting joined separator-free pieces gives the pieces back. */
  lemma {:induction false} SplitJoin(parts: seq<string>, sep: char)
    requires |parts| >= 1
    requires forall i :: 0 <= i < |parts| ==> sep !in parts[i]
    ensures Split(Join(parts, sep), sep) == parts
    decreases |parts|
  {
    if |parts| == 1 {
      SplitPrefix(parts[0], "", sep);
      assert Split("", sep) == [""];
      assert parts[0] + "" == parts[0];
      assert parts == [parts[0]];
    } else {
      var tail := Join(parts[1..], sep);
      SplitJoin(parts[1..], sep);
      assert Split([sep] + tail, sep) == [""] + Split(tail, sep) by {
        assert ([sep] + tail)[1..] == tail;
      }
      var x := Split([sep] + tail, sep);
      assert x[0] == "" && x[1..] == parts[1..];
      SplitPrefix(parts[0], [sep] + tail, sep);
      assert Join(parts, sep) == parts[0] + ([sep] + tail);
      assert parts[0] + "" == parts[0];
      assert parts == [parts[0]] + parts[1..];
    }
  }

  // ---------------------------------------------------------------------
  // Decimal numbers

  function DigitValue(c: char): nat
    requires IsDigit(c)
  {
    c as int - '0' as int
  }

  function DigitChar(d: nat): (c: char)
    requires d < 10
    ensures IsDigit(c) && DigitValue(c) == d
  {
    ('0' as int + d) as char
  }

  /** The value of a string of decimal digits (most significant first). */
  function DigitsValue(s: string): nat
    requires AllDigits(s)
  {
    if |s| == 0 then 0 else DigitsValue(s[..|s| - 1]) * 10 + DigitValue(s[|s| - 1])
  }

  /** The longest prefix of `s` made of decimal digits. */
  function DigitPrefix(s: string): (r: string)
    ensures r <= s && AllDigits(r)
    ensures |r| == |s| || !IsDigit(s[|r|])
  {
    if |s| > 0 && IsDigit(s[0]) then [s[0]] + DigitPrefix(s[1..]) else []
  }

  /** The digits of `s`, in order, with everything else removed
      (`s.replace(/[^\d]/g, '')`). */
  function OnlyDigits(s: string): (r: string)
    ensures AllDigits(r) && |r| <= |s|
  {
    if |s| == 0 then []
    else if IsDigit(s[0]) then [s[0]] + OnlyDigits(s[1..])
    else OnlyDigits(s[1..])
  }

  /** `parseInt(s)` with the default radix: optional leading whitespace and
      sign, then the longest run of digits; NaN (None) when there is no digit. */
  function ParseInt(s: string): Option<int> {
    var t := TrimStart(s);
    if |t| > 0 && (t[0] == '-' || t[0] == '+') then
      var ds := DigitPrefix(t[1..]);
      if |ds| == 0 then None
      else if t[0] == '-' then Some(-(DigitsValue(ds) as int))
      else Some(DigitsValue(ds))
    else
      var ds := DigitPrefix(t);
      if |ds| == 0 then None else Some(DigitsValue(ds))
  }

  /** `Number(s)` restricted to integer literals: surrounding whitespace is
      ignored, blank text is 0, an optional sign may precede the digits, and
      anything else is NaN (None). */
  function NumberOf(s: string): (r: Option<int>)
    ensures r.Some? && AllDigits(Trim(s)) && |Trim(s)| > 0 ==> r == Some(DigitsValue(Trim(s)))
  {
    var t := Trim(s);
    if |t| == 0 then Some(0)
    else if (t[0] == '-' || t[0] == '+') && |t| > 1 && AllDigits(t[1..]) then
      if t[0] == '-' then Some(-(DigitsValue(t[1..]) as int)) else Some(DigitsValue(t[1..]))
    else if AllDigits(t) then Some(DigitsValue(t))
    else None
  }

  /** Decimal rendering of a natural number, as `n.toString()`. */
  function NatToString(n: nat): (s: string)
    ensures |s| >= 1 && AllDigits(s)
    ensures n < 10 <==> |s| == 1
  {
    if n < 10 then [DigitChar(n)] else NatToString(n / 10) + [DigitChar(n % 10)]
  }

  lemma {:induction false} DigitsValueOfNatToString(n: nat)
    ensures DigitsValue(NatToString(n)) == n
  {
    if n >= 10 {
      var s := NatToString(n);
      DigitsValueOfNatToString(n / 10);
      assert s[..|s| - 1] == NatToString(n / 10);
    }
  }

  lemma DigitPrefixOfDigits(s: string)
    requires AllDigits(s)
    ensures DigitPrefix(s) == s
  {
    if |s| > 0 {
      DigitPrefixOfDigits(s[1..]);
    }
  }

  /** Rendering a count and parsing it back gives the count. */
  /** `parseInt` of a non-empty run of digits is its value; of empty text
      it is NaN. */
  lemma ParseIntOfDigits(s: string)
    requires AllDigits(s)
    ensures |s| > 0 ==> ParseInt(s) == Some(DigitsValue(s))
    ensures |s| == 0 ==> ParseInt(s).None?
  {
    if |s| > 0 {
      assert TrimStart(s) == s by {
        assert IsDigit(s[0]);
        assert !IsSpace(s[0]);
      }
      var t := TrimStart(s);
      assert !(t[0] == '-' || t[0] == '+') by {
        assert IsDigit(t[0]);
      }
      DigitPrefixOfDigits(t);
      assert ParseInt(s) == Some(DigitsValue(DigitPrefix(t)));
    }
  }

  lemma ParseIntOfNatToString(n: nat)
    ensures ParseInt(NatToString(n)) == Some(n)
  {
    var s := NatToString(n);
    assert !IsSpace(s[0]);
    assert TrimStart(s) == s;
    DigitPrefixOfDigits(s);
    DigitsValueOfNatToString(n);
  }

  /** `Number` of a non-empty run of digits is its value. */
  lemma NumberOfDigits(s: string)
    requires |s| > 0 && AllDigits(s)
    ensures NumberOf(s) == Some(DigitsValue(s))
  {
    assert IsDigit(s[0]) && IsDigit(s[|s| - 1]);
    assert IsTrimmed(s);
    TrimOfTrimmed(s);
    assert s[0] != '-' && s[0] != '+';
  }

  /** `Number` of a rendered count is the count. */
  lemma NumberOfNatToString(n: nat)
    ensures NumberOf(NatToString(n)) == Some(n)
  {
    NumberOfDigits(NatToString(n));
    DigitsValueOfNatToString(n);
  }

  /** Different numbers have different decimal renderings. */
  lemma NatToStringInjective(m: nat, n: nat)
    requires NatToString(m) == NatToString(n)
    ensures m == n
  {
    DigitsValueOfNatToString(m);
    DigitsValueOfNatToString(n);
  }

  function Pow10(k: nat): (r: nat)
    ensures r >= 1
  {
    if k == 0 then 1 else 10 * Pow10(k - 1)
  }

  /** `s.slice(-k)` for k > 0: the last k characters, or all of `s`. */
  function LastChars(s: string, k: nat): (r: string)
    ensures |r| == if |s| <= k then |s| else k
    ensures r == s[|s| - |r|..]
  {
    if |s| <= k then s else s[|s| - k..]
  }

  lemma {:induction false} MulAtLeast(d: int, x: int)
    requires d > 0 && x >= 1
    ensures d * x >= d
    decreases x
  {
    if x > 1 {
      MulAtLeast(d, x - 1);
      assert d * x == d * (x - 1) + d;
    }
  }

  /** The remainder is the unique r with n == d*q + r and 0 <= r < d. */
  lemma ModUnique(n: int, d: int, q: int, r: int)
    requires d > 0 && n == d * q + r && 0 <= r < d
    ensures n % d == r
  {
    var q', r' := n / d, n % d;
    assert n == d * q' + r';
    assert d * (q - q') == r' - r by {
      assert d * q - d * q' == d * (q - q');
    }
    if q - q' >= 1 {
      MulAtLeast(d, q - q');
    } else if q' - q >= 1 {
      MulAtLeast(d, q' - q);
    }
  }

  lemma ModStep(n: nat, m: nat)
    requires m >= 1
    ensures (n / 10 % m) * 10 + n % 10 == n % (10 * m)
  {
    var q := n / 10;
    var r := n % 10;
    var a := q / m;
    var b := q % m;
    assert n == 10 * q + r;
    assert q == m * a + b;
    assert 10 * q == (10 * m) * a + 10 * b by {
      assert 10 * (m * a + b) == 10 * (m * a) + 10 * b;
      assert 10 * (m * a) == (10 * m) * a;
    }
    ModUnique(n, 10 * m, a, 10 * b + r);
  }

  lemma SmallDigitsBound(n: nat)
    ensures n < Pow10(|NatToString(n)|)
  {
    if n >= 10 {
      SmallDigitsBound(n / 10);
    }
  }

  lemma LastCharsDigits(s: string, k: nat)
    requires AllDigits(s)
    ensures AllDigits(LastChars(s, k))
  {
    var r := LastChars(s, k);
    forall i | 0 <= i < |r| ensures IsDigit(r[i]) {
      assert r[i] == s[|s| - |r| + i];
    }
  }

  lemma SmallMod(n: nat, d: nat)
    requires n < d
    ensures n % d == n
  {
    ModUnique(n, d, 0, n);
  }

  /** The last k digits of a rendered number denote the number modulo 10^k. */
  lemma {:induction false} LastDigitsValue(n: nat, k: nat)
    decreases n, 1
    ensures AllDigits(LastChars(NatToString(n), k))
    ensures DigitsValue(LastChars(NatToString(n), k)) == n % Pow10(k)
  {
    var s := NatToString(n);
    var r := LastChars(s, k);
    LastCharsDigits(s, k);
    if k == 0 {
      assert r == [];
    } else if |s| <= k {
      assert r == s;
      DigitsValueOfNatToString(n);
      SmallDigitsBound(n);
      Pow10Monotone(|s|, k);
      SmallMod(n, Pow10(k));
    } else {
      LastDigitsStep(n, k);
    }
  }

  lemma {:induction false} LastDigitsStep(n: nat, k: nat)
    requires k >= 1 && |NatToString(n)| > k
    ensures AllDigits(LastChars(NatToString(n), k))
    ensures DigitsValue(LastChars(NatToString(n), k)) == n % Pow10(k)
    decreases n, 0
  {
    var s := NatToString(n);
    var r := LastChars(s, k);
    LastCharsDigits(s, k);
    var s' := NatToString(n / 10);
    var d := DigitChar(n % 10);
    assert s == s' + [d];
    var r' := LastChars(s', k - 1);
    LastCharsDigits(s', k - 1);
    assert r == r' + [d];
    LastDigitsValue(n / 10, k - 1);
    var v' := DigitsValue(r');
    assert v' == n / 10 % Pow10(k - 1);
    assert r[..|r| - 1] == r';
    assert DigitsValue(r) == v' * 10 + n % 10;
    ModStep(n, Pow10(k - 1));
  }

  lemma Pow10Monotone(j: nat, k: nat)
    requires j <= k
    ensures Pow10(j) <= Pow10(k)
  {
    if j < k {
      Pow10Monotone(j, k - 1);
    }
  }

  // ---------------------------------------------------------------------
  // Array.prototype.slice and the remainder operator

  /** Resolution of a slice bound: negative values count from the end, and
      the result is clamped to [0, len]. */
  function SliceBound(i: int, len: nat): (r: nat)
    ensures r <= len
    ensures 0 <= i <= len ==> r == i
    ensures i > len ==> r == len
  {
    if i < 0 then (if len + i < 0 then 0 else len + i)
    else if i > len then len
    else i
  }

  /** `s.slice(start, end)`. */
  function Slice<T>(s: seq<T>, start: int, end: int): (r: seq<T>)
    ensures |r| <= |s|
    ensures 0 <= start && start <= end ==>
      var a := if start <= |s| then start else |s|;
      var b := if end <= |s| then end else |s|;
      r == s[a..b]
    ensures 0 <= end && end <= start ==> r == []
  {
    var a := SliceBound(start, |s|);
    var b := SliceBound(end, |s|);
    if a < b then s[a..b] else []
  }

  /** JavaScript `a % n` for n > 0: the remainder takes the sign of `a`. */
  function JsRem(a: int, n: int): (r: int)
    requires n > 0
    ensures a >= 0 ==> 0 <= r < n && r == a % n
    ensures a < 0 ==> -n < r <= 0
  {
    if a >= 0 then a % n else -((-a) % n)
  }

  // ---------------------------------------------------------------------
  // Sequences

  /** Index of the first element satisfying `p`, as `findIndex` (None for -1). */
  function FindIndex<T>(s: seq<T>, p: T -> bool): (r: Option<nat>)
    ensures r.Some? ==> r.value < |s| && p(s[r.value])
    ensures r.Some? ==> forall j :: 0 <= j < r.value ==> !p(s[j])
    ensures r.None? ==> forall j :: 0 <= j < |s| ==> !p(s[j])
  {
    if |s| == 0 then None
    else if p(s[0]) then Some(0)
    else match FindIndex(s[1..], p)
      case None => None
      case Some(i) => Some(i + 1)
  }

  /** `filter`: the subsequence of elements satisfying `p`. */
  function Filter<T>(s: seq<T>, p: T -> bool): (r: seq<T>)
    ensures |r| <= |s|
    ensures forall i :: 0 <= i < |r| ==> p(r[i]) && r[i] in s
    ensures forall i :: 0 <= i < |s| && p(s[i]) ==> s[i] in r
  {
    if |s| == 0 then []
    else if p(s[0]) then [s[0]] + Filter(s[1..], p)
    else Filter(s[1..], p)
  }

  lemma FilterAll<T>(s: seq<T>, p: T -> bool)
    requires forall i :: 0 <= i < |s| ==> p(s[i])
    ensures Filter(s, p) == s
  {
  }

  /** Filtering keeps relative order: the result is a subsequence. */
  lemma {:induction false} FilterConcat<T>(a: seq<T>, b: seq<T>, p: T -> bool)
    ensures Filter(a + b, p) == Filter(a, p) + Filter(b, p)
    decreases |a|
  {
    if |a| > 0 {
      FilterConcat(a[1..], b, p);
      assert (a + b)[1..] == a[1..] + b;
    } else {
      assert a + b == b;
    }
  }

  /** Filters that agree on the elements give the same result. */
  lemma {:induction false} FilterExt<T>(s: seq<T>, p: T -> bool, q: T -> bool)
    requires forall i :: 0 <= i < |s| ==> p(s[i]) == q(s[i])
    ensures Filter(s, p) == Filter(s, q)
  {
    if |s| > 0 {
      FilterExt(s[1..], p, q);
    }
  }

  /** Two filters in a row are one filter on the conjunction. */
  lemma {:induction false} FilterFilter<T>(s: seq<T>, p: T -> bool, q: T -> bool, pq: T -> bool)
    requires forall i :: 0 <= i < |s| ==> pq(s[i]) == (p(s[i]) && q(s[i]))
    ensures Filter(Filter(s, p), q) == Filter(s, pq)
  {
    if |s| > 0 {
      FilterFilter(s[1..], p, q, pq);
    }
  }

  /** Filtering keeps each satisfying element as often as it occurs and
      drops every other one. */
  lemma {:induction false} FilterMultiset<T>(s: seq<T>, p: T -> bool)
    ensures forall x :: multiset(Filter(s, p))[x] == if p(x) then multiset(s)[x] else 0
  {
    if |s| > 0 {
      FilterMultiset(s[1..], p);
      assert s == [s[0]] + s[1..];
      assert multiset(s) == multiset{s[0]} + multiset(s[1..]);
      if p(s[0]) {
        assert multiset(Filter(s, p)) == multiset{s[0]} + multiset(Filter(s[1..], p));
      }
    }
  }

  /** A filter sees only the elements and their multiplicities: permuted
      inputs give permuted results. */
  lemma FilterPermutation<T>(s: seq<T>, t: seq<T>, p: T -> bool)
    requires multiset(s) == multiset(t)
    ensures multiset(Filter(s, p)) == multiset(Filter(t, p))
  {
    FilterMultiset(s, p);
    FilterMultiset(t, p);
    assert forall x :: multiset(Filter(s, p))[x] == multiset(Filter(t, p))[x];
  }

  /** Filtering keeps relative order, so a sequence ordered by a key stays
      ordered by it. */
  lemma {:induction false} FilterKeepsOrder<T>(s: seq<T>, p: T -> bool, key: T -> int)
    requires forall i, j :: 0 <= i < j < |s| ==> key(s[i]) <= key(s[j])
    ensures forall i, j :: 0 <= i < j < |Filter(s, p)| ==> key(Filter(s, p)[i]) <= key(Filter(s, p)[j])
  {
    if |s| > 0 {
      var tail := s[1..];
      assert forall i, j :: 0 <= i < j < |tail| ==> key(tail[i]) <= key(tail[j]) by {
        forall i, j | 0 <= i < j < |tail| ensures key(tail[i]) <= key(tail[j]) {
          assert tail[i] == s[i + 1] && tail[j] == s[j + 1];
        }
      }
      FilterKeepsOrder(tail, p, key);
      var rest := Filter(tail, p);
      if !p(s[0]) {
        assert Filter(s, p) == rest;
      } else {
        HeadBelowFilter(s, p, key);
        ConsKeepsOrder(s[0], rest, key);
        assert Filter(s, p) == [s[0]] + rest;
      }
    }
  }

  /** The head of an ordered sequence is below everything the filter keeps
      of its tail. */
  lemma HeadBelowFilter<T>(s: seq<T>, p: T -> bool, key: T -> int)
    requires |s| > 0
    requires forall i, j :: 0 <= i < j < |s| ==> key(s[i]) <= key(s[j])
    ensures forall k :: 0 <= k < |Filter(s[1..], p)| ==> key(s[0]) <= key(Filter(s[1..], p)[k])
  {
    var tail := s[1..];
    var rest := Filter(tail, p);
    forall k | 0 <= k < |rest| ensures key(s[0]) <= key(rest[k]) {
      var m :| 0 <= m < |tail| && tail[m] == rest[k];
      assert tail[m] == s[m + 1];
    }
  }

  /** An element below an ordered sequence can be put in front of it. */
  lemma ConsKeepsOrder<T>(x: T, rest: seq<T>, key: T -> int)
    requires forall i, j :: 0 <= i < j < |rest| ==> key(rest[i]) <= key(rest[j])
    requires forall k :: 0 <= k < |rest| ==> key(x) <= key(rest[k])
    ensures forall i, j :: 0 <= i < j < |[x] + rest| ==> key(([x] + rest)[i]) <= key(([x] + rest)[j])
  {
    var r := [x] + rest;
    forall i, j | 0 <= i < j < |r| ensures key(r[i]) <= key(r[j]) {
      assert r[j] == rest[j - 1];
      if i > 0 {
        assert r[i] == rest[i - 1];
      }
    }
  }

  /** The elements a filter drops are the ones its complement counts. */
  lemma {:induction false} FilterComplement<T>(s: seq<T>, p: T -> bool, q: T -> bool)
    requires forall i :: 0 <= i < |s| ==> q(s[i]) == !p(s[i])
    ensures |Filter(s, p)| == |s| - Count(s, q)
  {
    if |s| > 0 {
      FilterComplement(s[1..], p, q);
    }
  }

  /** Every string includes the empty string. */
  lemma IncludesEmpty(s: string)
    ensures Includes(s, "")
  {
  }

  /** Number of elements satisfying `p`. */
  function Count<T>(s: seq<T>, p: T -> bool): (n: nat)
    ensures n <= |s|
    ensures n == |Filter(s, p)|
  {
    if |s| == 0 then 0 else (if p(s[0]) then 1 else 0) + Count(s[1..], p)
  }
}
