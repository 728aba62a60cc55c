/** String helpers with the JavaScript and SQLite meanings the controller relies on. */
module Text {
  import opened Wrappers

  // ---------------------------------------------------------------------------
  // Case folding: SQLite's LOWER() and the query's toLowerCase(), both taken on
  // ASCII letters only.
  // ---------------------------------------------------------------------------

  function LowerChar(c: char): char {
    if 'A' <= c <= 'Z' then (c as int + 32) as char else c
  }

  function Lower(s: string): (r: string)
    ensures |r| == |s|
    ensures forall i :: 0 <= i < |r| ==> !('A' <= r[i] <= 'Z')
    ensures forall i :: 0 <= i < |s| && !('A' <= s[i] <= 'Z') ==> r[i] == s[i]
    ensures forall i :: 0 <= i < |s| && 'A' <= s[i] <= 'Z' ==> 'a' <= r[i] <= 'z' && r[i] as int == s[i] as int + 32
  {
    seq(|s|, i requires 0 <= i < |s| => LowerChar(s[i]))
  }

  /** Two names collide when they are equal up to case: `LOWER(name) = LOWER(?)`. */
  predicate SameName(a: string, b: string) {
    Lower(a) == Lower(b)
  }

  // ---------------------------------------------------------------------------
  // White space as String.prototype.trim and parseInt see it: the WhiteSpace and
  // LineTerminator code points of ECMAScript.
  // ---------------------------------------------------------------------------

  predicate IsSpace(c: char) {
    || c == '\t' || c == '\n' || c == '\U{B}' || c == '\U{C}' || c == '\r' || c == ' '
    || c == '\U{A0}' || c == '\U{1680}' || ('\U{2000}' <= c <= '\U{200A}')
    || c == '\U{2028}' || c == '\U{2029}' || c == '\U{202F}' || c == '\U{205F}'
    || c == '\U{3000}' || c == '\U{FEFF}'
  }

  /** The number of white-space characters that open `s`. */
  function LeadingSpace(s: string): (n: nat)
    ensures n <= |s|
    ensures forall k :: 0 <= k < n ==> IsSpace(s[k])
    ensures n < |s| ==> !IsSpace(s[n])
  {
    if s != [] && IsSpace(s[0]) then 1 + LeadingSpace(s[1..]) else 0
  }

  /** The length of `s` once the white space that closes it is cut off. */
  function UntilTrailingSpace(s: string): (n: nat)
    ensures n <= |s|
    ensures forall k :: n <= k < |s| ==> IsSpace(s[k])
    ensures 0 < n ==> !IsSpace(s[n - 1])
  {
    if s != [] && IsSpace(s[|s| - 1]) then UntilTrailingSpace(s[..|s| - 1]) else |s|
  }

  /** `s.trim()`: the slice of `s` left after white space is cut from both ends. */
  function Trim(s: string): (r: string)
    ensures r == [] || (!IsSpace(r[0]) && !IsSpace(r[|r| - 1]))
    ensures exists i, j :: 0 <= i <= j <= |s| && r == s[i..j]
                        && (forall k :: 0 <= k < i ==> IsSpace(s[k]))
                        && (forall k :: j <= k < |s| ==> IsSpace(s[k]))
  {
    var i := LeadingSpace(s);
    var t := s[i..];
    var j := i + UntilTrailingSpace(t);
    assert t[..j - i] == s[i..j];
    s[i..j]
  }

  /** Trimming a string that neither opens nor closes with white space changes nothing. */
  lemma {:induction false} TrimTrimmed(s: string)
    requires s == [] || (!IsSpace(s[0]) && !IsSpace(s[|s| - 1]))
    ensures Trim(s) == s
  {
    if s != [] {
      assert LeadingSpace(s) == 0;
      assert s[0..] == s;
      assert UntilTrailingSpace(s) == |s|;
    }
  }

  /** Trimming is idempotent. */
  lemma TrimIdempotent(s: string)
    ensures Trim(Trim(s)) == Trim(s)
  {
    TrimTrimmed(Trim(s));
  }

  // ---------------------------------------------------------------------------
  // Substring search, the meaning of `LIKE '%q%'` for a query without wildcards.
  // ---------------------------------------------------------------------------

  predicate StartsWith(s: string, prefix: string) {
    |prefix| <= |s| && s[..|prefix|] == prefix
  }

  /** `needle` occurs in `s` starting at position `i`. */
  predicate OccursAt(s: string, needle: string, i: int) {
    0 <= i && i + |needle| <= |s| && s[i..i + |needle|] == needle
  }

  /** A slice of the tail is the slice one position further on. */
  lemma TailSlice(s: string, a: nat, b: nat)
    requires a <= b && b + 1 <= |s|
    ensures s[1..][a..b] == s[a + 1..b + 1]
  {
    forall k | 0 <= k < b - a ensures s[1..][a..b][k] == s[a + 1..b + 1][k] {
      assert s[1..][a..b][k] == s[a + 1 + k];
    }
  }

  lemma OccursInTail(s: string, needle: string)
    requires s != []
    ensures forall i :: OccursAt(s[1..], needle, i) ==> OccursAt(s, needle, i + 1)
    ensures forall i :: 1 <= i && OccursAt(s, needle, i) ==> OccursAt(s[1..], needle, i - 1)
  {
    forall i | OccursAt(s[1..], needle, i) ensures OccursAt(s, needle, i + 1) {
      TailSlice(s, i, i + |needle|);
    }
    forall i | 1 <= i && OccursAt(s, needle, i) ensures OccursAt(s[1..], needle, i - 1) {
      TailSlice(s, i - 1, i - 1 + |needle|);
    }
  }

  /** `needle` occurs somewhere in `s`. */
  function Contains(s: string, needle: string): (r: bool)
    ensures r <==> exists i :: OccursAt(s, needle, i)
    decreases |s|
  {
    if StartsWith(s, needle) then
      assert OccursAt(s, needle, 0);
      true
    else if s == [] then
      false
    else
      var r := Contains(s[1..], needle);
      assert !OccursAt(s, needle, 0) by {
        if |needle| <= |s| {
          assert s[0..|needle|] == s[..|needle|];
        }
      }
      OccursInTail(s, needle);
      r
  }

  // ---------------------------------------------------------------------------
  // Array.prototype.join and String.prototype.split with a one-character separator.
  // ---------------------------------------------------------------------------

  /** `parts.join(sep)`: the parts with `sep` between neighbours; `[]` joins to "". */
  function Join(parts: seq<string>, sep: char): string
    decreases |parts|
  {
    if parts == [] then ""
    else if |parts| == 1 then parts[0]
    else parts[0] + [sep] + Join(parts[1..], sep)
  }

  /** `s.split(sep)`: the pieces between occurrences of `sep`; always at least one. */
  function Split(s: string, sep: char): (r: seq<string>)
    ensures |r| >= 1
    decreases |s|
  {
    if s == [] then [""]
    else
      var rest := Split(s[1..], sep);
      if s[0] == sep then [""] + rest else [[s[0]] + rest[0]] + rest[1..]
  }

  /** The number of times `c` occurs in `s`. */
  function Count(s: string, c: char): nat
    decreases |s|
  {
    if s == [] then 0 else (if s[0] == c then 1 else 0) + Count(s[1..], c)
  }

  lemma {:induction false} CountZero(s: string, c: char)
    ensures Count(s, c) == 0 <==> c !in s
  {
    if s != [] {
      CountZero(s[1..], c);
      assert s == [s[0]] + s[1..];
    }
  }

  lemma {:induction false} CountAppend(a: string, b: string, c: char)
    ensures Count(a + b, c) == Count(a, c) + Count(b, c)
  {
    if a == [] {
      assert a + b == b;
    } else {
      assert (a + b)[1..] == a[1..] + b;
      CountAppend(a[1..], b, c);
    }
  }

  /** Splitting yields one piece more than there are separators. */
  lemma {:induction false} SplitCount(s: string, sep: char)
    ensures |Split(s, sep)| == 1 + Count(s, sep)
    decreases |s|
  {
    if s != [] {
      SplitCount(s[1..], sep);
    }
  }

  /** The separators of a join: one between each pair of parts, plus those inside the parts. */
  function CountAll(parts: seq<string>, c: char): nat
    decreases |parts|
  {
    if parts == [] then 0 else Count(parts[0], c) + CountAll(parts[1..], c)
  }

  lemma {:induction false} CountJoin(parts: seq<string>, sep: char)
    requires parts != []
    ensures Count(Join(parts, sep), sep) == |parts| - 1 + CountAll(parts, sep)
    decreases |parts|
  {
    if |parts| > 1 {
      CountJoin(parts[1..], sep);
      CountAppend(parts[0] + [sep], Join(parts[1..], sep), sep);
      CountAppend(parts[0], [sep], sep);
      assert Count([sep], sep) == 1 by {
        assert [sep][1..] == [];
      }
    } else {
      assert CountAll(parts[1..], sep) == 0;
    }
  }

  lemma {:induction false} CountAllZero(parts: seq<string>, c: char)
    ensures CountAll(parts, c) == 0 <==> forall k :: 0 <= k < |parts| ==> c !in parts[k]
    decreases |parts|
  {
    if parts != [] {
      CountAllZero(parts[1..], c);
      CountZero(parts[0], c);
      assert forall k :: 1 <= k < |parts| ==> parts[k] == parts[1..][k - 1];
    }
  }

  /** A split after a separator-free prefix extends the first piece by that prefix. */
  lemma {:induction false} SplitPrefix(a: string, b: string, sep: char)
    requires sep !in a
    ensures Split(a + b, sep) == [a + Split(b, sep)[0]] + Split(b, sep)[1..]
    decreases |a|
  {
    if a == [] {
      assert a + b == b;
      var pieces := Split(b, sep);
      assert a + pieces[0] == pieces[0];
      assert pieces == [pieces[0]] + pieces[1..];
    } else {
      assert (a + b)[0] == a[0] && (a + b)[1..] == a[1..] + b;
      SplitPrefix(a[1..], b, sep);
      var first := Split(b, sep)[0];
      assert [a[0]] + (a[1..] + first) == a + first;
    }
  }

  /** Splitting undoes joining when no part contains the separator. */
  lemma {:induction false} SplitJoin(parts: seq<string>, sep: char)
    requires parts != []
    requires forall k :: 0 <= k < |parts| ==> sep !in parts[k]
    ensures Split(Join(parts, sep), sep) == parts
    decreases |parts|
  {
    if |parts| == 1 {
      SplitPrefix(parts[0], "", sep);
      assert parts[0] + "" == parts[0];
    } else {
      var rest := Join(parts[1..], sep);
      SplitJoin(parts[1..], sep);
      assert parts[0] + [sep] + rest == parts[0] + ([sep] + rest);
      SplitPrefix(parts[0], [sep] + rest, sep);
      assert ([sep] + rest)[1..] == rest;
      assert parts[0] + "" == parts[0];
      assert parts == [parts[0]] + parts[1..];
    }
  }

  /** Joining two non-empty lists of parts is joining each, with a separator between. */
  lemma {:induction false} JoinAppend(a: seq<string>, b: seq<string>, sep: char)
    requires a != [] && b != []
    ensures Join(a + b, sep) == Join(a, sep) + [sep] + Join(b, sep)
    decreases |a|
  {
    assert (a + b)[0] == a[0] && (a + b)[1..] == a[1..] + b;
    if |a| > 1 {
      JoinAppend(a[1..], b, sep);
    }
  }

  /** A join opens with its first part, followed by the separator when more parts follow. */
  lemma JoinOpens(parts: seq<string>, sep: char)
    requires parts != []
    ensures var r := Join(parts, sep);
            && |r| >= |parts[0]| && r[..|parts[0]|] == parts[0]
            && (|parts| == 1 ==> r == parts[0])
            && (|parts| > 1 ==> |r| > |parts[0]| && r[|parts[0]|] == sep)
  {
  }

  /** The first piece of a split join is the first part, whatever the later parts hold. */
  lemma FirstPieceOfJoin(parts: seq<string>, sep: char)
    requires parts != [] && sep !in parts[0]
    ensures Split(Join(parts, sep), sep)[0] == parts[0]
  {
    if |parts| == 1 {
      SplitPrefix(parts[0], "", sep);
      assert parts[0] + "" == parts[0];
    } else {
      var rest := Join(parts[1..], sep);
      assert parts[0] + [sep] + rest == parts[0] + ([sep] + rest);
      SplitPrefix(parts[0], [sep] + rest, sep);
    }
  }

  // ---------------------------------------------------------------------------
  // Numbers: Number.prototype.toString for integers, and parseInt(s, 10).
  // ---------------------------------------------------------------------------

  predicate IsDigit(c: char) {
    '0' <= c <= '9'
  }

  function DigitChar(d: nat): char
    requires d < 10
  {
    ('0' as int + d) as char
  }

  /** The decimal digits of `n`, most significant first, without leading zeros. */
  function NatToString(n: nat): (r: string)
    ensures r != [] && IsDigit(r[0])
    ensures forall k :: 0 <= k < |r| ==> IsDigit(r[k])
    ensures r[0] == '0' <==> n == 0
    ensures n == 0 ==> r == "0"
  {
    if n < 10 then [DigitChar(n)] else NatToString(n / 10) + [DigitChar(n % 10)]
  }

  /** `String(n)` for an integer `n`: a minus sign before the digits of a negative number. */
  function IntToString(n: int): (r: string)
    ensures r != [] && (r[0] == '-' || IsDigit(r[0]))
    ensures forall k :: 0 <= k < |r| ==> IsDigit(r[k]) || (k == 0 && r[k] == '-')
    ensures r[0] == '-' <==> n < 0
    ensures var digits := if n < 0 then r[1..] else r;
            digits != [] && (digits[0] == '0' ==> digits == "0")
  {
    if n < 0 then "-" + NatToString(-n) else NatToString(n)
  }

  function DigitValue(c: char): nat
    requires IsDigit(c)
  {
    c as int - '0' as int
  }

  /** The value of a string of decimal digits. */
  function DigitsValue(s: string): nat
    requires forall k :: 0 <= k < |s| ==> IsDigit(s[k])
    decreases |s|
  {
    if s == [] then 0 else 10 * DigitsValue(s[..|s| - 1]) + DigitValue(s[|s| - 1])
  }

  /** The longest run of digits that opens `s`. */
  function DigitPrefix(s: string): (r: string)
    ensures |r| <= |s| && r == s[..|r|]
    ensures forall k :: 0 <= k < |r| ==> IsDigit(r[k])
    ensures |r| < |s| ==> !IsDigit(s[|r|])
    decreases |s|
  {
    if s != [] && IsDigit(s[0]) then [s[0]] + DigitPrefix(s[1..]) else []
  }

  /** `parseInt(s, 10)`: leading white space skipped, an optional sign, then the longest
      run of digits; None stands for NaN, the result when there is no digit. */
  function ParseInt(s: string): (r: Option<int>)
    ensures r.None? <==> DigitPrefix(Unsigned(s[LeadingSpace(s)..])) == []
  {
    var t := s[LeadingSpace(s)..];
    var digits := DigitPrefix(Unsigned(t));
    var magnitude: int := if digits == [] then 0 else DigitsValue(digits);
    if digits == [] then None
    else if t[0] == '-' then Some(-magnitude)
    else Some(magnitude)
  }

  /** `parseInt` reads the number that opens the text after white space and an
      optional sign, and ignores whatever follows its last digit. */
  lemma ParseIntReads(w: string, sign: string, digits: string, rest: string)
    requires forall k :: 0 <= k < |w| ==> IsSpace(w[k])
    requires sign == "" || sign == "+" || sign == "-"
    requires digits != [] && forall k :: 0 <= k < |digits| ==> IsDigit(digits[k])
    requires rest == [] || !IsDigit(rest[0])
    ensures ParseInt(w + sign + digits + rest)
            == Some(if sign == "-" then -(DigitsValue(digits) as int) else DigitsValue(digits) as int)
  {
    var t := sign + digits + rest;
    Regroup(w, sign, digits, rest);
    SignedDigits(sign, digits, rest);
    LeadingSpaceOf(w, t);
    DropPrefix(w, t);
    DigitPrefixOf(digits, rest);
    ParseIntFrom(w + t, t, digits);
  }

  /** A sign, or failing that a digit, opens the number's text. */
  lemma SignedDigits(sign: string, digits: string, rest: string)
    requires sign == "" || sign == "+" || sign == "-"
    requires digits != [] && IsDigit(digits[0])
    ensures var t := sign + digits + rest;
            && !IsSpace(t[0]) && Unsigned(t) == digits + rest && (t[0] == '-' <==> sign == "-")
  {
    var t := sign + digits + rest;
    if sign == "" {
      assert t == digits + rest;
      assert t[0] == digits[0];
    } else {
      assert t[0] == sign[0];
      assert t[1..] == digits + rest;
    }
  }

  lemma DropPrefix(a: string, b: string)
    ensures (a + b)[|a|..] == b
  {
  }

  lemma ParseIntFrom(s: string, t: string, digits: string)
    requires t == s[LeadingSpace(s)..] && DigitPrefix(Unsigned(t)) == digits && digits != []
    ensures ParseInt(s) == Some(if t[0] == '-' then -(DigitsValue(digits) as int) else DigitsValue(digits) as int)
  {
  }

  lemma {:induction false} LeadingSpaceOf(w: string, t: string)
    requires forall k :: 0 <= k < |w| ==> IsSpace(w[k])
    requires t == [] || !IsSpace(t[0])
    ensures LeadingSpace(w + t) == |w|
    decreases |w|
  {
    if w == [] {
      assert w + t == t;
    } else {
      assert (w + t)[1..] == w[1..] + t;
      LeadingSpaceOf(w[1..], t);
    }
  }

  lemma {:induction false} DigitPrefixOf(digits: string, rest: string)
    requires forall k :: 0 <= k < |digits| ==> IsDigit(digits[k])
    requires rest == [] || !IsDigit(rest[0])
    ensures DigitPrefix(digits + rest) == digits
    decreases |digits|
  {
    if digits == [] {
      assert digits + rest == rest;
    } else {
      assert (digits + rest)[1..] == digits[1..] + rest;
      DigitPrefixOf(digits[1..], rest);
    }
  }

  lemma Regroup(a: string, b: string, c: string, d: string)
    ensures a + b + c + d == a + (b + c + d)
  {
  }

  /** `t` without the sign that may open it. */
  function Unsigned(t: string): string {
    if t != [] && (t[0] == '-' || t[0] == '+') then t[1..] else t
  }

  lemma {:induction false} DigitsValueOfNat(n: nat)
    ensures DigitsValue(NatToString(n)) == n
  {
    if n >= 10 {
      DigitsValueOfNat(n / 10);
      var s := NatToString(n);
      assert s[..|s| - 1] == NatToString(n / 10);
    }
  }

  lemma {:induction false} DigitPrefixAll(s: string)
    requires forall k :: 0 <= k < |s| ==> IsDigit(s[k])
    ensures DigitPrefix(s) == s
    decreases |s|
  {
    if s != [] {
      DigitPrefixAll(s[1..]);
    }
  }

  /** parseInt reads back what toString writes, for every integer. */
  lemma ParseIntOfIntToString(n: int)
    ensures ParseInt(IntToString(n)) == Some(n)
  {
    var s := IntToString(n);
    assert LeadingSpace(s) == 0;
    assert s[0..] == s;
    var digits := NatToString(if n < 0 then -n else n);
    assert Unsigned(s) == digits;
    DigitPrefixAll(digits);
    DigitsValueOfNat(if n < 0 then -n else n);
  }
}
