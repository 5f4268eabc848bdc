/** The `YYYY-MM-DD` date strings the birthday helpers read: JavaScript's
    `split("-")`, its inverse `join("-")`, `Number` on a run of decimal digits,
    and the month and day the helpers keep from the second and third pieces. */
module DateStrings {
  import opened Types
  import opened Calendar

  /** JavaScript's `s.split(sep)` for a one-character separator: the pieces
      between separators, from left to right. */
  function Split(s: string, sep: char): (parts: seq<string>)
    ensures |parts| >= 1
    decreases |s|
  {
    if s == [] then [""]
    else
      var rest := Split(s[1..], sep);
      if s[0] == sep then [""] + rest
      else [[s[0]] + rest[0]] + rest[1..]
  }

  /** Splitting gives one more piece than there are separators. */
  lemma {:induction false} SplitCount(s: string, sep: char)
    ensures |Split(s, sep)| == multiset(s)[sep] + 1
    decreases |s|
  {
    if s != [] {
      assert s == [s[0]] + s[1..];
      assert multiset(s)[sep] == multiset(s[1..])[sep] + (if s[0] == sep then 1 else 0);
      SplitCount(s[1..], sep);
    }
  }

  /** No piece of a split holds the separator. */
  lemma {:induction false} SplitPiecesHaveNoSep(s: string, sep: char)
    ensures forall i :: 0 <= i < |Split(s, sep)| ==> sep !in Split(s, sep)[i]
    decreases |s|
  {
    if s != [] {
      SplitPiecesHaveNoSep(s[1..], sep);
      var rest := Split(s[1..], sep);
      var parts := Split(s, sep);
      if s[0] != sep {
        assert parts[0] == [s[0]] + rest[0];
        assert forall i :: 1 <= i < |parts| ==> parts[i] == rest[i];
      }
    }
  }

  /** Joining the pieces of a split gives the string back. */
  lemma {:induction false} JoinSplit(s: string, sep: char)
    ensures Join(Split(s, sep), sep) == s
    decreases |s|
  {
    if s != [] {
      assert s == [s[0]] + s[1..];
      JoinSplit(s[1..], sep);
      var rest := Split(s[1..], sep);
      var parts := Split(s, sep);
      if s[0] == sep {
        assert parts[1..] == rest;
      } else {
        assert parts[1..] == rest[1..];
        assert |rest| > 1 ==> Join(rest, sep) == rest[0] + [sep] + Join(rest[1..], sep);
      }
    }
  }

  /** JavaScript's `parts.join(sep)`. */
  function Join(parts: seq<string>, sep: char): string
    requires |parts| >= 1
  {
    if |parts| == 1 then parts[0] else parts[0] + [sep] + Join(parts[1..], sep)
  }

  /** Splitting a string that begins with a separator-free piece and a
      separator yields that piece followed by the split of the rest. */
  lemma {:induction false} SplitAfterPiece(a: string, sep: char, rest: string)
    requires sep !in a
    ensures Split(a + [sep] + rest, sep) == [a] + Split(rest, sep)
    decreases |a|
  {
    var s := a + [sep] + rest;
    if a == [] {
      assert s[1..] == rest;
    } else {
      assert s[0] == a[0] && s[0] != sep;
      assert s[1..] == a[1..] + [sep] + rest;
      SplitAfterPiece(a[1..], sep, rest);
      var r := Split(s[1..], sep);
      assert r[0] == a[1..] && r[1..] == Split(rest, sep);
      assert [a[0]] + a[1..] == a;
      assert Split(s, sep) == [[s[0]] + r[0]] + r[1..];
    }
  }

  /** Splitting undoes joining whenever no piece holds the separator. */
  lemma {:induction false} SplitJoin(parts: seq<string>, sep: char)
    requires |parts| >= 1
    requires forall i :: 0 <= i < |parts| ==> sep !in parts[i]
    ensures Split(Join(parts, sep), sep) == parts
    decreases |parts|
  {
    if |parts| == 1 {
      SplitCount(parts[0], sep);
      JoinSplit(parts[0], sep);
      assert multiset(parts[0])[sep] == 0;
    } else {
      SplitAfterPiece(parts[0], sep, Join(parts[1..], sep));
      SplitJoin(parts[1..], sep);
    }
  }

  predicate IsDigit(c: char) {
    '0' <= c <= '9'
  }

  predicate AllDigits(s: string) {
    forall i :: 0 <= i < |s| ==> IsDigit(s[i])
  }

  /** The value of a run of decimal digits, most significant first. */
  function DigitsValue(s: string): nat
    requires AllDigits(s)
  {
    if s == [] then 0
    else 10 * DigitsValue(s[..|s| - 1]) + (s[|s| - 1] as int - '0' as int)
  }

  /** `Number(s)` on the pieces a date string splits into: a non-empty run of
      decimal digits reads as its value; anything else is reported as None. */
  function ParseNumber(s: string): Option<nat> {
    if s != [] && AllDigits(s) then Some(DigitsValue(s)) else None
  }

  /** The month and day of a date string, taken as numbers from its second
      and third `-`-separated pieces; the first piece, the year, is ignored. */
  function ParseMonthDay(s: string): Option<(nat, nat)> {
    var parts := Split(s, '-');
    if |parts| < 3 then None
    else
      match (ParseNumber(parts[1]), ParseNumber(parts[2]))
      case (Some(month), Some(day)) => Some((month, day))
      case _ => None
  }

  function DigitChar(n: int): char
    requires 0 <= n < 10
  {
    ('0' as int + n) as char
  }

  /** `n` in two decimal digits, zero-padded. */
  function TwoDigits(n: int): (s: string)
    requires 0 <= n < 100
    ensures |s| == 2 && AllDigits(s)
  {
    [DigitChar(n / 10), DigitChar(n % 10)]
  }

  /** The ISO `YYYY-MM-DD` form in which the API hands dates of birth out. */
  function FormatDate(d: Date): (s: string)
    requires 0 <= d.year < 10000 && 0 <= d.month < 100 && 0 <= d.day < 100
    ensures |s| == 10 && s[4] == '-' && s[7] == '-'
  {
    TwoDigits(d.year / 100) + TwoDigits(d.year % 100) + "-" + TwoDigits(d.month) + "-" + TwoDigits(d.day)
  }

  /** Two zero-padded digits read back as the number they were made from. */
  lemma TwoDigitsValue(n: int)
    requires 0 <= n < 100
    ensures ParseNumber(TwoDigits(n)) == Some(n)
  {
    var s := TwoDigits(n);
    assert s[..1][..0] == [];
    assert DigitsValue(s[..1]) == n / 10;
  }

  /** Three pieces joined by a separator. */
  lemma JoinThree(a: string, b: string, c: string, sep: char)
    ensures Join([a, b, c], sep) == a + [sep] + b + [sep] + c
  {
    assert [a, b, c][1..] == [b, c];
    assert [b, c][1..] == [c];
    assert Join([b, c], sep) == b + [sep] + c;
    assert Join([a, b, c], sep) == a + [sep] + (b + [sep] + c);
  }

  /** A run of digits holds no `-`. */
  lemma DigitsHaveNoDash(s: string)
    requires AllDigits(s)
    ensures '-' !in s
  {
  }

  /** Reading an ISO date string gives back its month and day, whatever its year. */
  lemma ParseFormatDate(d: Date)
    requires 0 <= d.year < 10000 && 0 <= d.month < 100 && 0 <= d.day < 100
    ensures ParseMonthDay(FormatDate(d)) == Some((d.month, d.day))
  {
    var y := TwoDigits(d.year / 100) + TwoDigits(d.year % 100);
    var m, dd := TwoDigits(d.month), TwoDigits(d.day);
    assert AllDigits(y);
    DigitsHaveNoDash(y);
    DigitsHaveNoDash(m);
    DigitsHaveNoDash(dd);
    var parts := [y, m, dd];
    JoinThree(y, m, dd, '-');
    assert Join(parts, '-') == FormatDate(d);
    SplitJoin(parts, '-');
    assert Split(FormatDate(d), '-') == parts;
    TwoDigitsValue(d.month);
    TwoDigitsValue(d.day);
  }
}
