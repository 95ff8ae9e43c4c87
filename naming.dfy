/** Segment file names: `segment-<id zero-padded to 6 digits>.db`
    (main.py:14), the id parsed back from a name (main.py:50, main.py:85),
    and how sorting the names lexically (main.py:54, main.py:98) compares
    with sorting the ids. */
module Naming {
  import opened Codec

  function Digit(d: nat): char
    requires d < 10
  {
    ('0' as int + d) as char
  }

  predicate IsDigit(c: char)
  {
    '0' <= c <= '9'
  }

  /** The decimal digits of n, left-padded with zeros to at least width
      characters: Python's format `{n:0{width}d}`, as in `{n:06d}`. */
  function Decimal(n: nat, width: nat): string
    decreases n, width
  {
    if n < 10 && width <= 1 then [Digit(n)]
    else Decimal(n / 10, if width == 0 then 0 else width - 1) + [Digit(n % 10)]
  }

  /** The name of the file that holds segment id. */
  function FileName(id: nat): string
  {
    "segment-" + Decimal(id, 6) + ".db"
  }

  /** Python's str.split with a one-character separator. */
  function Split(s: string, sep: char): (parts: seq<string>)
    ensures |parts| >= 1
  {
    if s == [] then [[]]
    else
      var rest := Split(s[1..], sep);
      if s[0] == sep then [[]] + rest
      else [[s[0]] + rest[0]] + rest[1..]
  }

  /** The value of a string of decimal digits; None when a character is not a digit. */
  function DigitsValue(s: string): Option<nat>
    decreases |s|
  {
    if s == [] then Some(0)
    else if !IsDigit(s[|s| - 1]) then None
    else
      var high := DigitsValue(s[..|s| - 1]);
      if high.None? then None
      else Some(high.value * 10 + (s[|s| - 1] as int - '0' as int))
  }

  /** Python's int() on a string of digits; the empty string is an error. */
  function ParseDecimal(s: string): Option<nat>
  {
    if s == [] then None else DigitsValue(s)
  }

  /** The id that main.py reads out of a file name: the text between the first
      '-' and the next '-', cut at its first '.', read as a decimal number. */
  function ParseId(name: string): Option<nat>
  {
    var parts := Split(name, '-');
    if |parts| < 2 then None
    else ParseDecimal(Split(parts[1], '.')[0])
  }

  /** Python's comparison of strings: lexicographic on characters. */
  predicate LexLess(a: string, b: string)
    decreases |a|
  {
    if a == [] then b != []
    else if b == [] then false
    else if a[0] != b[0] then a[0] < b[0]
    else LexLess(a[1..], b[1..])
  }

  function Pow10(n: nat): (p: nat)
    ensures p >= 1
  {
    if n == 0 then 1 else 10 * Pow10(n - 1)
  }

  // ---------------------------------------------------------------------
  // Format and parse are inverse.
  // ---------------------------------------------------------------------

  lemma {:induction false} DecimalDigits(n: nat, width: nat)
    ensures forall i :: 0 <= i < |Decimal(n, width)| ==> IsDigit(Decimal(n, width)[i])
    ensures Decimal(n, width) != []
    ensures DigitsValue(Decimal(n, width)) == Some(n)
    decreases n, width
  {
    if n < 10 && width <= 1 {
      assert [Digit(n)][..0] == [];
    } else {
      var w := if width == 0 then 0 else width - 1;
      DecimalDigits(n / 10, w);
      var s := Decimal(n, width);
      assert s[..|s| - 1] == Decimal(n / 10, w);
    }
  }

  lemma {:induction false} SplitNoSep(s: string, sep: char)
    requires forall i :: 0 <= i < |s| ==> s[i] != sep
    ensures Split(s, sep) == [s]
    decreases |s|
  {
    if s != [] {
      SplitNoSep(s[1..], sep);
      assert [s[0]] + s[1..] == s;
    }
  }

  lemma {:induction false} SplitAtFirst(a: string, sep: char, b: string)
    requires forall i :: 0 <= i < |a| ==> a[i] != sep
    ensures Split(a + [sep] + b, sep) == [a] + Split(b, sep)
    decreases |a|
  {
    if a == [] {
      assert a + [sep] + b == [sep] + b;
      assert ([sep] + b)[1..] == b;
    } else {
      var s := a + [sep] + b;
      assert s[1..] == a[1..] + [sep] + b;
      SplitAtFirst(a[1..], sep, b);
      assert [a[0]] + a[1..] == a;
    }
  }

  /** Reading the id back out of a segment's file name yields that id, for
      every id (ids of more than six digits are written in full). */
  lemma ParseFileName(id: nat)
    ensures ParseId(FileName(id)) == Some(id)
  {
    var d := Decimal(id, 6);
    DecimalDigits(id, 6);
    assert FileName(id) == "segment" + ['-'] + (d + ".db");
    SplitNoSep(d + ".db", '-');
    SplitAtFirst("segment", '-', d + ".db");
    assert d + ".db" == d + ['.'] + "db";
    SplitAtFirst(d, '.', "db");
  }

  // ---------------------------------------------------------------------
  // Lexical order of names against numeric order of ids.
  // ---------------------------------------------------------------------

  lemma {:induction false} DecimalLength(n: nat, width: nat)
    requires width >= 1 && n < Pow10(width)
    ensures |Decimal(n, width)| == width
    decreases width
  {
    if !(n < 10 && width <= 1) {
      assert width >= 2;
      assert n / 10 < Pow10(width - 1);
      DecimalLength(n / 10, width - 1);
    }
  }

  lemma {:induction false} LexLessCommonPrefix(p: string, a: string, b: string)
    ensures LexLess(p + a, p + b) == LexLess(a, b)
    decreases |p|
  {
    if p == [] {
      assert p + a == a && p + b == b;
    } else {
      assert (p + a)[1..] == p[1..] + a;
      assert (p + b)[1..] == p[1..] + b;
      LexLessCommonPrefix(p[1..], a, b);
    }
  }

  /** Between strings of equal length, what follows them does not matter. */
  lemma {:induction false} LexLessSameLength(a: string, b: string, x: string, y: string)
    requires |a| == |b| && LexLess(a, b)
    ensures LexLess(a + x, b + y)
    decreases |a|
  {
    if a[0] == b[0] {
      assert (a + x)[1..] == a[1..] + x;
      assert (b + y)[1..] == b[1..] + y;
      LexLessSameLength(a[1..], b[1..], x, y);
    }
  }

  lemma {:induction false} LexLessLastChar(a: string, b: string, c: char, d: char)
    requires |a| == |b| && (LexLess(a, b) || (a == b && c < d))
    ensures LexLess(a + [c], b + [d])
  {
    if LexLess(a, b) {
      LexLessSameLength(a, b, [c], [d]);
    } else {
      LexLessCommonPrefix(a, [c], [d]);
    }
  }

  lemma {:induction false} DecimalOrder(m: nat, n: nat, width: nat)
    requires width >= 1 && m < n < Pow10(width)
    ensures LexLess(Decimal(m, width), Decimal(n, width))
    decreases width
  {
    if width == 1 {
      assert Decimal(m, 1) == [Digit(m)] && Decimal(n, 1) == [Digit(n)];
    } else {
      DecimalLength(m / 10, width - 1);
      DecimalLength(n / 10, width - 1);
      if m / 10 < n / 10 {
        DecimalOrder(m / 10, n / 10, width - 1);
      }
      LexLessLastChar(Decimal(m / 10, width - 1), Decimal(n / 10, width - 1), Digit(m % 10), Digit(n % 10));
    }
  }

  /** Below 10^6 every name has six digits, so sorting the names lexically
      lists the segments in ascending id order. */
  lemma NameOrderMatchesIdOrder(m: nat, n: nat)
    requires m < n < 1_000_000
    ensures LexLess(FileName(m), FileName(n))
  {
    assert Pow10(6) == 1_000_000;
    DecimalOrder(m, n, 6);
    DecimalLength(m, 6);
    DecimalLength(n, 6);
    LexLessSameLength(Decimal(m, 6), Decimal(n, 6), ".db", ".db");
    assert FileName(m) == "segment-" + (Decimal(m, 6) + ".db");
    assert FileName(n) == "segment-" + (Decimal(n, 6) + ".db");
    LexLessCommonPrefix("segment-", Decimal(m, 6) + ".db", Decimal(n, 6) + ".db");
  }

  /** From 10^6 on the two orders differ: segment 1000000's name sorts before
      segment 999999's. */
  lemma NameOrderBreaksAtMillion()
    ensures LexLess(FileName(1_000_000), FileName(999_999))
  {
    assert Decimal(1, 0) == "1";
    assert Decimal(10, 1) == "10";
    assert Decimal(100, 2) == "100";
    assert Decimal(1_000, 3) == "1000";
    assert Decimal(10_000, 4) == "10000";
    assert Decimal(100_000, 5) == "100000";
    assert Decimal(1_000_000, 6) == "1000000";
    assert Decimal(9, 1) == "9";
    assert Decimal(99, 2) == "99";
    assert Decimal(999, 3) == "999";
    assert Decimal(9_999, 4) == "9999";
    assert Decimal(99_999, 5) == "99999";
    assert Decimal(999_999, 6) == "999999";
    assert FileName(1_000_000) == "segment-" + "1000000.db";
    assert FileName(999_999) == "segment-" + "999999.db";
    LexLessCommonPrefix("segment-", "1000000.db", "999999.db");
  }
}
