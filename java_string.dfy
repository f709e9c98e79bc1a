/**
 * The parts of java.lang.String and java.lang.Integer that the modelled classes
 * call: `length`, `compareTo`, `endsWith`, `split` on a literal character,
 * `String.valueOf(int)` and `Integer.parseInt`. Strings are `seq<char>`, and a
 * Dafny `char` is a Unicode scalar value. A Java string is a sequence of UTF-16
 * units, where a character above U+FFFF takes two units (a surrogate pair), so
 * `length` and `compareTo` are defined on the UTF-16 view `Utf16`. `endsWith`
 * and `split('.')` give the same result on characters as on units, because no
 * character's encoding starts with a low surrogate.
 */
module JavaString {
  import opened Wrappers
  import opened JavaInt

  // ---------------------------------------------------------------------------
  // The UTF-16 view of a string

  /** The UTF-16 units of one character: itself, or a high and a low surrogate. */
  function CharUnits(c: char): (u: seq<int>)
    ensures |u| == 1 || |u| == 2
    ensures |u| == 2 <==> 0xD800 <= u[0] < 0xDC00
    ensures forall k :: 0 <= k < |u| ==> 0 <= u[k] < 0x10000
  {
    var v := c as int;
    if v < 0x10000 then [v]
    else [0xD800 + (v - 0x10000) / 0x400, 0xDC00 + (v - 0x10000) % 0x400]
  }

  /** Different characters have different encodings. */
  lemma CharUnitsInjective(c: char, d: char)
    requires CharUnits(c) == CharUnits(d)
    ensures c == d
  {
    var v, w := c as int, d as int;
    if v >= 0x10000 {
      assert (v - 0x10000) / 0x400 == (w - 0x10000) / 0x400;
      assert (v - 0x10000) % 0x400 == (w - 0x10000) % 0x400;
      assert v - 0x10000 == 0x400 * ((v - 0x10000) / 0x400) + (v - 0x10000) % 0x400;
      assert w - 0x10000 == 0x400 * ((w - 0x10000) / 0x400) + (w - 0x10000) % 0x400;
    }
    assert v == w;
  }

  /** The string as Java stores it: the UTF-16 units of its characters, in order. */
  function Utf16(s: string): seq<int> {
    if s == [] then [] else CharUnits(s[0]) + Utf16(s[1..])
  }

  /** String.length(): the number of UTF-16 units. */
  function JavaLength(s: string): nat {
    |Utf16(s)|
  }

  lemma {:induction false} Utf16Append(a: string, b: string)
    ensures Utf16(a + b) == Utf16(a) + Utf16(b)
  {
    if a != [] {
      assert (a + b)[0] == a[0] && (a + b)[1..] == a[1..] + b;
      Utf16Append(a[1..], b);
      calc {
        Utf16(a + b);
        CharUnits(a[0]) + Utf16(a[1..] + b);
        CharUnits(a[0]) + (Utf16(a[1..]) + Utf16(b));
        (CharUnits(a[0]) + Utf16(a[1..])) + Utf16(b);
      }
    } else {
      assert a + b == b;
    }
  }

  /** Only the empty string has no units. */
  lemma Utf16Empty(s: string)
    ensures Utf16(s) == [] <==> s == []
  {
  }

  /** The encoding is injective, so strings can be compared through it. */
  lemma {:induction false} Utf16Injective(a: string, b: string)
    requires Utf16(a) == Utf16(b)
    ensures a == b
  {
    Utf16Empty(a);
    Utf16Empty(b);
    if a != [] {
      var u, w := CharUnits(a[0]), CharUnits(b[0]);
      var ua, ub := Utf16(a), Utf16(b);
      assert ua == u + Utf16(a[1..]) && ub == w + Utf16(b[1..]);
      assert u[0] == ua[0] == ub[0] == w[0];
      assert |u| == |w|;
      assert u == ua[..|u|] == ub[..|w|] == w;
      CharUnitsInjective(a[0], b[0]);
      assert Utf16(a[1..]) == ua[|u|..] == ub[|w|..] == Utf16(b[1..]);
      Utf16Injective(a[1..], b[1..]);
      assert a == [a[0]] + a[1..] && b == [b[0]] + b[1..];
    }
  }

  /** A string of characters up to U+FFFF has one unit per character. */
  lemma {:induction false} BmpLength(s: string)
    requires forall i :: 0 <= i < |s| ==> s[i] as int < 0x10000
    ensures JavaLength(s) == |s|
  {
    if s != [] {
      BmpLength(s[1..]);
    }
  }

  /** String.length() is additive. */
  lemma JavaLengthAppend(a: string, b: string)
    ensures JavaLength(a + b) == JavaLength(a) + JavaLength(b)
  {
    Utf16Append(a, b);
  }

  // ---------------------------------------------------------------------------
  // String.compareTo

  /**
   * The comparison of two unit sequences: the difference of the first
   * differing units, or the difference of the lengths when one is a prefix
   * of the other.
   */
  function CompareUnits(a: seq<int>, b: seq<int>): int
  {
    if a == [] || b == [] then |a| - |b|
    else if a[0] != b[0] then a[0] - b[0]
    else CompareUnits(a[1..], b[1..])
  }

  /** String.compareTo, which compares the UTF-16 units. */
  function Compare(a: string, b: string): int {
    CompareUnits(Utf16(a), Utf16(b))
  }

  /** `a` sorts strictly before `b`. */
  predicate Less(a: string, b: string) {
    Compare(a, b) < 0
  }

  lemma {:induction false} CompareUnitsZeroIff(a: seq<int>, b: seq<int>)
    ensures CompareUnits(a, b) == 0 <==> a == b
  {
    if a == [] || b == [] {
    } else if a[0] != b[0] {
    } else {
      CompareUnitsZeroIff(a[1..], b[1..]);
      assert a == [a[0]] + a[1..] && b == [b[0]] + b[1..];
    }
  }

  lemma {:induction false} CompareUnitsAntisymmetric(a: seq<int>, b: seq<int>)
    ensures CompareUnits(b, a) == -CompareUnits(a, b)
  {
    if a == [] || b == [] {
    } else if a[0] != b[0] {
    } else {
      CompareUnitsAntisymmetric(a[1..], b[1..]);
    }
  }

  lemma {:induction false} CompareUnitsTransitive(a: seq<int>, b: seq<int>, c: seq<int>)
    requires CompareUnits(a, b) < 0 && CompareUnits(b, c) < 0
    ensures CompareUnits(a, c) < 0
  {
    if a == [] || b == [] || c == [] {
    } else if a[0] != b[0] || b[0] != c[0] {
    } else {
      CompareUnitsTransitive(a[1..], b[1..], c[1..]);
    }
  }

  lemma CompareZeroIff(a: string, b: string)
    ensures Compare(a, b) == 0 <==> a == b
  {
    CompareUnitsZeroIff(Utf16(a), Utf16(b));
    if Utf16(a) == Utf16(b) {
      Utf16Injective(a, b);
    }
  }

  lemma CompareAntisymmetric(a: string, b: string)
    ensures Compare(b, a) == -Compare(a, b)
  {
    CompareUnitsAntisymmetric(Utf16(a), Utf16(b));
  }

  lemma LessTransitive(a: string, b: string, c: string)
    requires Less(a, b) && Less(b, c)
    ensures Less(a, c)
  {
    CompareUnitsTransitive(Utf16(a), Utf16(b), Utf16(c));
  }

  /**
   * compareTo orders by UTF-16 units, not by code points: U+FFFF sorts after
   * U+1F600, whose first unit is the surrogate 0xD83D.
   */
  lemma SurrogatesSortLow()
    ensures CharUnits('\U{1F600}') == [0xD83D, 0xDE00]
    ensures Compare("\U{FFFF}", "\U{1F600}") == 0xFFFF - 0xD83D
    ensures Less("\U{1F600}", "\U{FFFF}") && '\U{1F600}' as int > '\U{FFFF}' as int
    ensures JavaLength("\U{1F600}") == 2 && |"\U{1F600}"| == 1
  {
    assert Utf16("\U{FFFF}") == [0xFFFF];
    assert Utf16("\U{1F600}") == [0xD83D, 0xDE00];
  }

  /** Exactly one of a < b, a == b, b < a holds. */
  lemma LessTrichotomy(a: string, b: string)
    ensures Less(a, b) || a == b || Less(b, a)
    ensures !(Less(a, b) && Less(b, a))
    ensures !Less(a, a)
  {
    CompareZeroIff(a, b);
    CompareAntisymmetric(a, b);
    CompareZeroIff(a, a);
  }

  /** Strictly increasing by compareTo, hence without duplicates. */
  ghost predicate StrictlySorted(s: seq<string>) {
    forall i, j :: 0 <= i < j < |s| ==> Less(s[i], s[j])
  }

  /** Non-decreasing by compareTo. */
  ghost predicate Sorted(s: seq<string>) {
    forall i, j :: 0 <= i < j < |s| ==> Less(s[i], s[j]) || s[i] == s[j]
  }

  /**
   * `ip` is where `n` belongs in `s`: everything before it sorts below `n`,
   * everything from it on sorts above `n`.
   */
  ghost predicate InsertionPoint(s: seq<string>, ip: int, n: string) {
    0 <= ip <= |s|
    && (forall k :: 0 <= k < ip ==> Less(s[k], n))
    && (forall k :: ip <= k < |s| ==> Less(n, s[k]))
  }

  /** A string that has an insertion point does not occur in the sequence. */
  lemma InsertionPointAbsent(s: seq<string>, ip: int, n: string)
    requires InsertionPoint(s, ip, n)
    ensures n !in s
  {
    forall k | 0 <= k < |s| ensures s[k] != n {
      LessTrichotomy(s[k], n);
    }
  }

  /** Inserting `n` at its insertion point keeps a sequence strictly sorted. */
  lemma InsertStrictlySorted(s: seq<string>, ip: int, n: string)
    requires StrictlySorted(s) && InsertionPoint(s, ip, n)
    ensures StrictlySorted(s[..ip] + [n] + s[ip..])
  {
    var t := s[..ip] + [n] + s[ip..];
    forall i, j | 0 <= i < j < |t| ensures Less(t[i], t[j]) {
      if j < ip {
        assert t[i] == s[i] && t[j] == s[j];
      } else if j == ip {
        assert t[i] == s[i] && t[j] == n;
      } else if i < ip {
        assert t[i] == s[i] && t[j] == s[j - 1];
      } else if i == ip {
        assert t[i] == n && t[j] == s[j - 1];
      } else {
        assert t[i] == s[i - 1] && t[j] == s[j - 1];
      }
    }
  }

  /** Removing one element keeps a sequence strictly sorted. */
  lemma RemoveStrictlySorted(s: seq<string>, i: int)
    requires StrictlySorted(s) && 0 <= i < |s|
    ensures StrictlySorted(s[..i] + s[i + 1..])
  {
    var t := s[..i] + s[i + 1..];
    forall a, b | 0 <= a < b < |t| ensures Less(t[a], t[b]) {
      var a' := if a < i then a else a + 1;
      var b' := if b < i then b else b + 1;
      assert t[a] == s[a'] && t[b] == s[b'];
    }
  }

  /** Two strictly sorted sequences with the same elements are the same sequence. */
  lemma {:induction false} StrictlySortedUnique(a: seq<string>, b: seq<string>)
    requires StrictlySorted(a) && StrictlySorted(b)
    requires forall x :: x in a <==> x in b
    ensures a == b
  {
    if a == [] {
      assert forall k :: 0 <= k < |b| ==> b[k] in b;
    } else {
      assert a[0] in b;
      assert b != [] && b[0] in a;
      var i :| 0 <= i < |a| && a[i] == b[0];
      var j :| 0 <= j < |b| && b[j] == a[0];
      if i > 0 {
        LessTrichotomy(a[0], b[0]);
        assert false;
      }
      forall x ensures x in a[1..] <==> x in b[1..] {
        if x in a[1..] {
          var k :| 1 <= k < |a| && a[k] == x;
          LessTrichotomy(a[0], a[k]);
          assert x in b;
        }
        if x in b[1..] {
          var k :| 1 <= k < |b| && b[k] == x;
          LessTrichotomy(b[0], b[k]);
          assert x in a;
        }
      }
      StrictlySortedUnique(a[1..], b[1..]);
      assert a == [a[0]] + a[1..] && b == [b[0]] + b[1..];
    }
  }

  // ---------------------------------------------------------------------------
  // String.endsWith

  predicate EndsWith(s: string, suffix: string) {
    |suffix| <= |s| && s[|s| - |suffix|..] == suffix
  }

  // ---------------------------------------------------------------------------
  // Decimal digits, String.valueOf(int) and Integer.parseInt

  predicate IsDigit(c: char) {
    '0' <= c <= '9'
  }

  predicate AllDigits(s: string) {
    forall i :: 0 <= i < |s| ==> IsDigit(s[i])
  }

  function DigitChar(d: nat): char
    requires d < 10
  {
    ['0', '1', '2', '3', '4', '5', '6', '7', '8', '9'][d]
  }

  function DigitValue(c: char): nat
    requires IsDigit(c)
  {
    (c as int) - ('0' as int)
  }

  /** The shortest decimal rendering of `n`. */
  function Digits(n: nat): (s: string)
    ensures s != [] && AllDigits(s)
  {
    if n < 10 then [DigitChar(n)] else Digits(n / 10) + [DigitChar(n % 10)]
  }

  /** The value of a string of decimal digits (leading zeros allowed). */
  function DigitsValue(s: string): nat
    requires AllDigits(s)
  {
    if s == [] then 0 else DigitsValue(s[..|s| - 1]) * 10 + DigitValue(s[|s| - 1])
  }

  /** String.valueOf(int). */
  function ValueOf(n: int): string {
    if n < 0 then "-" + Digits(-n) else Digits(n)
  }

  /**
   * Integer.parseInt: an optional sign, one or more digits, and a value in the
   * `int` range; anything else throws NumberFormatException (here None).
   */
  function ParseInt(s: string): Option<int> {
    if s == [] then None
    else
      var body := if s[0] == '-' || s[0] == '+' then s[1..] else s;
      if body == [] || !AllDigits(body) then None
      else
        var v: int := if s[0] == '-' then -(DigitsValue(body) as int) else DigitsValue(body);
        if IsInt(v) then Some(v) else None
  }

  /** A string parseInt accepts is ASCII, so its UTF-16 length is its length. */
  lemma ParseIntLength(s: string)
    requires ParseInt(s).Some?
    ensures JavaLength(s) == |s|
  {
    var body := if s[0] == '-' || s[0] == '+' then s[1..] else s;
    assert forall i :: 0 <= i < |s| ==> s[i] == '-' || s[i] == '+' || IsDigit(s[i])
    by {
      forall i | 0 <= i < |s|
        ensures s[i] == '-' || s[i] == '+' || IsDigit(s[i])
      {
        if body != s && i > 0 {
          assert s[i] == body[i - 1];
        }
      }
    }
    BmpLength(s);
  }

  lemma {:induction false} DigitsRoundTrip(n: nat)
    ensures DigitsValue(Digits(n)) == n
  {
    if n >= 10 {
      var s := Digits(n);
      assert s[..|s| - 1] == Digits(n / 10);
      DigitsRoundTrip(n / 10);
    }
  }

  /** Integer.parseInt of a '-' followed by digits whose negated value is an int. */
  lemma ParseIntNegative(d: string)
    requires d != [] && AllDigits(d) && IsInt(-(DigitsValue(d) as int))
    ensures ParseInt("-" + d) == Some(-(DigitsValue(d) as int))
  {
    var s := "-" + d;
    assert s[0] == '-' && s[1..] == d;
  }

  /** Integer.parseInt(String.valueOf(n)) == n for every Java int n. */
  lemma ParseIntValueOf(n: int)
    requires IsInt(n)
    ensures ParseInt(ValueOf(n)) == Some(n)
  {
    var d := if n < 0 then Digits(-n) else Digits(n);
    DigitsRoundTrip(if n < 0 then -n else n);
    if n < 0 {
      assert ValueOf(n) == "-" + d;
      ParseIntNegative(d);
    } else {
      assert ValueOf(n) == d;
      ParseIntDigits(d);
    }
  }

  /** A digit appended on the right: ten times the value, plus the digit. */
  lemma DigitsValueSnoc(s: string, d: char)
    requires AllDigits(s) && IsDigit(d)
    ensures AllDigits(s + [d]) && DigitsValue(s + [d]) == DigitsValue(s) * 10 + DigitValue(d)
  {
    assert (s + [d])[..|s|] == s;
  }

  /** Integer.parseInt of one or two digit characters. */
  lemma ParseIntSmall(a: char, b: char)
    requires IsDigit(a) && IsDigit(b)
    ensures ParseInt([a]) == Some(DigitValue(a))
    ensures ParseInt([a, b]) == Some(DigitValue(a) * 10 + DigitValue(b))
  {
    DigitsValueSnoc([], a);
    assert [a] == [] + [a];
    DigitsValueSnoc([a], b);
    assert [a, b] == [a] + [b];
    ParseIntDigits([a]);
    ParseIntDigits([a, b]);
  }

  lemma DigitCharValue(d: nat)
    requires d < 10
    ensures IsDigit(DigitChar(d)) && DigitValue(DigitChar(d)) == d
  {
  }

  /** Integer.parseInt of a plain string of digits is its decimal value, when that fits an int. */
  lemma ParseIntDigits(s: string)
    requires s != [] && AllDigits(s) && IsInt(DigitsValue(s))
    ensures ParseInt(s) == Some(DigitsValue(s) as int)
  {
    assert IsDigit(s[0]);
  }

  // ---------------------------------------------------------------------------
  // String.split on a single literal character

  /** The pieces between occurrences of `c`, empty pieces included. */
  function Pieces(s: string, c: char): (r: seq<string>)
    ensures |r| >= 1
  {
    if s == [] then [[]]
    else if s[0] == c then [[]] + Pieces(s[1..], c)
    else
      var rest := Pieces(s[1..], c);
      [[s[0]] + rest[0]] + rest[1..]
  }

  function DropTrailingEmpty(parts: seq<string>): seq<string> {
    if parts == [] || parts[|parts| - 1] != [] then parts
    else DropTrailingEmpty(parts[..|parts| - 1])
  }

  /**
   * String.split with a regular expression that matches the single character
   * `c`: no match gives the whole string; otherwise the pieces with trailing
   * empty strings removed.
   */
  function Split(s: string, c: char): seq<string> {
    if c !in s then [s] else DropTrailingEmpty(Pieces(s, c))
  }

  lemma {:induction false} PiecesWithout(u: string, c: char)
    requires c !in u
    ensures Pieces(u, c) == [u]
  {
    if u != [] {
      PiecesWithout(u[1..], c);
      assert [u[0]] + u[1..] == u;
    }
  }

  lemma {:induction false} PiecesAround(u: string, c: char, w: string)
    requires c !in u
    ensures Pieces(u + [c] + w, c) == [u] + Pieces(w, c)
  {
    if u == [] {
      assert u + [c] + w == [c] + w;
      assert ([c] + w)[1..] == w;
    } else {
      PiecesAround(u[1..], c, w);
      assert (u + [c] + w)[1..] == u[1..] + [c] + w;
      assert [u[0]] + u[1..] == u;
    }
  }

  /** Splitting "u.w" where neither part holds the separator yields [u, w]. */
  lemma SplitTwo(u: string, c: char, w: string)
    requires c !in u && c !in w && w != []
    ensures Split(u + [c] + w, c) == [u, w]
  {
    PiecesAround(u, c, w);
    PiecesWithout(w, c);
    assert (u + [c] + w)[|u|] == c;
  }

  /** A separator at the very end only adds an empty piece, which split drops. */
  lemma SplitTrailingSeparator(u: string, c: char, w: string)
    requires c !in u && c !in w && w != []
    ensures Split(u + [c] + w + [c], c) == [u, w]
  {
    var t := u + [c] + w + [c];
    assert t == u + [c] + (w + [c]);
    PiecesAround(u, c, w + [c]);
    assert w + [c] == w + [c] + [];
    PiecesAround(w, c, []);
    assert Pieces(t, c) == [u, w, []];
    assert [u, w, []][..2] == [u, w];
    assert DropTrailingEmpty([u, w, []]) == [u, w];
    assert (u + [c] + w + [c])[|u|] == c;
  }

  // ---------------------------------------------------------------------------

  /** `n` copies of `c`. */
  function Repeat(c: char, n: nat): (s: string)
    ensures |s| == n && forall i :: 0 <= i < n ==> s[i] == c
  {
    if n == 0 then [] else [c] + Repeat(c, n - 1)
  }
}
