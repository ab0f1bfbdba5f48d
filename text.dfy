// The Java String operations the command handlers use, on seq<char>.

module Text {

  /** A Java reference that may be null: `None` is `null`. */
  datatype Option<T> = None | Some(value: T)

  /** String concatenation of a possibly-null String: Java renders null as "null". */
  function Show(s: Option<string>): string
  {
    if s.Some? then s.value else "null"
  }

  // ---------------------------------------------------------------------------
  // Case-insensitive comparison (String.equalsIgnoreCase)
  // ---------------------------------------------------------------------------

  /** Character.toUpperCase, restricted to the ASCII letters. */
  function ToUpper(c: char): char
  {
    if 'a' <= c <= 'z' then (c as int - 32) as char else c
  }

  /** Character.toLowerCase, restricted to the ASCII letters. */
  function ToLower(c: char): char
  {
    if 'A' <= c <= 'Z' then (c as int + 32) as char else c
  }

  /** The per-character test of String.regionMatches(ignoreCase = true):
      equal, or equal after upper-casing, or equal after upper- then lower-casing. */
  predicate CharEqualsIgnoreCase(c: char, d: char)
  {
    c == d || ToUpper(c) == ToUpper(d) || ToLower(ToUpper(c)) == ToLower(ToUpper(d))
  }

  /** `a.equalsIgnoreCase(b)` for a non-null argument `b`. */
  predicate EqualsIgnoreCase(a: string, b: string)
  {
    |a| == |b| && forall i :: 0 <= i < |a| ==> CharEqualsIgnoreCase(a[i], b[i])
  }

  /** The three-step character test is the same as comparing upper-cased characters. */
  lemma CharEqualsIgnoreCaseIsUpperEquality(c: char, d: char)
    ensures CharEqualsIgnoreCase(c, d) <==> ToUpper(c) == ToUpper(d)
  {
    if ToLower(ToUpper(c)) == ToLower(ToUpper(d)) {
      assert !('a' <= ToUpper(c) <= 'z') && !('a' <= ToUpper(d) <= 'z');
    }
  }

  /** equalsIgnoreCase is an equivalence relation, so a lookup by a key finds the same
      entries as a lookup by any key equal to it ignoring case. */
  lemma EqualsIgnoreCaseIsEquivalence(a: string, b: string, c: string)
    ensures EqualsIgnoreCase(a, a)
    ensures EqualsIgnoreCase(a, b) ==> EqualsIgnoreCase(b, a)
    ensures EqualsIgnoreCase(a, b) && EqualsIgnoreCase(b, c) ==> EqualsIgnoreCase(a, c)
  {
    forall i | 0 <= i < |a| && i < |b| && i < |c|
      ensures CharEqualsIgnoreCase(a[i], b[i]) <==> ToUpper(a[i]) == ToUpper(b[i])
      ensures CharEqualsIgnoreCase(b[i], c[i]) <==> ToUpper(b[i]) == ToUpper(c[i])
      ensures CharEqualsIgnoreCase(a[i], c[i]) <==> ToUpper(a[i]) == ToUpper(c[i])
    {
      CharEqualsIgnoreCaseIsUpperEquality(a[i], b[i]);
      CharEqualsIgnoreCaseIsUpperEquality(b[i], c[i]);
      CharEqualsIgnoreCaseIsUpperEquality(a[i], c[i]);
    }
  }

  // ---------------------------------------------------------------------------
  // String.split with a one-character, non-metacharacter separator and limit 0
  // ---------------------------------------------------------------------------

  /** Every piece of `s` between occurrences of `sep`, including empty ones. */
  function Pieces(s: string, sep: char): (parts: seq<string>)
    ensures |parts| >= 1
    decreases |s|
  {
    if s == [] then [""]
    else
      var rest := Pieces(s[1..], sep);
      if s[0] == sep then [""] + rest else [[s[0]] + rest[0]] + rest[1..]
  }

  /** The pieces glued back together with the separator. */
  function Join(parts: seq<string>, sep: char): string
    decreases |parts|
  {
    if parts == [] then ""
    else if |parts| == 1 then parts[0]
    else parts[0] + [sep] + Join(parts[1..], sep)
  }

  /** Splitting and re-joining gives back the original string, and no piece holds the separator. */
  lemma {:induction false} PiecesJoin(s: string, sep: char)
    ensures Join(Pieces(s, sep), sep) == s
    ensures forall k :: 0 <= k < |Pieces(s, sep)| ==> sep !in Pieces(s, sep)[k]
    decreases |s|
  {
    if s != [] {
      var rest := Pieces(s[1..], sep);
      PiecesJoin(s[1..], sep);
      if s[0] == sep {
        assert Pieces(s, sep) == [""] + rest;
        assert ([""] + rest)[1..] == rest;
        assert s == [] + [sep] + s[1..];
      } else {
        var parts := Pieces(s, sep);
        assert parts == [[s[0]] + rest[0]] + rest[1..];
        assert parts[1..] == rest[1..];
        if |rest| == 1 {
          assert Join(parts, sep) == [s[0]] + rest[0];
        } else {
          assert Join(rest, sep) == rest[0] + [sep] + Join(rest[1..], sep);
          assert Join(parts, sep) == [s[0]] + rest[0] + [sep] + Join(rest[1..], sep);
        }
        assert s == [s[0]] + s[1..];
        forall k | 0 <= k < |parts| ensures sep !in parts[k] {
          if k > 0 { assert parts[k] == rest[k]; }
        }
      }
    }
  }

  /** The array `split` builds: drop the trailing empty pieces. */
  function StripTrailingEmpty(parts: seq<string>): (r: seq<string>)
    ensures |r| <= |parts| && r == parts[..|r|]
    ensures r == [] || r[|r| - 1] != ""
    ensures forall k :: |r| <= k < |parts| ==> parts[k] == ""
    decreases |parts|
  {
    if parts == [] then []
    else if parts[|parts| - 1] == "" then StripTrailingEmpty(parts[..|parts| - 1])
    else parts
  }

  /** `s.split("-")` for a one-character separator: the string itself when the separator
      does not occur, otherwise its pieces without the trailing empty ones. */
  function JavaSplit(s: string, sep: char): (r: seq<string>)
    ensures sep !in s ==> r == [s]
    ensures forall k :: 0 <= k < |r| ==> sep !in r[k]
    ensures sep in s ==>
      |r| <= |Pieces(s, sep)| && r == Pieces(s, sep)[..|r|] && forall k :: |r| <= k < |Pieces(s, sep)| ==> Pieces(s, sep)[k] == ""
    ensures sep in s ==> r == [] || r[|r| - 1] != ""
  {
    PiecesJoin(s, sep);
    if sep !in s then [s] else StripTrailingEmpty(Pieces(s, sep))
  }

  /** Pieces of `a + [sep] + b` when `a` and `b` contain no separator. */
  lemma {:induction false} PiecesOfPair(a: string, b: string, sep: char)
    requires sep !in a && sep !in b
    ensures Pieces(a + [sep] + b, sep) == [a, b]
    decreases |a|
  {
    if a == [] {
      assert a + [sep] + b == [sep] + b;
      PiecesOfSeparatorFree(b, sep);
      assert ([sep] + b)[1..] == b;
    } else {
      assert (a + [sep] + b)[1..] == a[1..] + [sep] + b;
      PiecesOfPair(a[1..], b, sep);
      assert [a[0]] + a[1..] == a;
    }
  }

  /** A string without the separator is one piece. */
  lemma {:induction false} PiecesOfSeparatorFree(s: string, sep: char)
    requires sep !in s
    ensures Pieces(s, sep) == [s]
    decreases |s|
  {
    if s != [] {
      assert sep !in s[1..];
      PiecesOfSeparatorFree(s[1..], sep);
      assert [s[0]] + s[1..] == s;
    }
  }

  /** A payload `a-b` with non-empty, dash-free parts splits into exactly those two parts. */
  lemma SplitPair(a: string, b: string, sep: char)
    requires sep !in a && sep !in b && b != ""
    ensures JavaSplit(a + [sep] + b, sep) == [a, b]
  {
    PiecesOfPair(a, b, sep);
    assert (a + [sep] + b)[|a|] == sep;
  }

  // ---------------------------------------------------------------------------
  // Integer.toString for the non-negative numbers the server prints
  // ---------------------------------------------------------------------------

  function Digit(d: nat): char
    requires d < 10
  {
    ('0' as int + d) as char
  }

  /** The decimal digits of `n`, most significant first, without leading zeros. */
  function Decimal(n: nat): (r: string)
    ensures |r| >= 1
    ensures forall i :: 0 <= i < |r| ==> '0' <= r[i] <= '9'
    ensures |r| > 1 ==> r[0] != '0'
    decreases n
  {
    if n < 10 then [Digit(n)] else Decimal(n / 10) + [Digit(n % 10)]
  }

  /** The number a string of decimal digits denotes (Integer.parseInt). */
  function DecimalValue(s: string): nat
    decreases |s|
  {
    if s == [] then 0
    else
      var d := s[|s| - 1] as int - '0' as int;
      DecimalValue(s[..|s| - 1]) * 10 + (if 0 <= d then d else 0)
  }

  /** Printing a participant count and reading it back gives the count. */
  lemma {:induction false} DecimalRoundTrip(n: nat)
    ensures DecimalValue(Decimal(n)) == n
    decreases n
  {
    if n < 10 {
      assert Decimal(n)[..0] == [];
    } else {
      DecimalRoundTrip(n / 10);
      var r := Decimal(n);
      assert r[..|r| - 1] == Decimal(n / 10);
    }
  }
}
