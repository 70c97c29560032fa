/**
 * The pieces of the Java standard library the transformations rely on:
 * `String.split` with a one-character separator, `String.toLowerCase`, and
 * the iteration of a `HashSet`, whose order Java leaves unspecified.
 */
module JavaUtil {

  /** The pieces of `s` between occurrences of `sep`, empty ones included: one more than there are separators. */
  function Pieces(s: string, sep: char): (r: seq<string>)
    ensures |r| >= 1
    ensures forall i | 0 <= i < |r| :: sep !in r[i]
  {
    if s == [] then [""]
    else
      var rest := Pieces(s[1..], sep);
      if s[0] == sep then [""] + rest
      else [[s[0]] + rest[0]] + rest[1..]
  }

  /** `String.join(sep, xs)`. */
  function Join(xs: seq<string>, sep: char): string
  {
    if xs == [] then "" else if |xs| == 1 then xs[0] else xs[0] + [sep] + Join(xs[1..], sep)
  }

  /** `xs` without its trailing empty strings. */
  function DropTrailingEmpty(xs: seq<string>): (r: seq<string>)
    ensures |r| <= |xs| && r == xs[..|r|]
    ensures r == [] || r[|r| - 1] != ""
    ensures forall i | |r| <= i < |xs| :: xs[i] == ""
  {
    if xs == [] then []
    else if xs[|xs| - 1] == "" then DropTrailingEmpty(xs[..|xs| - 1])
    else xs
  }

  /**
   * `s.split(sep)` for a separator that is one ordinary character: the input
   * itself when the separator does not occur, and otherwise the pieces with
   * the trailing empty ones removed (so `":"` gives no piece at all).
   */
  function Split(s: string, sep: char): (r: seq<string>)
    ensures forall i | 0 <= i < |r| :: sep !in r[i]
  {
    if sep !in s then [s] else DropTrailingEmpty(Pieces(s, sep))
  }

  /** Splitting loses only the separators: joining the pieces gives the string back. */
  lemma {:induction false} JoinPieces(s: string, sep: char)
    ensures Join(Pieces(s, sep), sep) == s
  {
    if s != [] {
      var rest := Pieces(s[1..], sep);
      JoinPieces(s[1..], sep);
      if s[0] == sep {
        assert ([""] + rest)[1..] == rest;
      } else {
        var r := Pieces(s, sep);
        assert r[1..] == rest[1..];
        if |rest| == 1 {
          assert r == [[s[0]] + rest[0]];
        } else {
          assert Join(rest, sep) == rest[0] + [sep] + Join(rest[1..], sep);
        }
        assert s == [s[0]] + s[1..];
      }
    }
  }

  /** A string without separators in front of the rest adds itself to the first piece. */
  lemma {:induction false} PiecesPrefix(a: string, z: string, sep: char)
    requires sep !in a
    ensures Pieces(a + z, sep) == [a + Pieces(z, sep)[0]] + Pieces(z, sep)[1..]
  {
    var p := Pieces(z, sep);
    if a == [] {
      assert a + z == z;
      assert a + p[0] == p[0];
      assert [p[0]] + p[1..] == p;
    } else {
      assert (a + z)[0] == a[0] && (a + z)[1..] == a[1..] + z;
      PiecesPrefix(a[1..], z, sep);
      var r := Pieces(a[1..] + z, sep);
      assert r[0] == a[1..] + p[0] && r[1..] == p[1..];
      assert [a[0]] + (a[1..] + p[0]) == a + p[0];
    }
  }

  lemma {:induction false} PiecesJoin(xs: seq<string>, sep: char)
    requires xs != [] && forall i | 0 <= i < |xs| :: sep !in xs[i]
    ensures Pieces(Join(xs, sep), sep) == xs
    ensures sep in Join(xs, sep) <==> |xs| > 1
  {
    if |xs| == 1 {
      PiecesPrefix(xs[0], "", sep);
      assert xs[0] + "" == xs[0];
    } else {
      var rest := Join(xs[1..], sep);
      PiecesJoin(xs[1..], sep);
      PiecesPrefix(xs[0], [sep] + rest, sep);
      assert xs[0] + [sep] + rest == xs[0] + ([sep] + rest);
      assert ([sep] + rest)[1..] == rest;
      assert xs[0] + "" == xs[0];
      assert Join(xs, sep)[|xs[0]|] == sep;
    }
  }

  /**
   * Splitting a joined list gives the list back, provided no element holds
   * the separator and the last element is not empty (or is the only one).
   */
  lemma SplitJoin(xs: seq<string>, sep: char)
    requires xs != [] && forall i | 0 <= i < |xs| :: sep !in xs[i]
    requires |xs| == 1 || xs[|xs| - 1] != ""
    ensures Split(Join(xs, sep), sep) == xs
  {
    PiecesJoin(xs, sep);
  }

  function ToLowerChar(c: char): char
  {
    if 'A' <= c <= 'Z' then (c as int + 32) as char else c
  }

  /** `String.toLowerCase()` on the ASCII letters; other characters are kept. */
  function ToLower(s: string): string
  {
    seq(|s|, i requires 0 <= i < |s| => ToLowerChar(s[i]))
  }

  /** Lower-casing keeps the length, leaves no upper-case ASCII letter and is idempotent. */
  lemma ToLowerSpec(s: string)
    ensures |ToLower(s)| == |s|
    ensures forall i | 0 <= i < |s| :: !('A' <= ToLower(s)[i] <= 'Z')
    ensures ToLower(ToLower(s)) == ToLower(s)
  {
  }

  function Digit(d: nat): char
    requires d < 10
  {
    ('0' as int + d) as char
  }

  /** The decimal text of a count, as Java's string concatenation writes an `int` that is not negative. */
  function NatToString(n: nat): (r: string)
    ensures |r| >= 1 && forall i | 0 <= i < |r| :: '0' <= r[i] <= '9'
    ensures r[0] == '0' ==> n == 0
    decreases n
  {
    if n < 10 then [Digit(n)] else NatToString(n / 10) + [Digit(n % 10)]
  }

  /** The number a string of decimal digits denotes. */
  function DecimalValue(s: string): nat
    requires forall i | 0 <= i < |s| :: '0' <= s[i] <= '9'
  {
    if s == [] then 0 else DecimalValue(s[..|s| - 1]) * 10 + (s[|s| - 1] as int - '0' as int)
  }

  /** The decimal text of a count reads back as that count. */
  lemma {:induction false} DecimalValueNatToString(n: nat)
    ensures DecimalValue(NatToString(n)) == n
    decreases n
  {
    if n >= 10 {
      DecimalValueNatToString(n / 10);
      var r := NatToString(n);
      assert r[..|r| - 1] == NatToString(n / 10);
    }
  }

  /** No element occurs twice. */
  predicate NoRepeats<T(==)>(xs: seq<T>)
  {
    forall i, j | 0 <= i < j < |xs| :: xs[i] != xs[j]
  }

  /** The elements of a `HashSet` in its iteration order, which the model leaves open. */
  method Elements<T(==)>(s: set<T>) returns (xs: seq<T>)
    ensures forall x :: x in xs <==> x in s
    ensures |xs| == |s| && NoRepeats(xs)
  {
    xs := [];
    var rest := s;
    while rest != {}
      invariant forall x :: x in s <==> x in xs || x in rest
      invariant forall x | x in xs :: x !in rest
      invariant |xs| + |rest| == |s| && NoRepeats(xs)
      decreases |rest|
    {
      var x :| x in rest;
      xs := xs + [x];
      rest := rest - {x};
    }
  }
}
