/**
 * The PHP string and array built-ins that the route test relies on:
 * `explode` with a one-character delimiter, its inverse `implode`, and `end`.
 */
module PhpStrings {

  /** `explode(sep, s)`: the pieces of `s` between occurrences of `sep`, in order.
      An empty `s` gives one empty piece, as in PHP. */
  function Explode(s: string, sep: char): (parts: seq<string>)
    ensures |parts| >= 1
    ensures forall i :: 0 <= i < |parts| ==> sep !in parts[i]
    ensures |parts| == 1 <==> sep !in s
    decreases |s|
  {
    if s == [] then [[]]
    else
      var rest := Explode(s[1..], sep);
      assert s == [s[0]] + s[1..];
      if s[0] == sep then [[]] + rest
      else
        assert sep !in [s[0]] + rest[0];
        [[s[0]] + rest[0]] + rest[1..]
  }

  /** `implode(sep, parts)`: the pieces joined with `sep` between neighbours. */
  function Implode(parts: seq<string>, sep: char): string
    requires |parts| >= 1
    decreases |parts|
  {
    if |parts| == 1 then parts[0] else parts[0] + [sep] + Implode(parts[1..], sep)
  }

  /** `end(a)`: the last element of a non-empty array. */
  function Last<T>(s: seq<T>): (x: T)
    requires |s| >= 1
    ensures x in s
  {
    s[|s| - 1]
  }

  /** Joining the pieces of `s` gives `s` back. */
  lemma {:induction false} ImplodeExplode(s: string, sep: char)
    ensures Implode(Explode(s, sep), sep) == s
    decreases |s|
  {
    if s != [] {
      var rest := Explode(s[1..], sep);
      ImplodeExplode(s[1..], sep);
      if s[0] == sep {
        assert Explode(s, sep)[1..] == rest;
      } else {
        var parts := Explode(s, sep);
        if |rest| == 1 {
          assert parts == [[s[0]] + rest[0]];
        } else {
          assert parts[1..] == rest[1..];
          assert Implode(rest, sep) == rest[0] + [sep] + Implode(rest[1..], sep);
        }
      }
    }
  }

  /** Splitting a piece that holds no delimiter gives that piece alone. */
  lemma ExplodeNoDelimiter(s: string, sep: char)
    requires sep !in s
    ensures Explode(s, sep) == [s]
  {
    ImplodeExplode(s, sep);
  }

  /** Splitting `a`, the delimiter, then `t`, gives `a` followed by the pieces of `t`. */
  lemma {:induction false} ExplodeAfterPiece(a: string, t: string, sep: char)
    requires sep !in a
    ensures Explode(a + [sep] + t, sep) == [a] + Explode(t, sep)
    decreases |a|
  {
    var s := a + [sep] + t;
    if a == [] {
      assert s[1..] == t;
    } else {
      assert s[1..] == a[1..] + [sep] + t;
      assert a == [a[0]] + a[1..];
      ExplodeAfterPiece(a[1..], t, sep);
    }
  }

  /** Splitting the join of delimiter-free pieces gives the pieces back. */
  lemma {:induction false} ExplodeImplode(parts: seq<string>, sep: char)
    requires |parts| >= 1
    requires forall i :: 0 <= i < |parts| ==> sep !in parts[i]
    ensures Explode(Implode(parts, sep), sep) == parts
    decreases |parts|
  {
    if |parts| == 1 {
      ExplodeNoDelimiter(parts[0], sep);
    } else {
      ExplodeImplode(parts[1..], sep);
      ExplodeAfterPiece(parts[0], Implode(parts[1..], sep), sep);
      assert parts == [parts[0]] + parts[1..];
    }
  }

  /** The joined string ends with the last piece, and, when there are several pieces,
      the delimiter stands just before it. */
  lemma {:induction false} ImplodeEndsWithLast(parts: seq<string>, sep: char)
    requires |parts| >= 1
    ensures var s, l := Implode(parts, sep), Last(parts);
      |l| <= |s| && s[|s| - |l|..] == l &&
      (|parts| > 1 ==> |l| < |s| && s[|s| - |l| - 1] == sep)
    decreases |parts|
  {
    if |parts| > 1 {
      ImplodeEndsWithLast(parts[1..], sep);
      var s, t, l := Implode(parts, sep), Implode(parts[1..], sep), Last(parts);
      assert Last(parts[1..]) == l;
      var p := parts[0] + [sep];
      assert s == p + t;
      assert s[|s| - |l|..] == t[|t| - |l|..];
      if |parts| == 2 {
        assert t == l;
        assert s[|s| - |l| - 1] == p[|p| - 1];
      } else {
        assert s[|s| - |l| - 1] == t[|t| - |l| - 1];
      }
    }
  }

  /** The last piece is whatever follows the last delimiter. */
  lemma {:induction false} LastPieceAfterDelimiter(a: string, t: string, sep: char)
    requires sep !in t
    ensures Last(Explode(a + [sep] + t, sep)) == t
    decreases |a|
  {
    var s := a + [sep] + t;
    if a == [] {
      assert s[1..] == t;
      ExplodeNoDelimiter(t, sep);
    } else {
      assert s[1..] == a[1..] + [sep] + t;
      LastPieceAfterDelimiter(a[1..], t, sep);
    }
  }
}
