/** Sequence and string helpers shared by the model: `Math.min`, occurrence counts,
    JavaScript's `split`/`join` on a one-character separator, `trim`, and
    decimal numerals. */
module Text {

  function Min(a: int, b: int): int { if a <= b then a else b }

  /** Number of occurrences of `x` in `s`. */
  function Count<T(==)>(s: seq<T>, x: T): nat
  {
    if |s| == 0 then 0 else Count(s[..|s| - 1], x) + (if s[|s| - 1] == x then 1 else 0)
  }

  lemma {:induction false} CountAppend<T>(a: seq<T>, b: seq<T>, x: T)
    ensures Count(a + b, x) == Count(a, x) + Count(b, x)
    decreases |b|
  {
    if |b| == 0 {
      assert a + b == a;
    } else {
      assert (a + b)[..|a + b| - 1] == a + b[..|b| - 1];
      CountAppend(a, b[..|b| - 1], x);
    }
  }

  lemma CountBound<T>(s: seq<T>, x: T)
    ensures Count(s, x) <= |s|
    ensures Count(s, x) == 0 <==> x !in s
  {
    if |s| > 0 {
      CountBound(s[..|s| - 1], x);
      assert s == s[..|s| - 1] + [s[|s| - 1]];
    }
  }

  lemma CountCons<T>(y: T, s: seq<T>, x: T)
    ensures Count([y] + s, x) == (if y == x then 1 else 0) + Count(s, x)
  {
    CountAppend([y], s, x);
    assert [y][..0] == [];
  }

  // ---------------------------------------------------------------------
  // split / join on a single-character separator

  /** JavaScript's `s.split(d)` for a one-character separator: there is
      always at least one piece, and an empty string gives one empty piece. */
  function Split(s: string, d: char): (parts: seq<string>)
    ensures |parts| >= 1
  {
    if |s| == 0 then [[]]
    else
      var rest := Split(s[1..], d);
      if s[0] == d then [[]] + rest else [[s[0]] + rest[0]] + rest[1..]
  }

  /** JavaScript's `parts.join(d)`. */
  function Join(parts: seq<string>, d: char): string
  {
    if |parts| == 0 then []
    else if |parts| == 1 then parts[0]
    else parts[0] + [d] + Join(parts[1..], d)
  }

  lemma {:induction false} SplitCount(s: string, d: char)
    ensures |Split(s, d)| == Count(s, d) + 1
    ensures forall i :: 0 <= i < |Split(s, d)| ==> d !in Split(s, d)[i]
  {
    if |s| > 0 {
      SplitCount(s[1..], d);
      CountCons(s[0], s[1..], d);
      assert s == [s[0]] + s[1..];
    }
  }

  /** A character absent from the string is absent from every piece. */
  lemma {:induction false} SplitAvoids(s: string, d: char, c: char)
    requires c !in s
    ensures forall i :: 0 <= i < |Split(s, d)| ==> c !in Split(s, d)[i]
  {
    if |s| > 0 {
      assert c !in s[1..] by {
        forall k | 0 <= k < |s| - 1 ensures s[1..][k] != c {
          assert s[1..][k] == s[k + 1];
        }
      }
      SplitAvoids(s[1..], d, c);
    }
  }

  /** Joining the pieces of a split gives the original string back. */
  lemma {:induction false} JoinSplit(s: string, d: char)
    ensures Join(Split(s, d), d) == s
  {
    if |s| > 0 {
      JoinSplit(s[1..], d);
      var rest := Split(s[1..], d);
      if s[0] == d {
        assert Join([[]] + rest, d) == [] + [d] + Join(rest, d);
      } else if |rest| == 1 {
        assert Join([[s[0]] + rest[0]] + rest[1..], d) == [s[0]] + rest[0];
      } else {
        assert ([[s[0]] + rest[0]] + rest[1..])[1..] == rest[1..];
        assert Join(rest, d) == rest[0] + [d] + Join(rest[1..], d);
      }
    }
  }

  /** A join whose first piece is not empty starts with that piece's first
      character. */
  lemma JoinFirstChar(parts: seq<string>, d: char)
    requires |parts| >= 1 && |parts[0]| > 0
    ensures Join(parts, d) == [parts[0][0]] + Join([parts[0][1..]] + parts[1..], d)
  {
    var p0 := parts[0];
    var tail := [p0[1..]] + parts[1..];
    assert tail[1..] == parts[1..];
    assert p0 == [p0[0]] + p0[1..];
    if |parts| > 1 {
      assert Join(tail, d) == p0[1..] + [d] + Join(parts[1..], d);
    }
  }

  /** Splitting a join of separator-free pieces gives the pieces back. */
  lemma {:induction false} SplitJoin(parts: seq<string>, d: char)
    requires |parts| >= 1
    requires forall i :: 0 <= i < |parts| ==> d !in parts[i]
    ensures Split(Join(parts, d), d) == parts
    decreases |parts|, |parts[0]|
  {
    if |parts[0]| > 0 {
      var p0 := parts[0];
      var tail := [p0[1..]] + parts[1..];
      assert forall i :: 0 <= i < |tail| ==> d !in tail[i] by {
        forall i | 0 <= i < |tail| ensures d !in tail[i] {
          if i == 0 {
            assert forall k :: 0 <= k < |p0[1..]| ==> p0[1..][k] == p0[k + 1];
          } else {
            assert tail[i] == parts[i];
          }
        }
      }
      SplitJoin(tail, d);
      JoinFirstChar(parts, d);
      SplitCons(p0[0], Join(tail, d), d);
      assert p0[0] != d by { assert p0[0] in p0; }
      assert [p0[0]] + p0[1..] == p0;
      assert tail[1..] == parts[1..];
      assert parts == [p0] + parts[1..];
    } else if |parts| > 1 {
      SplitJoin(parts[1..], d);
      assert Join(parts, d) == [d] + Join(parts[1..], d);
      SplitCons(d, Join(parts[1..], d), d);
      assert [[]] + parts[1..] == parts;
    }
  }

  /** A prefix free of the separator only lengthens the first piece. */
  lemma {:induction false} SplitPrefix(p: string, s: string, d: char)
    requires d !in p
    ensures Split(p + s, d) == [p + Split(s, d)[0]] + Split(s, d)[1..]
  {
    if |p| > 0 {
      assert d !in p[1..] by {
        assert forall k :: 0 <= k < |p[1..]| ==> p[1..][k] == p[k + 1];
      }
      SplitPrefix(p[1..], s, d);
      assert (p + s)[1..] == p[1..] + s;
      assert (p + s)[0] == p[0];
      assert p[0] != d by { assert p[0] in p; }
      assert [p[0]] + (p[1..] + Split(s, d)[0]) == p + Split(s, d)[0];
    } else {
      assert p + s == s;
      assert [] + Split(s, d)[0] == Split(s, d)[0];
    }
  }

  /** One step of `Split`: the first character either closes the first piece
      or joins it. */
  lemma SplitCons(c: char, t: string, d: char)
    ensures Split([c] + t, d) ==
      if c == d then [[]] + Split(t, d) else [[c] + Split(t, d)[0]] + Split(t, d)[1..]
  {
    assert ([c] + t)[1..] == t;
    assert ([c] + t)[0] == c;
  }

  /** `ps` with `q` appended to its last piece. */
  function AppendLast(ps: seq<string>, q: string): (r: seq<string>)
    requires |ps| >= 1
    ensures |r| == |ps|
  {
    ps[..|ps| - 1] + [ps[|ps| - 1] + q]
  }

  lemma AppendLastCons(h: string, ps: seq<string>, q: string)
    requires |ps| >= 1
    ensures AppendLast([h] + ps, q) == [h] + AppendLast(ps, q)
  {
    assert ([h] + ps)[..|ps|] == [h] + ps[..|ps| - 1];
  }

  /** A suffix free of the separator only lengthens the last piece. */
  lemma {:induction false} SplitSuffix(s: string, q: string, d: char)
    requires d !in q
    ensures var ps := Split(s, d);
      Split(s + q, d) == ps[..|ps| - 1] + [ps[|ps| - 1] + q]
  {
    if |s| == 0 {
      assert s + q == q;
      SplitPrefix(q, [], d);
      assert q + [] == q;
    } else {
      var c, t := s[0], s[1..];
      assert s == [c] + t;
      assert s + q == [c] + (t + q);
      SplitSuffix(t, q, d);
      SplitCons(c, t, d);
      SplitCons(c, t + q, d);
      var rest := Split(t, d);
      var x := Split(t + q, d);
      assert x == AppendLast(rest, q);
      if c == d {
        AppendLastCons([], rest, q);
      } else if |rest| == 1 {
        assert x == [rest[0] + q];
        assert [c] + (rest[0] + q) == ([c] + rest[0]) + q;
      } else {
        assert rest == [rest[0]] + rest[1..];
        AppendLastCons(rest[0], rest[1..], q);
        AppendLastCons([c] + rest[0], rest[1..], q);
      }
    }
  }

  /** Joining after appending to the last piece appends to the joined string. */
  lemma {:induction false} JoinAppendLast(ps: seq<string>, q: string, d: char)
    requires |ps| >= 1
    ensures Join(ps[..|ps| - 1] + [ps[|ps| - 1] + q], d) == Join(ps, d) + q
    decreases |ps|
  {
    if |ps| > 1 {
      var x := AppendLast(ps[1..], q);
      JoinAppendLast(ps[1..], q, d);
      assert ps == [ps[0]] + ps[1..];
      AppendLastCons(ps[0], ps[1..], q);
      assert ([ps[0]] + x)[1..] == x;
      assert Join([ps[0]] + x, d) == ps[0] + [d] + Join(x, d);
    }
  }

  /** Joining two non-empty runs of pieces puts one separator between them. */
  lemma {:induction false} JoinConcat(a: seq<string>, b: seq<string>, d: char)
    requires |a| >= 1 && |b| >= 1
    ensures Join(a + b, d) == Join(a, d) + [d] + Join(b, d)
    decreases |a|
  {
    if |a| > 1 {
      JoinConcat(a[1..], b, d);
      assert (a + b)[1..] == a[1..] + b;
    } else {
      assert (a + b)[1..] == b;
    }
  }

  // ---------------------------------------------------------------------
  // whitespace and trim

  /** The whitespace set used for `trim` and for the `\s` regular-expression
      class: space, tab, line feed, carriage return, vertical tab, form feed. */
  predicate IsWhitespace(c: char)
  {
    c == ' ' || c == '\t' || c == '\n' || c == '\r' || c == '\U{000B}' || c == '\U{000C}'
  }

  predicate AllWhitespace(s: string)
  {
    forall i :: 0 <= i < |s| ==> IsWhitespace(s[i])
  }

  /** The end of the whitespace run of `s` that starts at `i`. */
  function RunEnd(s: string, i: nat): (n: nat)
    requires i <= |s|
    ensures i <= n <= |s|
    ensures forall k :: i <= k < n ==> IsWhitespace(s[k])
    ensures n < |s| ==> !IsWhitespace(s[n])
    decreases |s| - i
  {
    if i < |s| && IsWhitespace(s[i]) then RunEnd(s, i + 1) else i
  }

  /** A run inside `a` ends where it ended in `a` when more text follows;
      a run reaching the end of `a` stops there when `b` does not start
      with whitespace. */
  lemma {:induction false} RunEndAppend(a: string, b: string, i: nat)
    requires i <= |a|
    ensures RunEnd(a, i) < |a| ==> RunEnd(a + b, i) == RunEnd(a, i)
    ensures RunEnd(a, i) == |a| && (|b| == 0 || !IsWhitespace(b[0])) ==> RunEnd(a + b, i) == |a|
    decreases |a| - i
  {
    if i < |a| {
      assert (a + b)[i] == a[i];
      if IsWhitespace(a[i]) {
        RunEndAppend(a, b, i + 1);
      }
    } else if |b| > 0 {
      assert (a + b)[i] == b[0];
    }
  }

  /** Trimming the front of a concatenation: when `a` is not all whitespace
      only `a` is trimmed; when it is, the trim stops where `b` begins, as
      long as `b` does not start with whitespace. */
  lemma TrimStartAppend(a: string, b: string)
    ensures !AllWhitespace(a) ==> TrimStart(a + b) == TrimStart(a) + b
    ensures AllWhitespace(a) && (|b| == 0 || !IsWhitespace(b[0])) ==> TrimStart(a + b) == b
  {
    RunEndAppend(a, b, 0);
    var k := RunEnd(a, 0);
    if k < |a| {
      assert (a + b)[k..] == a[k..] + b;
    } else {
      assert (a + b)[k..] == b;
    }
  }

  /** The start of the whitespace run of `s` that ends at `j`. */
  function RunStart(s: string, j: nat): (n: nat)
    requires j <= |s|
    ensures n <= j
    ensures forall k :: n <= k < j ==> IsWhitespace(s[k])
    ensures n > 0 ==> !IsWhitespace(s[n - 1])
  {
    if j > 0 && IsWhitespace(s[j - 1]) then RunStart(s, j - 1) else j
  }

  /** JavaScript's `s.trimStart()`: what remains is a suffix of `s`, and
      everything cut off is whitespace. */
  function TrimStart(s: string): (r: string)
    ensures |r| <= |s| && r == s[|s| - |r|..]
    ensures AllWhitespace(s[..|s| - |r|])
    ensures |r| > 0 ==> !IsWhitespace(r[0])
    ensures |s| > 0 && IsWhitespace(s[0]) ==> |r| < |s|
  {
    s[RunEnd(s, 0)..]
  }

  /** JavaScript's `s.trimEnd()`: what remains is a prefix of `s`, and
      everything cut off is whitespace. */
  function TrimEnd(s: string): (r: string)
    ensures |r| <= |s| && r == s[..|r|]
    ensures AllWhitespace(s[|r|..])
    ensures |r| > 0 ==> !IsWhitespace(r[|r| - 1])
  {
    s[..RunStart(s, |s|)]
  }

  /** JavaScript's `s.trim()`. */
  function Trim(s: string): string
  {
    TrimEnd(TrimStart(s))
  }

  /** `s` is its trimmed form framed by a whitespace run on either side. */
  lemma TrimDecompose(s: string) returns (lead: string, trail: string)
    ensures AllWhitespace(lead) && AllWhitespace(trail)
    ensures s == lead + Trim(s) + trail
  {
    var t := TrimStart(s);
    var m := TrimEnd(t);
    var a, b := |s| - |t|, |m|;
    lead, trail := s[..a], t[b..];
    CutTwice(s, a, b);
  }

  /** Cutting a sequence at `a` and its remainder at `b` loses nothing. */
  lemma CutTwice<T>(s: seq<T>, a: nat, b: nat)
    requires a <= |s| && b <= |s| - a
    ensures s == s[..a] + s[a..][..b] + s[a..][b..]
  {
    var t := s[a..];
    assert t[..b] + t[b..] == t;
    assert s[..a] + t == s;
    assert s[..a] + t[..b] + t[b..] == s[..a] + (t[..b] + t[b..]);
  }

  /** Trimming removes only whitespace, so other characters keep their counts. */
  lemma TrimKeepsCount(s: string, c: char)
    requires !IsWhitespace(c)
    ensures Count(Trim(s), c) == Count(s, c)
  {
    var lead, trail := TrimDecompose(s);
    WhitespaceCountZero(lead, c);
    WhitespaceCountZero(trail, c);
    CountAppend(lead, Trim(s), c);
    CountAppend(lead + Trim(s), trail, c);
  }

  /** A whitespace run holds no non-whitespace separator. */
  lemma NoSeparatorInWhitespace(w: string, d: char)
    requires AllWhitespace(w) && !IsWhitespace(d)
    ensures d !in w
  {
    assert forall i :: 0 <= i < |w| ==> w[i] != d;
  }

  lemma WhitespaceCountZero(w: string, c: char)
    requires AllWhitespace(w) && !IsWhitespace(c)
    ensures Count(w, c) == 0
  {
    CountBound(w, c);
  }

  // ---------------------------------------------------------------------
  // decimal numerals

  predicate IsDigit(c: char) { '0' <= c <= '9' }

  predicate AllDigits(s: string) { forall i :: 0 <= i < |s| ==> IsDigit(s[i]) }

  /** The value of a string of decimal digits. */
  function DecimalValue(s: string): nat
    requires AllDigits(s)
  {
    if |s| == 0 then 0 else 10 * DecimalValue(s[..|s| - 1]) + (s[|s| - 1] as int - '0' as int)
  }

  /** The decimal numeral of `n`, as JavaScript prints a non-negative integer. */
  function DecimalString(n: nat): (r: string)
    ensures |r| >= 1 && AllDigits(r)
  {
    if n < 10 then [('0' as int + n) as char]
    else DecimalString(n / 10) + [('0' as int + n % 10) as char]
  }

  /** Printing then reading a numeral gives the number back. */
  lemma {:induction false} DecimalRoundTrip(n: nat)
    ensures DecimalValue(DecimalString(n)) == n
  {
    if n >= 10 {
      DecimalRoundTrip(n / 10);
      var s := DecimalString(n);
      assert s[..|s| - 1] == DecimalString(n / 10);
    }
  }

  /** Different numbers have different numerals. */
  lemma DecimalStringInjective(m: nat, n: nat)
    requires m != n
    ensures DecimalString(m) != DecimalString(n)
  {
    DecimalRoundTrip(m);
    DecimalRoundTrip(n);
  }
}
