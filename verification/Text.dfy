/** Strings: the order the source sorts by, splitting at a separator, and trimming. */
module Text {

  // ---- The lexicographic order ---------------------------------------------------------

  predicate Leq(a: string, b: string) {
    a == [] || (b != [] && (a[0] < b[0] || (a[0] == b[0] && Leq(a[1..], b[1..]))))
  }

  lemma {:induction false} LeqTotal(a: string, b: string)
    ensures Leq(a, b) || Leq(b, a)
  {
    if a != [] && b != [] && a[0] == b[0] {
      LeqTotal(a[1..], b[1..]);
    }
  }

  lemma {:induction false} LeqAntisymmetric(a: string, b: string)
    requires Leq(a, b) && Leq(b, a)
    ensures a == b
  {
    if a != [] {
      LeqAntisymmetric(a[1..], b[1..]);
      assert a == [a[0]] + a[1..] && b == [b[0]] + b[1..];
    }
  }

  lemma {:induction false} LeqTransitive(a: string, b: string, c: string)
    requires Leq(a, b) && Leq(b, c)
    ensures Leq(a, c)
  {
    if a != [] && a[0] == b[0] == c[0] {
      LeqTransitive(a[1..], b[1..], c[1..]);
    }
  }

  // ---- Separators ----------------------------------------------------------------------

  /** Two strings glued at the first separator come apart in one way only. */
  lemma {:induction false} SplitOnce(a: string, x: string, b: string, y: string, separator: char)
    requires a + [separator] + x == b + [separator] + y
    requires separator !in a && separator !in b
    ensures a == b && x == y
  {
    var s := a + [separator] + x;
    assert s[|a|] == separator && s[|b|] == separator;
    assert forall i | 0 <= i < |a| :: s[i] == a[i];
    assert forall i | 0 <= i < |b| :: s[i] == b[i];
    assert |a| == |b|;
    assert s[..|a|] == a && s[..|b|] == b;
    assert s[|a| + 1..] == x && s[|b| + 1..] == y;
  }

  function Join(parts: seq<string>, separator: char): string {
    if parts == [] then ""
    else if |parts| == 1 then parts[0]
    else parts[0] + [separator] + Join(parts[1..], separator)
  }

  lemma {:induction false} JoinLacks(parts: seq<string>, separator: char, c: char)
    requires c != separator && forall p | p in parts :: c !in p
    ensures c !in Join(parts, separator)
  {
    if |parts| > 1 {
      JoinLacks(parts[1..], separator, c);
    }
  }

  lemma JoinShape(p: seq<string>, separator: char)
    requires forall s | s in p :: s != [] && separator !in s
    ensures p == [] <==> Join(p, separator) == ""
    ensures |p| > 1 <==> separator in Join(p, separator)
  {
    if p != [] {
      assert p[0] in p;
    }
  }

  /** Joining loses nothing when no part is empty or contains the separator. */
  lemma {:induction false} JoinInjective(p: seq<string>, q: seq<string>, separator: char)
    requires Join(p, separator) == Join(q, separator)
    requires forall s | s in p :: s != [] && separator !in s
    requires forall s | s in q :: s != [] && separator !in s
    ensures p == q
  {
    JoinShape(p, separator);
    JoinShape(q, separator);
    if |p| == 1 {
      assert p == [p[0]] && q == [q[0]];
    } else if |p| > 1 {
      SplitOnce(p[0], Join(p[1..], separator), q[0], Join(q[1..], separator), separator);
      assert forall s | s in p[1..] :: s in p;
      assert forall s | s in q[1..] :: s in q;
      JoinInjective(p[1..], q[1..], separator);
      assert p == [p[0]] + p[1..] && q == [q[0]] + q[1..];
    }
  }

  // ---- Trimming ------------------------------------------------------------------------

  function TrimLeft(s: string, drop: char -> bool): (r: string)
    ensures |r| <= |s| && r == s[|s| - |r|..]
    ensures r != [] ==> !drop(r[0])
  {
    if s == [] || !drop(s[0]) then s else TrimLeft(s[1..], drop)
  }

  function TrimRight(s: string, drop: char -> bool): (r: string)
    ensures |r| <= |s| && r == s[..|r|]
    ensures r != [] ==> !drop(r[|r| - 1])
  {
    if s == [] || !drop(s[|s| - 1]) then s else TrimRight(s[..|s| - 1], drop)
  }

  function Trim(s: string, drop: char -> bool): (r: string)
    ensures r != [] ==> !drop(r[0]) && !drop(r[|r| - 1])
    ensures |r| <= |s|
  {
    TrimRight(TrimLeft(s, drop), drop)
  }

  lemma TrimLacks(s: string, drop: char -> bool, c: char)
    requires c !in s
    ensures c !in Trim(s, drop)
  {
  }

  lemma TrimTwice(s: string, drop: char -> bool)
    ensures Trim(Trim(s, drop), drop) == Trim(s, drop)
  {
  }

  lemma TrimFixes(s: string, drop: char -> bool)
    requires s != "" && !drop(s[0]) && !drop(s[|s| - 1])
    ensures Trim(s, drop) == s
  {
    assert TrimLeft(s, drop) == s;
  }

  lemma TrimFirst(c: char, s: string, drop: char -> bool)
    requires drop(c) && s != "" && !drop(s[0]) && !drop(s[|s| - 1])
    ensures Trim([c] + s, drop) == s
  {
    assert ([c] + s)[1..] == s;
    assert TrimLeft([c] + s, drop) == s;
  }

  predicate Dash(c: char) {
    c == '-'
  }

  function MapChars(s: string, f: char -> char): (r: string)
    ensures |r| == |s| && forall i | 0 <= i < |s| :: r[i] == f(s[i])
  {
    seq(|s|, i requires 0 <= i < |s| => f(s[i]))
  }

  // ---- Numbers in messages -------------------------------------------------------------

  function Digits(n: nat): string {
    if n < 10 then [('0' as int + n) as char] else Digits(n / 10) + [('0' as int + n % 10) as char]
  }

  function Decimal(n: int): string {
    if n < 0 then "-" + Digits(-n) else Digits(n)
  }
}
