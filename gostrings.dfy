/** The parts of Go's `strings` and `sort` packages that mssh.go relies on.
    A Go string is a sequence of bytes; here it is a sequence of characters. Every
    separator the shell splits or trims on is an ASCII character, which never occurs
    inside the encoding of another character, so both views split alike. */
module GoStrings {

  /** strings.Split(s, string(sep)): the pieces of `s` between the occurrences of `sep`. */
  function Split(s: string, sep: char): (parts: seq<string>)
    ensures |parts| >= 1
    ensures |parts| == 1 <==> sep !in s
    decreases |s|
  {
    if s == [] then [[]]
    else
      var rest := Split(s[1..], sep);
      assert s == [s[0]] + s[1..];
      if s[0] == sep then [[]] + rest
      else [[s[0]] + rest[0]] + rest[1..]
  }

  /** strings.Join(parts, string(sep)), the inverse of Split. */
  function Join(parts: seq<string>, sep: char): string
  {
    if |parts| == 0 then []
    else if |parts| == 1 then parts[0]
    else parts[0] + [sep] + Join(parts[1..], sep)
  }

  /** No piece of a split holds the separator. */
  lemma {:induction false} SplitPartsFree(s: string, sep: char)
    ensures forall k :: 0 <= k < |Split(s, sep)| ==> sep !in Split(s, sep)[k]
    decreases |s|
  {
    if s != [] {
      SplitPartsFree(s[1..], sep);
      assert s == [s[0]] + s[1..];
    }
  }

  /** Joining the pieces of a split gives back the string. */
  lemma {:induction false} JoinSplit(s: string, sep: char)
    ensures Join(Split(s, sep), sep) == s
    decreases |s|
  {
    if s != [] {
      JoinSplit(s[1..], sep);
      var rest := Split(s[1..], sep);
      if s[0] != sep && |rest| > 1 {
        assert ([[s[0]] + rest[0]] + rest[1..])[1..] == rest[1..];
        assert Join(rest, sep) == rest[0] + [sep] + Join(rest[1..], sep);
      } else if s[0] == sep {
        assert ([[]] + rest)[1..] == rest;
      }
    }
  }

  /** Splitting a string that begins with a piece free of `sep` keeps that piece in front. */
  lemma {:induction false} SplitAppend(p: string, t: string, sep: char)
    requires sep !in p
    ensures Split(p + t, sep) == [p + Split(t, sep)[0]] + Split(t, sep)[1..]
    decreases |p|
  {
    var u := Split(t, sep);
    if p == [] {
      assert p + t == t && p + u[0] == u[0];
      assert [u[0]] + u[1..] == u;
    } else {
      SplitAppend(p[1..], t, sep);
      SplitCons(p[0], p[1..] + t, sep);
      ConsAppend(p, t);
      ConsAppend(p, u[0]);
    }
  }

  lemma ConsAppend(p: string, t: string)
    requires p != []
    ensures p + t == [p[0]] + (p[1..] + t)
  {
  }

  /** Split on a string with a first character other than `sep`: that character joins the
      first piece. */
  lemma SplitCons(c: char, t: string, sep: char)
    requires c != sep
    ensures Split([c] + t, sep) == [[c] + Split(t, sep)[0]] + Split(t, sep)[1..]
  {
    assert ([c] + t)[0] == c && ([c] + t)[1..] == t;
  }

  /** A string without `sep` splits into itself alone. */
  lemma SplitNone(p: string, sep: char)
    requires sep !in p
    ensures Split(p, sep) == [p]
  {
    SplitAppend(p, [], sep);
    assert p + [] == p;
  }

  /** Splitting at an occurrence of `sep` that no earlier one precedes. */
  lemma SplitAt(p: string, t: string, sep: char)
    requires sep !in p
    ensures Split(p + [sep] + t, sep) == [p] + Split(t, sep)
  {
    SplitAppend(p, [sep] + t, sep);
    assert p + [sep] + t == p + ([sep] + t);
    assert ([sep] + t)[1..] == t;
    assert Split([sep] + t, sep) == [[]] + Split(t, sep);
    assert p + [] == p;
  }

  /** Splitting the join of pieces free of `sep` gives back the pieces. */
  lemma {:induction false} SplitJoin(parts: seq<string>, sep: char)
    requires |parts| >= 1
    requires forall k :: 0 <= k < |parts| ==> sep !in parts[k]
    ensures Split(Join(parts, sep), sep) == parts
    decreases |parts|
  {
    if |parts| == 1 {
      SplitNone(parts[0], sep);
    } else {
      SplitJoin(parts[1..], sep);
      SplitAt(parts[0], Join(parts[1..], sep), sep);
      assert [parts[0]] + parts[1..] == parts;
    }
  }

  lemma JoinCons(p: string, rest: seq<string>, sep: char)
    requires |rest| >= 1
    ensures Join([p] + rest, sep) == p + [sep] + Join(rest, sep)
  {
    assert ([p] + rest)[1..] == rest;
  }

  /** The first character of a join is that of its first piece. */
  lemma JoinFirst(parts: seq<string>, sep: char)
    requires |parts| >= 1 && parts[0] != []
    ensures Join(parts, sep) != [] && Join(parts, sep)[0] == parts[0][0]
  {
  }

  /** The last character of a join is that of its last piece. */
  lemma {:induction false} JoinLast(parts: seq<string>, sep: char)
    requires |parts| >= 1 && parts[|parts| - 1] != []
    ensures var s := Join(parts, sep); var last := parts[|parts| - 1];
      s != [] && s[|s| - 1] == last[|last| - 1]
    decreases |parts|
  {
    if |parts| > 1 {
      JoinLast(parts[1..], sep);
    }
  }

  /** strings.IndexByte(s, c): the first position of `c` in `s`, or -1. */
  function IndexByte(s: string, c: char): (k: int)
    ensures -1 <= k < |s|
    ensures k == -1 <==> c !in s
    ensures 0 <= k ==> s[k] == c && c !in s[..k]
    decreases |s|
  {
    if s == [] then -1
    else if s[0] == c then 0
    else
      var k := IndexByte(s[1..], c);
      assert s == [s[0]] + s[1..];
      if k == -1 then -1
      else
        assert s[..k + 1] == [s[0]] + s[1..][..k];
        k + 1
  }

  /** A string is what comes before position k, the character at k, and what follows. */
  lemma Around(s: string, k: nat)
    requires k < |s|
    ensures s == s[..k] + [s[k]] + s[k + 1..]
  {
  }

  /** A slice that spells p + q spells p, then q. */
  lemma SliceParts<T>(s: seq<T>, i: nat, p: seq<T>, q: seq<T>)
    requires i + |p| + |q| <= |s| && s[i..i + |p| + |q|] == p + q
    ensures s[i..i + |p|] == p && s[i + |p|..i + |p| + |q|] == q
  {
    var whole := s[i..i + |p| + |q|];
    forall m | 0 <= m < |p|
      ensures s[i..i + |p|][m] == p[m]
    {
      assert s[i..i + |p|][m] == whole[m] == (p + q)[m];
    }
    forall m | 0 <= m < |q|
      ensures s[i + |p|..i + |p| + |q|][m] == q[m]
    {
      assert s[i + |p|..i + |p| + |q|][m] == whole[|p| + m] == (p + q)[|p| + m];
    }
  }

  /** strings.SplitN(s, string(sep), n) for n >= 1: at most n pieces, split at the first
      occurrences of `sep`; the last piece keeps the rest of `s` unsplit. */
  function SplitN(s: string, sep: char, n: nat): (parts: seq<string>)
    requires n >= 1
    ensures 1 <= |parts| <= n
    ensures Join(parts, sep) == s
    ensures forall k :: 0 <= k < |parts| - 1 ==> sep !in parts[k]
    ensures |parts| < n ==> sep !in parts[|parts| - 1]
    decreases n
  {
    var at := IndexByte(s, sep);
    if n == 1 || at < 0 then [s]
    else
      var rest := SplitN(s[at + 1..], sep, n - 1);
      JoinCons(s[..at], rest, sep);
      Around(s, at);
      [s[..at]] + rest
  }

  /** SplitN(s, sep, n) for n >= 2 of a string whose first piece is free of `sep` cuts at
      the separator after it and splits the rest into at most n - 1 pieces. */
  lemma SplitNCons(p: string, t: string, sep: char, n: nat)
    requires sep !in p && n >= 2
    ensures SplitN(p + [sep] + t, sep, n) == [p] + SplitN(t, sep, n - 1)
  {
    var s := p + [sep] + t;
    var at := IndexByte(s, sep);
    assert s[|p|] == sep;
    assert at == |p| by {
      assert s[..|p|] == p;
    }
    assert s[..at] == p && s[at + 1..] == t;
  }

  /** SplitN(s, sep, 2) of a string with a first piece free of `sep`: the piece and the
      rest. */
  lemma SplitNFirst(p: string, t: string, sep: char)
    requires sep !in p
    ensures SplitN(p + [sep] + t, sep, 2) == [p, t]
  {
    SplitNCons(p, t, sep, 2);
  }

  /** The characters strings.Trim(s, " \t") removes. */
  predicate IsBlank(c: char)
  {
    c == ' ' || c == '\t'
  }

  /** strings.TrimLeft(s, " \t") */
  function TrimLeft(s: string): (r: string)
    ensures |r| <= |s|
    ensures r == [] || !IsBlank(r[0])
    decreases |s|
  {
    if s != [] && IsBlank(s[0]) then TrimLeft(s[1..]) else s
  }

  /** strings.TrimRight(s, " \t") */
  function TrimRight(s: string): (r: string)
    ensures |r| <= |s| && (r != [] ==> r[0] == s[0])
    ensures r == [] || !IsBlank(r[|r| - 1])
    decreases |s|
  {
    if s != [] && IsBlank(s[|s| - 1]) then TrimRight(s[..|s| - 1]) else s
  }

  /** TrimLeft removes a prefix of spaces and tabs. */
  lemma {:induction false} TrimLeftBlanks(s: string)
    ensures TrimLeft(s) == s[|s| - |TrimLeft(s)|..]
    ensures forall k :: 0 <= k < |s| - |TrimLeft(s)| ==> IsBlank(s[k])
    decreases |s|
  {
    if s != [] && IsBlank(s[0]) {
      TrimLeftBlanks(s[1..]);
      assert forall k :: 1 <= k < |s| ==> s[k] == s[1..][k - 1];
    }
  }

  /** TrimRight removes a suffix of spaces and tabs. */
  lemma {:induction false} TrimRightBlanks(s: string)
    ensures TrimRight(s) == s[..|TrimRight(s)|]
    ensures forall k :: |TrimRight(s)| <= k < |s| ==> IsBlank(s[k])
    decreases |s|
  {
    if s != [] && IsBlank(s[|s| - 1]) {
      TrimRightBlanks(s[..|s| - 1]);
    }
  }

  /** strings.Trim(s, " \t"): `s` without its leading and trailing spaces and tabs. */
  function Trim(s: string): (r: string)
    ensures r == [] || (!IsBlank(r[0]) && !IsBlank(r[|r| - 1]))
    ensures s == [] || (!IsBlank(s[0]) && !IsBlank(s[|s| - 1])) ==> r == s
  {
    TrimRight(TrimLeft(s))
  }

  /** Trim cuts a slice out of `s`, and what it cuts off on either side is blank. */
  lemma TrimBlanks(s: string)
    ensures var a, r := |s| - |TrimLeft(s)|, Trim(s);
      && a + |r| <= |s| && r == s[a..a + |r|]
      && (forall k :: 0 <= k < a ==> IsBlank(s[k]))
      && (forall k :: a + |r| <= k < |s| ==> IsBlank(s[k]))
  {
    var t := TrimLeft(s);
    TrimLeftBlanks(s);
    TrimRightBlanks(t);
    BlankTail(s, |s| - |t|, TrimRight(t));
  }

  /** A prefix r of s[a..] followed there only by blanks is the slice of s at a, and
      only blanks follow it in s. */
  lemma BlankTail(s: string, a: nat, r: string)
    requires a <= |s| && |r| <= |s| - a
    requires r == s[a..][..|r|]
    requires forall k :: |r| <= k < |s| - a ==> IsBlank(s[a..][k])
    ensures r == s[a..a + |r|]
    ensures forall k :: a + |r| <= k < |s| ==> IsBlank(s[k])
  {
    forall k | a + |r| <= k < |s|
      ensures IsBlank(s[k])
    {
      assert s[k] == s[a..][k - a];
    }
  }

  /** strings.TrimSuffix(s, "\n"): drops one final newline, if there is one. */
  function TrimNewline(s: string): (r: string)
    ensures r == s || r + "\n" == s
    ensures s == [] || s[|s| - 1] != '\n' ==> r == s
    ensures s != [] && s[|s| - 1] == '\n' ==> |r| == |s| - 1
  {
    if s != [] && s[|s| - 1] == '\n' then s[..|s| - 1] else s
  }

  /** Go's `a < b` on strings: lexicographic order, a proper prefix first. */
  predicate Less(a: string, b: string)
    ensures Less(a, b) ==> b != [] && (a == [] || a[0] <= b[0])
    decreases |a|
  {
    if a == [] then b != []
    else b != [] && (a[0] < b[0] || (a[0] == b[0] && Less(a[1..], b[1..])))
  }

  lemma {:induction false} LessIrreflexive(a: string)
    ensures !Less(a, a)
    decreases |a|
  {
    if a != [] {
      LessIrreflexive(a[1..]);
    }
  }

  lemma {:induction false} LessTransitive(a: string, b: string, c: string)
    requires Less(a, b) && Less(b, c)
    ensures Less(a, c)
    decreases |a|
  {
    if a != [] && a[0] == b[0] && b[0] == c[0] {
      LessTransitive(a[1..], b[1..], c[1..]);
    }
  }

  lemma {:induction false} LessTotal(a: string, b: string)
    requires a != b
    ensures Less(a, b) || Less(b, a)
    decreases |a|
  {
    if a != [] && b != [] && a[0] == b[0] {
      assert a == [a[0]] + a[1..] && b == [b[0]] + b[1..];
      LessTotal(a[1..], b[1..]);
    }
  }

  /** Strictly increasing in Go's string order: what sort.Strings produces from distinct keys. */
  ghost predicate Sorted(s: seq<string>)
  {
    forall i, j :: 0 <= i < j < |s| ==> Less(s[i], s[j])
  }

  lemma SortedCons(x: string, s: seq<string>)
    requires Sorted(s)
    requires s != [] ==> Less(x, s[0])
    ensures Sorted([x] + s)
  {
    forall j | 0 < j < |s|
      ensures Less(x, s[j])
    {
      LessTransitive(x, s[0], s[j]);
    }
  }

  /** Inserts a new string at its place in a sorted sequence. */
  function Insert(s: seq<string>, x: string): (r: seq<string>)
    requires Sorted(s) && x !in s
    ensures Sorted(r)
    ensures |r| == |s| + 1
    ensures forall y :: y in r <==> y in s || y == x
    decreases |s|
  {
    if s == [] || Less(x, s[0]) then
      SortedCons(x, s);
      [x] + s
    else
      LessTotal(x, s[0]);
      var r := Insert(s[1..], x);
      SortedCons(s[0], r);
      [s[0]] + r
  }
}
