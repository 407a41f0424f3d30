/**
 Text as the estate's scripts take it apart and put it together: split on one character, join
 with one, an ordinal order, and decimal numbers.
 */
module Text {

  /** -split, String.Split: the parts between the separators, an empty text being one empty part. */
  function Split(s: string, c: char): (parts: seq<string>)
    ensures |parts| >= 1
  {
    if s == "" then [""]
    else
      var rest := Split(s[1..], c);
      if s[0] == c then [""] + rest else [[s[0]] + rest[0]] + rest[1..]
  }

  /** -join. */
  function Join(parts: seq<string>, c: char): string {
    if parts == [] then ""
    else if |parts| == 1 then parts[0]
    else parts[0] + [c] + Join(parts[1..], c)
  }

  predicate Free(parts: seq<string>, c: char) {
    forall p :: p in parts ==> c !in p
  }

  lemma {:induction false} SplitIsFree(s: string, c: char)
    ensures Free(Split(s, c), c)
  {
    if s != "" {
      SplitIsFree(s[1..], c);
      assert forall p :: p in Split(s[1..], c)[1..] ==> p in Split(s[1..], c);
    }
  }

  lemma {:induction false} JoinOfSplit(s: string, c: char)
    ensures Join(Split(s, c), c) == s
  {
    if s != "" {
      JoinOfSplit(s[1..], c);
      var rest := Split(s[1..], c);
      assert rest == [rest[0]] + rest[1..];
      if s[0] == c {
        assert (([""] + rest))[1..] == rest;
      } else if |rest| > 1 {
        assert ([[s[0]] + rest[0]] + rest[1..])[1..] == rest[1..];
      }
    }
  }

  lemma {:induction false} SplitAtFirst(p: string, c: char, s: string)
    requires c !in p
    ensures Split(p, c) == [p]
    ensures Split(p + [c] + s, c) == [p] + Split(s, c)
  {
    if p == "" {
      assert "" + [c] + s == [c] + s && ([c] + s)[1..] == s;
    } else {
      SplitAtFirst(p[1..], c, s);
      assert (p + [c] + s)[1..] == p[1..] + [c] + s;
      assert p == [p[0]] + p[1..];
      assert ([p[1..]] + Split(s, c))[1..] == Split(s, c);
    }
  }

  lemma {:induction false} SplitOfJoin(parts: seq<string>, c: char)
    requires |parts| >= 1 && Free(parts, c)
    ensures Split(Join(parts, c), c) == parts
  {
    SplitAtFirst(parts[0], c, "");
    if |parts| > 1 {
      SplitOfJoin(parts[1..], c);
      SplitAtFirst(parts[0], c, Join(parts[1..], c));
    }
    assert parts == [parts[0]] + parts[1..];
  }

  /** Joining is one-to-one on parts that do not hold the separator. */
  lemma JoinIsInjective(a: seq<string>, b: seq<string>, c: char)
    requires |a| >= 1 && |b| >= 1 && Free(a, c) && Free(b, c)
    requires Join(a, c) == Join(b, c)
    ensures a == b
  {
    SplitOfJoin(a, c);
    SplitOfJoin(b, c);
  }

  lemma {:induction false} JoinAppend(a: seq<string>, b: seq<string>, c: char)
    requires |a| >= 1 && |b| >= 1
    ensures Join(a + b, c) == Join(a, c) + [c] + Join(b, c)
  {
    if |a| == 1 {
      assert (a + b)[1..] == b;
    } else {
      assert (a + b)[1..] == a[1..] + b;
      JoinAppend(a[1..], b, c);
    }
  }

  lemma SplitOfConcat(a: string, c: char, b: string)
    ensures Split(a + [c] + b, c) == Split(a, c) + Split(b, c)
  {
    var parts := Split(a, c);
    SplitIsFree(a, c);
    JoinOfSplit(a, c);
    SplitIsFree(b, c);
    JoinOfSplit(b, c);
    JoinAppend(parts, Split(b, c), c);
    SplitOfJoin(parts + Split(b, c), c);
  }

  /** A text begins with another followed by the separator exactly when its parts begin with the other's. */
  lemma {:induction false} PrefixOfJoin(a: seq<string>, b: seq<string>, c: char)
    requires |a| >= 1 && |b| >= 1 && Free(a, c) && Free(b, c)
    ensures Join(a, c) + [c] <= Join(b, c) + [c] <==> a <= b
  {
    if a <= b {
      if |a| < |b| {
        assert b == a + b[|a|..];
        JoinAppend(a, b[|a|..], c);
      } else {
        assert a == b;
      }
    }
    if Join(a, c) + [c] <= Join(b, c) + [c] {
      var rest := (Join(b, c) + [c])[|Join(a, c)| + 1..];
      assert Join(b, c) + [c] == Join(a, c) + [c] + rest;
      if rest == "" {
        assert Join(b, c) == (Join(b, c) + [c])[..|Join(b, c)|] == Join(a, c);
        JoinIsInjective(a, b, c);
      } else {
        var more := rest[..|rest| - 1];
        assert rest == more + [rest[|rest| - 1]] && rest[|rest| - 1] == c;
        assert Join(b, c) == (Join(b, c) + [c])[..|Join(b, c)|];
        assert Join(b, c) == Join(a, c) + [c] + more;
        JoinOfSplit(more, c);
        SplitIsFree(more, c);
        JoinAppend(a, Split(more, c), c);
        JoinIsInjective(a + Split(more, c), b, c);
      }
    }
  }

  /** What precedes the first c, or everything. */
  function Before(s: string, c: char): (p: string)
    ensures p <= s && c !in p
    ensures p == s <==> c !in s
    ensures |p| < |s| ==> s[|p|] == c
  {
    if s == "" || s[0] == c then "" else [s[0]] + Before(s[1..], c)
  }

  lemma {:induction false} BeforeFirst(p: string, c: char, s: string)
    requires c !in p
    ensures Before(p + [c] + s, c) == p
  {
    if p == "" {
      assert "" + [c] + s == [c] + s;
    } else {
      assert (p + [c] + s)[1..] == p[1..] + [c] + s;
      BeforeFirst(p[1..], c, s);
    }
  }

  // ---------------------------------------------------------------- trimming

  const WHITE: set<char> := {' ', '\t', '\r', '\n'}

  const QUOTE: set<char> := {'"'}

  function TrimStart(s: string, these: set<char>): string {
    if s != "" && s[0] in these then TrimStart(s[1..], these) else s
  }

  function TrimEnd(s: string, these: set<char>): string {
    if s != "" && s[|s| - 1] in these then TrimEnd(s[..|s| - 1], these) else s
  }

  /** String.Trim: none of these characters left at either end. */
  function Trim(s: string, these: set<char>): string {
    TrimEnd(TrimStart(s, these), these)
  }

  predicate Trimmed(s: string, these: set<char>) {
    s == "" || (s[0] !in these && s[|s| - 1] !in these)
  }

  lemma {:induction false} TrimStartGives(s: string, these: set<char>)
    ensures var t := TrimStart(s, these); |t| <= |s| && t == s[|s| - |t|..] && (t == "" || t[0] !in these)
    ensures TrimStart(s, these) == s <==> s == "" || s[0] !in these
  {
    if s != "" && s[0] in these {
      TrimStartGives(s[1..], these);
    }
  }

  lemma {:induction false} TrimEndGives(s: string, these: set<char>)
    ensures var t := TrimEnd(s, these); t <= s && (t == "" || t[|t| - 1] !in these)
    ensures TrimEnd(s, these) == s <==> s == "" || s[|s| - 1] !in these
  {
    if s != "" && s[|s| - 1] in these {
      TrimEndGives(s[..|s| - 1], these);
    }
  }

  /** Trimming trims, and leaves alone exactly what is trimmed already. */
  lemma TrimGives(s: string, these: set<char>)
    ensures Trimmed(Trim(s, these), these) && |Trim(s, these)| <= |s|
    ensures Trim(s, these) == s <==> Trimmed(s, these)
  {
    TrimStartGives(s, these);
    TrimEndGives(TrimStart(s, these), these);
  }

  // ---------------------------------------------------------------- order

  /** Ordinal order: character by character, a prefix before what it begins. */
  predicate AtMost(a: string, b: string) {
    a == "" || (b != "" && (a[0] < b[0] || (a[0] == b[0] && AtMost(a[1..], b[1..]))))
  }

  lemma {:induction false} AtMostIsTotal(a: string, b: string)
    ensures AtMost(a, b) || AtMost(b, a)
    ensures AtMost(a, b) && AtMost(b, a) ==> a == b
  {
    if a != "" && b != "" {
      AtMostIsTotal(a[1..], b[1..]);
      assert a == [a[0]] + a[1..] && b == [b[0]] + b[1..];
    }
  }

  lemma {:induction false} AtMostIsTransitive(a: string, b: string, c: string)
    requires AtMost(a, b) && AtMost(b, c)
    ensures AtMost(a, c)
  {
    if a != "" && a[0] == b[0] && b[0] == c[0] {
      AtMostIsTransitive(a[1..], b[1..], c[1..]);
    }
  }

  /** Where the first k characters agree, a has ended or has the smaller next one. */
  ghost predicate FirstDiffersAt(a: string, b: string, k: nat) {
    && k <= |a| && k <= |b|
    && (forall i :: 0 <= i < k ==> a[i] == b[i])
    && (k == |a| || (k < |b| && a[k] < b[k]))
  }

  /** Dictionary order: one begins the other, or is smaller where they first differ. */
  ghost predicate InDictionary(a: string, b: string) {
    exists k: nat :: FirstDiffersAt(a, b, k)
  }

  lemma {:induction false} AtMostIsDictionary(a: string, b: string)
    ensures AtMost(a, b) <==> InDictionary(a, b)
  {
    if a == "" {
      assert FirstDiffersAt(a, b, 0);
    } else if b != "" && a[0] < b[0] {
      assert FirstDiffersAt(a, b, 0);
    } else if b != "" && a[0] == b[0] {
      AtMostIsDictionary(a[1..], b[1..]);
      if k: nat :| FirstDiffersAt(a[1..], b[1..], k) {
        assert FirstDiffersAt(a, b, k + 1);
      }
      if k: nat :| FirstDiffersAt(a, b, k) {
        assert FirstDiffersAt(a[1..], b[1..], k - 1);
      }
    }
  }

  // ---------------------------------------------------------------- numbers

  predicate IsDigit(c: char) {
    '0' <= c <= '9'
  }

  function DigitOf(n: nat): char
    requires n < 10
  {
    '0' + n as char
  }

  /** A whole number in decimal, as PowerShell writes it. */
  function Decimal(n: nat): (s: string)
    ensures s != "" && forall c :: c in s ==> IsDigit(c)
  {
    if n < 10 then [DigitOf(n)] else Decimal(n / 10) + [DigitOf(n % 10)]
  }

  /** The number a run of digits stands for. */
  function Number(s: string): nat
    requires forall c :: c in s ==> IsDigit(c)
  {
    if s == "" then 0
    else
      assert s[|s| - 1] in s && IsDigit(s[|s| - 1]) && forall c :: c in s[..|s| - 1] ==> c in s;
      10 * Number(s[..|s| - 1]) + (s[|s| - 1] as nat - '0' as nat)
  }

  lemma {:induction false} NumberOfDecimal(n: nat)
    ensures Number(Decimal(n)) == n
  {
    if n < 10 {
      assert [DigitOf(n)][..0] == "";
    } else {
      NumberOfDecimal(n / 10);
      var front := Decimal(n / 10);
      assert Decimal(n)[..|Decimal(n)| - 1] == front;
    }
  }
}
