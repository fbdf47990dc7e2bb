/** The few Python `str` operations the protocol code relies on, over
    character sequences: `sub in s`, `s.startswith(p)`, `s.split(sep)`,
    `s.strip(c)` and `str(n)` for a non-negative integer. `Find` (the
    search of `s.find(sub)`) and `Join` (`sep.join(parts)`) are not used by
    the protocol code: they are the means by which `in` and `split` are
    defined and specified (`ContainsIff`, `SplitJoin`). */
module Text {
  import opened Wrappers

  /** `sub` occurs in `s` starting at index `j`. */
  predicate OccursAt(s: string, sub: string, j: int)
  {
    0 <= j && j + |sub| <= |s| && s[j..j + |sub|] == sub
  }

  /** `s.find(sub, i)`: the first index at or after `i` where `sub` occurs. */
  function FindFrom(s: string, sub: string, i: nat): Option<nat>
    decreases |s| - i
  {
    if i + |sub| > |s| then None
    else if s[i..i + |sub|] == sub then Some(i)
    else FindFrom(s, sub, i + 1)
  }

  /** `FindFrom` returns the first occurrence at or after `i`, and nothing
      only when there is none. */
  lemma {:induction false} FindFromSpec(s: string, sub: string, i: nat)
    decreases |s| - i
    ensures var r := FindFrom(s, sub, i);
      && (r.Some? ==> i <= r.value && OccursAt(s, sub, r.value))
      && (r.Some? ==> forall j :: i <= j < r.value ==> !OccursAt(s, sub, j))
      && (r.None? ==> forall j :: i <= j ==> !OccursAt(s, sub, j))
  {
    if i + |sub| <= |s| && s[i..i + |sub|] != sub {
      FindFromSpec(s, sub, i + 1);
    }
  }

  function Find(s: string, sub: string): Option<nat>
  {
    FindFrom(s, sub, 0)
  }

  /** Python's `sub in s`. */
  predicate Contains(s: string, sub: string)
  {
    Find(s, sub).Some?
  }

  /** `sub in s` holds exactly when `sub` occurs somewhere in `s`. */
  lemma ContainsIff(s: string, sub: string)
    ensures Contains(s, sub) <==> exists j :: OccursAt(s, sub, j)
  {
    FindFromSpec(s, sub, 0);
  }

  /** `s.startswith(prefix)`; its definition is its meaning. */
  predicate StartsWith(s: string, prefix: string)
  {
    |prefix| <= |s| && s[..|prefix|] == prefix
  }

  predicate EndsWith(s: string, suffix: string)
  {
    |suffix| <= |s| && s[|s| - |suffix|..] == suffix
  }

  /** `sep.join(parts)`. */
  function Join(parts: seq<string>, sep: string): string
  {
    if |parts| == 0 then ""
    else if |parts| == 1 then parts[0]
    else parts[0] + sep + Join(parts[1..], sep)
  }

  /** `s.split(sep)` for a non-empty separator: the pieces between the
      non-overlapping occurrences of `sep`, scanning from the left. */
  function Split(s: string, sep: string): (r: seq<string>)
    requires sep != []
    decreases |s|
    ensures |r| >= 1
    ensures |r| == 1 <==> !Contains(s, sep)
  {
    match Find(s, sep)
    case None => [s]
    case Some(k) =>
      FindFromSpec(s, sep, 0);
      [s[..k]] + Split(s[k + |sep|..], sep)
  }

  /** Joining the pieces of `s.split(sep)` with `sep` gives back `s`. */
  lemma {:induction false} SplitJoin(s: string, sep: string)
    requires sep != []
    ensures Join(Split(s, sep), sep) == s
    decreases |s|
  {
    match Find(s, sep)
    case None =>
    case Some(k) =>
      FindFromSpec(s, sep, 0);
      var rest := Split(s[k + |sep|..], sep);
      SplitJoin(s[k + |sep|..], sep);
      JoinCons(s[..k], rest, sep);
      Reassemble(s, k, sep);
  }

  lemma JoinCons(a: string, rest: seq<string>, sep: string)
    requires |rest| >= 1
    ensures Join([a] + rest, sep) == a + sep + Join(rest, sep)
  {
    assert ([a] + rest)[1..] == rest;
  }

  /** Cutting `s` around an occurrence of `sep` at `k` and gluing it back. */
  lemma Reassemble(s: string, k: nat, sep: string)
    requires OccursAt(s, sep, k)
    ensures s == s[..k] + sep + s[k + |sep|..]
  {
    assert s[k..k + |sep|] == sep;
  }

  /** No piece of `s.split(sep)` contains `sep`. */
  lemma {:induction false} SplitPiecesFree(s: string, sep: string)
    requires sep != []
    ensures forall k :: 0 <= k < |Split(s, sep)| ==> !Contains(Split(s, sep)[k], sep)
    decreases |s|
  {
    match Find(s, sep)
    case None =>
    case Some(k) =>
      FindFromSpec(s, sep, 0);
      SplitPiecesFree(s[k + |sep|..], sep);
      PrefixHasNoOccurrence(s, sep, k);
  }

  /** No occurrence of `sep` before index `k` of `s` means `s[..k]` does not
      contain `sep`. */
  lemma PrefixHasNoOccurrence(s: string, sep: string, k: nat)
    requires sep != [] && k <= |s|
    requires forall j :: 0 <= j < k ==> !OccursAt(s, sep, j)
    ensures !Contains(s[..k], sep)
  {
    ContainsIff(s[..k], sep);
    forall j | OccursAt(s[..k], sep, j)
      ensures false
    {
      assert s[..k][j..j + |sep|] == s[j..j + |sep|];
      assert OccursAt(s, sep, j);
    }
  }

  /** Splitting at the first occurrence of `sep`: when nothing before the
      separator placed after `a` matches, the first piece is `a`. */
  lemma SplitFirst(a: string, sep: string, b: string)
    requires sep != []
    requires forall j :: 0 <= j < |a| ==> !OccursAt(a + sep + b, sep, j)
    ensures Split(a + sep + b, sep) == [a] + Split(b, sep)
  {
    var s := a + sep + b;
    FindFromSpec(s, sep, 0);
    assert s[|a|..|a| + |sep|] == sep;
    assert OccursAt(s, sep, |a|);
    assert Find(s, sep) == Some(|a|);
    assert s[..|a|] == a;
    assert s[|a| + |sep|..] == b;
  }

  /** The single-character case of `SplitFirst`. */
  lemma SplitFirstChar(a: string, c: char, b: string)
    requires c !in a
    ensures Split(a + [c] + b, [c]) == [a] + Split(b, [c])
  {
    var s := a + [c] + b;
    forall j | 0 <= j < |a|
      ensures !OccursAt(s, [c], j)
    {
      assert s[j..j + 1] == [a[j]];
    }
    SplitFirst(a, [c], b);
  }

  /** For a single character, `[c] in s` is plain membership. */
  lemma ContainsChar(s: string, c: char)
    ensures Contains(s, [c]) <==> c in s
  {
    ContainsIff(s, [c]);
    if c in s {
      var j :| 0 <= j < |s| && s[j] == c;
      assert s[j..j + 1] == [c];
      assert OccursAt(s, [c], j);
    }
    if Contains(s, [c]) {
      var j :| OccursAt(s, [c], j);
      assert s[j..j + 1][0] == s[j];
    }
  }

  /** A string without the separator character splits into itself. */
  lemma SplitNoChar(s: string, c: char)
    requires c !in s
    ensures Split(s, [c]) == [s]
  {
    ContainsChar(s, c);
  }

  /** `s.lstrip(c)`. */
  function StripLeft(s: string, c: char): string
  {
    if s != [] && s[0] == c then StripLeft(s[1..], c) else s
  }

  /** `s.rstrip(c)`. */
  function StripRight(s: string, c: char): string
  {
    if s != [] && s[|s| - 1] == c then StripRight(s[..|s| - 1], c) else s
  }

  /** `s.strip(c)`: both ends. */
  function Strip(s: string, c: char): string
  {
    StripRight(StripLeft(s, c), c)
  }

  /** `lstrip` removes the longest prefix made only of `c`. */
  lemma {:induction false} StripLeftSpec(s: string, c: char)
    ensures var r := StripLeft(s, c);
      && |r| <= |s| && r == s[|s| - |r|..]
      && (forall i :: 0 <= i < |s| - |r| ==> s[i] == c)
      && (r == [] || r[0] != c)
  {
    if s != [] && s[0] == c {
      StripLeftSpec(s[1..], c);
    }
  }

  /** `rstrip` removes the longest suffix made only of `c`. */
  lemma {:induction false} StripRightSpec(s: string, c: char)
    ensures var r := StripRight(s, c);
      && |r| <= |s| && r == s[..|r|]
      && (forall i :: |r| <= i < |s| ==> s[i] == c)
      && (r == [] || r[|r| - 1] != c)
  {
    if s != [] && s[|s| - 1] == c {
      StripRightSpec(s[..|s| - 1], c);
    }
  }

  /** `strip` keeps the middle of `s` between a prefix and a suffix made
      only of `c`, and what it keeps neither starts nor ends with `c`. */
  lemma StripSpec(s: string, c: char)
    ensures var r := Strip(s, c);
      var a := |s| - |StripLeft(s, c)|;
      && 0 <= a && a + |r| <= |s| && r == s[a..a + |r|]
        && (forall i :: 0 <= i < a ==> s[i] == c)
        && (forall i :: a + |r| <= i < |s| ==> s[i] == c)
        && (r == [] || (r[0] != c && r[|r| - 1] != c))
  {
    var l := StripLeft(s, c);
    StripLeftSpec(s, c);
    StripRightSpec(l, c);
    var r := Strip(s, c);
    var a := |s| - |l|;
    assert r == s[a..a + |r|];
    forall i | a + |r| <= i < |s|
      ensures s[i] == c
    {
      assert s[i] == l[i - a];
    }
    if r != [] {
      assert r[0] == l[0];
    }
  }

  /** `s.strip(c)` leaves alone a string that neither starts nor ends with
      `c`, and removes one trailing `c` appended to such a string. */
  lemma StripTrailing(s: string, c: char)
    requires s != [] && s[0] != c && s[|s| - 1] != c
    ensures Strip(s, c) == s && Strip(s + [c], c) == s
  {
    assert (s + [c])[..|s + [c]| - 1] == s;
  }

  predicate IsDigit(ch: char)
  {
    '0' <= ch <= '9'
  }

  predicate AllDigits(s: string)
  {
    forall i :: 0 <= i < |s| ==> IsDigit(s[i])
  }

  function DigitChar(d: nat): (ch: char)
    requires d < 10
    ensures IsDigit(ch)
  {
    (('0' as int) + d) as char
  }

  /** `str(n)` for a non-negative integer: decimal digits, no leading zero. */
  function Decimal(n: nat): (r: string)
    decreases n
    ensures |r| >= 1 && AllDigits(r)
    ensures r[0] == '0' ==> n == 0
  {
    if n < 10 then [DigitChar(n)] else Decimal(n / 10) + [DigitChar(n % 10)]
  }

  /** The value of a string of decimal digits (the reading `int(s)` gives). */
  function DigitsValue(s: string): nat
    requires AllDigits(s)
  {
    if s == [] then 0
    else DigitsValue(s[..|s| - 1]) * 10 + (s[|s| - 1] as int - '0' as int)
  }

  lemma {:induction false} DecimalRoundTrip(n: nat)
    ensures DigitsValue(Decimal(n)) == n
  {
    if n >= 10 {
      DecimalRoundTrip(n / 10);
      var r := Decimal(n);
      assert r[..|r| - 1] == Decimal(n / 10);
    }
  }

  /** Decimal digits contain neither protocol delimiter. */
  lemma DigitsHaveNoDelimiters(s: string)
    requires AllDigits(s)
    ensures ';' !in s && '=' !in s
  {
  }

  /** The first piece of `s.split(c)` is the prefix of `s` up to the first
      `c`, or all of `s` when there is none. */
  lemma FirstPiece(s: string, c: char)
    ensures var p := Split(s, [c])[0];
      |p| <= |s| && p == s[..|p|] && c !in p && (|p| == |s| || s[|p|] == c)
  {
    ContainsChar(s, c);
    FindFromSpec(s, [c], 0);
    match Find(s, [c])
    case None =>
    case Some(k) =>
      assert s[k..k + 1][0] == s[k];
      PrefixHasNoOccurrence(s, [c], k);
      ContainsChar(s[..k], c);
  }

  /** The second piece of `s.split(c)` starts right after the first `c`. */
  lemma SecondPiece(s: string, c: char)
    requires c in s
    ensures var k := |Split(s, [c])[0]|;
      k < |s| && s[k] == c && Find(s, [c]) == Some(k) && Split(s, [c])[1] == Split(s[k + 1..], [c])[0]
  {
    ContainsChar(s, c);
    FindFromSpec(s, [c], 0);
    FirstPiece(s, c);
  }

  /** Splitting at the first `c` of `s`: the first piece, then the pieces of
      what follows that `c`. */
  lemma SplitAtFirstChar(s: string, c: char)
    requires c in s
    ensures var k := |Split(s, [c])[0]|;
      k < |s| && Split(s, [c]) == [s[..k]] + Split(s[k + 1..], [c])
  {
    SecondPiece(s, c);
    FirstPiece(s, c);
  }
}
