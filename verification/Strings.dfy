/** The string operations of Go's `strings` package that the tool uses. */
module Strings {

  predicate HasPrefix(s: string, p: string) {
    p <= s
  }

  predicate HasSuffix(s: string, p: string) {
    |p| <= |s| && s[|s| - |p|..] == p
  }

  predicate Contains(s: string, p: string) {
    exists i :: 0 <= i <= |s| && p <= s[i..]
  }

  function TrimPrefix(s: string, p: string): string {
    if HasPrefix(s, p) then s[|p|..] else s
  }

  function TrimSuffix(s: string, p: string): string {
    if HasSuffix(s, p) then s[..|s| - |p|] else s
  }

  /** The position of the first `c`, or the length of `s`. */
  function IndexOf(s: string, c: char): (i: nat)
    ensures i <= |s|
    ensures c !in s[..i]
    ensures i < |s| ==> s[i] == c
    ensures i == |s| <==> c !in s
  {
    if s == "" || s[0] == c then 0
    else
      var i := 1 + IndexOf(s[1..], c);
      assert s[..i] == [s[0]] + s[1..][..i - 1];
      i
  }

  /** A prefix can be followed by any text, a suffix preceded by any text. */
  lemma AffixesExact(s: string, p: string)
    ensures HasPrefix(s, p) <==> exists b: string :: s == p + b
    ensures HasSuffix(s, p) <==> exists a: string :: s == a + p
  {
    if HasPrefix(s, p) {
      assert s == p + s[|p|..];
    }
    if HasSuffix(s, p) {
      assert s == s[..|s| - |p|] + p;
    }
  }

  /** A contained text can stand anywhere. */
  lemma ContainsExact(s: string, p: string)
    ensures Contains(s, p) <==> exists a: string, b: string :: s == a + p + b
  {
    if i :| 0 <= i <= |s| && p <= s[i..] {
      ContainedAt(s, p, i);
    }
    if a: string, b: string :| s == a + p + b {
      assert s[|a|..] == p + b;
    }
  }

  lemma ContainedAt(s: string, p: string, i: nat)
    requires i <= |s| && p <= s[i..]
    ensures s == s[..i] + p + s[i + |p|..]
  {
    assert s[i..] == p + s[i..][|p|..];
  }

  // ---- Splitting and joining at colons -----------------------------------

  /** The pieces between colons; an empty string is one empty piece. */
  function Split(s: string): (parts: seq<string>)
    ensures |parts| > 0
    decreases |s|
  {
    var i := IndexOf(s, ':');
    if i == |s| then [s] else [s[..i]] + Split(s[i + 1..])
  }

  function Join(parts: seq<string>): (s: string) {
    if parts == [] then ""
    else if |parts| == 1 then parts[0]
    else parts[0] + ":" + Join(parts[1..])
  }

  predicate ColonFree(parts: seq<string>) {
    forall i :: 0 <= i < |parts| ==> ':' !in parts[i]
  }

  lemma JoinCons(a: string, rest: seq<string>)
    requires |rest| > 0
    ensures Join([a] + rest) == a + ":" + Join(rest)
  {
    assert ([a] + rest)[1..] == rest;
  }

  /** Joining inverts splitting, and no piece contains a colon. */
  lemma {:induction false} JoinSplit(s: string)
    ensures Join(Split(s)) == s
    ensures ColonFree(Split(s))
    decreases |s|
  {
    var i := IndexOf(s, ':');
    if i < |s| {
      var rest := s[i + 1..];
      JoinSplit(rest);
      JoinCons(s[..i], Split(rest));
      assert s == s[..i] + ":" + rest;
    }
  }

  lemma {:induction false} IndexAfter(a: string, b: string)
    requires ':' !in a
    ensures IndexOf(a + ":" + b, ':') == |a|
  {
    if a != "" {
      assert a[0] in a;
      assert (a + ":" + b)[1..] == a[1..] + ":" + b;
      IndexAfter(a[1..], b);
    }
  }

  /** Colon-free pieces come back from their joined form. */
  lemma {:induction false} SplitJoin(parts: seq<string>)
    requires |parts| > 0 && ColonFree(parts)
    ensures Split(Join(parts)) == parts
  {
    var a := parts[0];
    if |parts| == 1 {
      assert IndexOf(a, ':') == |a|;
      assert parts == [a];
    } else {
      var b := Join(parts[1..]);
      IndexAfter(a, b);
      assert (a + ":" + b)[..|a|] == a && (a + ":" + b)[|a| + 1..] == b;
      SplitJoin(parts[1..]);
      assert parts == [a] + parts[1..];
    }
  }

  /** Splitting inverts joining exactly on non-empty lists of colon-free pieces. */
  lemma SplitJoinExact(parts: seq<string>)
    ensures Split(Join(parts)) == parts <==> |parts| > 0 && ColonFree(parts)
  {
    JoinSplit(Join(parts));
    if |parts| > 0 && ColonFree(parts) {
      SplitJoin(parts);
    }
  }

  lemma {:induction false} JoinConcat(a: seq<string>, b: seq<string>)
    requires |a| > 0 && |b| > 0
    ensures Join(a + b) == Join(a) + ":" + Join(b)
  {
    if |a| == 1 {
      assert (a + b)[1..] == b;
    } else {
      assert (a + b)[1..] == a[1..] + b;
      JoinConcat(a[1..], b);
    }
  }

  // ---- Byte order --------------------------------------------------------

  /** Lexicographic order. */
  predicate StrLe(a: string, b: string) {
    if a == "" then true
    else if b == "" then false
    else if a[0] != b[0] then a[0] < b[0]
    else StrLe(a[1..], b[1..])
  }

  lemma {:induction false} StrLeTotal(a: string, b: string)
    ensures StrLe(a, b) || StrLe(b, a)
  {
    if a != "" && b != "" && a[0] == b[0] {
      StrLeTotal(a[1..], b[1..]);
    }
  }

  lemma {:induction false} StrLeTransitive(a: string, b: string, c: string)
    requires StrLe(a, b) && StrLe(b, c)
    ensures StrLe(a, c)
  {
    if a != "" && a[0] == b[0] && b[0] == c[0] {
      StrLeTransitive(a[1..], b[1..], c[1..]);
    }
  }

  lemma {:induction false} StrLeAntisymmetric(a: string, b: string)
    requires StrLe(a, b) && StrLe(b, a)
    ensures a == b
  {
    if a != "" && b != "" {
      StrLeAntisymmetric(a[1..], b[1..]);
      assert a == [a[0]] + a[1..] && b == [b[0]] + b[1..];
    }
  }

  /** At the first difference the smaller character decides; a prefix comes before what extends it. */
  lemma {:induction false} StrLeExact(a: string, b: string)
    ensures StrLe(a, b) <==> a <= b || exists k: nat :: k < |a| && k < |b| && a[..k] == b[..k] && a[k] < b[k]
  {
    if a != "" && b != "" && a[0] == b[0] {
      StrLeExact(a[1..], b[1..]);
      if k: nat :| k < |a| && k < |b| && a[..k] == b[..k] && a[k] < b[k] {
        assert a[1..][..k - 1] == a[..k][1..] && b[1..][..k - 1] == b[..k][1..];
        assert a[1..][k - 1] < b[1..][k - 1];
      }
      if k: nat :| k < |a| - 1 && k < |b| - 1 && a[1..][..k] == b[1..][..k] && a[1..][k] < b[1..][k] {
        assert a[..k + 1] == [a[0]] + a[1..][..k] && b[..k + 1] == [b[0]] + b[1..][..k];
        assert a[k + 1] < b[k + 1];
      }
    } else if a != "" && b != "" && a[0] < b[0] {
      assert a[..0] == b[..0];
    }
  }

  predicate Sorted(s: seq<string>) {
    forall i, j :: 0 <= i < j < |s| ==> StrLe(s[i], s[j])
  }
}
