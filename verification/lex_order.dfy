/**
 * Lexicographic order on strings, parameterised by a ranking of characters, and the
 * insertion sort used to order directory keys. Python's `sorted` on `str` is the
 * lexicographic order induced by code points (`CodePoint`), with a proper prefix
 * ordered before its extensions.
 */
module LexOrder {

  /** Python's character order: by code point. */
  function CodePoint(c: char): int {
    c as int
  }

  /** A ranking that places the path separator before every other character. */
  function SeparatorFirst(c: char): int {
    if c == '/' then -1 else c as int
  }

  /** Distinct characters receive distinct ranks. */
  ghost predicate Injective(rank: char -> int) {
    forall a, b :: rank(a) == rank(b) ==> a == b
  }

  lemma RanksAreInjective()
    ensures Injective(CodePoint)
    ensures Injective(SeparatorFirst)
  {
  }

  /** `a` sorts strictly before `b`. */
  predicate Less(a: string, b: string, rank: char -> int)
    decreases |a|
  {
    if |a| == 0 then |b| > 0
    else if |b| == 0 then false
    else if a[0] != b[0] then rank(a[0]) < rank(b[0])
    else Less(a[1..], b[1..], rank)
  }

  predicate IsPrefix(a: string, b: string) {
    |a| <= |b| && b[..|a|] == a
  }

  lemma {:induction false} LessIrreflexive(a: string, rank: char -> int)
    ensures !Less(a, a, rank)
    decreases |a|
  {
    if |a| > 0 {
      LessIrreflexive(a[1..], rank);
    }
  }

  lemma {:induction false} LessAsymmetric(a: string, b: string, rank: char -> int)
    requires Less(a, b, rank)
    ensures !Less(b, a, rank)
    decreases |a|
  {
    if |a| > 0 && |b| > 0 && a[0] == b[0] {
      LessAsymmetric(a[1..], b[1..], rank);
    }
  }

  lemma {:induction false} LessTransitive(a: string, b: string, c: string, rank: char -> int)
    requires Less(a, b, rank) && Less(b, c, rank)
    ensures Less(a, c, rank)
    decreases |a|
  {
    if |a| > 0 && a[0] == b[0] && b[0] == c[0] {
      LessTransitive(a[1..], b[1..], c[1..], rank);
    }
  }

  lemma {:induction false} LessTotal(a: string, b: string, rank: char -> int)
    requires Injective(rank)
    requires a != b
    ensures Less(a, b, rank) || Less(b, a, rank)
    decreases |a|
  {
    if |a| > 0 && |b| > 0 && a[0] == b[0] {
      assert a == [a[0]] + a[1..] && b == [b[0]] + b[1..];
      LessTotal(a[1..], b[1..], rank);
    }
  }

  /** A proper prefix sorts before its extensions, whatever the ranking. */
  lemma {:induction false} PrefixIsLess(a: string, b: string, rank: char -> int)
    requires IsPrefix(a, b) && |a| < |b|
    ensures Less(a, b, rank)
    decreases |a|
  {
    if |a| > 0 {
      assert a[1..] == b[1..][..|a| - 1];
      PrefixIsLess(a[1..], b[1..], rank);
    }
  }

  /** Strings that agree before position `k` and differ at it are ordered by their characters there. */
  lemma {:induction false} LessAt(a: string, b: string, k: int, rank: char -> int)
    requires 0 <= k < |a| && k < |b| && a[..k] == b[..k] && a[k] != b[k]
    ensures Less(a, b, rank) <==> rank(a[k]) < rank(b[k])
    decreases k
  {
    if k > 0 {
      assert a[0] == a[..k][0] && b[0] == b[..k][0];
      assert a[1..][..k - 1] == a[..k][1..] && b[1..][..k - 1] == b[..k][1..];
      LessAt(a[1..], b[1..], k - 1, rank);
    }
  }

  /**
   * `a` sorts before `b` either as a proper prefix of it or because, at the first
   * position where they differ, `a` has the lower-ranked character.
   */
  lemma {:induction false} LessCases(a: string, b: string, rank: char -> int) returns (k: int)
    requires Less(a, b, rank)
    ensures 0 <= k <= |a| && k < |b| && a[..k] == b[..k]
    ensures k == |a| || (a[k] != b[k] && rank(a[k]) < rank(b[k]))
    decreases |a|
  {
    if |a| == 0 || a[0] != b[0] {
      k := 0;
    } else {
      var k' := LessCases(a[1..], b[1..], rank);
      k := k' + 1;
      assert a[..k] == [a[0]] + a[1..][..k'];
      assert b[..k] == [b[0]] + b[1..][..k'];
    }
  }

  /** Every pair of positions is in strictly ascending order of key. */
  ghost predicate SortedBy<T>(s: seq<T>, key: T -> string, rank: char -> int) {
    forall i, j :: 0 <= i < j < |s| ==> Less(key(s[i]), key(s[j]), rank)
  }

  /** No two elements share a key. */
  ghost predicate DistinctKeys<T>(s: seq<T>, key: T -> string) {
    forall i, j :: 0 <= i < j < |s| ==> key(s[i]) != key(s[j])
  }

  function Insert<T>(x: T, s: seq<T>, key: T -> string, rank: char -> int): (r: seq<T>)
    ensures multiset(r) == multiset(s) + multiset{x}
    decreases |s|
  {
    if |s| == 0 then [x]
    else if Less(key(x), key(s[0]), rank) then [x] + s
    else
      assert s == [s[0]] + s[1..];
      [s[0]] + Insert(x, s[1..], key, rank)
  }

  /** Insertion sort by key. */
  function Sort<T>(s: seq<T>, key: T -> string, rank: char -> int): (r: seq<T>)
    ensures multiset(r) == multiset(s)
    decreases |s|
  {
    if |s| == 0 then []
    else
      assert s == [s[0]] + s[1..];
      Insert(s[0], Sort(s[1..], key, rank), key, rank)
  }

  lemma {:induction false} InsertSorted<T>(x: T, s: seq<T>, key: T -> string, rank: char -> int)
    requires Injective(rank)
    requires SortedBy(s, key, rank)
    requires forall i :: 0 <= i < |s| ==> key(s[i]) != key(x)
    ensures SortedBy(Insert(x, s, key, rank), key, rank)
    decreases |s|
  {
    if |s| == 0 {
    } else if Less(key(x), key(s[0]), rank) {
      var r := [x] + s;
      forall i, j | 0 <= i < j < |r|
        ensures Less(key(r[i]), key(r[j]), rank)
      {
        if i == 0 && j > 1 {
          LessTransitive(key(x), key(s[0]), key(s[j - 1]), rank);
        }
      }
    } else {
      LessTotal(key(x), key(s[0]), rank);
      var tail := Insert(x, s[1..], key, rank);
      InsertSorted(x, s[1..], key, rank);
      var r := [s[0]] + tail;
      forall i, j | 0 <= i < j < |r|
        ensures Less(key(r[i]), key(r[j]), rank)
      {
        if i == 0 {
          var y := tail[j - 1];
          assert y in multiset(tail);
          assert y == x || y in multiset(s[1..]);
          if y != x {
            var k :| 1 <= k < |s| && s[k] == y by {
              assert y in s[1..];
            }
          }
        }
      }
    }
  }

  /** The sort yields a strictly ascending permutation when the keys are distinct. */
  lemma {:induction false} SortSorted<T>(s: seq<T>, key: T -> string, rank: char -> int)
    requires Injective(rank)
    requires DistinctKeys(s, key)
    ensures SortedBy(Sort(s, key, rank), key, rank)
    decreases |s|
  {
    if |s| > 0 {
      var rest := Sort(s[1..], key, rank);
      SortSorted(s[1..], key, rank);
      forall i | 0 <= i < |rest|
        ensures key(rest[i]) != key(s[0])
      {
        assert rest[i] in multiset(s[1..]);
        var k :| 0 <= k < |s[1..]| && s[1..][k] == rest[i];
      }
      InsertSorted(s[0], rest, key, rank);
    }
  }

  /** An already ascending sequence is left as it is. */
  lemma {:induction false} SortOfSorted<T>(s: seq<T>, key: T -> string, rank: char -> int)
    requires SortedBy(s, key, rank)
    ensures Sort(s, key, rank) == s
    decreases |s|
  {
    if |s| > 0 {
      SortOfSorted(s[1..], key, rank);
      assert s == [s[0]] + s[1..];
    }
  }
}
