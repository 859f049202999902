/** Sort keys for `ORDER BY` clauses: a primary timestamp with the row id as
    tie-break, compared lexicographically. */
module Ordering {

  datatype Key = Key(major: int, minor: int)

  /** Strict lexicographic order on keys. */
  predicate Less(a: Key, b: Key) {
    a.major < b.major || (a.major == b.major && a.minor < b.minor)
  }

  /** Every element's key is strictly below the key of every later element.
      This is `Seqs.Pairwise` for the order the key induces, written out so
      that the verifier sees `Less(key(s[i]), key(s[j]))` directly instead of
      through a function value. */
  ghost predicate StrictlyAscending<T>(s: seq<T>, key: T -> Key) {
    forall i, j :: 0 <= i < j < |s| ==> Less(key(s[i]), key(s[j]))
  }

  /** In a strictly ascending sequence every other element lies above the first. */
  lemma FirstIsLeast<T>(s: seq<T>, key: T -> Key, x: T)
    requires StrictlyAscending(s, key)
    requires x in s
    ensures x == s[0] || Less(key(s[0]), key(x))
  {
    var i :| 0 <= i < |s| && s[i] == x;
    if i > 0 {
      assert Less(key(s[0]), key(s[i]));
    }
  }

  /** Two strictly ascending arrangements of the same elements are the same
      sequence: a strictly ordered `ORDER BY` has exactly one answer. */
  lemma {:induction false} AscendingUnique<T>(a: seq<T>, b: seq<T>, key: T -> Key)
    requires StrictlyAscending(a, key) && StrictlyAscending(b, key)
    requires forall x :: x in a <==> x in b
    ensures a == b
    decreases |a|
  {
    if |a| > 0 {
      assert a[0] in b;
    }
    if |b| > 0 {
      assert b[0] in a;
    }
    if |a| > 0 && |b| > 0 {
      FirstIsLeast(b, key, a[0]);
      FirstIsLeast(a, key, b[0]);
      assert a[0] == b[0];
      forall x
        ensures x in a[1..] <==> x in b[1..]
      {
        if x in a[1..] {
          var i :| 1 <= i < |a| && a[i] == x;
          assert Less(key(a[0]), key(a[i]));
          assert x in b;
        }
        if x in b[1..] {
          var j :| 1 <= j < |b| && b[j] == x;
          assert Less(key(b[0]), key(b[j]));
          assert x in a;
        }
      }
      AscendingUnique(a[1..], b[1..], key);
      assert a == [a[0]] + a[1..] && b == [b[0]] + b[1..];
    }
  }
}
