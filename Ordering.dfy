/** The key order of a `TreeMap<String, ...>`: Java's `String.compareTo`,
    which compares character by character and puts a proper prefix first.
    The ordered key set of the map is kept as a strictly ascending sequence. */
module Ordering {

  /** `a.compareTo(b) < 0` for text whose characters lie in the Basic
      Multilingual Plane, such as the upper-case hexadecimal digests used as
      keys. Java compares UTF-16 code units, so for characters beyond that
      plane the two orders can differ. */
  predicate Less(a: string, b: string)
  {
    if |a| == 0 then |b| > 0
    else if |b| == 0 then false
    else if a[0] != b[0] then a[0] < b[0]
    else Less(a[1..], b[1..])
  }

  lemma {:induction false} LessIrreflexive(a: string)
    ensures !Less(a, a)
  {
    if |a| > 0 {
      LessIrreflexive(a[1..]);
    }
  }

  /** compareTo is total: two different strings are ordered one way or the other. */
  lemma {:induction false} LessTotal(a: string, b: string)
    ensures a == b || Less(a, b) || Less(b, a)
  {
    if |a| > 0 && |b| > 0 && a[0] == b[0] {
      LessTotal(a[1..], b[1..]);
      if a[1..] == b[1..] {
        assert a == [a[0]] + a[1..] && b == [b[0]] + b[1..];
      }
    }
  }

  lemma {:induction false} LessTransitive(a: string, b: string, c: string)
    requires Less(a, b) && Less(b, c)
    ensures Less(a, c)
  {
    if |a| > 0 && a[0] == b[0] && b[0] == c[0] {
      LessTransitive(a[1..], b[1..], c[1..]);
    }
  }

  lemma LessAsymmetric(a: string, b: string)
    requires Less(a, b)
    ensures !Less(b, a)
  {
    if Less(b, a) {
      LessTransitive(a, b, a);
      LessIrreflexive(a);
    }
  }

  /** Strictly ascending under compareTo, hence without repetitions. */
  predicate Sorted(s: seq<string>)
  {
    forall i, j :: 0 <= i < j < |s| ==> Less(s[i], s[j])
  }

  /** The key sequence after `put` of key `k` into a map whose ascending keys are `s`. */
  function InsertSorted(s: seq<string>, k: string): (r: seq<string>)
    requires Sorted(s)
    ensures Sorted(r)
    ensures forall x :: x in r <==> x in s || x == k
    ensures k in s ==> r == s
    ensures k !in s ==> |r| == |s| + 1
  {
    if |s| == 0 then [k]
    else if k == s[0] then s
    else if Less(k, s[0]) then
      assert forall j :: 0 <= j < |s| ==> Less(k, s[j]) by {
        forall j | 0 < j < |s| ensures Less(k, s[j]) {
          LessTransitive(k, s[0], s[j]);
        }
      }
      assert k !in s by { LessIrreflexive(k); }
      [k] + s
    else
      LessTotal(k, s[0]);
      var rest := InsertSorted(s[1..], k);
      assert s == [s[0]] + s[1..];
      assert forall j :: 0 <= j < |rest| ==> Less(s[0], rest[j]) by {
        forall j | 0 <= j < |rest| ensures Less(s[0], rest[j]) {
          if rest[j] != k {
            assert rest[j] in s[1..];
          }
        }
      }
      [s[0]] + rest
  }

  /** A strictly ascending sequence has as many elements as its set. */
  lemma {:induction false} SortedCard(s: seq<string>)
    requires Sorted(s)
    ensures |set x | x in s| == |s|
  {
    if |s| > 0 {
      var t := s[..|s| - 1];
      SortedCard(t);
      assert (set x | x in s) == (set x | x in t) + {s[|s| - 1]};
      assert s[|s| - 1] !in t by {
        if s[|s| - 1] in t {
          var i :| 0 <= i < |t| && t[i] == s[|s| - 1];
          LessIrreflexive(s[i]);
        }
      }
    }
  }

  /** The ascending enumeration of a key set is unique: two strictly
      ascending sequences with the same elements are equal. */
  lemma {:induction false} SortedUnique(a: seq<string>, b: seq<string>)
    requires Sorted(a) && Sorted(b)
    requires forall x :: x in a <==> x in b
    ensures a == b
  {
    assert |a| > 0 ==> a[0] in b;
    assert |b| > 0 ==> b[0] in a;
    if |a| > 0 && |b| > 0 {
      assert a[0] == b[0] by {
        assert a[0] in a && b[0] in b;
        var i :| 0 <= i < |b| && b[i] == a[0];
        var j :| 0 <= j < |a| && a[j] == b[0];
        if i > 0 && j > 0 {
          LessTransitive(a[0], a[j], a[0]);
          LessIrreflexive(a[0]);
        } else if i > 0 {
          LessIrreflexive(b[0]);
        } else if j > 0 {
          LessIrreflexive(a[0]);
        }
      }
      forall x ensures x in a[1..] <==> x in b[1..] {
        if x in a[1..] {
          var i :| 1 <= i < |a| && a[i] == x;
          assert x != a[0] by { LessIrreflexive(a[0]); }
          assert x in b;
        }
        if x in b[1..] {
          var i :| 1 <= i < |b| && b[i] == x;
          assert x != b[0] by { LessIrreflexive(b[0]); }
          assert x in a;
        }
      }
      SortedUnique(a[1..], b[1..]);
      assert a == [a[0]] + a[1..] && b == [b[0]] + b[1..];
    }
  }
}
