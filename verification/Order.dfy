/** Code-point order on strings, and sorting records by a string key.

    Canonical JSON, route reports, the release audit and the parallel aggregation all
    sort by a string key that is unique among the records, so one fact about sorting
    carries all of them: the sorted sequence is determined by the *set* of records. */
module Order {
  /** Python's `<` on strings: lexicographic by code point. */
  predicate Less(a: string, b: string) {
    |b| > 0 && (|a| == 0 || a[0] < b[0] || (a[0] == b[0] && Less(a[1..], b[1..])))
  }

  /** The first string ends at `k`, or has the smaller character there, and they agree before. */
  ghost predicate PartsAt(a: string, b: string, k: nat) {
    k <= |a| && k < |b| && a[..k] == b[..k] && (k == |a| || a[k] < b[k])
  }

  lemma {:induction false} LessMeaning(a: string, b: string)
    ensures Less(a, b) <==> exists k: nat :: PartsAt(a, b, k)
  {
    if Less(a, b) {
      var k := LessParts(a, b);
    }
    if k: nat :| PartsAt(a, b, k) {
      PartsLess(a, b, k);
    }
  }

  lemma {:induction false} LessParts(a: string, b: string) returns (k: nat)
    requires Less(a, b)
    ensures PartsAt(a, b, k)
  {
    if |a| == 0 || a[0] < b[0] {
      k := 0;
    } else {
      var j := LessParts(a[1..], b[1..]);
      k := j + 1;
      assert a[..k] == [a[0]] + a[1..][..j] && b[..k] == [b[0]] + b[1..][..j];
    }
  }

  lemma {:induction false} PartsLess(a: string, b: string, k: nat)
    requires PartsAt(a, b, k)
    ensures Less(a, b)
  {
    if k > 0 {
      assert a[0] == a[..k][0] == b[..k][0] == b[0];
      assert a[1..][..k - 1] == a[..k][1..] && b[1..][..k - 1] == b[..k][1..];
      PartsLess(a[1..], b[1..], k - 1);
    }
  }

  lemma {:induction false} LessTotal(a: string, b: string)
    ensures Less(a, b) || a == b || Less(b, a)
  {
    if |a| > 0 && |b| > 0 && a[0] == b[0] {
      LessTotal(a[1..], b[1..]);
      assert a == [a[0]] + a[1..] && b == [b[0]] + b[1..];
    }
  }

  lemma {:induction false} LessAsymmetric(a: string, b: string)
    requires Less(a, b)
    ensures a != b && !Less(b, a)
  {
    if |a| > 0 && a[0] == b[0] {
      LessAsymmetric(a[1..], b[1..]);
    }
  }

  lemma {:induction false} LessTransitive(a: string, b: string, c: string)
    requires Less(a, b) && Less(b, c)
    ensures Less(a, c)
  {
    if |a| > 0 && a[0] == b[0] && b[0] == c[0] {
      LessTransitive(a[1..], b[1..], c[1..]);
    }
  }

  // ----- sorting by a string key -----

  /** The key of a string sorted by itself. */
  function Self(s: string): string { s }

  ghost predicate DistinctKeys<T(!new)>(key: T -> string, s: seq<T>) {
    forall i, j :: 0 <= i < j < |s| ==> key(s[i]) != key(s[j])
  }

  /** Strictly increasing keys. */
  ghost predicate Ascending<T(!new)>(key: T -> string, s: seq<T>) {
    forall i, j :: 0 <= i < j < |s| ==> Less(key(s[i]), key(s[j]))
  }

  function Insert<T>(key: T -> string, x: T, s: seq<T>): (r: seq<T>)
    ensures |r| == |s| + 1
  {
    if |s| == 0 then [x]
    else if Less(key(s[0]), key(x)) then [s[0]] + Insert(key, x, s[1..])
    else [x] + s
  }

  /** `sorted(s, key=key)`; for unique keys stability plays no part. */
  function SortBy<T>(key: T -> string, s: seq<T>): (r: seq<T>)
    ensures |r| == |s|
  {
    if |s| == 0 then [] else Insert(key, s[0], SortBy(key, s[1..]))
  }

  lemma {:induction false} InsertMembers<T>(key: T -> string, x: T, s: seq<T>, y: T)
    ensures y in Insert(key, x, s) <==> y == x || y in s
  {
    if |s| > 0 {
      assert s == [s[0]] + s[1..];
      if Less(key(s[0]), key(x)) { InsertMembers(key, x, s[1..], y); }
    }
  }

  lemma {:induction false} SortMembers<T>(key: T -> string, s: seq<T>, y: T)
    ensures y in SortBy(key, s) <==> y in s
  {
    if |s| > 0 {
      assert s == [s[0]] + s[1..];
      SortMembers(key, s[1..], y);
      InsertMembers(key, s[0], SortBy(key, s[1..]), y);
    }
  }

  lemma {:induction false} InsertAscending<T(!new)>(key: T -> string, x: T, s: seq<T>)
    requires Ascending(key, s)
    requires forall y :: y in s ==> key(y) != key(x)
    ensures Ascending(key, Insert(key, x, s))
  {
    if |s| > 0 {
      if Less(key(s[0]), key(x)) {
        InsertAscending(key, x, s[1..]);
        var r := Insert(key, x, s[1..]);
        forall j | 0 <= j < |r| ensures Less(key(s[0]), key(r[j])) {
          InsertMembers(key, x, s[1..], r[j]);
        }
      } else {
        LessTotal(key(s[0]), key(x));
        assert s[0] in s;
        forall j | 0 <= j < |s| ensures Less(key(x), key(s[j])) {
          if j > 0 { LessTransitive(key(x), key(s[0]), key(s[j])); }
        }
      }
    }
  }

  lemma {:induction false} SortAscending<T(!new)>(key: T -> string, s: seq<T>)
    requires DistinctKeys(key, s)
    ensures Ascending(key, SortBy(key, s))
  {
    if |s| > 0 {
      SortAscending(key, s[1..]);
      forall y | y in SortBy(key, s[1..]) ensures key(y) != key(s[0]) {
        SortMembers(key, s[1..], y);
      }
      InsertAscending(key, s[0], SortBy(key, s[1..]));
    }
  }

  ghost predicate SameMembers<T(!new)>(s: seq<T>, t: seq<T>) {
    forall x :: x in s <==> x in t
  }

  lemma Nonempty<T>(s: seq<T>)
    requires |s| > 0
    ensures exists x :: x in s
  {
    assert s[0] in s;
  }

  /** An ascending sequence is determined by its set of members. */
  lemma {:induction false} AscendingUnique<T(!new)>(key: T -> string, s: seq<T>, t: seq<T>)
    requires Ascending(key, s) && Ascending(key, t)
    requires SameMembers(s, t)
    ensures s == t
  {
    if |s| == 0 {
      if |t| > 0 { Nonempty(t); assert false; }
    } else {
      assert s[0] in s;
      assert s[0] in t;
      assert t[0] in s;
      AscendingHead(key, s, t[0]);
      AscendingHead(key, t, s[0]);
      if s[0] != t[0] { LessAsymmetric(key(s[0]), key(t[0])); }
      forall x ensures x in s[1..] <==> x in t[1..] {
        AscendingTail(key, s, x);
        AscendingTail(key, t, x);
      }
      AscendingUnique(key, s[1..], t[1..]);
      assert s == [s[0]] + s[1..] && t == [t[0]] + t[1..];
    }
  }

  lemma AscendingHead<T(!new)>(key: T -> string, s: seq<T>, x: T)
    requires Ascending(key, s) && x in s
    ensures x == s[0] || Less(key(s[0]), key(x))
  {
  }

  lemma AscendingTail<T(!new)>(key: T -> string, s: seq<T>, x: T)
    requires Ascending(key, s) && |s| > 0
    ensures x in s[1..] <==> x in s && x != s[0]
  {
    if x == s[0] && x in s[1..] {
      var j :| 0 <= j < |s| - 1 && s[1..][j] == x;
      LessAsymmetric(key(s[0]), key(s[j + 1]));
    }
    assert s == [s[0]] + s[1..];
  }

  /** Sorting by unique keys forgets the input order: records with the same members and
      unique keys sort to the same sequence, whatever order they came in. */
  lemma SortForgetsOrder<T(!new)>(key: T -> string, s: seq<T>, t: seq<T>)
    requires DistinctKeys(key, s) && DistinctKeys(key, t)
    ensures SortBy(key, s) == SortBy(key, t) <==> SameMembers(s, t)
  {
    SortAscending(key, s);
    SortAscending(key, t);
    forall x ensures (x in SortBy(key, s) <==> x in s) && (x in SortBy(key, t) <==> x in t) {
      SortMembers(key, s, x);
      SortMembers(key, t, x);
    }
    if SameMembers(s, t) {
      AscendingUnique(key, SortBy(key, s), SortBy(key, t));
    }
  }

  /** Sorting an ascending sequence changes nothing. */
  lemma SortIdentity<T(!new)>(key: T -> string, s: seq<T>)
    requires Ascending(key, s)
    ensures SortBy(key, s) == s
  {
    forall i, j | 0 <= i < j < |s| ensures key(s[i]) != key(s[j]) {
      LessAsymmetric(key(s[i]), key(s[j]));
    }
    SortAscending(key, s);
    forall x ensures x in SortBy(key, s) <==> x in s { SortMembers(key, s, x); }
    AscendingUnique(key, SortBy(key, s), s);
  }
}
