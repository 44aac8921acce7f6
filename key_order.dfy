/** The order in which the transliteration table is tried:
    `sorted(ROMAN_TO_URDU.keys(), key=len, reverse=True)`, a stable sort on
    decreasing key length. Entries are (key, value) pairs in table order. */
module KeyOrder {

  type Entry = (string, string)

  /** Key lengths never grow along `s`. */
  predicate NonIncreasing(s: seq<Entry>)
  {
    forall i, j :: 0 <= i < j < |s| ==> |s[j].0| <= |s[i].0|
  }

  /** The entries of `s` whose key has length `n`, in their order in `s`. */
  function OfLength(s: seq<Entry>, n: nat): (r: seq<Entry>)
    ensures forall e :: e in r <==> e in s && |e.0| == n
  {
    if s == [] then [] else (if |s[0].0| == n then [s[0]] else []) + OfLength(s[1..], n)
  }

  /** The entries of `s` that satisfy `p`, in their order in `s`. */
  function Keep(s: seq<Entry>, p: Entry -> bool): (r: seq<Entry>)
    ensures forall e :: e in r <==> e in s && p(e)
  {
    if s == [] then [] else (if p(s[0]) then [s[0]] else []) + Keep(s[1..], p)
  }

  /** Places `e` in front of the first entry whose key is not longer than its own. */
  function Insert(e: Entry, s: seq<Entry>): (r: seq<Entry>)
    ensures |r| == |s| + 1
    ensures forall x :: x in r <==> x == e || x in s
  {
    if s == [] || |s[0].0| <= |e.0| then [e] + s else [s[0]] + Insert(e, s[1..])
  }

  /** Stable sort on decreasing key length: the result is ordered, holds the same
      entries, and entries whose keys have equal length keep their table order. */
  function SortByKeyLength(s: seq<Entry>): (r: seq<Entry>)
    ensures NonIncreasing(r)
    ensures multiset(r) == multiset(s)
    ensures forall n: nat :: OfLength(r, n) == OfLength(s, n)
  {
    if s == [] then []
    else
      var rest := SortByKeyLength(s[1..]);
      InsertOrdered(s[0], rest);
      InsertMultiset(s[0], rest);
      assert s == [s[0]] + s[1..];
      assert forall n: nat :: OfLength(Insert(s[0], rest), n) == OfLength(s, n) by {
        forall n: nat
          ensures OfLength(Insert(s[0], rest), n) == OfLength(s, n)
        {
          InsertOfLength(s[0], rest, n);
        }
      }
      Insert(s[0], rest)
  }

  /** Sorting neither adds nor drops an entry. */
  lemma SortedMembers(s: seq<Entry>)
    ensures forall e :: e in SortByKeyLength(s) <==> e in s
  {
    var r := SortByKeyLength(s);
    assert forall e :: e in r <==> e in multiset(r);
    assert forall e :: e in s <==> e in multiset(s);
  }

  /** Inserting keeps the order. */
  lemma {:induction false} InsertOrdered(e: Entry, s: seq<Entry>)
    requires NonIncreasing(s)
    ensures NonIncreasing(Insert(e, s))
  {
    if s != [] && |s[0].0| > |e.0| {
      var t := s[1..];
      InsertOrdered(e, t);
      var r := Insert(e, s);
      assert r == [s[0]] + Insert(e, t);
      forall i, j | 0 <= i < j < |r|
        ensures |r[j].0| <= |r[i].0|
      {
        if i == 0 {
          assert r[j] in Insert(e, t);
          assert r[j] == e || r[j] in t;
        } else {
          assert r[i] == Insert(e, t)[i - 1] && r[j] == Insert(e, t)[j - 1];
        }
      }
    }
  }

  /** Inserting adds exactly `e`. */
  lemma {:induction false} InsertMultiset(e: Entry, s: seq<Entry>)
    ensures multiset(Insert(e, s)) == multiset(s) + multiset{e}
  {
    if s != [] && |s[0].0| > |e.0| {
      InsertMultiset(e, s[1..]);
      assert s == [s[0]] + s[1..];
    }
  }

  /** `e` joins the front of its own length class. */
  lemma {:induction false} InsertOfLength(e: Entry, s: seq<Entry>, n: nat)
    ensures OfLength(Insert(e, s), n) == (if |e.0| == n then [e] else []) + OfLength(s, n)
  {
    if s == [] || |s[0].0| <= |e.0| {
      assert Insert(e, s) == [e] + s;
      OfLengthCons(e, s, n);
    } else {
      var t := s[1..];
      InsertOfLength(e, t, n);
      assert Insert(e, s) == [s[0]] + Insert(e, t);
      OfLengthCons(s[0], Insert(e, t), n);
      assert s == [s[0]] + t;
      OfLengthCons(s[0], t, n);
      var inserted := OfLength(Insert(e, t), n);
      if |s[0].0| == n {
        assert |e.0| != n;
        assert inserted == OfLength(t, n);
        assert OfLength(Insert(e, s), n) == [s[0]] + inserted;
        assert OfLength(s, n) == [s[0]] + OfLength(t, n);
      } else {
        assert OfLength(Insert(e, s), n) == inserted;
        assert OfLength(s, n) == OfLength(t, n);
      }
    }
  }

  /** One step of `OfLength`. */
  lemma OfLengthCons(x: Entry, s: seq<Entry>, n: nat)
    ensures OfLength([x] + s, n) == (if |x.0| == n then [x] else []) + OfLength(s, n)
  {
    assert ([x] + s)[0] == x && ([x] + s)[1..] == s;
  }

  /** Python's sort on decreasing length is fully determined by being ordered and
      stable: any ordering of `s` with both properties is `SortByKeyLength(s)`. */
  lemma StableSortUnique(s: seq<Entry>, r: seq<Entry>)
    requires NonIncreasing(r)
    requires forall n: nat :: OfLength(r, n) == OfLength(s, n)
    ensures r == SortByKeyLength(s)
  {
    OrderedUnique(r, SortByKeyLength(s));
  }

  /** Helper: the first key of an ordered sequence is at least as long as any
      key of another sequence with the same length classes. */
  lemma Longest(a: seq<Entry>, b: seq<Entry>)
    requires NonIncreasing(b)
    requires a != []
    requires forall n: nat :: OfLength(a, n) == OfLength(b, n)
    ensures b != [] && |a[0].0| <= |b[0].0|
  {
    assert a[0] in OfLength(a, |a[0].0|);
    assert a[0] in OfLength(b, |a[0].0|);
    var i :| 0 <= i < |b| && b[i] == a[0];
    if i > 0 {
      assert |b[i].0| <= |b[0].0|;
    }
  }

  /** Helper: equal heads leave the tails with the same length classes. */
  lemma TailsAgree(a: seq<Entry>, b: seq<Entry>)
    requires a != [] && b != [] && a[0] == b[0]
    requires forall n: nat :: OfLength(a, n) == OfLength(b, n)
    ensures forall n: nat :: OfLength(a[1..], n) == OfLength(b[1..], n)
  {
    forall n: nat
      ensures OfLength(a[1..], n) == OfLength(b[1..], n)
    {
      var x := if |a[0].0| == n then [a[0]] else [];
      assert a == [a[0]] + a[1..] && b == [b[0]] + b[1..];
      OfLengthCons(a[0], a[1..], n);
      OfLengthCons(b[0], b[1..], n);
      assert x + OfLength(a[1..], n) == x + OfLength(b[1..], n);
      assert OfLength(a[1..], n) == (x + OfLength(a[1..], n))[|x|..];
      assert OfLength(b[1..], n) == (x + OfLength(b[1..], n))[|x|..];
    }
  }

  /** Two ordered sequences with the same length classes are equal. */
  lemma {:induction false} OrderedUnique(a: seq<Entry>, b: seq<Entry>)
    requires NonIncreasing(a) && NonIncreasing(b)
    requires forall n: nat :: OfLength(a, n) == OfLength(b, n)
    ensures a == b
    decreases |a|
  {
    if a != [] {
      Longest(a, b);
      Longest(b, a);
      var la := |a[0].0|;
      assert a == [a[0]] + a[1..] && b == [b[0]] + b[1..];
      OfLengthCons(a[0], a[1..], la);
      OfLengthCons(b[0], b[1..], la);
      assert OfLength(a, la)[0] == a[0] && OfLength(b, la)[0] == b[0];
      TailsAgree(a, b);
      OrderedUnique(a[1..], b[1..]);
    } else if b != [] {
      Longest(b, a);
    }
  }

  /** Keeping only some entries keeps the order. */
  lemma {:induction false} KeepNonIncreasing(s: seq<Entry>, p: Entry -> bool)
    requires NonIncreasing(s)
    ensures NonIncreasing(Keep(s, p))
  {
    if s != [] {
      KeepNonIncreasing(s[1..], p);
      var r := Keep(s, p);
      var t := Keep(s[1..], p);
      if p(s[0]) {
        assert r == [s[0]] + t;
        forall i, j | 0 <= i < j < |r|
          ensures |r[j].0| <= |r[i].0|
        {
          if i == 0 {
            assert r[j] in t;
            assert r[j] in s[1..];
          }
        }
      }
    }
  }

  /** Filtering and taking a length class commute. */
  lemma {:induction false} KeepOfLength(s: seq<Entry>, p: Entry -> bool, n: nat)
    ensures OfLength(Keep(s, p), n) == Keep(OfLength(s, n), p)
  {
    if s != [] {
      KeepOfLength(s[1..], p, n);
      var r := Keep(s, p);
      if p(s[0]) {
        assert r == [s[0]] + Keep(s[1..], p);
        assert r[1..] == Keep(s[1..], p);
      } else {
        assert r == Keep(s[1..], p);
      }
      if |s[0].0| == n {
        assert OfLength(s, n) == [s[0]] + OfLength(s[1..], n);
        assert OfLength(s, n)[1..] == OfLength(s[1..], n);
      } else {
        assert OfLength(s, n) == OfLength(s[1..], n);
      }
    }
  }

  /** Filtering the sorted table is sorting the filtered table, because the
      sort is stable. */
  lemma SortKeep(s: seq<Entry>, p: Entry -> bool)
    ensures Keep(SortByKeyLength(s), p) == SortByKeyLength(Keep(s, p))
  {
    var sorted := SortByKeyLength(s);
    KeepNonIncreasing(sorted, p);
    forall n: nat
      ensures OfLength(Keep(sorted, p), n) == OfLength(Keep(s, p), n)
    {
      KeepOfLength(sorted, p, n);
      KeepOfLength(s, p, n);
    }
    StableSortUnique(Keep(s, p), Keep(sorted, p));
  }
}
