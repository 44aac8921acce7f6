/** Literal, case-insensitive replacement of every occurrence of a key, as done by
    a regular expression compiled from an escaped literal with the IGNORECASE
    flag (`re.compile(re.escape(k), re.IGNORECASE).sub(v, s)`), plus the plain
    substring test and the case-sensitive `str.replace` used beside it.
    Case folding covers the ASCII letters and `\u00C1`, the only upper-case
    letter whose lower case starts a key of the table. */
module Rewrite {

  /** Lower-casing of one character: ASCII letters and `\u00C1` become lower
      case; every other character is unchanged. */
  function Fold(c: char): char
  {
    if 'A' <= c <= 'Z' then (c as int + 32) as char
    else if c == '\U{00C1}' then '\U{00E1}'
    else c
  }

  /** `str.lower()` restricted to ASCII letters. */
  function Lower(s: string): (r: string)
    ensures |r| == |s|
    ensures forall i :: 0 <= i < |s| ==> r[i] == Fold(s[i])
  {
    if s == [] then [] else [Fold(s[0])] + Lower(s[1..])
  }

  /** A key is lower-case when folding leaves it unchanged. */
  predicate IsLowerCase(k: string)
  {
    forall j :: 0 <= j < |k| ==> Fold(k[j]) == k[j]
  }

  /** `k` occurs in `s` at position `i`, up to ASCII case. */
  predicate MatchAt(s: string, i: nat, k: string)
  {
    i + |k| <= |s| && forall j :: 0 <= j < |k| ==> Fold(s[i + j]) == Fold(k[j])
  }

  /** `s` starts with `k`, up to ASCII case: the test the scanner makes at each
      position, written so that it unfolds one character at a time. */
  predicate StartsWith(s: string, k: string)
    decreases |k|
  {
    k == [] || (s != [] && Fold(s[0]) == Fold(k[0]) && StartsWith(s[1..], k[1..]))
  }

  /** `k` occurs somewhere in `s`, up to ASCII case. */
  predicate Occurs(s: string, k: string)
  {
    exists i: nat | i <= |s| :: MatchAt(s, i, k)
  }

  /** The case-sensitive substring test `k in s`. */
  predicate Contains(s: string, k: string)
    decreases |s|
  {
    |k| <= |s| && (s[..|k|] == k || (s != [] && Contains(s[1..], k)))
  }

  /** The regular-expression substitution: scanning left to right, each
      case-insensitive occurrence of `k` is replaced by `v` and the scan
      resumes after it, so the occurrences replaced never overlap. */
  function ReplaceAll(k: string, v: string, s: string): string
    requires k != []
    decreases |s|
  {
    if |s| < |k| then s
    else if StartsWith(s, k) then v + ReplaceAll(k, v, s[|k|..])
    else [s[0]] + ReplaceAll(k, v, s[1..])
  }

  /** `str.replace(q, d)` for a one-character `q`: every `q` becomes `d`. */
  function ReplaceChar(s: string, q: char, d: string): string
  {
    if s == [] then []
    else (if s[0] == q then d else [s[0]]) + ReplaceChar(s[1..], q, d)
  }

  /** No `q` is left, as long as `d` holds none. */
  lemma {:induction false} ReplaceCharRemoves(s: string, q: char, d: string)
    requires q !in d
    ensures q !in ReplaceChar(s, q, d)
  {
    if s != [] {
      ReplaceCharRemoves(s[1..], q, d);
    }
  }

  /** Text without `q` is left as it is. */
  lemma {:induction false} ReplaceCharIdle(s: string, q: char, d: string)
    ensures q !in s ==> ReplaceChar(s, q, d) == s
  {
    if s != [] && q !in s {
      assert s[0] != q && s[1..] == s[1..];
      ReplaceCharIdle(s[1..], q, d);
      assert s == [s[0]] + s[1..];
    }
  }

  /** Each character is replaced on its own: `q` by `d`, any other by itself. */
  lemma ReplaceCharSingle(c: char, q: char, d: string)
    ensures ReplaceChar([c], q, d) == if c == q then d else [c]
  {
    assert [c][1..] == [];
  }

  /** Replacing in a concatenation is replacing in each part, so together with
      `ReplaceCharSingle` the result is fixed character by character. */
  lemma {:induction false} ReplaceCharConcat(a: string, b: string, q: char, d: string)
    ensures ReplaceChar(a + b, q, d) == ReplaceChar(a, q, d) + ReplaceChar(b, q, d)
  {
    if a != [] {
      var t := a[1..];
      var h := if a[0] == q then d else [a[0]];
      ReplaceCharConcat(t, b, q, d);
      assert (a + b)[0] == a[0] && (a + b)[1..] == t + b;
      assert ReplaceChar(a + b, q, d) == h + ReplaceChar(t + b, q, d);
      assert ReplaceChar(a, q, d) == h + ReplaceChar(t, q, d);
      assert h + (ReplaceChar(t, q, d) + ReplaceChar(b, q, d))
        == (h + ReplaceChar(t, q, d)) + ReplaceChar(b, q, d);
    } else {
      assert a + b == b;
    }
  }

  /** A replacement value `v` can never re-create an occurrence of `k`: it is
      non-empty, none of its characters matches the first character of `k`, and
      its first character matches no later character of `k`. */
  predicate NoRecur(k: string, v: string)
  {
    && k != []
    && v != []
    && (forall c :: c in v ==> Fold(c) != Fold(k[0]))
    && (forall j :: 1 <= j < |k| ==> Fold(k[j]) != Fold(v[0]))
  }

  /** The scanner's test is a match at position 0. */
  lemma {:induction false} StartsWithIffMatchAt(s: string, k: string)
    ensures StartsWith(s, k) <==> MatchAt(s, 0, k)
    decreases |k|
  {
    if k != [] && s != [] {
      StartsWithIffMatchAt(s[1..], k[1..]);
      if MatchAt(s[1..], 0, k[1..]) && Fold(s[0]) == Fold(k[0]) {
        forall j | 0 <= j < |k|
          ensures Fold(s[j]) == Fold(k[j])
        {
          if j > 0 {
            assert s[1..][j - 1] == s[j] && k[1..][j - 1] == k[j];
          }
        }
      }
      if MatchAt(s, 0, k) {
        forall j | 0 <= j < |k| - 1
          ensures Fold(s[1..][j]) == Fold(k[1..][j])
        {
          assert s[1..][j] == s[j + 1] && k[1..][j] == k[j + 1];
        }
      }
    }
  }

  /** Positions shift with a prefix: `k` occurs at `|a| + i` in `a + b` exactly
      when it occurs at `i` in `b`. */
  lemma MatchAtConcat(a: string, b: string, i: nat, k: string)
    ensures MatchAt(a + b, |a| + i, k) <==> MatchAt(b, i, k)
  {
    if MatchAt(b, i, k) {
      forall j | 0 <= j < |k|
        ensures Fold((a + b)[|a| + i + j]) == Fold(k[j])
      {
        assert (a + b)[|a| + i + j] == b[i + j];
      }
    }
    if MatchAt(a + b, |a| + i, k) {
      forall j | 0 <= j < |k|
        ensures Fold(b[i + j]) == Fold(k[j])
      {
        assert (a + b)[|a| + i + j] == b[i + j];
      }
    }
  }

  /** The same, for a suffix taken by slicing. */
  lemma MatchAtDrop(s: string, n: nat, i: nat, k: string)
    requires n <= |s|
    ensures MatchAt(s, n + i, k) <==> MatchAt(s[n..], i, k)
  {
    assert s == s[..n] + s[n..];
    MatchAtConcat(s[..n], s[n..], i, k);
  }

  /** An occurrence is either at the front or in the rest. */
  lemma OccursStep(s: string, k: string)
    requires s != []
    ensures Occurs(s, k) <==> MatchAt(s, 0, k) || Occurs(s[1..], k)
  {
    if Occurs(s, k) && !MatchAt(s, 0, k) {
      var i: nat :| i <= |s| && MatchAt(s, i, k);
      MatchAtDrop(s, 1, i - 1, k);
    }
    if Occurs(s[1..], k) {
      var i: nat :| i <= |s[1..]| && MatchAt(s[1..], i, k);
      MatchAtDrop(s, 1, i, k);
    }
  }

  /** The substring test on lower-cased text is the case-insensitive search
      of a lower-case key. */
  lemma {:induction false} ContainsLowerIffOccurs(s: string, k: string)
    requires IsLowerCase(k)
    ensures Contains(Lower(s), k) <==> Occurs(s, k)
    decreases |s|
  {
    var ls := Lower(s);
    if |k| <= |s| {
      if MatchAt(s, 0, k) {
        assert ls[..|k|] == k by {
          forall j | 0 <= j < |k|
            ensures ls[..|k|][j] == k[j]
          {
            assert Fold(s[j]) == Fold(k[j]);
          }
        }
      }
      if ls[..|k|] == k {
        assert MatchAt(s, 0, k) by {
          forall j | 0 <= j < |k|
            ensures Fold(s[j]) == Fold(k[j])
          {
            assert ls[..|k|][j] == k[j];
          }
        }
      }
      if s != [] {
        assert Lower(s[1..]) == ls[1..];
        ContainsLowerIffOccurs(s[1..], k);
        OccursStep(s, k);
      }
    }
  }

  /** Where `k` occurs nowhere, the substitution leaves the text unchanged. */
  lemma {:induction false} ReplaceAllNoMatch(k: string, v: string, s: string)
    requires k != []
    requires !Occurs(s, k)
    ensures ReplaceAll(k, v, s) == s
    decreases |s|
  {
    if |s| >= |k| {
      OccursStep(s, k);
      StartsWithIffMatchAt(s, k);
      ReplaceAllNoMatch(k, v, s[1..]);
    }
  }

  /** The substitution finds the leftmost occurrence first: everything before it
      is kept, it becomes `v`, and the scan resumes just after it. */
  lemma {:induction false} ReplaceAllLeftmost(k: string, v: string, s: string, p: nat)
    requires k != []
    requires MatchAt(s, p, k)
    requires forall i: nat :: i < p ==> !MatchAt(s, i, k)
    ensures ReplaceAll(k, v, s) == s[..p] + v + ReplaceAll(k, v, s[p + |k|..])
    decreases p
  {
    if p == 0 {
      CutFront(k, v, s);
      assert s[..0] + v == v;
    } else {
      var t := s[1..];
      CopyFirst(k, v, s);
      NoMatchBeforeDrop(s, p, k);
      ReplaceAllLeftmost(k, v, t, p - 1);
      assert t[p - 1 + |k|..] == s[p + |k|..];
      ConsSlices(s, p, v, ReplaceAll(k, v, s), ReplaceAll(k, v, t), ReplaceAll(k, v, s[p + |k|..]));
    }
  }

  /** Helper: the earliest occurrence moves one place down in the rest. */
  lemma NoMatchBeforeDrop(s: string, p: nat, k: string)
    requires 0 < p && MatchAt(s, p, k)
    requires forall i: nat :: i < p ==> !MatchAt(s, i, k)
    ensures MatchAt(s[1..], p - 1, k)
    ensures forall i: nat :: i < p - 1 ==> !MatchAt(s[1..], i, k)
  {
    MatchAtDrop(s, 1, p - 1, k);
    forall i: nat | i < p - 1
      ensures !MatchAt(s[1..], i, k)
    {
      MatchAtDrop(s, 1, i, k);
    }
  }

  /** Helper: an occurrence at the front is replaced and the scan resumes
      after it. */
  lemma CutFront(k: string, v: string, s: string)
    requires k != [] && MatchAt(s, 0, k)
    ensures ReplaceAll(k, v, s) == v + ReplaceAll(k, v, s[|k|..])
  {
    StartsWithIffMatchAt(s, k);
  }

  /** Helper: with no occurrence at the front, the scan copies the first
      character. */
  lemma CopyFirst(k: string, v: string, s: string)
    requires k != [] && |s| >= |k|
    requires !MatchAt(s, 0, k)
    ensures ReplaceAll(k, v, s) == [s[0]] + ReplaceAll(k, v, s[1..])
  {
    StartsWithIffMatchAt(s, k);
  }

  /** Helper: putting the first character back in front of a slice of the rest. */
  lemma ConsSlices(s: string, p: nat, v: string, whole: string, part: string, rest: string)
    requires 0 < p <= |s|
    requires whole == [s[0]] + part
    requires part == s[1..][..p - 1] + v + rest
    ensures whole == s[..p] + v + rest
  {
    assert [s[0]] + s[1..][..p - 1] == s[..p];
  }

  /** Helper: a prefix of the result made only of characters that cannot start
      `v` was copied unchanged from the input. */
  lemma {:induction false} CopiedPrefix(k: string, v: string, t: string, w: string)
    requires k != [] && v != []
    requires |w| <= |ReplaceAll(k, v, t)|
    requires forall j :: 0 <= j < |w| ==> Fold(ReplaceAll(k, v, t)[j]) == Fold(w[j])
    requires forall j :: 0 <= j < |w| ==> Fold(w[j]) != Fold(v[0])
    ensures |w| <= |t| && t[..|w|] == ReplaceAll(k, v, t)[..|w|]
    decreases |t|
  {
    if |t| >= |k| && |w| > 0 {
      var r := ReplaceAll(k, v, t);
      assert Fold(r[0]) == Fold(w[0]);
      assert r[0] != v[0];
      StartsWithIffMatchAt(t, k);
      var r' := ReplaceAll(k, v, t[1..]);
      assert r == [t[0]] + r';
      forall j | 0 <= j < |w| - 1
        ensures Fold(r'[j]) == Fold(w[1..][j])
      {
        assert r[j + 1] == r'[j];
      }
      CopiedPrefix(k, v, t[1..], w[1..]);
      assert t[..|w|] == [t[0]] + t[1..][..|w| - 1];
      assert r[..|w|] == [t[0]] + r'[..|w| - 1];
    }
  }

  /** Helper: the result of the substitution has no occurrence of `k` at `i`. */
  lemma {:induction false} NoMatchInResult(k: string, v: string, s: string, i: nat)
    requires NoRecur(k, v)
    ensures !MatchAt(ReplaceAll(k, v, s), i, k)
    decreases |s|
  {
    var r := ReplaceAll(k, v, s);
    if |s| >= |k| {
      StartsWithIffMatchAt(s, k);
      if StartsWith(s, k) {
        var r' := ReplaceAll(k, v, s[|k|..]);
        assert r == v + r';
        if i < |v| {
          assert r[i] == v[i] && v[i] in v;
          assert Fold(r[i]) != Fold(k[0]);
        } else {
          MatchAtConcat(v, r', i - |v|, k);
          NoMatchInResult(k, v, s[|k|..], i - |v|);
        }
      } else {
        var r' := ReplaceAll(k, v, s[1..]);
        assert r == [s[0]] + r';
        if i > 0 {
          MatchAtConcat([s[0]], r', i - 1, k);
          NoMatchInResult(k, v, s[1..], i - 1);
        } else {
          FrontNotRecreated(k, v, s);
        }
      }
    }
  }

  /** Helper: when the scan copies the first character, no occurrence of `k`
      can start there in the result. */
  lemma FrontNotRecreated(k: string, v: string, s: string)
    requires NoRecur(k, v)
    requires |s| >= |k| && !MatchAt(s, 0, k)
    ensures !MatchAt(ReplaceAll(k, v, s), 0, k)
  {
    var r := ReplaceAll(k, v, s);
    StartsWithIffMatchAt(s, k);
    var r' := ReplaceAll(k, v, s[1..]);
    assert r == [s[0]] + r';
    if MatchAt(r, 0, k) {
      var w := k[1..];
      forall j | 0 <= j < |w|
        ensures Fold(r'[j]) == Fold(w[j])
      {
        assert r[j + 1] == r'[j];
      }
      CopiedPrefix(k, v, s[1..], w);
      assert r[..|k|] == s[..|k|] by {
        assert r[..|k|] == [s[0]] + r'[..|w|];
        assert s[..|k|] == [s[0]] + s[1..][..|w|];
      }
      forall j | 0 <= j < |k|
        ensures Fold(s[j]) == Fold(k[j])
      {
        assert s[j] == s[..|k|][j] == r[..|k|][j] == r[j];
      }
      assert false;
    }
  }

  /** After the substitution no occurrence of `k` is left, as long as the value
      cannot re-create one. */
  lemma ReplaceAllRemovesKey(k: string, v: string, s: string)
    requires NoRecur(k, v)
    ensures !Occurs(ReplaceAll(k, v, s), k)
  {
    forall i: nat | i <= |ReplaceAll(k, v, s)|
      ensures !MatchAt(ReplaceAll(k, v, s), i, k)
    {
      NoMatchInResult(k, v, s, i);
    }
  }
}
