/** Shared vocabulary of the model: failure-carrying results, and the few
    sequence operations the Python and JavaScript sources take from their
    standard libraries (tuple.index, reversed, flattening a list of rows). */
module Base {

  datatype Option<T> = None | Some(value: T)

  /** A value, or the message of the exception the source raises instead. */
  datatype Result<T> = Ok(value: T) | Err(error: string)

  /** Python's `list(reversed(s))`. */
  function Reversed<T>(s: seq<T>): (r: seq<T>)
    ensures |r| == |s|
    ensures forall k :: 0 <= k < |s| ==> r[k] == s[|s| - 1 - k]
  {
    if s == [] then [] else Reversed(s[1..]) + [s[0]]
  }

  lemma ReversedSnoc<T>(s: seq<T>, x: T)
    ensures Reversed(s + [x]) == [x] + Reversed(s)
  {
    var r, t := Reversed(s + [x]), [x] + Reversed(s);
    assert |r| == |t|;
    forall k | 0 <= k < |r| ensures r[k] == t[k] {
      if k > 0 {
        assert r[k] == (s + [x])[|s| - k];
      }
    }
  }

  /** The tail of `s + [x]` is the tail of `s` followed by `x`. */
  lemma SnocTail<T>(s: seq<T>, x: T)
    requires s != []
    ensures (s + [x])[0] == s[0] && (s + [x])[1..] == s[1..] + [x]
  {
  }

  /** The tail of a prefix is a prefix of the tail. */
  lemma TakeTail<T>(s: seq<T>, n: nat)
    requires 0 < n <= |s|
    ensures s[..n][0] == s[0] && s[..n][1..] == s[1..][..n - 1]
  {
  }

  /** Taking one more element appends it. */
  lemma AppendCons<T>(a: seq<T>, x: T, b: seq<T>)
    ensures a + ([x] + b) == (a + [x]) + b
  {
  }

  lemma DropTail<T>(s: seq<T>, n: nat)
    requires n < |s|
    ensures s[n..][0] == s[n] && s[n..][1..] == s[n + 1..]
  {
  }

  /** Python's `s.index(x)`: the first position holding `x` (the source raises
      ValueError when `x` is absent, which callers here never allow). */
  function IndexOf<T(==)>(s: seq<T>, x: T): (i: nat)
    requires x in s
    ensures i < |s| && s[i] == x
    ensures forall j :: 0 <= j < i ==> s[j] != x
  {
    if s[0] == x then 0 else 1 + IndexOf(s[1..], x)
  }

  /** Python's `tuple(item for row in m for item in row)` and JavaScript's
      `m.flat()`: the rows concatenated in order. */
  function Flatten<T>(m: seq<seq<T>>): (r: seq<T>)
  {
    if m == [] then [] else m[0] + Flatten(m[1..])
  }

  /** A 3x3 matrix: three rows of three. */
  predicate Is3x3<T>(m: seq<seq<T>>)
  {
    |m| == 3 && forall r :: 0 <= r < 3 ==> |m[r]| == 3
  }

  /** Cutting nine cells into rows of three, `[t[0:3], t[3:6], t[6:9]]` in
      Python and `[nums.slice(0,3), nums.slice(3,6), nums.slice(6,9)]` in
      JavaScript. */
  function SplitRows<T>(t: seq<T>): (m: seq<seq<T>>)
    requires |t| == 9
    ensures Is3x3(m) && forall r, c :: 0 <= r < 3 && 0 <= c < 3 ==> m[r][c] == t[3 * r + c]
  {
    [t[0..3], t[3..6], t[6..9]]
  }

  lemma Flatten3x3<T>(m: seq<seq<T>>)
    requires Is3x3(m)
    ensures Flatten(m) == m[0] + m[1] + m[2]
    ensures |Flatten(m)| == 9
  {
    assert Flatten(m[1..][1..][1..]) == [];
    assert Flatten(m[1..][1..]) == m[2];
    assert Flatten(m[1..]) == m[1] + m[2];
  }

  /** Splitting nine cells into rows and flattening them again gives the
      cells back, and the other way round for a 3x3 matrix. */
  lemma SplitRowsFlatten<T>(t: seq<T>, m: seq<seq<T>>)
    ensures |t| == 9 ==> Flatten(SplitRows(t)) == t
    ensures Is3x3(m) ==> |Flatten(m)| == 9 && SplitRows(Flatten(m)) == m
  {
    if |t| == 9 {
      Flatten3x3(SplitRows(t));
      assert t == t[0..3] + t[3..6] + t[6..9];
    }
    if Is3x3(m) {
      Flatten3x3(m);
      var f := Flatten(m);
      assert f[0..3] == m[0] && f[3..6] == m[1] && f[6..9] == m[2];
    }
  }

  ghost predicate Distinct<T>(s: seq<T>)
  {
    forall i, j :: 0 <= i < j < |s| ==> s[i] != s[j]
  }

  function Elements<T>(s: seq<T>): set<T>
  {
    set x | x in s
  }

  /** A sequence has at most as many distinct elements as entries, and exactly
      as many precisely when no element repeats. */
  lemma {:induction false} ElementsCard<T>(s: seq<T>)
    ensures |Elements(s)| <= |s|
    ensures |Elements(s)| == |s| <==> Distinct(s)
  {
    if s != [] {
      ElementsCard(s[1..]);
      assert Elements(s) == {s[0]} + Elements(s[1..]);
      if s[0] in s[1..] {
        assert Elements(s) == Elements(s[1..]);
        var j :| 0 <= j < |s[1..]| && s[1..][j] == s[0];
        assert s[0] == s[j + 1];
      } else {
        assert |Elements(s)| == 1 + |Elements(s[1..])|;
        if Distinct(s[1..]) {
          forall i, j | 0 <= i < j < |s| ensures s[i] != s[j] {
            if i > 0 { assert s[i] == s[1..][i - 1] && s[j] == s[1..][j - 1]; }
          }
        }
        if Distinct(s) {
          forall i, j | 0 <= i < j < |s[1..]| ensures s[1..][i] != s[1..][j] {
            assert s[1..][i] == s[i + 1] && s[1..][j] == s[j + 1];
          }
        }
      }
    }
  }

  /** In a sequence without repetitions every element occurs exactly once. */
  lemma {:induction false} DistinctMultiplicity<T>(s: seq<T>, x: T)
    requires Distinct(s)
    ensures multiset(s)[x] == if x in s then 1 else 0
  {
    if s != [] {
      assert s == [s[0]] + s[1..];
      assert Distinct(s[1..]) by {
        forall i, j | 0 <= i < j < |s[1..]| ensures s[1..][i] != s[1..][j] {
          assert s[1..][i] == s[i + 1] && s[1..][j] == s[j + 1];
        }
      }
      DistinctMultiplicity(s[1..], x);
      if x == s[0] {
        forall j | 0 <= j < |s[1..]| ensures s[1..][j] != x {
          assert s[1..][j] == s[j + 1];
        }
      }
    }
  }

  /** An element found at two positions occurs at least twice. */
  lemma RepeatedMultiplicity<T>(s: seq<T>, i: nat, j: nat)
    requires i < j < |s| && s[i] == s[j]
    ensures multiset(s)[s[i]] >= 2
  {
    assert s == s[..j] + s[j..];
    assert s[i] == s[..j][i] && s[j] == s[j..][0];
    assert multiset(s) == multiset(s[..j]) + multiset(s[j..]);
  }

  /** A sequence with the multiset of a repetition-free one repeats nothing. */
  lemma SameMultisetDistinct<T>(a: seq<T>, b: seq<T>)
    requires multiset(a) == multiset(b) && Distinct(b)
    ensures Distinct(a)
  {
    forall i, j | 0 <= i < j < |a| ensures a[i] != a[j] {
      if a[i] == a[j] {
        RepeatedMultiplicity(a, i, j);
        DistinctMultiplicity(b, a[i]);
      }
    }
  }

  /** Pigeonhole: two repetition-free sequences of one length, the first drawing
      its elements from the second, are permutations of each other. */
  lemma Pigeonhole<T>(a: seq<T>, b: seq<T>)
    requires Distinct(a) && Distinct(b) && |a| == |b|
    requires forall k :: 0 <= k < |a| ==> a[k] in b
    ensures multiset(a) == multiset(b)
  {
    ElementsCard(a);
    ElementsCard(b);
    assert Elements(a) <= Elements(b);
    assert |Elements(b) - Elements(a)| == |Elements(b)| - |Elements(a)| == 0;
    assert Elements(a) == Elements(b);
    forall x ensures multiset(a)[x] == multiset(b)[x] {
      DistinctMultiplicity(a, x);
      DistinctMultiplicity(b, x);
      assert x in a <==> x in Elements(a);
      assert x in b <==> x in Elements(b);
    }
  }
}
