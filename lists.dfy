/** Python list operations used with set semantics by the dirt store. */
module Lists {

  /** No element occurs twice. */
  predicate NoDup<T(==)>(s: seq<T>)
  {
    forall i, j :: 0 <= i < j < |s| ==> s[i] != s[j]
  }

  /** A prefix of a duplicate-free list is duplicate-free. */
  lemma NoDupPrefix<T>(s: seq<T>, n: nat)
    requires NoDup(s) && n <= |s|
    ensures NoDup(s[..n])
  {
  }

  /** `list.remove(x)` on a list that holds `x`: the FIRST occurrence of `x` is
      dropped and the other elements keep their relative order. (Python raises
      ValueError when `x` is absent; every caller here tests membership first, and
      the function then returns `s` unchanged.) */
  function RemoveFirst<T(==,!new)>(s: seq<T>, x: T): (r: seq<T>)
    ensures x !in s ==> r == s
    ensures x in s ==> |r| == |s| - 1
    ensures forall q :: q != x ==> (q in r <==> q in s)
    ensures NoDup(s) ==> NoDup(r) && x !in r
  {
    if s == [] then []
    else if s[0] == x then s[1..]
    else
      var rest := RemoveFirst(s[1..], x);
      assert NoDup(s) ==> NoDup(s[1..]) && s[0] !in s[1..] by {
        if NoDup(s) {
          forall i | 0 <= i < |s[1..]| ensures s[1..][i] != s[0] {
            assert s[1..][i] == s[i + 1];
          }
        }
      }
      [s[0]] + rest
  }

  /** `RemoveFirst` cuts the list exactly at the first occurrence of `x`. */
  lemma {:induction false} RemoveFirstAt<T(!new)>(s: seq<T>, x: T, i: nat)
    requires i < |s| && s[i] == x && x !in s[..i]
    ensures RemoveFirst(s, x) == s[..i] + s[i + 1..]
  {
    if i == 0 {
      assert s[..0] + s[1..] == s[1..];
    } else {
      assert s[0] in s[..i];
      assert s[1..][..i - 1] == s[1..i];
      assert x !in s[1..][..i - 1];
      RemoveFirstAt(s[1..], x, i - 1);
      assert s[1..][i - 1 + 1..] == s[i + 1..];
      assert [s[0]] + (s[1..i] + s[i + 1..]) == s[..i] + s[i + 1..];
    }
  }

  /** A duplicate-free list whose elements all occur in `b` is no longer than `b`. */
  lemma {:induction false} DistinctSubsetLength<T(!new)>(a: seq<T>, b: seq<T>)
    requires NoDup(a)
    requires forall q :: q in a ==> q in b
    ensures |a| <= |b|
  {
    if a != [] {
      var x := a[|a| - 1];
      var a' := a[..|a| - 1];
      var b' := RemoveFirst(b, x);
      assert x in b;
      forall q | q in a' ensures q in b' {
        var k :| 0 <= k < |a'| && a'[k] == q;
        assert a[k] == q && k < |a| - 1;
        assert q != x;
      }
      assert NoDup(a') by {
        forall i, j | 0 <= i < j < |a'| ensures a'[i] != a'[j] {
          assert a'[i] == a[i] && a'[j] == a[j];
        }
      }
      DistinctSubsetLength(a', b');
    }
  }

  /** Sum of a list of counters, as Python's `sum`. */
  function Sum(xs: seq<nat>): nat
  {
    if xs == [] then 0 else Sum(xs[..|xs| - 1]) + xs[|xs| - 1]
  }

  /** Adding one to every counter adds the number of counters to the sum. */
  lemma {:induction false} SumIncrement(xs: seq<nat>, ys: seq<nat>)
    requires |xs| == |ys|
    requires forall i :: 0 <= i < |xs| ==> ys[i] == xs[i] + 1
    ensures Sum(ys) == Sum(xs) + |xs|
  {
    if xs != [] {
      SumIncrement(xs[..|xs| - 1], ys[..|ys| - 1]);
    }
  }

  /** A list of `|xs|` counters that all equal `c` sums to `|xs| * c`. */
  lemma {:induction false} SumConstant(xs: seq<nat>, c: nat)
    requires forall i :: 0 <= i < |xs| ==> xs[i] == c
    ensures Sum(xs) == |xs| * c
  {
    if xs != [] {
      SumConstant(xs[..|xs| - 1], c);
      assert (|xs| - 1) * c + c == |xs| * c;
    }
  }
}
