/** Cutting a sequence into fixed-size pieces and gluing pieces back together: the shape of the
    container's 1 MiB plaintext blocks and of the app's `adding(seperator:afterCharacters:)`. */
module Seqs {
  import opened Bytes

  /** The elements of the chunks, in order. */
  function Concat<T>(chunks: seq<seq<T>>): seq<T> {
    if |chunks| == 0 then [] else chunks[0] + Concat(chunks[1..])
  }

  /** Reference definition: `s` cut into consecutive pieces of `n` elements, the last one shorter. */
  function SplitEvery<T>(s: seq<T>, n: nat): seq<seq<T>>
    requires n > 0
    decreases |s|
  {
    if |s| == 0 then []
    else if |s| <= n then [s]
    else [s[..n]] + SplitEvery(s[n..], n)
  }

  /** There are ceil(|s| / n) pieces. */
  lemma {:induction false} SplitEveryCount<T>(s: seq<T>, n: nat)
    requires n > 0
    ensures |SplitEvery(s, n)| == (|s| + n - 1) / n
    decreases |s|
  {
    if |s| == 0 {
      ModSmall(n - 1, n);
    } else if |s| <= n {
      DivModUnique(|s| + n - 1, n, 1, |s| - 1);
    } else {
      SplitEveryCount(s[n..], n);
      var x := |s| - n + n - 1;
      DivModUnique(|s| + n - 1, n, x / n + 1, x % n);
    }
  }

  /** The pieces of `SplitEvery` have `n` elements, except the last, which has 1 to `n`. */
  lemma {:induction false} SplitEveryLengths<T>(s: seq<T>, n: nat)
    requires n > 0
    ensures forall k :: 0 <= k < |SplitEvery(s, n)| - 1 ==> |SplitEvery(s, n)[k]| == n
    ensures |s| > 0 ==> 0 < |SplitEvery(s, n)[|SplitEvery(s, n)| - 1]| <= n
    decreases |s|
  {
    if |s| > n {
      SplitEveryLengths(s[n..], n);
      var c, c' := SplitEvery(s, n), SplitEvery(s[n..], n);
      assert c == [s[..n]] + c';
      assert forall k :: 1 <= k < |c| ==> c[k] == c'[k - 1];
    }
  }

  /** Together the pieces of `SplitEvery` are `s`. */
  lemma {:induction false} SplitEveryConcat<T>(s: seq<T>, n: nat)
    requires n > 0
    ensures Concat(SplitEvery(s, n)) == s
    decreases |s|
  {
    var c := SplitEvery(s, n);
    if 0 < |s| <= n {
      assert Concat(c) == s + Concat([]);
    } else if |s| > n {
      SplitEveryConcat(s[n..], n);
      assert c[1..] == SplitEvery(s[n..], n);
      assert s == s[..n] + s[n..];
    }
  }

  /** Piece `k` of `SplitEvery` is the slice from `start = k * n` up to `start + n` or the end. */
  lemma {:induction false} SplitEveryPiece<T>(s: seq<T>, n: nat, k: nat, start: nat)
    requires n > 0 && start == k * n && start < |s|
    ensures k < |SplitEvery(s, n)|
    ensures SplitEvery(s, n)[k] == s[start..if start + n <= |s| then start + n else |s|]
    decreases k
  {
    if k > 0 {
      MulStep(k, n);
      var t := s[n..];
      SplitEveryPiece(t, n, k - 1, start - n);
      var e := if start <= |t| then start else |t|;
      assert SplitEvery(t, n)[k - 1] == s[start..e + n] by {
        assert t[start - n..e] == s[start..e + n];
      }
      assert SplitEvery(s, n)[k] == SplitEvery(t, n)[k - 1] by {
        assert SplitEvery(s, n) == [s[..n]] + SplitEvery(t, n);
      }
    }
  }

  /** One more step of `n`. */
  lemma MulStep(k: nat, n: nat)
    requires k > 0
    ensures k * n == (k - 1) * n + n && (k - 1) * n >= 0
  {
  }
}
