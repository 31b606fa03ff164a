/** Sequence helpers that stand for the Ruby collection methods the codec is
    built from: `in_groups_of`, `flatten`/`join` and `reverse`. */
module Seqs {

  /** Consecutive pieces of `s`, each of `n` elements except possibly the last,
      which holds what is left over. This is `s.in_groups_of(n)` with the
      `nil` padding of the last group left off: the codec's chunk functions
      count only the real elements and read each missing one as 0. */
  function Groups<T>(s: seq<T>, n: nat): (r: seq<seq<T>>)
    requires n > 0
    ensures forall i :: 0 <= i < |r| ==> 1 <= |r[i]| <= n
    ensures forall i :: 0 <= i < |r| - 1 ==> |r[i]| == n
    decreases |s|
  {
    if |s| <= n then
      (if s == [] then [] else [s])
    else
      [s[..n]] + Groups(s[n..], n)
  }

  lemma PieceCount(len: nat, n: nat, k: nat)
    requires k > 0 && len == k * n
    ensures len >= n && len - n == (k - 1) * n
  {
  }

  /** A first piece of exactly `n` elements is split off as it is. */
  lemma GroupsCons<T>(x: seq<T>, y: seq<T>, n: nat)
    requires n > 0 && |x| == n
    ensures Groups(x + y, n) == [x] + Groups(y, n)
  {
    if y == [] {
      assert x + y == x;
    } else {
      assert (x + y)[..n] == x && (x + y)[n..] == y;
    }
  }

  lemma GroupsConcatStep<T>(h: seq<T>, t: seq<T>, y: seq<T>, n: nat)
    requires n > 0 && |h| == n
    requires Groups(t + y, n) == Groups(t, n) + Groups(y, n)
    ensures Groups((h + t) + y, n) == Groups(h + t, n) + Groups(y, n)
  {
    var gt, gy := Groups(t, n), Groups(y, n);
    assert (h + t) + y == h + (t + y);
    GroupsCons(h, t + y, n);
    GroupsCons(h, t, n);
    ConcatAssoc([h], gt, gy);
  }

  lemma ConcatAssoc<T>(a: seq<T>, b: seq<T>, c: seq<T>)
    ensures a + (b + c) == (a + b) + c
  {
  }

  /** The pieces concatenate back to the input. */
  lemma {:induction false} FlattenGroups<T>(s: seq<T>, n: nat)
    requires n > 0
    ensures Flatten(Groups(s, n)) == s
    decreases |s|
  {
    if |s| > n {
      FlattenGroups(s[n..], n);
      assert Groups(s, n) == [s[..n]] + Groups(s[n..], n);
      assert s == s[..n] + s[n..];
    } else if s != [] {
      assert Flatten([s]) == s + Flatten<T>([]);
    }
  }

  /** Splitting input whose first part is a whole number `k` of pieces: the
      pieces of the first part, then those of the second. */
  lemma {:induction false} GroupsConcat<T>(x: seq<T>, y: seq<T>, n: nat, k: nat)
    requires n > 0 && |x| == k * n
    ensures Groups(x + y, n) == Groups(x, n) + Groups(y, n)
    decreases k
  {
    if k == 0 {
      assert x + y == y;
    } else {
      PieceCount(|x|, n, k);
      GroupsConcat(x[n..], y, n, k - 1);
      GroupsConcatStep(x[..n], x[n..], y, n);
      assert x[..n] + x[n..] == x;
    }
  }

  /** Concatenation of the pieces, in order, and `join` of an array of
      strings. Ruby's `flatten` with no argument flattens at every depth; it
      agrees with this one level here because each piece holds only strings
      or integers. */
  function Flatten<T>(ss: seq<seq<T>>): seq<T>
  {
    if ss == [] then [] else ss[0] + Flatten(ss[1..])
  }

  lemma {:induction false} FlattenConcat<T>(xs: seq<seq<T>>, ys: seq<seq<T>>)
    ensures Flatten(xs + ys) == Flatten(xs) + Flatten(ys)
  {
    if xs == [] {
      assert xs + ys == ys;
    } else {
      assert (xs + ys)[1..] == xs[1..] + ys;
      FlattenConcat(xs[1..], ys);
    }
  }

  /** When every piece holds exactly one element, flattening just takes those
      elements in order. */
  lemma {:induction false} FlattenSingletons<T>(ss: seq<seq<T>>)
    requires forall i :: 0 <= i < |ss| ==> |ss[i]| == 1
    ensures |Flatten(ss)| == |ss|
    ensures forall i :: 0 <= i < |ss| ==> Flatten(ss)[i] == ss[i][0]
  {
    if ss != [] {
      FlattenSingletons(ss[1..]);
    }
  }

  /** Every element of `s` occurs in `a`. */
  predicate AllIn<T(==)>(s: seq<T>, a: seq<T>)
  {
    forall i :: 0 <= i < |s| ==> s[i] in a
  }

  lemma {:induction false} FlattenAllIn<T>(ss: seq<seq<T>>, a: seq<T>)
    requires forall i :: 0 <= i < |ss| ==> AllIn(ss[i], a)
    ensures AllIn(Flatten(ss), a)
  {
    if ss != [] {
      FlattenAllIn(ss[1..], a);
      var rest := Flatten(ss[1..]);
      assert Flatten(ss) == ss[0] + rest;
      forall k | 0 <= k < |Flatten(ss)|
        ensures Flatten(ss)[k] in a
      {
        if k < |ss[0]| {
          assert Flatten(ss)[k] == ss[0][k];
        } else {
          assert Flatten(ss)[k] == rest[k - |ss[0]|];
        }
      }
    }
  }

  /** The elements of `s` in the opposite order: Ruby's `reverse`. */
  function Reverse<T>(s: seq<T>): (r: seq<T>)
    ensures |r| == |s|
    ensures forall i :: 0 <= i < |s| ==> r[i] == s[|s| - 1 - i]
  {
    if s == [] then [] else Reverse(s[1..]) + [s[0]]
  }

  /** `n` zeros: the value every missing element of a short group is read as
      (`byte || 0`, `index(nil) || 0`). */
  function Zeros(n: nat): seq<nat>
  {
    seq(n, _ => 0)
  }
}
