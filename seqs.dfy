/** Sequence operations that the source takes from JavaScript's built-in strings and arrays. */
module Seqs {

  /** `s.split("").reverse().join("")` (for strings) and `Array.prototype.reverse`. */
  function Reverse<T>(s: seq<T>): seq<T> {
    seq(|s|, i requires 0 <= i < |s| => s[|s| - 1 - i])
  }

  lemma ReverseReverse<T>(s: seq<T>)
    ensures Reverse(Reverse(s)) == s
  {
  }

  /** Taking the first k elements of a reversed sequence reverses the last k elements. */
  lemma ReverseSlices<T>(s: seq<T>, k: nat)
    requires k <= |s|
    ensures Reverse(s)[..k] == Reverse(s[|s| - k..])
    ensures Reverse(s)[k..] == Reverse(s[..|s| - k])
  {
  }

  /** k copies of p, one after the other. */
  function Repeat<T>(p: seq<T>, k: nat): seq<T> {
    if k == 0 then [] else p + Repeat(p, k - 1)
  }

  /** True when s starts with p. */
  predicate StartsWith<T(==)>(s: seq<T>, p: seq<T>) {
    |p| <= |s| && s[..|p|] == p
  }

  /** True when s ends with p. */
  predicate EndsWith<T(==)>(s: seq<T>, p: seq<T>) {
    |p| <= |s| && s[|s| - |p|..] == p
  }

  /**
   * What `s.replace(/^(?:p)*\/, '')` leaves: every copy of p at the front of s
   * is removed, greedily (TrimPrefixRepRemovesCopies says what was removed).
   */
  function TrimPrefixRep<T(==)>(s: seq<T>, p: seq<T>): (r: seq<T>)
    requires |p| > 0
    ensures |r| <= |s|
    ensures !StartsWith(r, p)
    decreases |s|
  {
    if StartsWith(s, p) then TrimPrefixRep(s[|p|..], p) else s
  }

  /** Every copy of p at the back of s removed, greedily. */
  function TrimSuffixRep<T(==)>(s: seq<T>, p: seq<T>): (r: seq<T>)
    requires |p| > 0
    ensures |r| <= |s|
    ensures !EndsWith(r, p)
    decreases |s|
  {
    if EndsWith(s, p) then TrimSuffixRep(s[..|s| - |p|], p) else s
  }

  /** TrimPrefixRep keeps a suffix of s. */
  lemma {:induction false} TrimPrefixRepIsSuffix<T>(s: seq<T>, p: seq<T>)
    requires |p| > 0
    ensures TrimPrefixRep(s, p) == s[|s| - |TrimPrefixRep(s, p)|..]
    decreases |s|
  {
    if StartsWith(s, p) {
      TrimPrefixRepIsSuffix(s[|p|..], p);
    }
  }

  /** TrimSuffixRep keeps a prefix of s. */
  lemma {:induction false} TrimSuffixRepIsPrefix<T>(s: seq<T>, p: seq<T>)
    requires |p| > 0
    ensures TrimSuffixRep(s, p) == s[..|TrimSuffixRep(s, p)|]
    decreases |s|
  {
    if EndsWith(s, p) {
      TrimSuffixRepIsPrefix(s[..|s| - |p|], p);
    }
  }

  /** What TrimPrefixRep removes is a run of copies of p. */
  lemma {:induction false} TrimPrefixRepRemovesCopies<T>(s: seq<T>, p: seq<T>)
    requires |p| > 0
    ensures exists k: nat :: s == Repeat(p, k) + TrimPrefixRep(s, p)
    decreases |s|
  {
    var r := TrimPrefixRep(s, p);
    if StartsWith(s, p) {
      TrimPrefixRepRemovesCopies(s[|p|..], p);
      var k: nat :| s[|p|..] == Repeat(p, k) + r;
      StartsWithSplit(s, p, Repeat(p, k) + r);
      assert Repeat(p, k + 1) + r == p + (Repeat(p, k) + r);
    } else {
      assert s == Repeat(p, 0) + r;
    }
  }

  /** What TrimSuffixRep removes is a run of copies of p. */
  lemma {:induction false} TrimSuffixRepRemovesCopies<T>(s: seq<T>, p: seq<T>)
    requires |p| > 0
    ensures exists k: nat :: s == TrimSuffixRep(s, p) + Repeat(p, k)
    decreases |s|
  {
    var r := TrimSuffixRep(s, p);
    if EndsWith(s, p) {
      TrimSuffixRepRemovesCopies(s[..|s| - |p|], p);
      var k: nat :| s[..|s| - |p|] == r + Repeat(p, k);
      RepeatSnoc(p, k);
      EndsWithSplit(s, p, r + Repeat(p, k));
      assert s == r + Repeat(p, k + 1);
    } else {
      assert s == r + Repeat(p, 0);
    }
  }

  /** A sequence starting with p is p followed by its back. */
  lemma StartsWithSplit<T>(s: seq<T>, p: seq<T>, back: seq<T>)
    requires |p| <= |s| && s[..|p|] == p && s[|p|..] == back
    ensures s == p + back
  {
  }

  /** A sequence ending in p is its front followed by p. */
  lemma EndsWithSplit<T>(s: seq<T>, p: seq<T>, front: seq<T>)
    requires |p| <= |s| && s[|s| - |p|..] == p && s[..|s| - |p|] == front
    ensures s == front + p
  {
  }

  lemma {:induction false} RepeatSnoc<T>(p: seq<T>, k: nat)
    ensures Repeat(p, k + 1) == Repeat(p, k) + p
  {
    if k > 0 {
      RepeatSnoc(p, k - 1);
    }
  }

  /**
   * Reversing, stripping a repeated prefix and reversing back strips the
   * repeated suffix: the source's way of trimming the end of a string.
   */
  lemma {:induction false} TrimSuffixByReversal<T>(s: seq<T>, p: seq<T>)
    requires |p| > 0
    ensures Reverse(TrimPrefixRep(Reverse(s), Reverse(p))) == TrimSuffixRep(s, p)
    decreases |s|
  {
    ReverseStartsWith(s, p);
    if EndsWith(s, p) {
      ReverseSlices(s, |p|);
      TrimSuffixByReversal(s[..|s| - |p|], p);
    } else {
      ReverseReverse(s);
    }
  }

  /** A reversed sequence starts with the reversed p exactly when the sequence ends with p. */
  lemma ReverseStartsWith<T>(s: seq<T>, p: seq<T>)
    ensures StartsWith(Reverse(s), Reverse(p)) <==> EndsWith(s, p)
  {
    if |p| <= |s| {
      ReverseSlices(s, |p|);
      ReverseReverse(s[|s| - |p|..]);
      ReverseReverse(p);
    }
  }


  /** `indexOf` on strings and arrays with strict equality: the first position of x, or -1. */
  function IndexOf<T(==)>(s: seq<T>, x: T): (i: int)
    ensures -1 <= i < |s|
    ensures i >= 0 ==> s[i] == x && x !in s[..i]
    ensures i < 0 <==> x !in s
  {
    if s == [] then -1
    else if s[0] == x then 0
    else
      var j := IndexOf(s[1..], x);
      assert s[1..][..j + 1] == s[1..j + 2] by { }
      if j < 0 then -1 else j + 1
  }

  /**
   * `Array.prototype.splice(start, deleteCount)`: a negative start counts from
   * the end and both arguments are clamped to the array; the array that is
   * left is returned (the removed elements are not used by the source).
   */
  function Splice<T>(s: seq<T>, start: int, deleteCount: int): (r: seq<T>)
    ensures |r| <= |s|
    ensures 0 <= start < |s| && deleteCount == 1 ==> r == s[..start] + s[start + 1..]
    ensures start == -1 && deleteCount == 1 && |s| > 0 ==> r == s[..|s| - 1]
  {
    var len := |s|;
    var from := if start < 0 then (if len + start < 0 then 0 else len + start)
                else (if start < len then start else len);
    var count := if deleteCount < 0 then 0
                 else (if deleteCount < len - from then deleteCount else len - from);
    s[..from] + s[from + count..]
  }
}
