/**
 * Sequence helpers shared by the route matchers and the template resolver:
 * prefix and suffix tests (Go's strings.HasPrefix / strings.HasSuffix), the
 * first occurrence of a pattern (strings.Index) and the replacement of that
 * first occurrence only (strings.Replace(s, old, new, 1)).
 */
module Seqs {

  datatype Option<T> = None | Some(value: T)

  predicate IsPrefix<T(==)>(p: seq<T>, s: seq<T>) {
    |p| <= |s| && s[..|p|] == p
  }

  predicate IsSuffix<T(==)>(x: seq<T>, s: seq<T>) {
    |x| <= |s| && s[|s| - |x|..] == x
  }

  /** `pat` occurs in `s` starting at index `i`. */
  predicate OccursAt<T(==)>(s: seq<T>, pat: seq<T>, i: int) {
    0 <= i && i + |pat| <= |s| && s[i..i + |pat|] == pat
  }

  /** The first occurrence of `pat` in `s` at or after index `i`. */
  function FindFrom<T(==)>(s: seq<T>, pat: seq<T>, i: nat): (r: Option<nat>)
    decreases |s| - i
    ensures r.Some? ==> i <= r.value && OccursAt(s, pat, r.value)
    ensures forall k :: i <= k && (r.None? || k < r.value) ==> !OccursAt(s, pat, k)
  {
    if i + |pat| > |s| then None
    else if s[i..i + |pat|] == pat then Some(i)
    else FindFrom(s, pat, i + 1)
  }

  /** The first occurrence of `pat` in `s`, as strings.Index finds it. */
  function Find<T(==)>(s: seq<T>, pat: seq<T>): Option<nat> {
    FindFrom(s, pat, 0)
  }

  /** An occurrence with no occurrence before it is the one Find returns. */
  lemma FindIsFirst<T>(s: seq<T>, pat: seq<T>, k: nat)
    requires OccursAt(s, pat, k)
    requires forall j :: 0 <= j < k ==> !OccursAt(s, pat, j)
    ensures Find(s, pat) == Some(k)
  {
  }

  lemma FindNone<T>(s: seq<T>, pat: seq<T>)
    requires forall j :: !OccursAt(s, pat, j)
    ensures Find(s, pat) == None
  {
  }

  lemma ConcatAssoc<T>(a: seq<T>, b: seq<T>, c: seq<T>)
    ensures a + (b + c) == a + b + c
  {
  }

  /** `s` with `m` put in place of the `n` elements at index `i`. */
  function Splice<T>(s: seq<T>, i: nat, n: nat, m: seq<T>): seq<T>
    requires i + n <= |s|
  {
    s[..i] + m + s[i + n..]
  }

  /**
   * strings.Replace(s, pat, rep, 1): the first occurrence of `pat` is replaced
   * by `rep`; when there is none, `s` comes back unchanged.
   */
  function ReplaceFirst<T(==)>(s: seq<T>, pat: seq<T>, rep: seq<T>): (r: seq<T>)
    ensures (forall j :: !OccursAt(s, pat, j)) ==> r == s
    ensures forall j :: OccursAt(s, pat, j) ==> |r| == |s| - |pat| + |rep|
    ensures forall x :: x in r ==> x in s || x in rep
  {
    match Find(s, pat)
    case None => s
    case Some(i) =>
      assert s == s[..i] + s[i..i + |pat|] + s[i + |pat|..];
      Splice(s, i, |pat|, rep)
  }

  /** The first occurrence of `pat`, and only that one, is the one replaced. */
  lemma ReplaceFirstAtFirst<T>(s: seq<T>, pat: seq<T>, rep: seq<T>, i: nat)
    requires OccursAt(s, pat, i)
    requires forall j :: 0 <= j < i ==> !OccursAt(s, pat, j)
    ensures ReplaceFirst(s, pat, rep) == s[..i] + rep + s[i + |pat|..]
  {
    FindIsFirst(s, pat, i);
  }

  /** `m` occurs right after `a` in `a + m + b`, and splicing `r` over it gives `a + r + b`. */
  lemma SpliceMiddle<T>(a: seq<T>, m: seq<T>, b: seq<T>, r: seq<T>)
    ensures OccursAt(a + m + b, m, |a|)
    ensures Splice(a + m + b, |a|, |m|, r) == a + r + b
  {
    var s := a + m + b;
    assert s[..|a|] == a;
    assert s[|a|..|a| + |m|] == m;
    assert s[|a| + |m|..] == b;
  }

  /** Text before the first occurrence of `pat` comes through the replacement unchanged. */
  lemma ReplaceFirstKeepsPrefix<T>(s: seq<T>, pat: seq<T>, rep: seq<T>, k: nat)
    requires k <= |s|
    requires forall j :: 0 <= j < k ==> !OccursAt(s, pat, j)
    ensures k <= |ReplaceFirst(s, pat, rep)| && ReplaceFirst(s, pat, rep)[..k] == s[..k]
  {
    match Find(s, pat)
    case None =>
    case Some(i) =>
      assert OccursAt(s, pat, i);
      assert k <= i;
      assert Splice(s, i, |pat|, rep)[..k] == s[..i][..k];
  }

  /** No occurrence of `pat` in `s` overlaps the index range [lo, hi). */
  predicate NoOccurrenceTouching<T(==)>(s: seq<T>, pat: seq<T>, lo: int, hi: int) {
    forall k :: OccursAt(s, pat, k) ==> k + |pat| <= lo || hi <= k
  }

  /**
   * Splicing `m` over `s[i..i+n]` leaves the first occurrence of `pat` where it
   * was (shifted past the splice) as long as no occurrence touches the spliced
   * region, before or after.
   */
  lemma FindAfterSplice<T>(s: seq<T>, i: nat, n: nat, m: seq<T>, pat: seq<T>)
    requires i + n <= |s| && |pat| > 0
    requires NoOccurrenceTouching(s, pat, i, i + n)
    requires NoOccurrenceTouching(Splice(s, i, n, m), pat, i, i + |m|)
    ensures Find(s, pat).None? <==> Find(Splice(s, i, n, m), pat).None?
    ensures Find(s, pat).Some? && Find(s, pat).value < i ==>
              Find(Splice(s, i, n, m), pat) == Find(s, pat)
    ensures Find(s, pat).Some? && Find(s, pat).value >= i ==>
              Find(Splice(s, i, n, m), pat).Some? &&
              Find(Splice(s, i, n, m), pat).value == Find(s, pat).value - n + |m|
  {
    var t := Splice(s, i, n, m);
    var d := |m| - n;
    match Find(s, pat)
    case None =>
      assert Find(t, pat) == None by {
        forall k ensures !OccursAt(t, pat, k) {
          if 0 <= k && k + |pat| <= i {
            OccursBeforeSplice(s, i, n, m, pat, k);
          } else if i + |m| <= k {
            OccursAfterSplice(s, i, n, m, pat, k);
          }
        }
        FindNone(t, pat);
      }
    case Some(j) =>
      if j < i {
        assert Find(t, pat) == Some(j) by {
          assert j + |pat| <= i;
          OccursBeforeSplice(s, i, n, m, pat, j);
          forall k | 0 <= k < j ensures !OccursAt(t, pat, k) {
            OccursBeforeSplice(s, i, n, m, pat, k);
          }
          FindIsFirst(t, pat, j);
        }
      } else {
        assert Find(t, pat) == Some(j + d) by {
          assert i + n <= j;
          OccursAfterSplice(s, i, n, m, pat, j + d);
          forall k | 0 <= k < j + d ensures !OccursAt(t, pat, k) {
            if k + |pat| <= i {
              OccursBeforeSplice(s, i, n, m, pat, k);
            } else if i + |m| <= k {
              OccursAfterSplice(s, i, n, m, pat, k);
            }
          }
          FindIsFirst(t, pat, j + d);
        }
      }
  }

  /** Before the spliced region, the text and its occurrences are unchanged. */
  lemma OccursBeforeSplice<T>(s: seq<T>, i: nat, n: nat, m: seq<T>, pat: seq<T>, k: nat)
    requires i + n <= |s| && k + |pat| <= i
    ensures OccursAt(Splice(s, i, n, m), pat, k) <==> OccursAt(s, pat, k)
  {
    var t := Splice(s, i, n, m);
    assert i <= |t| && i <= |s|;
    forall q | k <= q < k + |pat| ensures t[q] == s[q] {
      assert t[q] == s[..i][q];
    }
    assert t[k..k + |pat|] == s[k..k + |pat|];
  }

  /** After the spliced region, occurrences are those of the original text, shifted. */
  lemma OccursAfterSplice<T>(s: seq<T>, i: nat, n: nat, m: seq<T>, pat: seq<T>, k: int)
    requires i + n <= |s| && i + |m| <= k
    ensures OccursAt(Splice(s, i, n, m), pat, k) <==> OccursAt(s, pat, k - (|m| - n))
  {
    var t := Splice(s, i, n, m);
    var d := |m| - n;
    if k + |pat| <= |t| {
      forall q | k <= q < k + |pat| ensures t[q] == s[q - d] {
        assert t[q] == s[i + n..][q - i - |m|];
      }
      assert t[k..k + |pat|] == s[k - d..k - d + |pat|];
    }
  }
}
