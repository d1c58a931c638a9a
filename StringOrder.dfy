/** The order on keys: Java's `String.compareTo`, the `strcmp` wrapper the
    tree switches on, and the facts about that order the tree relies on. */
module StringOrder {

  /** `s1.compareTo(s2)`: the difference of the first pair of characters that
      differ, or else the difference of the lengths. */
  function CompareTo(s1: string, s2: string): int
    decreases |s1|
  {
    if |s1| == 0 || |s2| == 0 then |s1| - |s2|
    else if s1[0] != s2[0] then s1[0] as int - s2[0] as int
    else CompareTo(s1[1..], s2[1..])
  }

  /** `s1` sorts strictly before `s2` (`s1.compareTo(s2) < 0`). */
  predicate Less(s1: string, s2: string) {
    CompareTo(s1, s2) < 0
  }

  /** A strictly increasing sequence of keys: the in-order sequence of a search tree. */
  predicate Sorted(ws: seq<string>) {
    forall i, j | 0 <= i < j < |ws| :: Less(ws[i], ws[j])
  }

  /** `strcmp(s1, s2)`: the sign of `compareTo`, computed as `s / |s|`.
      The division is exact, so truncating and Euclidean division agree. */
  function Strcmp(s1: string, s2: string): (r: int)
    ensures r == -1 || r == 0 || r == 1
    ensures r == -1 <==> CompareTo(s1, s2) < 0
    ensures r == 0 <==> CompareTo(s1, s2) == 0
    ensures r == 1 <==> CompareTo(s1, s2) > 0
  {
    var s := CompareTo(s1, s2);
    if s != 0 then s / (if s < 0 then -s else s) else 0
  }

  /** Only equal strings compare as 0 (so `equals` and `compareTo == 0` agree). */
  lemma {:induction false} CompareZero(s1: string, s2: string)
    ensures CompareTo(s1, s2) == 0 <==> s1 == s2
    decreases |s1|
  {
    if |s1| != 0 && |s2| != 0 && s1[0] == s2[0] {
      CompareZero(s1[1..], s2[1..]);
      assert s1 == [s1[0]] + s1[1..] && s2 == [s2[0]] + s2[1..];
    }
  }

  /** Swapping the arguments negates the result. */
  lemma {:induction false} CompareAntisymmetric(s1: string, s2: string)
    ensures CompareTo(s2, s1) == -CompareTo(s1, s2)
    decreases |s1|
  {
    if |s1| != 0 && |s2| != 0 && s1[0] == s2[0] {
      CompareAntisymmetric(s1[1..], s2[1..]);
    }
  }

  /** `Less` is transitive. */
  lemma {:induction false} LessTransitive(a: string, b: string, c: string)
    requires Less(a, b) && Less(b, c)
    ensures Less(a, c)
    decreases |a|
  {
    if |a| != 0 && |b| != 0 && |c| != 0 && a[0] == b[0] && b[0] == c[0] {
      LessTransitive(a[1..], b[1..], c[1..]);
    }
  }

  /** `Less` is a strict total order: exactly one of `a < b`, `a == b`, `b < a`. */
  lemma Trichotomy(a: string, b: string)
    ensures Less(a, b) || a == b || Less(b, a)
    ensures !(Less(a, b) && Less(b, a)) && !Less(a, a)
  {
    CompareZero(a, b);
    CompareZero(a, a);
    CompareAntisymmetric(a, b);
  }

  /** `strcmp(w, k)` picks the left subtree exactly when `w < k` and the
      right one exactly when `k < w`. */
  lemma StrcmpDirection(w: string, k: string)
    ensures Strcmp(w, k) == -1 <==> Less(w, k)
    ensures Strcmp(w, k) == 1 <==> Less(k, w)
    ensures Strcmp(w, k) == 0 <==> w == k
  {
    CompareZero(w, k);
    CompareAntisymmetric(w, k);
  }
}
