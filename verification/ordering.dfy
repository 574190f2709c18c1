/** Strictly ascending runs of characters, used to show that an alphabet repeats no symbol. */
module Ordering {

  /** Between indices `i` and `j`, each character is strictly below the next. */
  predicate Ascending(s: string, i: nat, j: nat)
    requires j <= |s|
  {
    forall k :: i <= k && k + 1 < j ==> s[k] < s[k + 1]
  }

  /** In an ascending run, an earlier character is below every later one. */
  lemma {:induction false} AscendingBelow(s: string, i: nat, j: nat, k: nat, n: nat)
    requires n <= |s| && Ascending(s, i, n) && i <= j < k < n
    ensures s[j] < s[k]
    decreases k - j
  {
    if k > j + 1 {
      AscendingBelow(s, i, j, k - 1, n);
    }
  }
}
