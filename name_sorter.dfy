/** NameSorter: the comparator that orders catalogue values by their display
    string, ignoring case. */
module NameSorter {
  import opened Strings

  /** `compare(o1, o2)`: compares the lower-cased display strings with compareTo.
      The two are tied exactly when they lower-case to the same string. */
  function Compare(o1: string, o2: string): (r: int)
    ensures r == 0 <==> SameLowerCase(o1, o2)
  {
    CompareToZero(ToLowerCase(o1), ToLowerCase(o2));
    CompareTo(ToLowerCase(o1), ToLowerCase(o2))
  }

  /** Ascending order under Compare. */
  ghost predicate SortedByName(values: seq<string>) {
    forall i, j :: 0 <= i < j < |values| ==> Compare(values[i], values[j]) <= 0
  }

  /** o1 sorts first exactly when its lower-cased form precedes o2's
      lexicographically (a proper prefix comes first). */
  lemma CompareNegativeIff(o1: string, o2: string)
    ensures Compare(o1, o2) < 0 <==> LexLess(ToLowerCase(o1), ToLowerCase(o2))
  {
    CompareToNegative(ToLowerCase(o1), ToLowerCase(o2));
  }

  /** Swapping the arguments negates the result, so the signs are opposite. */
  lemma CompareAntisymmetric(a: string, b: string)
    ensures Compare(b, a) == -Compare(a, b)
  {
    CompareToAntisymmetric(ToLowerCase(a), ToLowerCase(b));
  }

  /** The order is transitive; with antisymmetry it is a total preorder. */
  lemma CompareTransitive(a: string, b: string, c: string)
    requires Compare(a, b) <= 0 && Compare(b, c) <= 0
    ensures Compare(a, c) <= 0
  {
    CompareToTransitive(ToLowerCase(a), ToLowerCase(b), ToLowerCase(c));
  }

  /** "Acme" and "acme" are tied. */
  lemma CompareIgnoresCase()
    ensures Compare("Acme", "acme") == 0
  {
    assert ToLowerCase("Acme") == "acme";
  }
}
