/**
 * The similarity policy used to pair a deleted line with an inserted one:
 * a Levenshtein distance below 5, or below 0.3 of the two texts' combined
 * UTF-8 byte length.
 */
module Similarity {
  import opened Text

  function Min3(a: nat, b: nat, c: nat): (m: nat)
    ensures m <= a && m <= b && m <= c
    ensures m == a || m == b || m == c
  {
    if a <= b && a <= c then a else if b <= c then b else c
  }

  /** The Levenshtein edit distance over characters (insert, delete, substitute, each costing one). */
  function Levenshtein(a: string, b: string): nat
    decreases |a| + |b|
  {
    if a == [] then |b|
    else if b == [] then |a|
    else Min3(Levenshtein(a[1..], b) + 1,
              Levenshtein(a, b[1..]) + 1,
              Levenshtein(a[1..], b[1..]) + (if a[0] == b[0] then 0 else 1))
  }

  /** The distance is zero exactly for equal texts. */
  lemma {:induction false} LevenshteinZero(a: string, b: string)
    ensures Levenshtein(a, b) == 0 <==> a == b
    decreases |a| + |b|
  {
    if a != [] && b != [] {
      LevenshteinZero(a[1..], b[1..]);
      if a == b {
        assert a[1..] == b[1..];
      }
    }
  }

  lemma {:induction false} LevenshteinSymmetric(a: string, b: string)
    ensures Levenshtein(a, b) == Levenshtein(b, a)
    decreases |a| + |b|
  {
    if a != [] && b != [] {
      LevenshteinSymmetric(a[1..], b);
      LevenshteinSymmetric(a, b[1..]);
      LevenshteinSymmetric(a[1..], b[1..]);
    }
  }

  /**
   * `similar`.  The source compares the float quotient
   * distance / (bytes a + bytes b) with 0.3; for natural numbers that is
   * 10 * distance < 3 * (bytes a + bytes b), and when both are empty the
   * quotient is NaN, which compares false, as the integer form does.
   */
  function Similar(a: string, b: string): bool
  {
    var distance := Levenshtein(a, b);
    distance < 5 || 10 * distance < 3 * (Utf8Len(a) + Utf8Len(b))
  }

  /** Every line is similar to itself (two empty lines included). */
  lemma SimilarReflexive(a: string)
    ensures Similar(a, a)
  {
    LevenshteinZero(a, a);
  }

  lemma SimilarSymmetric(a: string, b: string)
    ensures Similar(a, b) == Similar(b, a)
  {
    LevenshteinSymmetric(a, b);
  }

  /** The two thresholds: near-identical lines always pair, and a pair that is neither close nor short in proportion never does. */
  lemma SimilarThresholds(a: string, b: string)
    ensures Levenshtein(a, b) < 5 ==> Similar(a, b)
    ensures Levenshtein(a, b) >= 5 && 10 * Levenshtein(a, b) >= 3 * (Utf8Len(a) + Utf8Len(b)) ==> !Similar(a, b)
  {
  }
}
