/** Shared vocabulary of the Sudoku model: optional values, board positions,
    digits, and the de-duplication that `Array.from(new Set(xs))` performs. */
module Common {

  /** `null` or a value, as the TypeScript `T | null` fields are used. */
  datatype Option<+T> = None | Some(value: T)

  /** A cell of the 9x9 board, numbered row by row: index = row * 9 + column. */
  type Index = i: int | 0 <= i < 81

  /** A Sudoku digit. */
  type Digit = d: int | 1 <= d <= 9 witness 1

  /** No element occurs twice. */
  predicate Distinct<T(==)>(s: seq<T>) {
    forall p, q :: 0 <= p < q < |s| ==> s[p] != s[q]
  }

  /** The set of elements of a sequence. */
  function Elements<T>(s: seq<T>): set<T> {
    set x | x in s
  }

  /** Keeps the first occurrence of every element, in the order of first
      occurrence: what `Array.from(new Set(s))` yields. */
  function Dedup<T(==,!new)>(s: seq<T>): (r: seq<T>)
    ensures Distinct(r)
    ensures forall x :: x in r <==> x in s
    ensures |r| <= |s|
    ensures |s| > 0 ==> |r| > 0 && r[0] == s[0]
  {
    if |s| == 0 then []
    else
      var prefix := Dedup(s[..|s| - 1]);
      var last := s[|s| - 1];
      assert s == s[..|s| - 1] + [last];
      if last in s[..|s| - 1] then prefix else prefix + [last]
  }

  /** A sequence without repetitions has as many elements as it has entries. */
  lemma {:induction false} DistinctCard<T>(s: seq<T>)
    requires Distinct(s)
    ensures |Elements(s)| == |s|
  {
    if |s| > 0 {
      var init := s[..|s| - 1];
      assert Distinct(init);
      DistinctCard(init);
      assert s[|s| - 1] !in init;
      assert Elements(s) == Elements(init) + {s[|s| - 1]};
    }
  }
}
