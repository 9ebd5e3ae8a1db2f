/** Datatypes and small predicates shared by the models of the kernel's components. */
module Common {

  /** A pointer that may be null, or a lookup that may miss. */
  datatype Option<+T> = None | Some(value: T)

  /** No element occurs twice. */
  ghost predicate Distinct<T>(s: seq<T>) {
    forall i, j :: 0 <= i < j < |s| ==> s[i] != s[j]
  }

  /** The sequence without its element at index i. */
  function RemoveAt<T>(s: seq<T>, i: nat): seq<T>
    requires i < |s|
  {
    s[..i] + s[i + 1..]
  }

  /** The elements of a sequence. */
  function Elements<T>(s: seq<T>): set<T> {
    set x | x in s
  }

  lemma {:induction false} DistinctElements<T>(s: seq<T>)
    requires Distinct(s)
    ensures |Elements(s)| == |s|
  {
    if s != [] {
      var t := s[1..];
      DistinctElements(t);
      assert Elements(s) == {s[0]} + Elements(t);
    }
  }

  type Byte = b: int | 0 <= b < 256

  /** The number of values of a uint32_t. */
  const WORD := 0x1_0000_0000
}
