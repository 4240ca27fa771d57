/**
 * Reading and writing Ruby arrays by index, as the resizing containers do:
 * a read past the end gives `nil`, and a write past the end pads the array
 * with `nil` first.
 */
module RubyArrays {
  import opened Errors

  /** `array[i]` for a Ruby array: `nil` past the end. Indices are never negative here. */
  function RubyGet<T>(a: seq<Option<T>>, i: int): (v: Option<T>)
    ensures 0 <= i < |a| ==> v == a[i]
    ensures i >= |a| ==> v == None
  {
    if 0 <= i < |a| then a[i] else None
  }

  function Max(a: int, b: int): int
  {
    if a < b then b else a
  }

  /**
   * `array[i] = v` for a Ruby array: a write past the end first pads the
   * array with `nil` up to `i`.
   */
  function RubySet<T>(a: seq<Option<T>>, i: nat, v: Option<T>): (r: seq<Option<T>>)
    ensures |r| == Max(|a|, i + 1) && r[i] == v
    ensures forall k :: 0 <= k < |r| && k != i ==> r[k] == RubyGet(a, k)
  {
    if i < |a| then a[i := v] else a + seq(i - |a|, _ => None) + [v]
  }
}
