/** Half-open index ranges with the bounds check and the unsigned arithmetic of a C++ span. */
module Spans {
  import opened Bytes

  const SIZE_LIMIT: nat := 0x1_0000_0000_0000_0000
  const DYNAMIC_EXTENT: nat := SIZE_LIMIT - 1

  /** Subtraction of two sizes, wrapping around below zero. */
  function SizeMinus(a: nat, b: nat): nat
    requires b < SIZE_LIMIT
  {
    if b <= a then a - b else a + SIZE_LIMIT - b
  }

  /** Sizes are unsigned 64-bit integers: 2^64 - 1 is the largest one. */
  lemma SizesWrap(a: nat, b: nat)
    requires a <= 0xFFFF_FFFF_FFFF_FFFF && b <= 0xFFFF_FFFF_FFFF_FFFF
    ensures SizeMinus(a, b) == (a - b) % 0x1_0000_0000_0000_0000
    ensures DYNAMIC_EXTENT == 0xFFFF_FFFF_FFFF_FFFF
  {
  }

  datatype Span = Span(first: nat, last: nat) {

    predicate Valid() {
      first <= last && last - first < SIZE_LIMIT
    }

    function Size(): nat
      requires Valid()
    {
      last - first
    }

    /** None stands for the out_of_bounds error. */
    function Subspan(offset: nat, count: nat): (r: Option<Span>)
      requires Valid()
      ensures r.None? <==> offset > Size()
      ensures r.Some? ==> r.value.Valid() && r.value.first == first + offset && r.value.last <= last
      // as many elements as asked for, or else all that are left
      ensures r.Some? ==> r.value.Size() <= count && (r.value.Size() == count || r.value.last == last)
    {
      if offset > Size() then None
      else
        var n := if count < Size() - offset then count else Size() - offset;
        Some(Span(first + offset, first + offset + n))
    }
  }
}
