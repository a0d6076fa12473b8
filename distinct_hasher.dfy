// `DistinctHasher.hash`: the resized hasher's value is decoded into a choice
// of `quantity` distinct values below the size, and those become an int cursor.
// The decoder belongs to a library outside this model; its result is a
// parameter here, constrained by what that decoder promises.

module DistinctHashing {
  import opened JavaMath
  import opened HashSizes
  import opened HashCodes
  import opened Hashers

  /** The view of the resized hasher that `hash` decodes. */
  datatype DecodedView = LongView | BigView

  /** The long view when the number of choices is long-sized, the big view otherwise. */
  function DecodedViewOf(h: Hasher): (r: DecodedView)
    requires h.Distinct? && h.Valid()
    ensures r == LongView <==> h.choiceSize.bigSize <= TWO_63
  {
    ValidSize(h.hashing);
    FlagsRange(h.choiceSize);
    if h.longSized then LongView else BigView
  }

  /** What the decoder returns: k values in [0, n), strictly ascending. */
  predicate IsChoice(c: seq<int32>, n: int, k: int)
  {
    |c| == k
    && (forall i :: 0 <= i < |c| ==> 0 <= c[i] < n)
    && (forall i, j :: 0 <= i < j < |c| ==> c[i] < c[j])
  }

  /** The values of a choice are pairwise distinct. */
  lemma ChoiceDistinct(c: seq<int32>, n: int, k: int)
    requires IsChoice(c, n, k)
    ensures forall i, j :: 0 <= i < |c| && 0 <= j < |c| && i != j ==> c[i] != c[j]
  {
    forall i, j | 0 <= i < |c| && 0 <= j < |c| && i != j
      ensures c[i] != c[j]
    {
      if i < j {
        assert c[i] < c[j];
      } else {
        assert c[j] < c[i];
      }
    }
  }

  /**
   * `hash(value)`: `choice` is the decoder's answer for the value read
   * through `DecodedViewOf(h)`; the result is a fresh int cursor over it, at
   * its start, with the int-wide size.
   */
  method Hash(h: Hasher, choice: seq<int32>) returns (code: IntsHashCode)
    requires h.Distinct? && h.Valid()
    requires IsChoice(choice, h.size.bigSize, h.quantity)
    ensures fresh(code) && fresh(code.intValues)
    ensures code.Valid() && code.index == 0 && code.size == INT_SIZE
    ensures code.intValues[..] == choice
  {
    var intValues := new int32[|choice|](i requires 0 <= i < |choice| => choice[i]);
    code := new IntsHashCode(intValues);
  }

  /**
   * A distinct hasher's code yields exactly `quantity` pairwise distinct
   * values, each below the size, and then has no next value.
   */
  method DrainDistinct(h: Hasher, choice: seq<int32>) returns (values: seq<int32>)
    requires h.Distinct? && h.Valid()
    requires IsChoice(choice, h.size.bigSize, h.quantity)
    ensures values == choice && |values| == h.GetQuantity()
    ensures forall i :: 0 <= i < |values| ==> 0 <= values[i] < h.GetSize().bigSize
    ensures forall i, j :: 0 <= i < |values| && 0 <= j < |values| && i != j ==> values[i] != values[j]
  {
    var code := Hash(h, choice);
    values := DrainInts(code);
    assert !code.HasNext();
    ChoiceDistinct(choice, h.size.bigSize, h.quantity);
  }
}
