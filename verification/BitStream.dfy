/**
  Streams of bits, least significant bit first. Septets and octets are two ways of cutting the
  same stream: 7-bit packing writes septets of 7 bits and reads the stream back in groups of 8.
 */
module BitStream {
  import opened Sequences

  type bit = b: nat | b < 2

  function Power2(width: nat): nat {
    if width == 0 then 1 else 2 * Power2(width - 1)
  }

  ghost predicate Fit(values: seq<nat>, width: nat) {
    forall i :: 0 <= i < |values| ==> values[i] < Power2(width)
  }

  function ToBits(value: nat, width: nat): (bits: seq<bit>)
    ensures |bits| == width
  {
    if width == 0 then [] else [value % 2] + ToBits(value / 2, width - 1)
  }

  function FromBits(bits: seq<bit>): (value: nat)
    ensures value < Power2(|bits|)
  {
    if bits == [] then 0 else bits[0] + 2 * FromBits(bits[1..])
  }

  function Stream(values: seq<nat>, width: nat): seq<bit> {
    if values == [] then [] else ToBits(values[0], width) + Stream(values[1..], width)
  }

  /** Groups of `width` bits; an incomplete last group is not a value. */
  function Group(bits: seq<bit>, width: nat): (values: seq<nat>)
    requires width > 0
    ensures Fit(values, width)
  {
    if |bits| < width then [] else [FromBits(bits[..width])] + Group(bits[width..], width)
  }

  lemma {:induction false} FromToBits(value: nat, width: nat)
    requires value < Power2(width)
    ensures FromBits(ToBits(value, width)) == value
  {
    if width > 0 {
      FromToBits(value / 2, width - 1);
      assert ToBits(value, width)[1..] == ToBits(value / 2, width - 1);
    }
  }

  lemma {:induction false} ToFromBits(bits: seq<bit>)
    ensures ToBits(FromBits(bits), |bits|) == bits
  {
    if bits != [] {
      ToFromBits(bits[1..]);
      assert bits == [bits[0]] + bits[1..];
    }
  }

  lemma {:induction false} StreamLength(values: seq<nat>, width: nat)
    ensures |Stream(values, width)| == |values| * width
  {
    if values != [] {
      StreamLength(values[1..], width);
      assert |values| * width == width + (|values| - 1) * width;
    }
  }

  lemma GroupStep(first: seq<bit>, rest: seq<bit>, width: nat)
    requires width > 0
    requires |first| == width
    ensures Group(first + rest, width) == [FromBits(first)] + Group(rest, width)
  {
    assert (first + rest)[..width] == first;
    assert (first + rest)[width..] == rest;
  }

  /** Reading values back in the width they were written in, whatever follows them. */
  lemma {:induction false} GroupOfStream(values: seq<nat>, tail: seq<bit>, width: nat)
    requires width > 0
    requires Fit(values, width)
    ensures Group(Stream(values, width) + tail, width) == values + Group(tail, width)
  {
    var after := Group(tail, width);
    Empty(tail);
    Empty(after);
    if values != [] {
      var first, rest := ToBits(values[0], width), Stream(values[1..], width);
      Associative(first, rest, tail);
      GroupStep(first, rest + tail, width);
      FromToBits(values[0], width);
      GroupOfStream(values[1..], tail, width);
      HeadTail(values);
      Associative([values[0]], values[1..], after);
    }
  }

  lemma OneMore(count: nat, width: nat)
    requires count > 0
    ensures count * width == width + (count - 1) * width && (count - 1) * width >= 0
  {
  }

  lemma StreamStep(first: seq<bit>, rest: seq<bit>, width: nat)
    requires width > 0 && |first| == width
    requires Stream(Group(rest, width), width) == rest
    ensures Stream(Group(first + rest, width), width) == first + rest
    ensures |Group(first + rest, width)| == 1 + |Group(rest, width)|
  {
    GroupStep(first, rest, width);
    ToFromBits(first);
    assert ([FromBits(first)] + Group(rest, width))[1..] == Group(rest, width);
  }

  /** A stream of whole groups is the stream of its values. */
  lemma {:induction false} StreamOfGroup(bits: seq<bit>, count: nat, width: nat)
    requires width > 0
    requires |bits| == count * width
    ensures Stream(Group(bits, width), width) == bits
    ensures |Group(bits, width)| == count
    decreases count
  {
    if count > 0 {
      OneMore(count, width);
      StreamOfGroup(bits[width..], count - 1, width);
      StreamStep(bits[..width], bits[width..], width);
      assert bits[..width] + bits[width..] == bits;
    }
  }

  /** Bit `j` of value `k` is bit `k * width + j` of the stream. */
  lemma {:induction false} StreamLayout(values: seq<nat>, width: nat, k: nat, j: nat)
    requires k < |values| && j < width
    ensures 0 <= k * width + j < |Stream(values, width)|
    ensures Stream(values, width)[k * width + j] == ToBits(values[k], width)[j]
  {
    if k > 0 {
      OneMore(k, width);
      StreamLayout(values[1..], width, k - 1, j);
      AtLater(ToBits(values[0], width), Stream(values[1..], width), (k - 1) * width + j);
    }
  }
}
