/**
  7-bit packing of septets into octets, section 6.1.2.1.1 of 3GPP TS 23.038, as the gsm7 crate is
  taken to implement it. The crate is not part of this model, and whether it fills 7 spare bits
  with zeros or with a carriage return is left open: every result holds for both.
 */
module Septets {
  import opened BitStream

  datatype Fill = Zeros | CarriageReturn

  const CARRIAGE_RETURN: nat := 0x0D

  function Spare(count: nat): nat {
    (8 - 7 * count % 8) % 8
  }

  function Padding(count: nat, fill: Fill): (bits: seq<bit>)
    ensures |bits| == Spare(count)
  {
    if Spare(count) == 7 && fill == CarriageReturn then ToBits(CARRIAGE_RETURN, 7)
    else seq(Spare(count), _ => 0)
  }

  function Pack(septets: seq<nat>, fill: Fill): (octets: seq<nat>) {
    Group(Stream(septets, 7) + Padding(|septets|, fill), 8)
  }

  /** Reads septets until fewer than 7 bits are left. */
  function Unpack(octets: seq<nat>): (septets: seq<nat>) {
    Group(Stream(octets, 8), 7)
  }

  /** The septet that unpacking finds in the padding: none, unless 7 bits are spare. */
  function Extra(count: nat, fill: Fill): seq<nat> {
    if count % 8 != 7 then [] else if fill == Zeros then [0] else [CARRIAGE_RETURN]
  }

  lemma SpareBits(count: nat)
    ensures Spare(count) == count % 8
    ensures 7 * count + Spare(count) == 8 * ((7 * count + 7) / 8)
  {
    var q, r := count / 8, count % 8;
    assert 7 * count == 8 * (7 * q) + 7 * r;
  }

  lemma PackedStream(septets: seq<nat>, fill: Fill)
    ensures |Pack(septets, fill)| == (7 * |septets| + 7) / 8
    ensures Fit(Pack(septets, fill), 8)
    ensures Stream(Pack(septets, fill), 8) == Stream(septets, 7) + Padding(|septets|, fill)
  {
    StreamLength(septets, 7);
    SpareBits(|septets|);
    StreamOfGroup(Stream(septets, 7) + Padding(|septets|, fill), (7 * |septets| + 7) / 8, 8);
  }

  lemma PaddingSeptets(count: nat, fill: Fill)
    ensures Group(Padding(count, fill), 7) == Extra(count, fill)
  {
    SpareBits(count);
    var bits := Padding(count, fill);
    if count % 8 == 7 {
      var v := if fill == CarriageReturn then CARRIAGE_RETURN else 0;
      ZeroBits(7);
      assert bits == ToBits(v, 7);
      FromToBits(v, 7);
      GroupStep(bits, [], 7);
      assert bits + [] == bits;
    }
  }

  lemma {:induction false} ZeroBits(width: nat)
    ensures ToBits(0, width) == seq(width, _ => 0)
  {
    if width > 0 {
      ZeroBits(width - 1);
    }
  }

  /** Unpacking returns the packed septets, and one more exactly when 7 bits were spare. */
  lemma UnpackPack(septets: seq<nat>, fill: Fill)
    requires Fit(septets, 7)
    ensures Unpack(Pack(septets, fill)) == septets + Extra(|septets|, fill)
  {
    PackedStream(septets, fill);
    GroupOfStream(septets, Padding(|septets|, fill), 7);
    PaddingSeptets(|septets|, fill);
  }

  lemma DividedBySeven(at: nat, count: nat)
    requires at < 7 * count
    ensures at / 7 < count && at % 7 < 7 && at / 7 * 7 + at % 7 == at
  {
  }

  lemma SeptetBit(septets: seq<nat>, at: nat)
    requires at < 7 * |septets|
    ensures at < |Stream(septets, 7)| && at / 7 < |septets|
    ensures Stream(septets, 7)[at] == ToBits(septets[at / 7], 7)[at % 7]
  {
    DividedBySeven(at, |septets|);
    StreamLayout(septets, 7, at / 7, at % 7);
  }

  lemma SameBit(stream: seq<bit>, padding: seq<bit>, at: nat)
    requires at < |stream|
    ensures (stream + padding)[at] == stream[at]
  {
  }

  lemma OctetBit(octets: seq<nat>, k: nat, b: nat)
    requires k < |octets| && b < 8
    ensures 8 * k + b < |Stream(octets, 8)|
    ensures Stream(octets, 8)[8 * k + b] == ToBits(octets[k], 8)[b]
  {
    StreamLayout(octets, 8, k, b);
    assert k * 8 + b == 8 * k + b;
  }

  lemma PackedBit(septets: seq<nat>, fill: Fill, at: nat)
    requires at < 7 * |septets|
    ensures at < |Stream(septets, 7)|
    ensures at < |Stream(Pack(septets, fill), 8)|
    ensures Stream(Pack(septets, fill), 8)[at] == Stream(septets, 7)[at]
  {
    StreamLength(septets, 7);
    PackedStream(septets, fill);
    SameBit(Stream(septets, 7), Padding(|septets|, fill), at);
  }

  lemma PackedOctet(septets: seq<nat>, fill: Fill, k: nat, b: nat)
    requires b < 8 && 8 * k + b < 7 * |septets|
    ensures k < |Pack(septets, fill)|
  {
    PackedStream(septets, fill);
  }

  lemma BitsAgree(octets: seq<nat>, septets: seq<nat>, k: nat, b: nat, at: nat)
    requires k < |octets| && b < 8 && at == 8 * k + b && at < 7 * |septets|
    requires at < |Stream(octets, 8)| && at < |Stream(septets, 7)|
    requires Stream(octets, 8)[at] == Stream(septets, 7)[at]
    ensures at / 7 < |septets| && ToBits(octets[k], 8)[b] == ToBits(septets[at / 7], 7)[at % 7]
  {
    OctetBit(octets, k, b);
    SeptetBit(septets, at);
  }

  /**
    The layout the standard draws: bit `b` of octet `k` is bit `(8k + b) mod 7` of septet
    `(8k + b) div 7`, for every bit that is not padding.
   */
  lemma PackLayout(septets: seq<nat>, fill: Fill, k: nat, b: nat)
    requires b < 8 && 8 * k + b < 7 * |septets|
    ensures k < |Pack(septets, fill)|
    ensures ToBits(Pack(septets, fill)[k], 8)[b]
         == ToBits(septets[(8 * k + b) / 7], 7)[(8 * k + b) % 7]
  {
    PackedOctet(septets, fill, k, b);
    PackedBit(septets, fill, 8 * k + b);
    BitsAgree(Pack(septets, fill), septets, k, b, 8 * k + b);
  }
}
