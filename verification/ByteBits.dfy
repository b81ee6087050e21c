/** Bit access inside bytes, and the reading of a byte sequence as a sequence of bits. */
module ByteBits {

  function Mask(k: nat): bv8
    requires k < 8
  {
    1 << k
  }

  function Bit(b: bv8, k: nat): bool
    requires k < 8
  {
    b & Mask(k) != 0
  }

  function PutBit(b: bv8, k: nat, v: bool): bv8
    requires k < 8
  {
    (b & !Mask(k)) | (if v then Mask(k) else 0)
  }

  lemma BitOfPutBit(b: bv8, k: nat, v: bool, j: nat)
    requires k < 8 && j < 8
    ensures Bit(PutBit(b, k, v), j) == if j == k then v else Bit(b, j)
  {
    assert Mask(0) == 1 && Mask(1) == 2 && Mask(2) == 4 && Mask(3) == 8;
    assert Mask(4) == 16 && Mask(5) == 32 && Mask(6) == 64 && Mask(7) == 128;
    var mk, mj := Mask(k), Mask(j);
    assert j != k ==> mj & mk == 0;
  }

  /** Bit i lives in byte i/8 at position i%8. */
  function BitAt(dat: seq<bv8>, i: nat): bool
    requires i < 8 * |dat|
  {
    Bit(dat[i / 8], i % 8)
  }

  function WithBit(dat: seq<bv8>, i: nat, v: bool): (r: seq<bv8>)
    requires i < 8 * |dat|
  {
    dat[i / 8 := PutBit(dat[i / 8], i % 8, v)]
  }

  /** Rewriting one bit of a byte array changes that bit and no other. */
  lemma BitAtWithBit(dat: seq<bv8>, i: nat, v: bool, j: nat)
    requires i < 8 * |dat| && j < 8 * |dat|
    ensures BitAt(WithBit(dat, i, v), j) == if j == i then v else BitAt(dat, j)
  {
    if i / 8 == j / 8 {
      BitOfPutBit(dat[i / 8], i % 8, v, j % 8);
    }
  }

  function BitsOf(dat: seq<bv8>): (r: seq<bool>)
    ensures |r| == 8 * |dat| && forall i :: 0 <= i < |r| ==> r[i] == BitAt(dat, i)
  {
    seq(8 * |dat|, i requires 0 <= i < 8 * |dat| => BitAt(dat, i))
  }
}
