/** The masking codec of RFC 6455, section 5.3: every payload byte is XORed
    with the byte of a four-byte key at the same position modulo four. */
module Masking {
  import opened Bytes

  /** Each byte of `payload` XORed with `mask[index % 4]`; the key is always
      four bytes long, since every key comes from the mask generator. */
  function ApplyMask(payload: seq<byte>, mask: seq<byte>): (r: seq<byte>)
    requires |mask| == 4
    ensures |r| == |payload|
  {
    seq(|payload|, index requires 0 <= index < |payload| => Xor(payload[index], mask[index % 4]))
  }

  /** Masking is its own inverse: unmasking with the same key restores the payload. */
  lemma MaskInvolution(payload: seq<byte>, mask: seq<byte>)
    requires |mask| == 4
    ensures ApplyMask(ApplyMask(payload, mask), mask) == payload
  {
    var once := ApplyMask(payload, mask);
    var twice := ApplyMask(once, mask);
    forall i | 0 <= i < |payload|
      ensures twice[i] == payload[i]
    {
      XorTwice(payload[i], mask[i % 4]);
    }
  }

  /** A worked case of RFC 6455's masking: "hi" under the key 01 02 03 04. */
  lemma MaskExample()
    ensures ApplyMask([0x68, 0x69], [1, 2, 3, 4]) == [0x69, 0x6b]
  {
    XorExamples();
    var r := ApplyMask([0x68, 0x69], [1, 2, 3, 4]);
    assert r[0] == Xor(0x68, 1) && r[1] == Xor(0x69, 2);
  }

  /** The two exclusive ors of the worked case. */
  lemma XorExamples()
    ensures Xor(0x68, 1) == 0x69 && Xor(0x69, 2) == 0x6b
  {
    assert XorBits(0, 0, 1) == 0;
    assert XorBits(1, 0, 2) == 1;
    assert XorBits(3, 0, 3) == 3;
    assert XorBits(6, 0, 4) == 6;
    assert XorBits(13, 0, 5) == 13;
    assert XorBits(26, 0, 6) == 26;
    assert XorBits(52, 0, 7) == 52;
    assert XorBits(52, 1, 7) == 53;
    assert XorBits(0x68, 1, 8) == 0x69 && XorBits(0x69, 2, 8) == 0x6b;
  }

  /** Masking commutes with taking a prefix: the first `j` masked bytes are
      the masked first `j` bytes. */
  lemma MaskPrefix(payload: seq<byte>, mask: seq<byte>, j: nat)
    requires |mask| == 4 && j <= |payload|
    ensures ApplyMask(payload, mask)[..j] == ApplyMask(payload[..j], mask)
  {
  }

  /** The key rotated left by `j` places: the key bytes that meet a
      payload starting at offset `j`. */
  function Rotate(mask: seq<byte>, j: nat): (r: seq<byte>)
    requires |mask| == 4
    ensures |r| == 4
  {
    seq(4, i requires 0 <= i < 4 => mask[(i + j) % 4])
  }

  /** The masked bytes from offset `j` on are that suffix masked with the key
      rotated by `j`: a suffix of a masked payload is not masked with the
      key read from its start. */
  lemma MaskSuffix(payload: seq<byte>, mask: seq<byte>, j: nat)
    requires |mask| == 4 && j <= |payload|
    ensures ApplyMask(payload, mask)[j..] == ApplyMask(payload[j..], Rotate(mask, j))
  {
    var lhs := ApplyMask(payload, mask)[j..];
    var rhs := ApplyMask(payload[j..], Rotate(mask, j));
    forall i | 0 <= i < |lhs|
      ensures lhs[i] == rhs[i]
    {
      MaskSuffixAt(payload, mask, j, i);
    }
  }

  lemma MaskSuffixAt(payload: seq<byte>, mask: seq<byte>, j: nat, i: nat)
    requires |mask| == 4 && j + i < |payload|
    ensures ApplyMask(payload, mask)[j + i] == ApplyMask(payload[j..], Rotate(mask, j))[i]
  {
    assert payload[j..][i] == payload[j + i];
    assert Rotate(mask, j)[i % 4] == mask[(j + i) % 4] by {
      ModAddAbsorb(i, j);
    }
  }

  lemma ModAddAbsorb(i: nat, j: nat)
    ensures (i % 4 + j) % 4 == (i + j) % 4
  {
    var q := i / 4;
    assert i + j == (i % 4 + j) + 4 * q;
  }
}
