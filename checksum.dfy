/** The frame checksum: a frame is intact when the XOR of all of its bytes,
    header and trailing checksum byte included, is zero. */
module Checksum {

  /** XOR of all bytes of `f`, folded from the first byte to the last. */
  function XorAll(f: seq<bv8>): bv8
  {
    if f == [] then 0 else XorAll(f[..|f| - 1]) ^ f[|f| - 1]
  }

  /** The source's `testChecksum`: fold a mutable accumulator over the frame. */
  method TestChecksum(f: seq<bv8>) returns (ok: bool)
    ensures ok <==> XorAll(f) == 0
    ensures f == [] ==> ok
  {
    var checksum: bv8 := 0;
    for i := 0 to |f|
      invariant checksum == XorAll(f[..i])
    {
      assert f[..i + 1][..i] == f[..i];
      checksum := checksum ^ f[i];
    }
    assert f[..|f|] == f;
    ok := checksum == 0;
  }

  /** XOR distributes over concatenation. */
  lemma {:induction false} XorAppend(a: seq<bv8>, b: seq<bv8>)
    ensures XorAll(a + b) == XorAll(a) ^ XorAll(b)
  {
    if b == [] {
      assert a + b == a;
    } else {
      assert (a + b)[..|a + b| - 1] == a + b[..|b| - 1];
      XorAppend(a, b[..|b| - 1]);
    }
  }

  /** Replacing byte `k` by `b` changes the XOR by exactly `f[k] ^ b`. */
  lemma XorUpdate(f: seq<bv8>, k: nat, b: bv8)
    requires k < |f|
    ensures XorAll(f[k := b]) == XorAll(f) ^ f[k] ^ b
  {
    assert f == f[..k] + [f[k]] + f[k + 1..];
    assert f[k := b] == f[..k] + [b] + f[k + 1..];
    XorAppend(f[..k] + [f[k]], f[k + 1..]);
    XorAppend(f[..k], [f[k]]);
    XorAppend(f[..k] + [b], f[k + 1..]);
    XorAppend(f[..k], [b]);
    assert [f[k]][..0] == [] && [b][..0] == [];
  }

  /** A frame that passes fails once any single byte is changed:
      the checksum detects every one-byte corruption. */
  lemma SingleByteChangeFails(f: seq<bv8>, k: nat, b: bv8)
    requires XorAll(f) == 0
    requires k < |f| && b != f[k]
    ensures XorAll(f[k := b]) != 0
  {
    XorUpdate(f, k, b);
  }

  /** The sender's side: appending the XOR of a frame body as its last byte
      yields a frame that passes. */
  lemma SealedFramePasses(body: seq<bv8>)
    ensures XorAll(body + [XorAll(body)]) == 0
  {
    assert (body + [XorAll(body)])[..|body|] == body;
  }
}
