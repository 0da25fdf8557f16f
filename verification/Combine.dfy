/** Combining op hashes by byte-wise exclusive or (crates/dht/src/combine.rs). */
module Combine {
  type Hash = seq<bv8>

  /** The byte of `h` at `i`, reading zero beyond its end. */
  function ByteAt(h: Hash, i: nat): bv8 {
    if i < |h| then h[i] else 0
  }

  /** Exclusive or, with the shorter operand padded by zeros: the empty hash is its unit. */
  function Xor(a: Hash, b: Hash): Hash {
    seq(if |a| < |b| then |b| else |a|, i requires i >= 0 => ByteAt(a, i) ^ ByteAt(b, i))
  }

  predicate AllZero(h: Hash) {
    forall i: nat :: i < |h| ==> ByteAt(h, i) == 0
  }

  lemma XorAt(a: Hash, b: Hash, i: nat)
    ensures ByteAt(Xor(a, b), i) == ByteAt(a, i) ^ ByteAt(b, i)
  {
  }

  lemma ByteXorAssoc(x: bv8, y: bv8, z: bv8)
    ensures (x ^ y) ^ z == x ^ (y ^ z)
  {
  }

  lemma XorComm(a: Hash, b: Hash)
    ensures Xor(a, b) == Xor(b, a)
  {
    assert forall i :: 0 <= i < |Xor(a, b)| ==> Xor(a, b)[i] == Xor(b, a)[i];
  }

  lemma XorAssoc(a: Hash, b: Hash, c: Hash)
    ensures Xor(Xor(a, b), c) == Xor(a, Xor(b, c))
  {
    var l, r := Xor(Xor(a, b), c), Xor(a, Xor(b, c));
    assert |l| == |r|;
    forall i | 0 <= i < |l|
      ensures l[i] == r[i]
    {
      XorAt(a, b, i);
      XorAt(b, c, i);
      XorAt(Xor(a, b), c, i);
      XorAt(a, Xor(b, c), i);
      ByteXorAssoc(ByteAt(a, i), ByteAt(b, i), ByteAt(c, i));
    }
  }

  lemma XorUnit(a: Hash)
    ensures Xor([], a) == a && Xor(a, []) == a
  {
    assert forall i :: 0 <= i < |a| ==> Xor([], a)[i] == a[i] && Xor(a, [])[i] == a[i];
  }

  /** Combining the same hash twice cancels it. */
  lemma XorCancel(a: Hash, b: Hash)
    requires |b| <= |a|
    ensures Xor(Xor(a, b), b) == a
  {
    assert forall i :: 0 <= i < |a| ==> Xor(Xor(a, b), b)[i] == a[i];
  }

  /** Among hashes of one length, two differ exactly when their exclusive or is not all zero. */
  lemma XorDetects(a: Hash, b: Hash)
    requires |a| == |b|
    ensures a == b <==> AllZero(Xor(a, b))
  {
    if AllZero(Xor(a, b)) {
      forall i | 0 <= i < |a|
        ensures a[i] == b[i]
      {
        assert ByteAt(Xor(a, b), i) == 0;
      }
    }
  }

  /** Folds one hash into a mutable hash, in place. Differing lengths panic in the original,
      except that an empty target takes the other hash over. */
  method CombineHashes(into: Hash, other: Hash) returns (out: Hash)
    requires into == [] || |into| == |other|
    ensures out == Xor(into, other)
  {
    if into == [] && other != [] {
      XorUnit(other);
      return other;
    }
    out := into;
    for i := 0 to |into|
      invariant |out| == |into|
      invariant forall k :: 0 <= k < i ==> out[k] == into[k] ^ other[k]
      invariant forall k :: i <= k < |into| ==> out[k] == into[k]
    {
      out := out[i := out[i] ^ other[i]];
    }
  }

  /** The exclusive or of a list of hashes, in list order. */
  function XorAll(hashes: seq<Hash>): Hash {
    if hashes == [] then [] else Xor(XorAll(hashes[..|hashes| - 1]), hashes[|hashes| - 1])
  }

  predicate SameLength(hashes: seq<Hash>, len: nat) {
    forall i :: 0 <= i < |hashes| ==> |hashes[i]| == len
  }

  /** Combines a list of hashes of one length. An empty list gives the empty hash. */
  method CombineOpHashes(hashes: seq<Hash>) returns (out: Hash)
    requires hashes == [] || (|hashes[0]| > 0 && SameLength(hashes, |hashes[0]|))
    ensures out == XorAll(hashes)
    ensures hashes != [] ==> |out| == |hashes[0]|
  {
    if hashes == [] {
      return [];
    }
    var zeros := seq(|hashes[0]|, _ => 0 as bv8);
    out := zeros;
    for i := 0 to |hashes|
      invariant |out| == |hashes[0]|
      invariant out == if i == 0 then zeros else XorAll(hashes[..i])
    {
      assert hashes[..i + 1][..i] == hashes[..i];
      if i == 0 {
        assert Xor(zeros, hashes[0]) == hashes[0];
        XorUnit(hashes[0]);
      }
      out := CombineHashes(out, hashes[i]);
    }
    assert hashes[..|hashes|] == hashes;
  }
}
