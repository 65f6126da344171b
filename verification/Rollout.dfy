/** FNV-1a 64 rollout bucketing, in the Go and the JavaScript form. */
module Rollout {

  type byte = x: nat | x < 256

  const TWO_64: nat := 0x1_0000_0000_0000_0000
  const FNV_OFFSET: nat := 0xcbf29ce484222325
  const FNV_PRIME: nat := 0x100000001b3

  function Xor8(a: byte, b: byte): byte {
    ((a as bv8) ^ (b as bv8)) as nat
  }

  /** One FNV-1a round: exclusive-or into the low byte, then multiply modulo 2^64. */
  function Round(hash: nat, b: byte): (next: nat)
    ensures next < TWO_64
  {
    ((hash - hash % 256 + Xor8(hash % 256, b)) * FNV_PRIME) % TWO_64
  }

  function Fnv(hash: nat, bytes: seq<byte>): nat
    decreases |bytes|
  {
    if bytes == [] then hash else Round(Fnv(hash, bytes[..|bytes| - 1]), bytes[|bytes| - 1])
  }

  /** Hashing a concatenation is hashing the second part from where the first stopped. */
  lemma {:induction false} FnvConcat(hash: nat, a: seq<byte>, b: seq<byte>)
    ensures Fnv(hash, a + b) == Fnv(Fnv(hash, a), b)
    decreases |b|
  {
    if b == [] {
      assert a + b == a;
    } else {
      FnvConcat(hash, a, b[..|b| - 1]);
      assert (a + b)[..|a + b| - 1] == a + b[..|b| - 1];
    }
  }

  /** The published FNV-1a 64 digests of "" and "a". */
  lemma FnvTestVectors()
    ensures Fnv(FNV_OFFSET, []) == 0xcbf29ce484222325
    ensures Fnv(FNV_OFFSET, [0x61]) == 0xaf63dc4c8601ec8c
  {
    assert FNV_OFFSET % 256 == 0x25;
    assert Xor8(0x25, 0x61) == 0x44;
    assert [0x61][..0] == [];
    assert Fnv(FNV_OFFSET, [0x61]) == Round(FNV_OFFSET, 0x61);
  }

  /** The bucket of `salt:value`. */
  function Bucket(salt: seq<byte>, value: seq<byte>): (bucket: nat)
    ensures bucket < 10000
  {
    Fnv(FNV_OFFSET, salt + [0x3a] + value) % 10000
  }

  /** The hash object of Go's hash/fnv. */
  class Fnv64a {
    var hash: nat

    constructor ()
      ensures hash == FNV_OFFSET
    {
      hash := FNV_OFFSET;
    }

    method Write(bytes: seq<byte>)
      modifies this
      ensures hash == Fnv(old(hash), bytes)
    {
      for i := 0 to |bytes|
        invariant hash == Fnv(old(hash), bytes[..i])
      {
        assert bytes[..i + 1][..i] == bytes[..i];
        hash := Round(hash, bytes[i]);
      }
      assert bytes[..|bytes|] == bytes;
    }
  }

  /** Go: three writes into one hash object. */
  method GoRolloutBucket(salt: seq<byte>, value: seq<byte>) returns (bucket: nat)
    ensures bucket == Bucket(salt, value)
  {
    var h := new Fnv64a();
    h.Write(salt);
    h.Write([0x3a]);
    h.Write(value);
    bucket := h.hash % 10000;
    FnvConcat(FNV_OFFSET, salt, [0x3a]);
    FnvConcat(FNV_OFFSET, salt + [0x3a], value);
  }

  /** JavaScript: one hash loop over a byte buffer. */
  method JsFnv1a64(bytes: array<byte>) returns (hash: nat)
    ensures hash == Fnv(FNV_OFFSET, bytes[..])
  {
    hash := FNV_OFFSET;
    for i := 0 to bytes.Length
      invariant hash == Fnv(FNV_OFFSET, bytes[..i])
    {
      assert bytes[..i + 1][..i] == bytes[..i];
      hash := Round(hash, bytes[i]);
    }
    assert bytes[..bytes.Length] == bytes[..];
  }

  /** JavaScript: the buffer is assembled in place, then hashed once. */
  method JsRolloutBucket(salt: seq<byte>, value: seq<byte>) returns (bucket: nat)
    ensures bucket == Bucket(salt, value)
  {
    var n := |salt|;
    var combined := new byte[n + 1 + |value|];
    forall i | 0 <= i < n { combined[i] := salt[i]; }
    combined[n] := 0x3a;
    forall i | 0 <= i < |value| { combined[n + 1 + i] := value[i]; }
    assert combined[..] == salt + [0x3a] + value;
    var hash := JsFnv1a64(combined);
    bucket := hash % 10000;
  }

  /** The percent gate with its two guards is a plain threshold on the bucket, for every percent. */
  predicate InBucket(salt: seq<byte>, value: seq<byte>, percent: int): (r: bool)
    ensures r <==> Bucket(salt, value) < 100 * percent
  {
    if percent <= 0 then false
    else if percent >= 100 then true
    else Bucket(salt, value) < percent * 100
  }

  /** UTF-8, which both runtimes apply to the salt and the attribute value. */
  function Utf8(s: string): seq<byte> {
    if s == "" then [] else Utf8Char(s[0]) + Utf8(s[1..])
  }

  function Utf8Char(ch: char): seq<byte> {
    var c := ch as int;
    if c < 0x80 then [c]
    else if c < 0x800 then [0xC0 + c / 64, 0x80 + c % 64]
    else if c < 0x10000 then [0xE0 + c / 4096, 0x80 + c / 64 % 64, 0x80 + c % 64]
    else [0xF0 + c / 262144, 0x80 + c / 4096 % 64, 0x80 + c / 64 % 64, 0x80 + c % 64]
  }
}
