/** Signature schemes, known only by their correctness law, and big-endian key hints. */
module Signing {
  import opened Basics

  datatype Key = Key(id: nat)

  /** A signer with the randomness it draws. */
  datatype Signer = Signer(key: Key, coin: nat)

  type Hint = n: int | 0 <= n < TWO_32

  /** Signing and reading a key may fail; a signature is a byte string. */
  datatype Scheme = Scheme(
    sign: (Signer, string) -> Option<Bytes>,
    verify: (Key, Bytes, string) -> bool,
    hint: Key -> Option<Hint>
  ) {
    /** Whatever a signer signs, its own key accepts. */
    ghost predicate Correct() {
      forall s: Signer, m: string :: sign(s, m).Some? ==> verify(s.key, sign(s, m).value, m)
    }

    /** No signature is empty. */
    ghost predicate NonEmpty() {
      forall s: Signer, m: string :: sign(s, m) != Some([])
    }
  }

  /** `binary.BigEndian.PutUint32`. */
  function PutUint32(n: Hint): (b: Bytes)
    ensures |b| == 4
  {
    var high := n / 0x10000;
    var low := n % 0x10000;
    [high / 256, high % 256, low / 256, low % 256]
  }

  function Word(a: Byte, b: Byte): (w: int)
    ensures 0 <= w < 0x10000
  {
    a * 256 + b as int
  }

  /** `binary.BigEndian.Uint32`. */
  function ReadUint32(b: Bytes): Hint
    requires |b| >= 4
  {
    Word(b[0], b[1]) * 0x10000 + Word(b[2], b[3])
  }

  lemma WordRoundTrip(n: int)
    requires 0 <= n < 0x10000
    ensures Word(n / 256, n % 256) == n
  {
  }

  lemma WordBytes(a: Byte, b: Byte)
    ensures Word(a, b) / 256 == a && Word(a, b) % 256 == b
  {
  }

  lemma HintRoundTrip(n: Hint, rest: Bytes)
    ensures ReadUint32(PutUint32(n) + rest) == n
    ensures (PutUint32(n) + rest)[4..] == rest
  {
    hide Word;
    WordRoundTrip(n / 0x10000);
    WordRoundTrip(n % 0x10000);
  }

  lemma HintBytesRoundTrip(b: Bytes)
    requires |b| >= 4
    ensures PutUint32(ReadUint32(b)) + b[4..] == b
  {
    hide Word;
    WordBytes(b[0], b[1]);
    WordBytes(b[2], b[3]);
    var h, l := Word(b[0], b[1]), Word(b[2], b[3]);
    assert (h * 0x10000 + l) / 0x10000 == h && (h * 0x10000 + l) % 0x10000 == l;
    assert PutUint32(ReadUint32(b)) == [b[0], b[1], b[2], b[3]];
  }

  /** The most significant byte comes first. */
  lemma KnownHints()
    ensures PutUint32(0x01020304) == [1, 2, 3, 4] && ReadUint32([1, 2, 3, 4, 5]) == 0x01020304
  {
  }
}
