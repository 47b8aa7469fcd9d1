/** The single-byte XOR cipher of the string-encryption pass
    (`StringEncryption::encrypt` and the arithmetic of the emitted
    decryption code). */
module Cipher {

  /** The fixed key every byte is XOR-ed with, on both sides. */
  const Key: bv8 := 0x88

  /** `encrypt`: walks the string once and XORs every byte with `Key`.
      Modelled as the left-to-right recursion the loop performs. */
  function Encrypt(src: seq<bv8>): (r: seq<bv8>)
    ensures |r| == |src|
    ensures forall i :: 0 <= i < |src| ==> r[i] == src[i] ^ Key
  {
    if |src| == 0 then []
    else [src[0] ^ Key] + Encrypt(src[1..])
  }

  /** What the emitted decryption code computes for every index of a
      ciphertext of `|ct|` bytes: load byte `i`, XOR it with `Key`. */
  function Decrypt(ct: seq<bv8>): seq<bv8>
  {
    seq(|ct|, i requires 0 <= i < |ct| => ct[i] ^ Key)
  }

  /** Decrypting a ciphertext recovers the plaintext. */
  lemma DecryptEncrypt(s: seq<bv8>)
    ensures Decrypt(Encrypt(s)) == s
  {
    var d := Decrypt(Encrypt(s));
    forall i | 0 <= i < |s|
      ensures d[i] == s[i]
    {
      XorTwice(s[i], Key);
    }
  }

  /** Encrypting a decrypted buffer gives back the ciphertext. */
  lemma EncryptDecrypt(s: seq<bv8>)
    ensures Encrypt(Decrypt(s)) == s
  {
    var e := Encrypt(Decrypt(s));
    forall i | 0 <= i < |s|
      ensures e[i] == s[i]
    {
      XorTwice(s[i], Key);
    }
  }

  /** `encrypt` is its own inverse: running the pass's cipher twice is the
      identity. */
  lemma EncryptInvolution(s: seq<bv8>)
    ensures Encrypt(Encrypt(s)) == s
  {
    var e := Encrypt(Encrypt(s));
    forall i | 0 <= i < |s|
      ensures e[i] == s[i]
    {
      XorTwice(s[i], Key);
    }
  }

  lemma XorTwice(b: bv8, k: bv8)
    ensures (b ^ k) ^ k == b
  {
  }
}
