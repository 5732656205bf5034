/** The sealed box around every frame (ghost-crypto): nonce, ciphertext and tag. */
module SealedBox {
  import opened Bytes

  const NONCE_SIZE := 12
  const TAG_SIZE := 16

  type Nonce = s: seq<byte> | |s| == NONCE_SIZE witness [0, 0, 0, 0, 0, 0, 0, 0, 0, 0, 0, 0]

  /** An authenticated cipher under one fixed key. */
  datatype Aead = Aead(
    seal: (Nonce, seq<byte>) -> seq<byte>,
    open: (Nonce, seq<byte>) -> Option<seq<byte>>)

  /** Section 2.8 of RFC 8439: the tag adds 16 bytes, and opening undoes sealing. */
  ghost predicate Lawful(a: Aead) {
    forall nonce: Nonce, plain: seq<byte> ::
      |a.seal(nonce, plain)| == |plain| + TAG_SIZE && a.open(nonce, a.seal(nonce, plain)) == Some(plain)
  }

  /** `GhostCipher::encrypt`, with the nonce it draws. */
  function Encrypt(a: Aead, nonce: Nonce, plain: seq<byte>): seq<byte> {
    nonce + a.seal(nonce, plain)
  }

  function Decrypt(a: Aead, data: seq<byte>): Option<seq<byte>> {
    if |data| < NONCE_SIZE + TAG_SIZE then None
    else a.open(data[..NONCE_SIZE], data[NONCE_SIZE..])
  }

  function EncryptedSize(plainLen: nat): nat { NONCE_SIZE + plainLen + TAG_SIZE }

  lemma DecryptInvertsEncrypt(a: Aead, nonce: Nonce, plain: seq<byte>)
    requires Lawful(a)
    ensures |Encrypt(a, nonce, plain)| == EncryptedSize(|plain|)
    ensures Decrypt(a, Encrypt(a, nonce, plain)) == Some(plain)
  {
    var data := Encrypt(a, nonce, plain);
    assert data[..NONCE_SIZE] == nonce && data[NONCE_SIZE..] == a.seal(nonce, plain);
  }

  // ---- The laws have a model ---------------------------------------------

  const ZERO_TAG: seq<byte> := seq(TAG_SIZE, _ => 0)

  /** Not a cipher: it appends a constant tag and checks it. */
  function TagOnly(): Aead {
    Aead((_, plain) => plain + ZERO_TAG,
         (_, sealed) =>
           if |sealed| >= TAG_SIZE && sealed[|sealed| - TAG_SIZE..] == ZERO_TAG
           then Some(sealed[..|sealed| - TAG_SIZE]) else None)
  }

  lemma TagOnlyIsLawful()
    ensures Lawful(TagOnly())
  {
    var a := TagOnly();
    forall nonce: Nonce, plain: seq<byte>
      ensures |a.seal(nonce, plain)| == |plain| + TAG_SIZE && a.open(nonce, a.seal(nonce, plain)) == Some(plain)
    {
      var sealed := plain + ZERO_TAG;
      assert sealed[|sealed| - TAG_SIZE..] == ZERO_TAG && sealed[..|sealed| - TAG_SIZE] == plain;
    }
  }
}
