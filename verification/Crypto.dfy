/** The cryptographic interface the core crate calls. Every primitive is an
    arbitrary function; what a theorem needs of it is one of the laws below. */
module Crypto {
  import opened Wire

  const TAG_LEN: nat := 16

  // ---- AEAD_XCHACHA20_POLY1305_V1 ----------------------------------------

  /** `enc(key, nonce, plaintext, aad)` and `dec(key, nonce, ciphertext, aad)`. */
  datatype Aead = Aead(
    enc: (Bytes, Bytes, Bytes, Bytes) -> Bytes,
    dec: (Bytes, Bytes, Bytes, Bytes) -> Option<Bytes>)

  /** What `meissnerseal-crypto::aead` documents: decryption inverts encryption
      under equal key, nonce and associated data, and the tag adds 16 bytes. */
  ghost predicate Lawful(a: Aead) {
    forall k, n, p, d :: a.dec(k, n, a.enc(k, n, p, d), d) == Some(p)
                         && |a.enc(k, n, p, d)| == |p| + TAG_LEN
  }

  lemma LawfulAt(a: Aead, k: Bytes, n: Bytes, p: Bytes, d: Bytes)
    requires Lawful(a)
    ensures a.dec(k, n, a.enc(k, n, p, d), d) == Some(p) && |a.enc(k, n, p, d)| == |p| + TAG_LEN
  {}

  /** One encryption performed by an honest party. */
  datatype Seal = Seal(key: Bytes, nonce: Bytes, plaintext: Bytes, aad: Bytes)

  /** Idealised authenticity: nothing decrypts unless an honest party encrypted
      exactly that plaintext under that key, nonce and associated data. */
  ghost predicate Ideal(a: Aead, log: iset<Seal>) {
    forall k, n, c, d :: a.dec(k, n, c, d).Some? ==>
                           Seal(k, n, a.dec(k, n, c, d).value, d) in log
  }

  // ---- UTF-8 ---------------------------------------------------------------

  predicate Between(b: byte, lo: int, hi: int) { lo <= b <= hi }

  /** `String::from_utf8`: Table 3-7 of the Unicode Standard. */
  predicate ValidUtf8(s: Bytes) {
    if |s| == 0 then true
    else if s[0] <= 0x7F then ValidUtf8(s[1..])
    else if Between(s[0], 0xC2, 0xDF) then
      |s| >= 2 && Between(s[1], 0x80, 0xBF) && ValidUtf8(s[2..])
    else if Between(s[0], 0xE0, 0xEF) then
      |s| >= 3
      && Between(s[1], if s[0] == 0xE0 then 0xA0 else 0x80, if s[0] == 0xED then 0x9F else 0xBF)
      && Between(s[2], 0x80, 0xBF) && ValidUtf8(s[3..])
    else if Between(s[0], 0xF0, 0xF4) then
      |s| >= 4
      && Between(s[1], if s[0] == 0xF0 then 0x90 else 0x80, if s[0] == 0xF4 then 0x8F else 0xBF)
      && Between(s[2], 0x80, 0xBF) && Between(s[3], 0x80, 0xBF) && ValidUtf8(s[4..])
    else false
  }

  /** A Rust `String`, as its bytes. */
  type Text = s: Bytes | ValidUtf8(s) witness []

  // ---- the laws are satisfiable -------------------------------------------

  /** An AEAD that appends sixteen zero bytes. */
  const TOY_AEAD: Aead := Aead(
    (k, n, p, d) => p + Zeros(TAG_LEN),
    (k, n, c, d) => if |c| >= TAG_LEN then Some(c[..|c| - TAG_LEN]) else None)

  lemma LawfulIsSatisfiable()
    ensures exists a :: Lawful(a)
  {
    forall k: Bytes, n: Bytes, p: Bytes, d: Bytes
      ensures TOY_AEAD.dec(k, n, TOY_AEAD.enc(k, n, p, d), d) == Some(p)
    {
      assert (p + Zeros(TAG_LEN))[..|p|] == p;
    }
    assert Lawful(TOY_AEAD);
  }

  /** For any log there is an ideal AEAD that still decrypts everything in the log. */
  lemma IdealIsSatisfiable(a: Aead, log: iset<Seal>) returns (ideal: Aead)
    requires Lawful(a)
    ensures ideal.enc == a.enc && Ideal(ideal, log)
    ensures forall s :: s in log ==>
              ideal.dec(s.key, s.nonce, a.enc(s.key, s.nonce, s.plaintext, s.aad), s.aad) == Some(s.plaintext)
  {
    ideal := Aead(a.enc, (k, n, c, d) => GuardedDec(a, log, k, n, c, d));
    forall k, n, c, d | ideal.dec(k, n, c, d).Some? ensures Seal(k, n, ideal.dec(k, n, c, d).value, d) in log {
      assert ideal.dec(k, n, c, d) == GuardedDec(a, log, k, n, c, d);
    }
    forall s | s in log
      ensures ideal.dec(s.key, s.nonce, a.enc(s.key, s.nonce, s.plaintext, s.aad), s.aad) == Some(s.plaintext)
    {
      LawfulAt(a, s.key, s.nonce, s.plaintext, s.aad);
    }
  }

  ghost function GuardedDec(a: Aead, log: iset<Seal>, k: Bytes, n: Bytes, c: Bytes, d: Bytes): Option<Bytes> {
    var p := a.dec(k, n, c, d);
    if p.Some? && Seal(k, n, p.value, d) in log then p else None
  }
}
