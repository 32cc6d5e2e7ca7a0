/**
 * Password digests. The system stores the hex SHA-256 digest of the UTF-8 password, always
 * 64 hexadecimal characters. Hashing is not modelled bit by bit: `Sha256Hex` is a stand-in
 * digest whose length grows with the password. Its injectivity stands in for the collision
 * resistance that the login and password-change logic assume of SHA-256: a real digest is not
 * injective, and the model treats a collision as impossible.
 */
module Hashing {

  function Sha256Hex(password: string): (digest: string)
    ensures |digest| == |password| + 7
  {
    "sha256:" + password
  }

  lemma DigestInjective(a: string, b: string)
    ensures Sha256Hex(a) == Sha256Hex(b) ==> a == b
  {
    if Sha256Hex(a) == Sha256Hex(b) {
      assert a == Sha256Hex(a)[7..];
      assert b == Sha256Hex(b)[7..];
    }
  }
}
