/**
 * The password hash behind `UserModel.set_password` and `UserModel.check_password`.
 * A digest records its salt and an image of the password under that salt;
 * checking a password recomputes the image with the recorded salt.
 */
module Bcrypt {

  datatype Digest = Digest(salt: nat, image: seq<int>)

  /** Stand-in for the salted key stretching; injective in the password for a fixed salt. */
  function Stretch(salt: nat, password: string): seq<int> {
    seq(|password|, i requires 0 <= i < |password| => password[i] as int + salt)
  }

  /** `bcrypt.hash` with the salt it drew. */
  function Hash(password: string, salt: nat): (h: Digest)
    ensures h.salt == salt
    ensures Verify(password, h)
  {
    Digest(salt, Stretch(salt, password))
  }

  /** `bcrypt.verify`. */
  predicate Verify(password: string, h: Digest) {
    Stretch(h.salt, password) == h.image
  }

  /** A hash accepts the password it was made from and no other. */
  lemma HashVerify(password: string, candidate: string, salt: nat)
    ensures Verify(candidate, Hash(password, salt)) <==> candidate == password
  {
    if Verify(candidate, Hash(password, salt)) {
      var a, b := Stretch(salt, candidate), Stretch(salt, password);
      assert |candidate| == |a| == |b| == |password|;
      forall i | 0 <= i < |password|
        ensures candidate[i] == password[i]
      {
        assert a[i] == b[i];
      }
    }
  }
}
