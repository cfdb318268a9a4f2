// RC4 as every layer here uses it: XOR with a keystream, from some position on.

module StreamCipher {
  import opened Bytes

  // keystream(key, i) is the i-th octet RC4 yields under key.
  type Keystream = (bytes, nat) -> byte

  function Rc4(keystream: Keystream, key: bytes, pos: nat, data: bytes): (r: bytes)
    ensures |r| == |data|
  {
    seq(|data|, i requires 0 <= i < |data| => Xor(data[i], keystream(key, pos + i)))
  }

  // The i-th octet is masked with the keystream octet i places on.
  lemma Rc4Octet(keystream: Keystream, key: bytes, pos: nat, data: bytes, i: nat)
    requires i < |data|
    ensures Rc4(keystream, key, pos, data)[i] == Xor(data[i], keystream(key, pos + i))
  {
  }

  // From one position, applying it twice changes nothing.
  lemma Rc4Cancels(keystream: Keystream, key: bytes, pos: nat, data: bytes)
    ensures Rc4(keystream, key, pos, Rc4(keystream, key, pos, data)) == data
  {
    var back := Rc4(keystream, key, pos, Rc4(keystream, key, pos, data));
    forall i | 0 <= i < |data| ensures back[i] == data[i] {
      XorCancels(data[i], keystream(key, pos + i));
    }
  }
}
