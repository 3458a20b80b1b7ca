// The hash function underneath LMS: an arbitrary function to 32-byte digests,
// reached through driver calls that may fail.
module Hashing {
  import opened Bytes

  const N_HASH_LEN: nat := 32

  type Digest = d: seq<byte> | |d| == N_HASH_LEN witness seq(N_HASH_LEN, _ => 0)

  /** SHA-256, of which nothing is assumed but the length of its output. */
  type HashFunction = seq<byte> -> Digest

  datatype LmsStatus =
    | Success
    | BadInputData
    | BufferTooSmall
    | OutOfPrivateKeys
    | VerifyFailed
    | AllocFailed
    | CorruptionDetected
    | HardwareFailure

  /** psa_hash_setup, psa_hash_update on each part and psa_hash_finish: either
      the digest of the concatenated parts or a driver error. `reliable` says
      that the driver does not fail during this call. */
  method HashParts(h: HashFunction, reliable: bool, input: seq<byte>) returns (status: LmsStatus, out: Digest)
    ensures status == Success || status == HardwareFailure
    ensures reliable ==> status == Success
    ensures status == Success ==> out == h(input)
  {
    out := h(input);
    status := Success;
    if !reliable {
      if * {
        status := HardwareFailure;
      }
    }
  }
}
