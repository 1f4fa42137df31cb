/** The sending and receiving contexts of HPKE (section 5.2 of RFC 9180). */
module HpkeContext {
  import opened Bytes
  import opened Wrappers
  import opened HpkeNonce

  datatype HpkeError =
    | KemError
    | KdfError
    | AeadError
    | InsufficientPskLength
    | IncorrectNonceLen(have: nat, want: nat)
    | IncorrectKeyLen(have: nat, want: nat)
    | ExportOnlyMode
    | SequenceNumberOverflow

  type HpkeResult<+T> = Result<T, HpkeError>

  /** An authenticated cipher, by its functions: key, input, additional data, nonce. */
  datatype Aead = Aead(
    id: u16,
    keySize: nat,
    nonceSize: nat,
    seal: (bytes, bytes, Option<bytes>, bytes) -> Option<bytes>,
    open: (bytes, bytes, Option<bytes>, bytes) -> Option<bytes>)

  /** Opening returns what was sealed. */
  ghost predicate OpensWhatItSeals(aead: Aead) {
    forall key, pt, aad, nonce ::
      var ct := aead.seal(key, pt, aad, nonce);
      ct.Some? ==> aead.open(key, ct.value, aad, nonce) == Some(pt)
  }

  /** The state of an encryption context. */
  datatype State = State(aead: Aead, key: bytes, baseNonce: bytes, counter: u64)

  /** `EncryptionContext::new`. */
  function NewState(baseNonce: bytes, aead: Aead, key: bytes): HpkeResult<State> {
    if |baseNonce| != aead.nonceSize then Err(IncorrectNonceLen(|baseNonce|, aead.nonceSize))
    else if |key| != aead.keySize then Err(IncorrectKeyLen(|key|, aead.keySize))
    else Ok(State(aead, key, baseNonce, 0))
  }

  function CurrentNonce(s: State): bytes {
    Nonce(s.baseNonce, s.counter)
  }

  /** One step of the counter; at its last value it stays and the call fails. */
  function Increment(s: State): HpkeResult<State> {
    if s.counter + 1 == U64_SIZE then Err(SequenceNumberOverflow)
    else Ok(s.(counter := s.counter + 1))
  }

  /** The state after `seal`, and its result. */
  function SealStep(s: State, aad: Option<bytes>, pt: bytes): (State, HpkeResult<bytes>) {
    var ct := s.aead.seal(s.key, pt, aad, CurrentNonce(s));
    if ct.None? then (s, Err(AeadError))
    else
      var next := Increment(s);
      if next.Err? then (s, Err(next.error)) else (next.value, Ok(ct.value))
  }

  /** The state after `open`, and its result. */
  function OpenStep(s: State, aad: Option<bytes>, ct: bytes): (State, HpkeResult<bytes>) {
    var pt := s.aead.open(s.key, ct, aad, CurrentNonce(s));
    if pt.None? then (s, Err(AeadError))
    else
      var next := Increment(s);
      if next.Err? then (s, Err(next.error)) else (next.value, Ok(pt.value))
  }

  /** A message is sealed, or opened, exactly when the cipher does so under the current nonce and the
      counter is not at its last value; then the counter moves by one. Else nothing changes. */
  lemma StepsSucceedIff(s: State, aad: Option<bytes>, pt: bytes, ct: bytes)
    ensures var (next, r) := SealStep(s, aad, pt);
            var sealed := s.aead.seal(s.key, pt, aad, Nonce(s.baseNonce, s.counter));
            && (r.Ok? <==> sealed.Some? && s.counter < 0xFFFF_FFFF_FFFF_FFFF)
            && (r.Ok? ==> sealed == Some(r.value) && next == s.(counter := s.counter + 1))
            && (r.Err? ==> next == s && (r == Err(SequenceNumberOverflow) <==> sealed.Some?))
    ensures var (next, r) := OpenStep(s, aad, ct);
            var plain := s.aead.open(s.key, ct, aad, Nonce(s.baseNonce, s.counter));
            && (r.Ok? <==> plain.Some? && s.counter < 0xFFFF_FFFF_FFFF_FFFF)
            && (r.Ok? ==> plain == Some(r.value) && next == s.(counter := s.counter + 1))
            && (r.Err? ==> next == s && (r == Err(SequenceNumberOverflow) <==> plain.Some?))
  {
  }

  /** The context object. */
  class EncryptionContext {
    const aead: Aead
    const key: bytes
    const baseNonce: bytes
    var counter: u64

    ghost function Abstract(): State
      reads this
    {
      State(aead, key, baseNonce, counter)
    }

    constructor (s: State)
      ensures Abstract() == s
    {
      aead, key, baseNonce, counter := s.aead, s.key, s.baseNonce, s.counter;
    }

    /** `EncryptionContext::new`: a context at counter zero, or the length that does not match. */
    static method New(baseNonce: bytes, aead: Aead, key: bytes) returns (r: HpkeResult<EncryptionContext>)
      ensures r.Ok? <==> |baseNonce| == aead.nonceSize && |key| == aead.keySize
      ensures r.Ok? ==> fresh(r.value) && r.value.Abstract() == State(aead, key, baseNonce, 0)
      ensures r.Err? ==> NewState(baseNonce, aead, key) == Err(r.error)
    {
      var s := NewState(baseNonce, aead, key);
      if s.Err? { return Err(s.error); }
      var context := new EncryptionContext(s.value);
      r := Ok(context);
    }

    method IncrementSeq() returns (ok: bool)
      modifies this
      ensures ok <==> old(counter) < 0xFFFF_FFFF_FFFF_FFFF
      ensures Abstract() == old(Abstract()).(counter := if ok then old(counter) + 1 else old(counter))
    {
      ok := counter + 1 < U64_SIZE;
      if ok { counter := counter + 1; }
    }

    method Seal(aad: Option<bytes>, pt: bytes) returns (r: HpkeResult<bytes>)
      modifies this
      ensures (Abstract(), r) == SealStep(old(Abstract()), aad, pt)
    {
      var nonce := ComputeNonce(baseNonce, counter);
      var ct := aead.seal(key, pt, aad, nonce);
      if ct.None? { return Err(AeadError); }
      var ok := IncrementSeq();
      r := if ok then Ok(ct.value) else Err(SequenceNumberOverflow);
    }

    method Open(aad: Option<bytes>, ct: bytes) returns (r: HpkeResult<bytes>)
      modifies this
      ensures (Abstract(), r) == OpenStep(old(Abstract()), aad, ct)
    {
      var nonce := ComputeNonce(baseNonce, counter);
      var pt := aead.open(key, ct, aad, nonce);
      if pt.None? { return Err(AeadError); }
      var ok := IncrementSeq();
      r := if ok then Ok(pt.value) else Err(SequenceNumberOverflow);
    }
  }
}
