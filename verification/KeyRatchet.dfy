/** The per-sender chain of message keys (section 9.1 of RFC 9420). */
module KeyRatchet {
  import opened Bytes
  import opened Wrappers

  datatype MlsError =
    | KeyMissing(generation: nat)
    | InvalidFutureGeneration(generation: nat)
    | InvalidLeafConsumption
    | LeafNodeNoChildren
    | CryptoProviderError
    | Overflow

  /** `Overflow` stands for an addition on `u32` that panics in a build that checks it. */
  type MlsResult<+T> = Result<T, MlsError>

  /** The ciphersuite: `kdf_expand_with_label` (secret, label, context, length) and its sizes,
      and whether the build keeps skipped keys. */
  datatype Cipher = Cipher(
    nonceSize: nat,
    keySize: nat,
    extractSize: nat,
    outOfOrder: bool,
    expand: (bytes, bytes, bytes, Option<nat>) -> Option<bytes>)

  datatype KeyType = Handshake | Application

  datatype MessageKey = MessageKey(nonce: bytes, key: bytes, generation: nat)

  datatype Ratchet = Ratchet(secret: bytes, generation: nat, history: map<nat, MessageKey>)

  const MAX_RATCHET_BACK_HISTORY: nat := 1024
  const U32_MAX: nat := 0xFFFF_FFFF

  const HANDSHAKE: bytes := [104, 97, 110, 100, 115, 104, 97, 107, 101]
  const APPLICATION: bytes := [97, 112, 112, 108, 105, 99, 97, 116, 105, 111, 110]
  const NONCE: bytes := [110, 111, 110, 99, 101]
  const KEY: bytes := [107, 101, 121]
  const SECRET: bytes := [115, 101, 99, 114, 101, 116]

  function OrCryptoError(x: Option<bytes>): MlsResult<bytes> {
    if x.Some? then Ok(x.value) else Err(CryptoProviderError)
  }

  function TypeLabel(t: KeyType): bytes {
    if t.Handshake? then HANDSHAKE else APPLICATION
  }

  /** `SecretKeyRatchet::new`. */
  function NewRatchet(c: Cipher, leafSecret: bytes, t: KeyType): MlsResult<Ratchet> {
    var s :- OrCryptoError(c.expand(leafSecret, TypeLabel(t), [], None));
    Ok(Ratchet(s, 0, map[]))
  }

  /** `derive_secret`. */
  function Derive(c: Cipher, secret: bytes, generation: nat, name: bytes, len: nat): MlsResult<bytes> {
    OrCryptoError(c.expand(secret, name, ToBE(generation, 4), Some(len)))
  }

  /** `next_message_key`: the ratchet after it, and the key. */
  function NextKey(c: Cipher, r: Ratchet): (out: MlsResult<(Ratchet, MessageKey)>)
    ensures out.Ok? ==> out.value.0.generation == r.generation + 1
  {
    var nonce :- Derive(c, r.secret, r.generation, NONCE, c.nonceSize);
    var key :- Derive(c, r.secret, r.generation, KEY, c.keySize);
    var secret :- Derive(c, r.secret, r.generation, SECRET, c.extractSize);
    if r.generation + 1 > U32_MAX then Err(Overflow)
    else Ok((Ratchet(secret, r.generation + 1, r.history), MessageKey(nonce, key, r.generation)))
  }

  /** One turn of the catching-up loop. */
  function Skip(c: Cipher, r: Ratchet): (out: MlsResult<Ratchet>)
    ensures out.Ok? ==> out.value.generation == r.generation + 1
  {
    var (next, key) :- NextKey(c, r);
    Ok(if c.outOfOrder then next.(history := next.history[key.generation := key]) else next)
  }

  function SkipTo(c: Cipher, r: Ratchet, generation: nat): MlsResult<Ratchet>
    decreases generation - r.generation
  {
    if r.generation >= generation then Ok(r)
    else
      var next :- Skip(c, r);
      SkipTo(c, next, generation)
  }

  /** `get_message_key`. */
  function GetKey(c: Cipher, r: Ratchet, generation: nat): MlsResult<(Ratchet, MessageKey)> {
    if generation < r.generation then
      if generation in r.history then Ok((r.(history := r.history - {generation}), r.history[generation]))
      else Err(KeyMissing(generation))
    else if r.generation + MAX_RATCHET_BACK_HISTORY > U32_MAX then Err(Overflow)
    else if generation > r.generation + MAX_RATCHET_BACK_HISTORY then Err(InvalidFutureGeneration(generation))
    else
      var caughtUp :- SkipTo(c, r, generation);
      NextKey(c, caughtUp)
  }

  /** The same, as the loop that the source runs. */
  method GetMessageKey(c: Cipher, r: Ratchet, generation: nat) returns (out: MlsResult<(Ratchet, MessageKey)>)
    ensures out == GetKey(c, r, generation)
  {
    if generation < r.generation {
      if generation !in r.history { return Err(KeyMissing(generation)); }
      return Ok((r.(history := r.history - {generation}), r.history[generation]));
    }
    if r.generation + MAX_RATCHET_BACK_HISTORY > U32_MAX { return Err(Overflow); }
    if generation > r.generation + MAX_RATCHET_BACK_HISTORY { return Err(InvalidFutureGeneration(generation)); }
    var cur := r;
    while cur.generation < generation
      invariant SkipTo(c, cur, generation) == SkipTo(c, r, generation)
      decreases generation - cur.generation
    {
      var next := NextKey(c, cur);
      if next.Err? { return Err(next.error); }
      var (ratchet, key) := next.value;
      if c.outOfOrder { ratchet := ratchet.(history := ratchet.history[key.generation := key]); }
      cur := ratchet;
    }
    out := NextKey(c, cur);
  }

  // ------------------------------------------------------------------
  // The chain that the ratchet walks along
  // ------------------------------------------------------------------

  /** The chain's secret of a generation, from the leaf's secret. */
  function ChainSecret(c: Cipher, leafSecret: bytes, t: KeyType, generation: nat): Option<bytes> {
    if generation == 0 then c.expand(leafSecret, TypeLabel(t), [], None)
    else
      var prev := ChainSecret(c, leafSecret, t, generation - 1);
      if prev.None? then None
      else c.expand(prev.value, SECRET, ToBE(generation - 1, 4), Some(c.extractSize))
  }

  /** The key and nonce of a generation. */
  function ChainKey(c: Cipher, leafSecret: bytes, t: KeyType, generation: nat): Option<MessageKey> {
    var s := ChainSecret(c, leafSecret, t, generation);
    if s.None? then None
    else
      var nonce := c.expand(s.value, NONCE, ToBE(generation, 4), Some(c.nonceSize));
      var key := c.expand(s.value, KEY, ToBE(generation, 4), Some(c.keySize));
      if nonce.None? || key.None? then None else Some(MessageKey(nonce.value, key.value, generation))
  }

  /** The ratchet stands on the chain; what it has given out lies behind it and is not kept. What
      it has skipped is kept exactly in the builds that keep skipped keys. */
  ghost predicate OnChain(c: Cipher, leafSecret: bytes, t: KeyType, r: Ratchet, used: iset<nat>) {
    && r.generation <= U32_MAX && ChainSecret(c, leafSecret, t, r.generation) == Some(r.secret)
    && (forall g :: g in r.history ==>
          g < r.generation && g !in used && ChainKey(c, leafSecret, t, g) == Some(r.history[g]))
    && (forall g :: g in used ==> g < r.generation)
    && (c.outOfOrder ==> forall g: nat :: g < r.generation ==> g in used || g in r.history)
    && (!c.outOfOrder ==> r.history == map[])
  }

  lemma NewOnChain(c: Cipher, leafSecret: bytes, t: KeyType)
    requires NewRatchet(c, leafSecret, t).Ok?
    ensures OnChain(c, leafSecret, t, NewRatchet(c, leafSecret, t).value, iset{})
  {
  }

  lemma NextOnChain(c: Cipher, leafSecret: bytes, t: KeyType, r: Ratchet, used: iset<nat>)
    requires OnChain(c, leafSecret, t, r, used) && NextKey(c, r).Ok?
    ensures var (next, key) := NextKey(c, r).value;
            && ChainKey(c, leafSecret, t, r.generation) == Some(key)
            && key.generation == r.generation && r.generation < U32_MAX && r.generation !in used
            && OnChain(c, leafSecret, t, next, used + iset{r.generation})
  {
  }

  lemma {:induction false} SkipOnChain(c: Cipher, leafSecret: bytes, t: KeyType, r: Ratchet, generation: nat,
                                       used: iset<nat>)
    requires OnChain(c, leafSecret, t, r, used) && SkipTo(c, r, generation).Ok? && r.generation <= generation
    ensures OnChain(c, leafSecret, t, SkipTo(c, r, generation).value, used)
    ensures SkipTo(c, r, generation).value.generation == generation
    decreases generation - r.generation
  {
    if r.generation < generation {
      NextOnChain(c, leafSecret, t, r, used);
      SkipOnChain(c, leafSecret, t, Skip(c, r).value, generation, used);
    }
  }

  /** A key that the ratchet gives out is the chain's key of the generation asked for, was not
      given out before, and will not be again. */
  lemma GetOnChain(c: Cipher, leafSecret: bytes, t: KeyType, r: Ratchet, generation: nat, used: iset<nat>)
    requires OnChain(c, leafSecret, t, r, used) && GetKey(c, r, generation).Ok?
    ensures var (next, key) := GetKey(c, r, generation).value;
            && ChainKey(c, leafSecret, t, generation) == Some(key) && key.generation == generation
            && generation < U32_MAX
            && generation !in used
            && OnChain(c, leafSecret, t, next, used + iset{generation})
  {
    if generation >= r.generation {
      SkipOnChain(c, leafSecret, t, r, generation, used);
      NextOnChain(c, leafSecret, t, SkipTo(c, r, generation).value, used);
    }
  }

  // ------------------------------------------------------------------
  // When a key is given out
  // ------------------------------------------------------------------

  /** `next_message_key`, or `get_message_key` of a generation. */
  function GiveKey(c: Cipher, r: Ratchet, generation: Option<nat>): MlsResult<(Ratchet, MessageKey)> {
    if generation.None? then NextKey(c, r) else GetKey(c, r, generation.value)
  }

  /** Everything that passing generation `g` derives exists. */
  ghost predicate DerivesAt(c: Cipher, leafSecret: bytes, t: KeyType, g: nat) {
    ChainKey(c, leafSecret, t, g).Some? && ChainSecret(c, leafSecret, t, g + 1).Some?
  }

  ghost predicate Derives(c: Cipher, leafSecret: bytes, t: KeyType, from: nat, to: nat) {
    forall g: nat :: from <= g < to ==> DerivesAt(c, leafSecret, t, g)
  }

  /** From what has been given out and the next generation: a request names no generation; or one
      behind that was not given out, where skipped keys are kept; or one at most 1024 ahead. The
      counter must stay within `u32`. */
  predicate Admissible(outOfOrder: bool, used: set<nat>, next: nat, generation: Option<nat>) {
    match generation
    case None => next < 0xFFFF_FFFF
    case Some(g) =>
      if g < next then outOfOrder && g !in used
      else next + 1024 <= 0xFFFF_FFFF && g <= next + 1024 && g < 0xFFFF_FFFF
  }

  /** The next generation after a request that was served. */
  function NextAfter(next: nat, generation: Option<nat>): nat {
    if generation.None? then next + 1
    else if generation.value < next then next
    else generation.value + 1
  }

  lemma NextServedIff(c: Cipher, leafSecret: bytes, t: KeyType, r: Ratchet, used: iset<nat>)
    requires OnChain(c, leafSecret, t, r, used)
    ensures NextKey(c, r).Ok? <==> r.generation < U32_MAX && DerivesAt(c, leafSecret, t, r.generation)
  {
  }

  lemma {:induction false} SkipServedIff(c: Cipher, leafSecret: bytes, t: KeyType, r: Ratchet, generation: nat,
                                         used: iset<nat>)
    requires OnChain(c, leafSecret, t, r, used) && r.generation <= generation <= U32_MAX
    ensures SkipTo(c, r, generation).Ok? <==> Derives(c, leafSecret, t, r.generation, generation)
    decreases generation - r.generation
  {
    if r.generation < generation {
      NextServedIff(c, leafSecret, t, r, used);
      if NextKey(c, r).Ok? {
        NextOnChain(c, leafSecret, t, r, used);
        SkipServedIff(c, leafSecret, t, Skip(c, r).value, generation, used);
        assert Derives(c, leafSecret, t, r.generation, generation)
               <==> Derives(c, leafSecret, t, r.generation + 1, generation);
      }
    }
  }

  ghost function AsIset(s: set<nat>): iset<nat> {
    iset g | g in s
  }

  /** A request is served if and only if it is admissible and the derivations on the way to its
      generation succeed. */
  lemma ServedIff(c: Cipher, leafSecret: bytes, t: KeyType, r: Ratchet, generation: Option<nat>, used: set<nat>)
    requires OnChain(c, leafSecret, t, r, AsIset(used))
    ensures GiveKey(c, r, generation).Ok?
            <==> && Admissible(c.outOfOrder, used, r.generation, generation)
                 && Derives(c, leafSecret, t, r.generation, NextAfter(r.generation, generation))
    ensures GiveKey(c, r, generation).Ok? ==>
              GiveKey(c, r, generation).value.0.generation == NextAfter(r.generation, generation)
  {
    var given := AsIset(used);
    var next := NextAfter(r.generation, generation);
    if generation.None? {
      NextServedIff(c, leafSecret, t, r, given);
    } else if r.generation <= generation.value <= U32_MAX {
      var g := generation.value;
      SkipServedIff(c, leafSecret, t, r, g, given);
      assert Derives(c, leafSecret, t, r.generation, next)
             <==> Derives(c, leafSecret, t, r.generation, g) && DerivesAt(c, leafSecret, t, g);
      if SkipTo(c, r, g).Ok? {
        SkipOnChain(c, leafSecret, t, r, g, given);
        NextServedIff(c, leafSecret, t, SkipTo(c, r, g).value, given);
      }
    }
  }

  /** What a refused generation is answered with: a missing key behind, a future generation more than
      1024 ahead, and the panic of an addition at the end of `u32`. */
  lemma RefusedBecause(c: Cipher, leafSecret: bytes, t: KeyType, r: Ratchet, generation: nat, used: set<nat>)
    requires OnChain(c, leafSecret, t, r, AsIset(used))
    ensures GetKey(c, r, generation) == Err(KeyMissing(generation))
            <==> generation < r.generation && (generation in used || !c.outOfOrder)
    ensures GetKey(c, r, generation) == Err(InvalidFutureGeneration(generation))
            <==> generation > r.generation + 1024 && r.generation + 1024 <= 0xFFFF_FFFF
    ensures r.generation <= generation && r.generation + 1024 > 0xFFFF_FFFF ==> GetKey(c, r, generation) == Err(Overflow)
  {
    if r.generation <= generation { SkipErrors(c, r, generation); }
  }

  lemma {:induction false} SkipErrors(c: Cipher, r: Ratchet, generation: nat)
    ensures var s := SkipTo(c, r, generation);
            s.Err? ==> s.error == CryptoProviderError || s.error == Overflow
    decreases generation - r.generation
  {
    if r.generation < generation && Skip(c, r).Ok? { SkipErrors(c, Skip(c, r).value, generation); }
  }

  /** The key derivation never fails. */
  ghost predicate Total(c: Cipher) {
    forall secret, name, context, len :: c.expand(secret, name, context, len).Some?
  }

  lemma {:induction false} TotalChain(c: Cipher, leafSecret: bytes, t: KeyType, g: nat)
    requires Total(c)
    ensures ChainSecret(c, leafSecret, t, g).Some? && ChainKey(c, leafSecret, t, g).Some?
  {
    if g > 0 { TotalChain(c, leafSecret, t, g - 1); }
  }

  lemma TotalDerives(c: Cipher, leafSecret: bytes, t: KeyType, from: nat, to: nat)
    requires Total(c)
    ensures Derives(c, leafSecret, t, from, to)
  {
    forall g: nat | from <= g < to ensures DerivesAt(c, leafSecret, t, g) {
      TotalChain(c, leafSecret, t, g);
      TotalChain(c, leafSecret, t, g + 1);
    }
  }
}
