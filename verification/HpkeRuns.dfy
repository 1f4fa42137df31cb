/** Whole runs of an HPKE sender and receiver that share a key, with any interleaving of calls
    and with ciphertexts that the network makes up. */
module HpkeRuns {
  import opened Bytes
  import opened Wrappers
  import opened HpkeNonce
  import opened HpkeContext

  /** A ciphertext that the sender has returned. */
  datatype Sealed = Sealed(nonce: bytes, aad: Option<bytes>, pt: bytes, ct: bytes)

  datatype Delivery = Delivery(aad: Option<bytes>, pt: bytes)

  datatype World = World(sender: State, receiver: State, sealed: seq<Sealed>, delivered: seq<Delivery>)

  datatype Call = SealCall(aad: Option<bytes>, pt: bytes) | OpenCall(aad: Option<bytes>, ct: bytes)

  function Step(w: World, call: Call): World {
    match call
    case SealCall(aad, pt) =>
      var (s, r) := SealStep(w.sender, aad, pt);
      if r.Err? then w.(sender := s)
      else w.(sender := s, sealed := w.sealed + [Sealed(CurrentNonce(w.sender), aad, pt, r.value)])
    case OpenCall(aad, ct) =>
      var (s, r) := OpenStep(w.receiver, aad, ct);
      if r.Err? then w.(receiver := s)
      else w.(receiver := s, delivered := w.delivered + [Delivery(aad, r.value)])
  }

  function Run(w: World, calls: seq<Call>): World
    decreases |calls|
  {
    if calls == [] then w else Run(Step(w, calls[0]), calls[1..])
  }

  /** What the cipher is trusted for: the receiver's key opens nothing but what the sender has
      returned, under the same nonce and additional data. */
  ghost predicate Unforged(w: World, call: Call) {
    call.OpenCall? ==>
      var r := w.receiver;
      var pt := r.aead.open(r.key, call.ct, call.aad, CurrentNonce(r));
      pt.Some? ==> Sealed(CurrentNonce(r), call.aad, pt.value, call.ct) in w.sealed
  }

  ghost predicate RunUnforged(w: World, calls: seq<Call>)
    decreases |calls|
  {
    calls == [] || (Unforged(w, calls[0]) && RunUnforged(Step(w, calls[0]), calls[1..]))
  }

  function Deliveries(sealed: seq<Sealed>): (ds: seq<Delivery>)
    ensures |ds| == |sealed|
  {
    seq(|sealed|, i requires 0 <= i < |sealed| => Delivery(sealed[i].aad, sealed[i].pt))
  }

  ghost predicate Initial(w: World) {
    && w.sender == w.receiver
    && w.sender.counter == 0
    && w.sealed == [] && w.delivered == []
  }

  /** What every step keeps. */
  ghost predicate Inv(w: World) {
    && w.sender.(counter := 0) == w.receiver.(counter := 0)
    && w.sender.counter == |w.sealed|
    && w.receiver.counter == |w.delivered|
    && (forall i: u64 :: i < |w.sealed| ==> w.sealed[i].nonce == Nonce(w.sender.baseNonce, i))
    && w.delivered <= Deliveries(w.sealed)
  }

  lemma SealKeepsInv(w: World, call: Call)
    requires Inv(w) && call.SealCall?
    ensures Inv(Step(w, call))
  {
    var w' := Step(w, call);
    if w'.sealed != w.sealed {
      assert Deliveries(w.sealed) <= Deliveries(w'.sealed);
    }
  }

  lemma OpenKeepsInv(w: World, call: Call)
    requires Inv(w) && call.OpenCall? && |w.sender.baseNonce| >= 8 && Unforged(w, call)
    ensures Inv(Step(w, call))
  {
    var r := w.receiver;
    var (_, result) := OpenStep(r, call.aad, call.ct);
    if result.Ok? {
      var e := Sealed(CurrentNonce(r), call.aad, result.value, call.ct);
      var i :| 0 <= i < |w.sealed| && w.sealed[i] == e;
      var index: u64 := i;
      NonceInjective(r.baseNonce, index, r.counter);
      assert Deliveries(w.sealed)[i] == Delivery(call.aad, result.value);
    }
  }

  lemma {:induction false} RunKeepsInv(w: World, calls: seq<Call>)
    requires Inv(w) && |w.sender.baseNonce| >= 8 && RunUnforged(w, calls)
    ensures Inv(Run(w, calls))
    decreases |calls|
  {
    if calls != [] {
      if calls[0].SealCall? { SealKeepsInv(w, calls[0]); } else { OpenKeepsInv(w, calls[0]); }
      RunKeepsInv(Step(w, calls[0]), calls[1..]);
    }
  }

  /** In every run the receiver has delivered a prefix of what the sender has sealed: in order,
      without gaps, repetition or foreign messages, each with its additional data. */
  lemma DeliveredIsPrefix(w: World, calls: seq<Call>)
    requires Initial(w) && |w.sender.baseNonce| >= 8 && RunUnforged(w, calls)
    ensures Run(w, calls).delivered <= Deliveries(Run(w, calls).sealed)
  {
    RunKeepsInv(w, calls);
  }

  /** The part of the invariant that needs no trust in the cipher. */
  ghost predicate CountersInv(w: World) {
    && w.sender.counter == |w.sealed|
    && w.receiver.counter == |w.delivered|
    && (forall i: u64 :: i < |w.sealed| ==> w.sealed[i].nonce == Nonce(w.sender.baseNonce, i))
  }

  /** In every run, forged ciphertexts included, each counter is the number of its successful
      calls: a failed call, also one at the end of the counter's range, moves nothing. */
  lemma {:induction false} CountersCountSuccesses(w: World, calls: seq<Call>)
    requires CountersInv(w)
    ensures CountersInv(Run(w, calls)) && Run(w, calls).sender.baseNonce == w.sender.baseNonce
    decreases |calls|
  {
    if calls != [] { CountersCountSuccesses(Step(w, calls[0]), calls[1..]); }
  }

  /** No two ciphertexts that were returned share a nonce, in any run however long; the last
      counter value is never used for one. */
  lemma NoncesNeverRepeat(w: World, calls: seq<Call>, i: nat, j: nat)
    requires CountersInv(w) && |w.sender.baseNonce| >= 8
    requires i < j < |Run(w, calls).sealed|
    ensures Run(w, calls).sealed[i].nonce != Run(w, calls).sealed[j].nonce
    ensures |Run(w, calls).sealed| < U64_SIZE
  {
    CountersCountSuccesses(w, calls);
    var a: u64, b: u64 := i, j;
    if Nonce(w.sender.baseNonce, a) == Nonce(w.sender.baseNonce, b) {
      NonceInjective(w.sender.baseNonce, a, b);
    }
  }

  // ------------------------------------------------------------------
  // Delivery
  // ------------------------------------------------------------------

  function SealAll(messages: seq<Delivery>): seq<Call> {
    seq(|messages|, i requires 0 <= i < |messages| => SealCall(messages[i].aad, messages[i].pt))
  }

  function OpenAll(sealed: seq<Sealed>): seq<Call> {
    seq(|sealed|, i requires 0 <= i < |sealed| => OpenCall(sealed[i].aad, sealed[i].ct))
  }

  /** The ciphertexts on record are what the cipher produced. */
  ghost predicate Genuine(w: World) {
    forall i :: 0 <= i < |w.sealed| ==>
      var e := w.sealed[i];
      w.sender.aead.seal(w.sender.key, e.pt, e.aad, e.nonce) == Some(e.ct)
  }

  /** Opening what is still undelivered, in order, delivers all of it. */
  lemma {:induction false} OpeningInOrderDelivers(w: World)
    requires Inv(w) && Genuine(w) && OpensWhatItSeals(w.sender.aead)
    ensures Run(w, OpenAll(w.sealed[|w.delivered|..])).delivered == Deliveries(w.sealed)
    decreases |w.sealed| - |w.delivered|
  {
    var n := |w.delivered|;
    if n < |w.sealed| {
      var todo := w.sealed[n..];
      var calls := OpenAll(todo);
      var e := w.sealed[n];
      var r := w.receiver;
      assert CurrentNonce(r) == e.nonce;
      assert r.aead.open(r.key, e.ct, e.aad, e.nonce) == Some(e.pt);
      var w' := Step(w, calls[0]);
      assert w'.delivered == w.delivered + [Delivery(e.aad, e.pt)];
      assert Deliveries(w.sealed)[n] == Delivery(e.aad, e.pt);
      assert calls[1..] == OpenAll(w'.sealed[n + 1..]);
      OpeningInOrderDelivers(w');
    }
  }

  lemma {:induction false} SealingKeepsGenuine(w: World, messages: seq<Delivery>)
    requires Inv(w) && Genuine(w)
    ensures Inv(Run(w, SealAll(messages))) && Genuine(Run(w, SealAll(messages)))
    ensures Run(w, SealAll(messages)).delivered == w.delivered
    ensures Run(w, SealAll(messages)).sender.aead == w.sender.aead
    decreases |messages|
  {
    var calls := SealAll(messages);
    if messages != [] {
      SealKeepsInv(w, calls[0]);
      assert calls[1..] == SealAll(messages[1..]);
      SealingKeepsGenuine(Step(w, calls[0]), messages[1..]);
    }
  }

  /** Sealing records the messages in order; all of them, when every call succeeds. */
  lemma {:induction false} SealingRecords(w: World, messages: seq<Delivery>)
    ensures var n := |Run(w, SealAll(messages)).sealed| - |w.sealed|;
            n <= |messages|
            && (n == |messages| ==> Deliveries(Run(w, SealAll(messages)).sealed) == Deliveries(w.sealed) + messages)
    decreases |messages|
  {
    var calls := SealAll(messages);
    if messages == [] {
      assert Deliveries(w.sealed) + messages == Deliveries(w.sealed);
    } else {
      var w' := Step(w, calls[0]);
      assert calls[1..] == SealAll(messages[1..]);
      SealingRecords(w', messages[1..]);
      if |w'.sealed| > |w.sealed| {
        assert Deliveries(w'.sealed) == Deliveries(w.sealed) + [messages[0]];
        assert Deliveries(w.sealed) + [messages[0]] + messages[1..] == Deliveries(w.sealed) + messages;
      }
    }
  }

  /** Everything sealed, in any number, arrives when the ciphertexts are opened in order; and it
      is all the messages when no seal failed. */
  lemma SealThenOpenDeliversAll(w: World, messages: seq<Delivery>)
    requires Initial(w) && OpensWhatItSeals(w.sender.aead)
    ensures var sent := Run(w, SealAll(messages));
            && Run(sent, OpenAll(sent.sealed)).delivered == Deliveries(sent.sealed)
            && (|sent.sealed| == |messages| ==> Deliveries(sent.sealed) == messages)
  {
    SealingKeepsGenuine(w, messages);
    SealingRecords(w, messages);
    var sent := Run(w, SealAll(messages));
    assert sent.sealed[0..] == sent.sealed;
    assert Deliveries([]) + messages == messages;
    OpeningInOrderDelivers(sent);
  }
}
