/** Validation of X.509 certificate chains against stored roots. */
module CertificateChain {
  import opened Bytes
  import opened Wrappers

  datatype X509Error =
    | EmptyCertificateChain
    | PinnedCertNotFound
    | CaNotFound
    | ParseError
    | EncodingError
    | SignatureError
    | ValidityError
    | KeyError

  type X509Result<+T> = Result<T, X509Error>

  /** A parsed certificate; `issuer` and `subject` are names in DER, when they encode. */
  datatype Cert = Cert(contents: bytes, issuer: Option<bytes>, subject: Option<bytes>, notBefore: nat, notAfter: nat)

  /** Parsing, signature verification (verifier, verified) and key extraction, as given. */
  datatype Pki = Pki(
    parse: bytes -> Option<Cert>,
    signed: (Cert, Cert) -> bool,
    publicKey: Cert -> Option<bytes>)

  datatype Validator = Validator(roots: map<bytes, bytes>, pinned: Option<bytes>)

  predicate InDate(c: Cert, time: Option<nat>) {
    time.Some? ==> c.notBefore <= time.value <= c.notAfter
  }

  /** `verify_cert`. */
  function VerifyCert(pki: Pki, verifier: Cert, verified: Cert, time: Option<nat>): X509Result<()> {
    if !pki.signed(verifier, verified) then Err(SignatureError)
    else if !InDate(verified, time) then Err(ValidityError)
    else Ok(())
  }

  // ------------------------------------------------------------------
  // Roots
  // ------------------------------------------------------------------

  /** A root that `new` lets in: it parses, is signed by itself, and is filed under its name. */
  ghost predicate GoodRoot(pki: Pki, name: bytes, der: bytes) {
    var c := pki.parse(der);
    c.Some? && pki.signed(c.value, c.value) && c.value.subject == Some(name)
  }

  ghost predicate GoodRoots(pki: Pki, v: Validator) {
    forall name :: name in v.roots ==> GoodRoot(pki, name, v.roots[name])
  }

  /** The name under which a certificate is filed. */
  function SubjectOf(pki: Pki, der: bytes): Option<bytes> {
    var c := pki.parse(der);
    if c.None? then None else c.value.subject
  }

  /** Of the given certificates, number `i` is the last one with this name. */
  ghost predicate LastNamed(pki: Pki, ders: seq<bytes>, name: bytes, i: nat) {
    && i < |ders| && SubjectOf(pki, ders[i]) == Some(name)
    && forall j :: i < j < |ders| ==> SubjectOf(pki, ders[j]) != Some(name)
  }

  /** The roots are the given certificates, each name with the last one that carries it. */
  ghost predicate FiledFrom(pki: Pki, roots: map<bytes, bytes>, ders: seq<bytes>) {
    && (forall name :: name in roots ==> exists i: nat :: LastNamed(pki, ders, name, i) && roots[name] == ders[i])
    && (forall i :: 0 <= i < |ders| ==> SubjectOf(pki, ders[i]).Some? && SubjectOf(pki, ders[i]).value in roots)
  }

  lemma FileOne(pki: Pki, roots: map<bytes, bytes>, ders: seq<bytes>, der: bytes)
    requires FiledFrom(pki, roots, ders) && SubjectOf(pki, der).Some?
    ensures FiledFrom(pki, roots[SubjectOf(pki, der).value := der], ders + [der])
  {
    var all, last := ders + [der], SubjectOf(pki, der).value;
    var roots' := roots[last := der];
    forall name | name in roots' ensures exists i: nat :: LastNamed(pki, all, name, i) && roots'[name] == all[i] {
      if name == last {
        assert LastNamed(pki, all, name, |ders|);
      } else {
        var i: nat :| LastNamed(pki, ders, name, i) && roots[name] == ders[i];
        assert LastNamed(pki, all, name, i);
      }
    }
  }

  /** `X509Validator::new`. */
  method NewValidator(pki: Pki, ders: seq<bytes>) returns (r: X509Result<Validator>)
    ensures r.Ok? ==> GoodRoots(pki, r.value) && r.value.pinned == None
    ensures r.Ok? ==> FiledFrom(pki, r.value.roots, ders)
    ensures r.Ok? <==> forall i :: 0 <= i < |ders| ==>
              var c := pki.parse(ders[i]);
              c.Some? && pki.signed(c.value, c.value) && c.value.subject.Some?
  {
    var roots: map<bytes, bytes> := map[];
    for i := 0 to |ders|
      invariant forall name :: name in roots ==> GoodRoot(pki, name, roots[name])
      invariant forall j :: 0 <= j < i ==>
                  var c := pki.parse(ders[j]);
                  c.Some? && pki.signed(c.value, c.value) && c.value.subject.Some?
      invariant FiledFrom(pki, roots, ders[..i])
    {
      var c := pki.parse(ders[i]);
      if c.None? { return Err(ParseError); }
      var ok := VerifyCert(pki, c.value, c.value, None);
      if ok.Err? { return Err(ok.error); }
      if c.value.subject.None? { return Err(EncodingError); }
      FileOne(pki, roots, ders[..i], ders[i]);
      assert ders[..i] + [ders[i]] == ders[..i + 1];
      roots := roots[c.value.subject.value := ders[i]];
    }
    assert ders[..|ders|] == ders;
    r := Ok(Validator(roots, None));
  }

  // ------------------------------------------------------------------
  // Validation
  // ------------------------------------------------------------------

  function ParseAll(pki: Pki, chain: seq<bytes>): (certs: Option<seq<Cert>>)
    ensures certs.Some? ==> |certs.value| == |chain|
    ensures certs.Some? ==> forall i :: 0 <= i < |chain| ==> pki.parse(chain[i]) == Some(certs.value[i])
    ensures certs.None? ==> exists i :: 0 <= i < |chain| && pki.parse(chain[i]) == None
  {
    if chain == [] then Some([])
    else
      var c := pki.parse(chain[0]);
      if c.None? then None
      else
        var rest := ParseAll(pki, chain[1..]);
        if rest.None? then
          var i :| 0 <= i < |chain[1..]| && pki.parse(chain[1..][i]) == None;
          assert pki.parse(chain[i + 1]) == None;
          None
        else Some([c.value] + rest.value)
  }

  /** The stored root of a certificate's issuer, parsed and in date. */
  function RootOf(pki: Pki, v: Validator, issuer: bytes, time: Option<nat>): X509Result<Option<Cert>> {
    if issuer !in v.roots then Ok(None)
    else
      var ca := pki.parse(v.roots[issuer]);
      if ca.None? then Err(ParseError)
      else if !InDate(ca.value, time) then Err(ValidityError)
      else Ok(Some(ca.value))
  }

  /** Certificate `i`'s partner in the zip: its successor, and for the last one itself. */
  function Partner(certs: seq<Cert>, i: nat): Cert
    requires i < |certs|
  {
    if i + 1 < |certs| then certs[i + 1] else certs[|certs| - 1]
  }

  /** The loop from certificate `i` on. */
  function Walk(pki: Pki, v: Validator, certs: seq<Cert>, time: Option<nat>, i: nat): X509Result<bytes>
    requires i <= |certs|
    decreases |certs| - i
  {
    if i == |certs| then Err(CaNotFound)
    else if certs[i].issuer.None? then Err(EncodingError)
    else
      var ca :- RootOf(pki, v, certs[i].issuer.value, time);
      var verifier := if ca.Some? then ca.value else Partner(certs, i);
      var _ :- VerifyCert(pki, verifier, certs[i], time);
      if ca.None? then Walk(pki, v, certs, time, i + 1)
      else
        var key := pki.publicKey(certs[0]);
        if key.None? then Err(KeyError) else Ok(key.value)
  }

  function Validate(pki: Pki, v: Validator, chain: seq<bytes>, time: Option<nat>): X509Result<bytes> {
    if chain == [] then Err(EmptyCertificateChain)
    else if v.pinned.Some? && v.pinned.value !in chain then Err(PinnedCertNotFound)
    else
      var certs := ParseAll(pki, chain);
      if certs.None? then Err(ParseError) else Walk(pki, v, certs.value, time, 0)
  }

  /** `validate_chain` as the source runs it: an early return at the first stored root. */
  method ValidateChain(pki: Pki, v: Validator, chain: seq<bytes>, time: Option<nat>) returns (r: X509Result<bytes>)
    ensures r == Validate(pki, v, chain, time)
  {
    if chain == [] { return Err(EmptyCertificateChain); }
    if v.pinned.Some? && v.pinned.value !in chain { return Err(PinnedCertNotFound); }
    var parsed := ParseAll(pki, chain);
    if parsed.None? { return Err(ParseError); }
    var certs := parsed.value;
    for i := 0 to |certs|
      invariant Walk(pki, v, certs, time, 0) == Walk(pki, v, certs, time, i)
    {
      var cert1, cert2 := certs[i], Partner(certs, i);
      if cert1.issuer.None? { return Err(EncodingError); }
      var maybeCa := RootOf(pki, v, cert1.issuer.value, time);
      if maybeCa.Err? { return Err(maybeCa.error); }
      var verifier := if maybeCa.value.Some? then maybeCa.value.value else cert2;
      var ok := VerifyCert(pki, verifier, cert1, time);
      if ok.Err? { return Err(ok.error); }
      if maybeCa.value.Some? {
        var key := pki.publicKey(certs[0]);
        if key.None? { return Err(KeyError); }
        return Ok(key.value);
      }
    }
    r := Err(CaNotFound);
  }

  // ------------------------------------------------------------------
  // When a chain is accepted
  // ------------------------------------------------------------------

  /** Certificate `j` is not issued by a stored root, and its successor vouches for it. */
  ghost predicate Link(pki: Pki, v: Validator, certs: seq<Cert>, time: Option<nat>, j: nat)
    requires j + 1 < |certs|
  {
    && certs[j].issuer.Some? && certs[j].issuer.value !in v.roots
    && pki.signed(certs[j + 1], certs[j]) && InDate(certs[j], time)
  }

  /** Certificate `k` is issued by a stored root, which is in date and vouches for it. */
  ghost predicate Anchored(pki: Pki, v: Validator, certs: seq<Cert>, time: Option<nat>, k: nat)
    requires k < |certs|
  {
    && certs[k].issuer.Some? && certs[k].issuer.value in v.roots
    && var ca := pki.parse(v.roots[certs[k].issuer.value]);
       ca.Some? && InDate(ca.value, time) && pki.signed(ca.value, certs[k]) && InDate(certs[k], time)
  }

  ghost predicate Path(pki: Pki, v: Validator, certs: seq<Cert>, time: Option<nat>, i: nat, k: nat) {
    && i <= k < |certs|
    && (forall j :: i <= j < k ==> Link(pki, v, certs, time, j))
    && Anchored(pki, v, certs, time, k)
  }

  ghost predicate HasPath(pki: Pki, v: Validator, certs: seq<Cert>, time: Option<nat>, i: nat) {
    exists k: nat :: Path(pki, v, certs, time, i, k)
  }

  lemma {:induction false} WalkIff(pki: Pki, v: Validator, certs: seq<Cert>, time: Option<nat>, i: nat, key: bytes)
    requires i <= |certs|
    ensures Walk(pki, v, certs, time, i) == Ok(key)
            <==> certs != [] && pki.publicKey(certs[0]) == Some(key) && HasPath(pki, v, certs, time, i)
    decreases |certs| - i
  {
    if i < |certs| {
      WalkIff(pki, v, certs, time, i + 1, key);
      PathStep(pki, v, certs, time, i);
    }
  }

  /** A path from `i` anchors there, or continues from `i + 1`. */
  lemma PathStep(pki: Pki, v: Validator, certs: seq<Cert>, time: Option<nat>, i: nat)
    requires i < |certs|
    ensures HasPath(pki, v, certs, time, i)
            <==> Anchored(pki, v, certs, time, i)
                 || (i + 1 < |certs| && Link(pki, v, certs, time, i) && HasPath(pki, v, certs, time, i + 1))
  {
    if Anchored(pki, v, certs, time, i) { assert Path(pki, v, certs, time, i, i); }
    if k: nat :| Path(pki, v, certs, time, i, k) {
      if k > i {
        assert Link(pki, v, certs, time, i);
        assert Path(pki, v, certs, time, i + 1, k);
      }
    }
    if i + 1 < |certs| && Link(pki, v, certs, time, i) && HasPath(pki, v, certs, time, i + 1) {
      var k: nat :| Path(pki, v, certs, time, i + 1, k);
      assert Path(pki, v, certs, time, i, k);
    }
  }

  /** The certificates of a chain that parses. */
  ghost predicate Parses(pki: Pki, chain: seq<bytes>, certs: seq<Cert>) {
    |certs| == |chain| && forall i :: 0 <= i < |chain| ==> pki.parse(chain[i]) == Some(certs[i])
  }

  /** A chain is accepted, with this key, exactly when it is not empty, holds any pinned
      certificate, parses, has this leaf key, and leads from the leaf, each certificate signed
      by its successor, to a first one issued and signed by a stored root, all in date. The
      last certificate's pairing with itself has no part in it. */
  lemma AcceptedIff(pki: Pki, v: Validator, chain: seq<bytes>, time: Option<nat>, key: bytes)
    ensures Validate(pki, v, chain, time) == Ok(key)
            <==> && chain != []
                 && (v.pinned.Some? ==> v.pinned.value in chain)
                 && exists certs: seq<Cert> :: Parses(pki, chain, certs)
                      && pki.publicKey(certs[0]) == Some(key)
                      && HasPath(pki, v, certs, time, 0)
  {
    var parsed := ParseAll(pki, chain);
    if parsed.Some? {
      assert Parses(pki, chain, parsed.value);
      WalkIff(pki, v, parsed.value, time, 0, key);
      forall certs | Parses(pki, chain, certs) ensures certs == parsed.value { }
    } else {
      forall certs ensures !Parses(pki, chain, certs) { }
    }
  }

  // ------------------------------------------------------------------
  // Signatures and dates apart
  // ------------------------------------------------------------------

  /** From the leaf on, every certificate up to `k` is not issued by a stored root and signed by its
      successor, and `k` is issued by a stored root, which signed it. */
  ghost predicate SignedPath(pki: Pki, v: Validator, certs: seq<Cert>, k: nat) {
    && k < |certs|
    && (forall j :: 0 <= j < k ==>
          certs[j].issuer.Some? && certs[j].issuer.value !in v.roots && pki.signed(certs[j + 1], certs[j]))
    && certs[k].issuer.Some? && certs[k].issuer.value in v.roots
    && pki.parse(v.roots[certs[k].issuer.value]).Some?
    && pki.signed(pki.parse(v.roots[certs[k].issuer.value]).value, certs[k])
  }

  /** Everything on the path, the root included, is valid at this time, the ends included. */
  ghost predicate DatesHold(pki: Pki, v: Validator, certs: seq<Cert>, k: nat, t: nat)
    requires SignedPath(pki, v, certs, k)
  {
    var ca := pki.parse(v.roots[certs[k].issuer.value]).value;
    && (forall j :: 0 <= j <= k ==> certs[j].notBefore <= t && t <= certs[j].notAfter)
    && ca.notBefore <= t && t <= ca.notAfter
  }

  lemma PathIsSignedAndDated(pki: Pki, v: Validator, certs: seq<Cert>, time: Option<nat>, k: nat)
    ensures Path(pki, v, certs, time, 0, k)
            <==> SignedPath(pki, v, certs, k) && (time.Some? ==> DatesHold(pki, v, certs, k, time.value))
  {
    if Path(pki, v, certs, time, 0, k) {
      forall j | 0 <= j < k
        ensures certs[j].issuer.Some? && certs[j].issuer.value !in v.roots && pki.signed(certs[j + 1], certs[j])
        ensures InDate(certs[j], time)
      {
        assert Link(pki, v, certs, time, j);
      }
    }
  }

  /** At a given time a chain is accepted, with this key, exactly when it is not empty, holds any pinned
      certificate, parses, has this leaf key and a signed path to a stored root, and every certificate
      on the path and the root have `notBefore <= t <= notAfter`. Without a time, dates play no part. */
  lemma AcceptedAtIff(pki: Pki, v: Validator, chain: seq<bytes>, time: Option<nat>, key: bytes)
    ensures Validate(pki, v, chain, time) == Ok(key)
            <==> && chain != []
                 && (v.pinned.Some? ==> v.pinned.value in chain)
                 && exists certs: seq<Cert>, k: nat :: Parses(pki, chain, certs)
                      && pki.publicKey(certs[0]) == Some(key)
                      && SignedPath(pki, v, certs, k)
                      && (time.Some? ==> DatesHold(pki, v, certs, k, time.value))
  {
    AcceptedIff(pki, v, chain, time, key);
    forall certs: seq<Cert>, k: nat
      ensures Path(pki, v, certs, time, 0, k)
              <==> SignedPath(pki, v, certs, k) && (time.Some? ==> DatesHold(pki, v, certs, k, time.value))
    {
      PathIsSignedAndDated(pki, v, certs, time, k);
    }
  }

  // ------------------------------------------------------------------
  // Refusals
  // ------------------------------------------------------------------

  /** From certificate `i` on, none is issued by a stored root, and each is signed by its partner and
      in date. */
  ghost predicate NoRootFrom(pki: Pki, v: Validator, certs: seq<Cert>, time: Option<nat>, i: nat) {
    forall j :: i <= j < |certs| ==>
      && certs[j].issuer.Some? && certs[j].issuer.value !in v.roots
      && pki.signed(Partner(certs, j), certs[j])
      && (time.Some? ==> certs[j].notBefore <= time.value && time.value <= certs[j].notAfter)
  }

  lemma {:induction false} WalkRefuses(pki: Pki, v: Validator, certs: seq<Cert>, time: Option<nat>, i: nat)
    requires i <= |certs|
    ensures var r := Walk(pki, v, certs, time, i);
            && r != Err(EmptyCertificateChain) && r != Err(PinnedCertNotFound)
            && (r == Err(CaNotFound) <==> NoRootFrom(pki, v, certs, time, i))
    decreases |certs| - i
  {
    if i < |certs| {
      WalkRefuses(pki, v, certs, time, i + 1);
      var here := certs[i];
      assert NoRootFrom(pki, v, certs, time, i) <==>
             && here.issuer.Some? && here.issuer.value !in v.roots && pki.signed(Partner(certs, i), here)
             && (time.Some? ==> here.notBefore <= time.value && time.value <= here.notAfter)
             && NoRootFrom(pki, v, certs, time, i + 1);
    }
  }

  /** When the three refusals that concern the chain as a whole happen. */
  lemma RefusedIff(pki: Pki, v: Validator, chain: seq<bytes>, time: Option<nat>)
    ensures Validate(pki, v, chain, time) == Err(EmptyCertificateChain) <==> chain == []
    ensures Validate(pki, v, chain, time) == Err(PinnedCertNotFound)
            <==> chain != [] && v.pinned.Some? && v.pinned.value !in chain
    ensures Validate(pki, v, chain, time) == Err(CaNotFound)
            <==> && chain != [] && (v.pinned.Some? ==> v.pinned.value in chain)
                 && exists certs: seq<Cert> :: Parses(pki, chain, certs) && NoRootFrom(pki, v, certs, time, 0)
  {
    var parsed := ParseAll(pki, chain);
    if parsed.Some? {
      assert Parses(pki, chain, parsed.value);
      WalkRefuses(pki, v, parsed.value, time, 0);
      forall certs | Parses(pki, chain, certs) ensures certs == parsed.value { }
    } else {
      forall certs ensures !Parses(pki, chain, certs) { }
    }
  }

  /** Before an anchor no certificate is issued by a stored root: the anchor is the first one. */
  lemma AnchorIsFirst(pki: Pki, v: Validator, certs: seq<Cert>, time: Option<nat>, k: nat)
    requires Path(pki, v, certs, time, 0, k)
    ensures certs[k].issuer.Some? && certs[k].issuer.value in v.roots
    ensures forall j :: 0 <= j < k ==> certs[j].issuer.Some? && certs[j].issuer.value !in v.roots
  {
    forall j | 0 <= j < k ensures certs[j].issuer.Some? && certs[j].issuer.value !in v.roots {
      assert Link(pki, v, certs, time, j);
    }
  }

  /** Nothing is accepted without a stored root, whatever signs what within the chain: some
      certificate of an accepted chain has a stored root as its issuer. */
  lemma AcceptanceNeedsRoot(pki: Pki, v: Validator, chain: seq<bytes>, time: Option<nat>)
    requires Validate(pki, v, chain, time).Ok?
    ensures exists i :: 0 <= i < |chain| &&
              var c := pki.parse(chain[i]);
              c.Some? && c.value.issuer.Some? && c.value.issuer.value in v.roots
  {
    AcceptedIff(pki, v, chain, time, Validate(pki, v, chain, time).value);
    var certs: seq<Cert> :| Parses(pki, chain, certs) && HasPath(pki, v, certs, time, 0);
    var k: nat :| Path(pki, v, certs, time, 0, k);
    assert pki.parse(chain[k]) == Some(certs[k]);
  }

  /** A signature path from the leaf to certificate `k`, and from there to a self-signed root
      that carries the name of its issuer; at a given time, all are valid. */
  ghost predicate TrustPath(pki: Pki, certs: seq<Cert>, time: Option<nat>, k: nat, ca: Cert) {
    && k < |certs|
    && (forall j :: 0 <= j < k ==> pki.signed(certs[j + 1], certs[j]))
    && pki.signed(ca, certs[k]) && pki.signed(ca, ca)
    && certs[k].issuer.Some? && ca.subject == certs[k].issuer
    && (time.Some? ==>
          && (forall j :: 0 <= j <= k ==> certs[j].notBefore <= time.value && time.value <= certs[j].notAfter)
          && ca.notBefore <= time.value && time.value <= ca.notAfter)
  }

  /** With a validator that `new` made from certificates, acceptance is such a path to the last of
      them that carries the issuer's name. */
  lemma AcceptedIsTrusted(pki: Pki, v: Validator, ders: seq<bytes>, chain: seq<bytes>, time: Option<nat>)
    requires GoodRoots(pki, v) && FiledFrom(pki, v.roots, ders) && Validate(pki, v, chain, time).Ok?
    ensures exists certs: seq<Cert>, k: nat, ca: Cert ::
              Parses(pki, chain, certs) && TrustPath(pki, certs, time, k, ca)
              && exists i: nat :: LastNamed(pki, ders, certs[k].issuer.value, i) && pki.parse(ders[i]) == Some(ca)
  {
    AcceptedAtIff(pki, v, chain, time, Validate(pki, v, chain, time).value);
    var certs: seq<Cert>, k: nat :| Parses(pki, chain, certs) && SignedPath(pki, v, certs, k)
                                    && (time.Some? ==> DatesHold(pki, v, certs, k, time.value));
    var name := certs[k].issuer.value;
    assert GoodRoot(pki, name, v.roots[name]);
    var ca := pki.parse(v.roots[name]).value;
    assert TrustPath(pki, certs, time, k, ca);
    var i: nat :| LastNamed(pki, ders, name, i) && v.roots[name] == ders[i];
  }
}
