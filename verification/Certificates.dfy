/** Certificates, their table, and the two caches in front of it. */
module Certificates {
  import opened Prelude
  import opened Text

  datatype Certificate = Certificate(id: string, refType: string, refID: string, certType: string, value: string)

  /** The CERTIFICATE table, keyed by its unique CERT_ID. */
  type CertTable = map<string, Certificate>

  /** The by-ID cache and the by-reference cache. */
  datatype CertCache = CertCache(byID: map<string, Certificate>, byRef: map<string, Certificate>)

  datatype CertError =
    | InvalidCertificateID | InvalidReferenceType | InvalidReferenceID | InvalidCertificateType
    | InvalidCertificateValue | CertificateNotFound | CertificateAlreadyExists | ReferenceUpdateIsNotAllowed
    | InternalServerError

  predicate IsClientError(e: CertError) { e != InternalServerError }

  const APPLICATION := "APPLICATION"
  const IDP := "IDP"

  predicate ValidReferenceType(refType: string) { refType == APPLICATION || refType == IDP }

  predicate ValidCertificateType(certType: string) {
    certType == "NONE" || certType == "JWKS" || certType == "JWKS_URI"
  }

  /** The checks on a certificate about to be created; its ID is assigned afterwards. */
  function CreationError(cert: Certificate): Option<CertError> {
    if cert.refID == "" then Some(InvalidReferenceID)
    else if !ValidReferenceType(cert.refType) then Some(InvalidReferenceType)
    else if !ValidCertificateType(cert.certType) then Some(InvalidCertificateType)
    else if |cert.value| < 10 || |cert.value| > 4096 then Some(InvalidCertificateValue)
    else None
  }

  function ValidationError(cert: Certificate): Option<CertError> {
    if cert.id == "" then Some(InvalidCertificateID) else CreationError(cert)
  }

  predicate ProperReference(cert: Certificate) {
    cert.id != "" && cert.refID != "" && (cert.refType == "APPLICATION" || cert.refType == "IDP")
  }

  /** A certificate may be created exactly when it names a reference of one of two types, has one of three types, and
      a value of 10 to 4096 characters; it may be stored when it has an ID, too. A refusal says what is wrong,
      and that nothing checked before it is. */
  lemma CreationErrorIff(cert: Certificate)
    ensures CreationError(cert).None? <==>
            && cert.refID != "" && (cert.refType == "APPLICATION" || cert.refType == "IDP")
            && (cert.certType == "NONE" || cert.certType == "JWKS" || cert.certType == "JWKS_URI")
            && 10 <= |cert.value| <= 4096
    ensures ValidationError(cert).None? <==> cert.id != "" && CreationError(cert).None?
    ensures CreationError(cert) != Some(InternalServerError) && ValidationError(cert) != Some(InternalServerError)
    ensures ValidationError(cert).Some? ==>
              match ValidationError(cert).value
              case InvalidCertificateID => cert.id == ""
              case InvalidReferenceID => cert.refID == "" && cert.id != ""
              case InvalidReferenceType =>
                cert.refType != "APPLICATION" && cert.refType != "IDP" && cert.refID != "" && cert.id != ""
              case InvalidCertificateType =>
                cert.certType != "JWKS" && cert.certType != "JWKS_URI" && ProperReference(cert)
              case InvalidCertificateValue =>
                && (|cert.value| < 10 || |cert.value| > 4096) && ProperReference(cert)
                && (cert.certType == "NONE" || cert.certType == "JWKS" || cert.certType == "JWKS_URI")
              case _ => false
  {
  }

  // ---------------------------------------------------------------- the table

  predicate SameReference(a: Certificate, b: Certificate) {
    a.refType == b.refType && a.refID == b.refID
  }

  predicate HasReference(cert: Certificate, refType: string, refID: string) {
    cert.refType == refType && cert.refID == refID
  }

  /** Every stored certificate is valid, sits under its own ID, and is the only one of its reference. */
  ghost predicate TableValid(rows: CertTable) {
    && (forall id :: id in rows ==> rows[id].id == id && ValidationError(rows[id]).None?)
    && (forall a, b :: a in rows && b in rows && a != b ==> !SameReference(rows[a], rows[b]))
  }

  predicate ReferenceTaken(rows: CertTable, refType: string, refID: string) {
    exists id :: id in rows && HasReference(rows[id], refType, refID)
  }

  /** `found` is what querying the table by reference gives. */
  ghost predicate IsLookupByReference(rows: CertTable, refType: string, refID: string, found: Option<Certificate>) {
    match found
    case Some(cert) => cert.id in rows && rows[cert.id] == cert && HasReference(cert, refType, refID)
    case None => !ReferenceTaken(rows, refType, refID)
  }

  /** DELETE ... WHERE REF_TYPE = refType AND REF_ID = refID. */
  function WithoutReference(rows: CertTable, refType: string, refID: string): CertTable {
    map id | id in rows && !HasReference(rows[id], refType, refID) :: rows[id]
  }

  /** Deleting by reference removes at most the one row that a lookup finds, and leaves the reference free. */
  lemma DeleteByReferenceRemovesLookup(rows: CertTable, refType: string, refID: string, found: Option<Certificate>)
    requires TableValid(rows) && IsLookupByReference(rows, refType, refID, found)
    ensures WithoutReference(rows, refType, refID) == if found.Some? then rows - {found.value.id} else rows
    ensures !ReferenceTaken(WithoutReference(rows, refType, refID), refType, refID)
    ensures TableValid(WithoutReference(rows, refType, refID))
  {
  }

  // ---------------------------------------------------------------- the reference key

  function ReferenceKey(refType: string, refID: string): string {
    refType + ":" + refID
  }

  /** On valid reference types the cache key determines the reference. */
  lemma ReferenceKeyIsInjective(t: string, i: string, t': string, i': string)
    requires ValidReferenceType(t) && ValidReferenceType(t')
    requires ReferenceKey(t, i) == ReferenceKey(t', i')
    ensures t == t' && i == i'
  {
    var key := ReferenceKey(t, i);
    assert key[0] == t[0] && key[0] == t'[0];
    assert t == t';
    assert i == key[|t| + 1..] && i' == key[|t| + 1..];
  }

  /** On arbitrary type strings it does not, which is why the type is checked before the lookup. */
  lemma ReferenceKeyCollidesOnOtherTypes()
    ensures ReferenceKey("IDP", "a:b") == ReferenceKey("IDP:a", "b")
    ensures !ValidReferenceType("IDP:a")
  {
    assert "IDP" + ":" + "a:b" == "IDP:a" + ":" + "b";
  }

  // ---------------------------------------------------------------- coherence

  ghost predicate Coherent(rows: CertTable, cache: CertCache) {
    && (forall k :: k in cache.byID ==> k in rows && cache.byID[k] == rows[k])
    && (forall k :: k in cache.byRef ==>
                      var cert := cache.byRef[k];
                      cert.id in rows && rows[cert.id] == cert && k == ReferenceKey(cert.refType, cert.refID))
  }

  /** What caching a certificate stores, when neither Set is refused. */
  function Cached(cache: CertCache, cert: Certificate): CertCache {
    CertCache(if cert.id == "" then cache.byID else cache.byID[cert.id := cert],
              if cert.refType == "" || cert.refID == "" then cache.byRef
              else cache.byRef[ReferenceKey(cert.refType, cert.refID) := cert])
  }

  function Invalidated(cache: CertCache, cert: Certificate): CertCache {
    CertCache(if cert.id == "" then cache.byID else cache.byID - {cert.id},
              if cert.refType == "" || cert.refID == "" then cache.byRef
              else cache.byRef - {ReferenceKey(cert.refType, cert.refID)})
  }

  /** Some entries may have gone: evicted to make room, or expired. */
  predicate Subcache(small: CertCache, big: CertCache) {
    && (forall k :: k in small.byID ==> k in big.byID && small.byID[k] == big.byID[k])
    && (forall k :: k in small.byRef ==> k in big.byRef && small.byRef[k] == big.byRef[k])
  }

  lemma SubcacheCoherent(rows: CertTable, small: CertCache, big: CertCache)
    requires Coherent(rows, big) && Subcache(small, big)
    ensures Coherent(rows, small)
  {
  }

  /** Each entry is one of the first cache's or one of the second's. */
  predicate EntriesFrom(cache: CertCache, first: CertCache, second: CertCache) {
    && (forall k :: k in cache.byID ==> (k in first.byID && cache.byID[k] == first.byID[k]) ||
                                        (k in second.byID && cache.byID[k] == second.byID[k]))
    && (forall k :: k in cache.byRef ==> (k in first.byRef && cache.byRef[k] == first.byRef[k]) ||
                                         (k in second.byRef && cache.byRef[k] == second.byRef[k]))
  }

  lemma EntriesFromCoherent(rows: CertTable, cache: CertCache, first: CertCache, second: CertCache)
    requires Coherent(rows, first) && Coherent(rows, second) && EntriesFrom(cache, first, second)
    ensures Coherent(rows, cache)
  {
  }

  /** A hit in either cache is what the table would have answered. */
  lemma HitsAgreeWithTable(rows: CertTable, cache: CertCache, id: string, refType: string, refID: string)
    requires TableValid(rows) && Coherent(rows, cache) && ValidReferenceType(refType)
    ensures id in cache.byID ==> id in rows && cache.byID[id] == rows[id]
    ensures var key := ReferenceKey(refType, refID);
            key in cache.byRef ==> IsLookupByReference(rows, refType, refID, Some(cache.byRef[key]))
  {
    var key := ReferenceKey(refType, refID);
    if key in cache.byRef {
      var cert := cache.byRef[key];
      ReferenceKeyIsInjective(refType, refID, cert.refType, cert.refID);
    }
  }

  lemma CachingARowIsCoherent(rows: CertTable, cache: CertCache, cert: Certificate)
    requires Coherent(rows, cache) && cert.id in rows && rows[cert.id] == cert
    ensures Coherent(rows, Cached(cache, cert))
  {
  }

  /** A valid row under a new ID and an unused reference keeps the table valid and the caches coherent. */
  lemma NewRowKeepsValid(rows: CertTable, cache: CertCache, cert: Certificate)
    requires TableValid(rows) && Coherent(rows, cache) && ValidationError(cert).None?
    requires cert.id !in rows && !ReferenceTaken(rows, cert.refType, cert.refID)
    ensures TableValid(rows[cert.id := cert]) && Coherent(rows[cert.id := cert], cache)
  {
  }

  /** After its entries are dropped, a row can change under its own ID and reference or disappear. */
  lemma InvalidatedRowMayChange(rows: CertTable, rows': CertTable, cache: CertCache, old': Certificate)
    requires TableValid(rows) && Coherent(rows, cache)
    requires old'.id in rows && rows[old'.id] == old'
    requires forall id :: id in rows && id != old'.id ==> id in rows' && rows'[id] == rows[id]
    ensures Coherent(rows', Invalidated(cache, old'))
  {
    var left := Invalidated(cache, old');
    forall k | k in left.byRef ensures left.byRef[k].id != old'.id {
      var cert := left.byRef[k];
      assert k in cache.byRef && cert == cache.byRef[k];
    }
  }

  lemma StoredUnderOwnID(rows: CertTable, id: string)
    requires TableValid(rows) && id in rows
    ensures rows[id].id == id
  {
  }

  /** A deleted row leaves a valid table, and with its entries dropped coherent caches. */
  lemma DeletedRowKeepsValid(rows: CertTable, cache: CertCache, existing: Certificate)
    requires TableValid(rows) && Coherent(rows, cache) && existing.id in rows && rows[existing.id] == existing
    ensures TableValid(rows - {existing.id}) && Coherent(rows - {existing.id}, Invalidated(cache, existing))
  {
    InvalidatedRowMayChange(rows, rows - {existing.id}, cache, existing);
  }

  // ---------------------------------------------------------------- update by ID, exactly

  /** The table after UPDATE ... SET TYPE, VALUE on the existing row. */
  function Updated(rows: CertTable, existing: Certificate, updated: Certificate): CertTable
    requires existing.id in rows
  {
    rows[existing.id := rows[existing.id].(certType := updated.certType, value := updated.value)]
  }

  /** The by-ID update re-caches the caller's object, whose ID the service does not force to the updated
      row's. With every Set succeeding, the caches stay coherent exactly when the two IDs agree. */
  lemma UpdateByIDCoherentIff(rows: CertTable, cache: CertCache, existing: Certificate, updated: Certificate)
    requires TableValid(rows) && Coherent(rows, cache)
    requires existing.id in rows && rows[existing.id] == existing
    requires ValidationError(updated).None? && SameReference(existing, updated)
    ensures Coherent(Updated(rows, existing, updated), Cached(Invalidated(cache, existing), updated))
            <==> updated.id == existing.id
  {
    var rows' := Updated(rows, existing, updated);
    var left := Invalidated(cache, existing);
    InvalidatedRowMayChange(rows, rows', cache, existing);
    if updated.id == existing.id {
      assert rows'[updated.id] == updated;
      CachingARowIsCoherent(rows', left, updated);
    } else {
      var after := Cached(left, updated);
      var key := ReferenceKey(updated.refType, updated.refID);
      assert after.byRef[key] == updated;
      if updated.id in rows {
        assert !SameReference(rows[updated.id], existing);
      }
    }
  }

  /** One stored certificate, updated by its ID with an object that has another ID: the by-ID cache then answers for an
      ID that the table does not have. */
  lemma MismatchedUpdateIsIncoherent()
    ensures var cert := Certificate("1", APPLICATION, "app", "JWKS", "0123456789");
            var updated := Certificate("2", APPLICATION, "app", "JWKS", "9876543210");
            var rows, empty := map["1" := cert], CertCache(map[], map[]);
            var after, caches := Updated(rows, cert, updated), Cached(Invalidated(empty, cert), updated);
            && TableValid(rows) && Coherent(rows, empty)
            && ValidationError(updated).None? && SameReference(cert, updated)
            && !Coherent(after, caches) && "2" in caches.byID && "2" !in after
  {
    var cert := Certificate("1", APPLICATION, "app", "JWKS", "0123456789");
    NewRowKeepsValid(map[], CertCache(map[], map[]), cert);
    var updated := Certificate("2", APPLICATION, "app", "JWKS", "9876543210");
    UpdateByIDCoherentIff(map["1" := cert], CertCache(map[], map[]), cert, updated);
  }

  lemma UpdateKeepsTableValid(rows: CertTable, existing: Certificate, updated: Certificate)
    requires TableValid(rows) && existing.id in rows && rows[existing.id] == existing
    requires ValidationError(updated).None? && SameReference(existing, updated)
    ensures TableValid(Updated(rows, existing, updated))
    ensures updated.id == existing.id ==> Updated(rows, existing, updated)[existing.id] == updated
  {
  }

  // ---------------------------------------------------------------- what the table says, IDs aside

  /** Which reference has a certificate of which type and value. */
  datatype Binding = Binding(refType: string, refID: string, certType: string, value: string)

  function BindingOf(cert: Certificate): Binding {
    Binding(cert.refType, cert.refID, cert.certType, cert.value)
  }

  ghost function Bindings(rows: CertTable): set<Binding> {
    set id | id in rows :: BindingOf(rows[id])
  }

  /** `after` differs from `before` only in that the reference is bound to `wanted`, or to nothing. */
  ghost predicate Rebound(before: CertTable, after: CertTable, refType: string, refID: string,
                          wanted: Option<Binding>)
  {
    Bindings(after) == (set b | b in Bindings(before) && !(b.refType == refType && b.refID == refID)) +
                       (if wanted.Some? then {wanted.value} else {})
  }

  lemma CreateRebinds(rows: CertTable, cert: Certificate)
    requires cert.id !in rows && !ReferenceTaken(rows, cert.refType, cert.refID)
    ensures Rebound(rows, rows[cert.id := cert], cert.refType, cert.refID, Some(BindingOf(cert)))
    ensures WithoutReference(rows[cert.id := cert], cert.refType, cert.refID) == rows
  {
    var after := rows[cert.id := cert];
    forall id | id in rows ensures !HasReference(rows[id], cert.refType, cert.refID) && after[id] == rows[id] {
    }
    SameBindings(after, cert.refType, cert.refID, rows, cert.id);
  }

  lemma UpdateRebinds(rows: CertTable, existing: Certificate, updated: Certificate)
    requires TableValid(rows) && existing.id in rows && rows[existing.id] == existing
    requires SameReference(existing, updated)
    ensures Rebound(rows, rows[existing.id := updated], existing.refType, existing.refID, Some(BindingOf(updated)))
    ensures rows[existing.id := updated][existing.id := existing] == rows
  {
    SameBindings(rows[existing.id := updated], existing.refType, existing.refID, rows, existing.id);
  }

  /** A table that has one row of a reference, and elsewhere the rows of another table, rebinds it. */
  lemma SameBindings(after: CertTable, refType: string, refID: string, before: CertTable, id: string)
    requires id in after && HasReference(after[id], refType, refID)
    requires forall x | x in before && !HasReference(before[x], refType, refID) :: x in after && after[x] == before[x]
    requires forall x | x in after && x != id :: x in before && before[x] == after[x] &&
                                                 !HasReference(before[x], refType, refID)
    ensures Rebound(before, after, refType, refID, Some(BindingOf(after[id])))
  {
    var others := set b | b in Bindings(before) && !(b.refType == refType && b.refID == refID);
    var expected := others + {BindingOf(after[id])};
    forall b | b in expected ensures b in Bindings(after) {
      if b != BindingOf(after[id]) {
        var x :| x in before && BindingOf(before[x]) == b;
        assert after[x] == before[x];
      }
    }
    forall b | b in Bindings(after) ensures b in expected {
      var x :| x in after && BindingOf(after[x]) == b;
      if x != id {
        assert before[x] == after[x];
      }
    }
  }

  lemma DeleteRebinds(rows: CertTable, refType: string, refID: string)
    ensures Rebound(rows, WithoutReference(rows, refType, refID), refType, refID, None)
  {
    var after := WithoutReference(rows, refType, refID);
    var expected := set b | b in Bindings(rows) && !(b.refType == refType && b.refID == refID);
    forall b | b in expected ensures b in Bindings(after) {
      var x :| x in rows && BindingOf(rows[x]) == b;
      assert x in after;
    }
    assert Bindings(after) == expected;
  }

  /** Deleting a certificate and creating it again under a new ID leaves every binding as it was. */
  lemma RecreateRestoresBindings(rows: CertTable, existing: Certificate, id: string)
    requires TableValid(rows) && existing.id in rows && rows[existing.id] == existing
    requires id !in WithoutReference(rows, existing.refType, existing.refID)
    ensures Bindings(WithoutReference(rows, existing.refType, existing.refID)[id := existing.(id := id)])
            == Bindings(rows)
  {
    var less := WithoutReference(rows, existing.refType, existing.refID);
    DeleteByReferenceRemovesLookup(rows, existing.refType, existing.refID, Some(existing));
    var after := less[id := existing.(id := id)];
    forall b | b in Bindings(rows) ensures b in Bindings(after) {
      var x :| x in rows && BindingOf(rows[x]) == b;
      if x == existing.id {
        assert BindingOf(after[id]) == b;
      } else {
        assert after[x] == rows[x];
      }
    }
    forall b | b in Bindings(after) ensures b in Bindings(rows) {
      var x :| x in after && BindingOf(after[x]) == b;
      if x == id {
        assert BindingOf(rows[existing.id]) == b;
      } else {
        assert x in less;
      }
    }
  }
}
