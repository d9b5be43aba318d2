/** The cache-backed certificate store. A cache drops expired entries when it is read and others when it is written,
    and may refuse to store one; every statement sent to the database may fail. */
module CertificateStore {
  import opened Prelude
  import opened Certificates

  datatype StoreError = RowNotFound | StatementFailed

  class CacheBackedStore {
    /** Whether the database takes every statement that its constraints allow. */
    const reliable: bool
    var rows: CertTable
    var cache: CertCache

    ghost predicate Valid()
      reads this
    {
      TableValid(rows) && Coherent(rows, cache)
    }

    constructor (reliable: bool)
      ensures Valid() && rows == map[] && this.reliable == reliable
    {
      this.reliable := reliable;
      rows := map[];
      cache := CertCache(map[], map[]);
    }

    /** Entries go by expiry or to make room, whichever they are. */
    method Evict()
      modifies `cache
      ensures Subcache(cache, old(cache))
      ensures old(Coherent(rows, cache)) ==> Coherent(rows, cache)
    {
      var ids: set<string>, keys: set<string> := *, *;
      var before := cache;
      cache := CertCache(cache.byID - ids, cache.byRef - keys);
      if Coherent(rows, before) {
        SubcacheCoherent(rows, cache, before);
      }
    }

    /** Sets a certificate in both caches. Either Set may be refused, and each may evict other entries. */
    method CacheCertificate(cert: Certificate)
      modifies `cache
      ensures EntriesFrom(cache, old(cache), Cached(old(cache), cert))
      ensures old(Coherent(rows, cache)) && cert.id in rows && rows[cert.id] == cert ==> Coherent(rows, cache)
    {
      var before, full := cache, Cached(cache, cert);
      if * {
        cache := cache.(byID := full.byID);
      }
      if * {
        cache := cache.(byRef := full.byRef);
      }
      Evict();
      if Coherent(rows, before) && cert.id in rows && rows[cert.id] == cert {
        CachingARowIsCoherent(rows, before, cert);
        EntriesFromCoherent(rows, cache, before, full);
      }
    }

    method GetCertificateByID(id: string) returns (found: Result<Certificate, StoreError>)
      requires Valid()
      modifies `cache
      ensures Valid()
      ensures reliable ==> found != Err(StatementFailed)
      ensures found == Err(StatementFailed) || found == if id in rows then Ok(rows[id]) else Err(RowNotFound)
    {
      Evict();
      if id in cache.byID {
        return Ok(cache.byID[id]);
      }
      if * {
        if !reliable {
          return Err(StatementFailed);
        }
      }
      if id !in rows {
        return Err(RowNotFound);
      }
      CacheCertificate(rows[id]);
      found := Ok(rows[id]);
    }

    method GetCertificateByReference(refType: string, refID: string) returns (found: Result<Certificate, StoreError>)
      requires Valid() && ValidReferenceType(refType)
      modifies `cache
      ensures Valid()
      ensures found.Ok? ==> IsLookupByReference(rows, refType, refID, Some(found.value))
      ensures found == Err(RowNotFound) ==> IsLookupByReference(rows, refType, refID, None)
      ensures reliable ==> found != Err(StatementFailed)
    {
      Evict();
      HitsAgreeWithTable(rows, cache, "", refType, refID);
      var key := ReferenceKey(refType, refID);
      if key in cache.byRef {
        return Ok(cache.byRef[key]);
      }
      if * {
        if !reliable {
          return Err(StatementFailed);
        }
      }
      if !ReferenceTaken(rows, refType, refID) {
        return Err(RowNotFound);
      }
      var id :| id in rows && HasReference(rows[id], refType, refID);
      CacheCertificate(rows[id]);
      found := Ok(rows[id]);
    }

    /** INSERT; the unique constraints on the ID and on the reference make a duplicate fail. */
    method CreateCertificate(cert: Certificate) returns (ok: bool)
      requires Valid() && ValidationError(cert).None?
      modifies this
      ensures Valid()
      ensures rows == if ok then old(rows)[cert.id := cert] else old(rows)
      ensures ok ==> cert.id !in old(rows) && !ReferenceTaken(old(rows), cert.refType, cert.refID)
      ensures reliable && cert.id !in old(rows) && !ReferenceTaken(old(rows), cert.refType, cert.refID) ==> ok
    {
      if * {
        if !reliable {
          return false;
        }
      }
      if cert.id in rows || ReferenceTaken(rows, cert.refType, cert.refID) {
        return false;
      }
      NewRowKeepsValid(rows, cache, cert);
      hide TableValid, Coherent, ReferenceTaken;
      rows := rows[cert.id := cert];
      CacheCertificate(cert);
      ok := true;
    }

    method InvalidateCertificateCache(cert: Certificate)
      modifies `cache
      ensures cache == Invalidated(old(cache), cert)
    {
      cache := Invalidated(cache, cert);
    }

    /** UPDATE of the row `existing`, by ID or by reference: the two address the same row. The caller's object goes into
        the caches as it is; UpdateByIDCoherentIff says when that is right. */
    method UpdateCertificate(existing: Certificate, updated: Certificate) returns (ok: bool)
      requires Valid() && existing.id in rows && rows[existing.id] == existing
      requires ValidationError(updated).None? && SameReference(existing, updated)
      modifies this
      ensures TableValid(rows)
      ensures rows == if ok then Updated(old(rows), existing, updated) else old(rows)
      ensures ok ==> var left := Invalidated(old(cache), existing);
                     EntriesFrom(cache, left, Cached(left, updated))
      ensures !ok || updated.id == existing.id ==> Valid()
      ensures reliable ==> ok
    {
      if * {
        if !reliable {
          return false;
        }
      }
      UpdateKeepsTableValid(rows, existing, updated);
      InvalidatedRowMayChange(rows, Updated(rows, existing, updated), cache, existing);
      rows := Updated(rows, existing, updated);
      InvalidateCertificateCache(existing);
      CacheCertificate(updated);
      ok := true;
    }

    method DeleteCertificateByID(id: string) returns (ok: bool)
      requires Valid()
      modifies this
      ensures Valid()
      ensures rows == if ok then old(rows) - {id} else old(rows)
      ensures reliable ==> ok
    {
      hide TableValid;
      Evict();
      var existing: Certificate;
      if id in cache.byID {
        existing := cache.byID[id];
      } else {
        if * {
          if !reliable {
            return false;
          }
        }
        if id !in rows {
          assert rows - {id} == rows;
          return true;
        }
        existing := rows[id];
      }
      if * {
        if !reliable {
          return false;
        }
      }
      StoredUnderOwnID(rows, id);
      DeletedRowKeepsValid(rows, cache, existing);
      hide Coherent;
      rows := rows - {id};
      InvalidateCertificateCache(existing);
      ok := true;
    }

    /** `refused` says that the database refuses a statement of this call; which one makes no difference. */
    method DeleteCertificateByReference(refType: string, refID: string, refused: bool) returns (ok: bool)
      requires Valid() && ValidReferenceType(refType)
      modifies this
      ensures Valid()
      ensures ok == !refused
      ensures rows == if ok then WithoutReference(old(rows), refType, refID) else old(rows)
    {
      Evict();
      HitsAgreeWithTable(rows, cache, "", refType, refID);
      var key := ReferenceKey(refType, refID);
      var existing: Certificate;
      if refused {
        return false;
      }
      if key in cache.byRef {
        existing := cache.byRef[key];
      } else {
        if !ReferenceTaken(rows, refType, refID) {
          DeleteByReferenceRemovesLookup(rows, refType, refID, None);
          return true;
        }
        var id :| id in rows && HasReference(rows[id], refType, refID);
        existing := rows[id];
      }
      DeleteByReferenceRemovesLookup(rows, refType, refID, Some(existing));
      DeletedRowKeepsValid(rows, cache, existing);
      rows := WithoutReference(rows, refType, refID);
      InvalidateCertificateCache(existing);
      ok := true;
    }
  }
}
