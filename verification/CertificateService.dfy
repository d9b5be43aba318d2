/** The certificate service: validation, reference checks, and the calls into the store. */
module CertificateService {
  import opened Prelude
  import opened Certificates
  import opened CertificateStore

  class CertificateService {
    const store: CacheBackedStore

    constructor (reliable: bool)
      ensures fresh(store) && store.Valid() && store.rows == map[] && store.reliable == reliable
    {
      store := new CacheBackedStore(reliable);
    }

    method GetCertificateByID(id: string) returns (found: Result<Certificate, CertError>)
      requires store.Valid()
      modifies store`cache
      ensures store.Valid()
      ensures store.reliable ==> found != Err(InternalServerError)
      ensures found == Err(InternalServerError) ||
              found == if id == "" then Err(InvalidCertificateID)
                       else if id in store.rows then Ok(store.rows[id]) else Err(CertificateNotFound)
    {
      if id == "" {
        return Err(InvalidCertificateID);
      }
      var row := store.GetCertificateByID(id);
      match row
      case Ok(cert) => found := Ok(cert);
      case Err(RowNotFound) => found := Err(CertificateNotFound);
      case Err(StatementFailed) => found := Err(InternalServerError);
    }

    method GetCertificateByReference(refType: string, refID: string) returns (found: Result<Certificate, CertError>)
      requires store.Valid()
      modifies store`cache
      ensures store.Valid()
      ensures !ValidReferenceType(refType) ==> found == Err(InvalidReferenceType)
      ensures ValidReferenceType(refType) && refID == "" ==> found == Err(InvalidReferenceID)
      ensures found.Ok? ==> IsLookupByReference(store.rows, refType, refID, Some(found.value))
      ensures ValidReferenceType(refType) && refID != "" && found.Err? ==>
                found.error == InternalServerError ||
                (found.error == CertificateNotFound && IsLookupByReference(store.rows, refType, refID, None))
      ensures store.reliable ==> found != Err(InternalServerError)
    {
      if !ValidReferenceType(refType) {
        return Err(InvalidReferenceType);
      }
      if refID == "" {
        return Err(InvalidReferenceID);
      }
      var row := store.GetCertificateByReference(refType, refID);
      match row
      case Ok(cert) => found := Ok(cert);
      case Err(RowNotFound) => found := Err(CertificateNotFound);
      case Err(StatementFailed) => found := Err(InternalServerError);
    }

    /** Stores `cert` under the generated ID, unless its reference already has a certificate. */
    method CreateCertificate(cert: Certificate, generatedID: string) returns (error: Option<CertError>)
      requires store.Valid() && generatedID != ""
      modifies store
      ensures store.Valid()
      ensures store.rows == if error.None? then old(store.rows)[generatedID := cert.(id := generatedID)]
                            else old(store.rows)
      ensures CreationError(cert).Some? ==> error == CreationError(cert)
      ensures CreationError(cert).None? && ReferenceTaken(old(store.rows), cert.refType, cert.refID) ==>
                error == Some(CertificateAlreadyExists) || error == Some(InternalServerError)
      ensures CreationError(cert).None? && !ReferenceTaken(old(store.rows), cert.refType, cert.refID) ==>
                error.None? || error == Some(InternalServerError)
      ensures error.None? ==> generatedID !in old(store.rows)
      ensures store.reliable && CreationError(cert).None? && generatedID !in old(store.rows) ==>
                var taken := ReferenceTaken(old(store.rows), cert.refType, cert.refID);
                error == if taken then Some(CertificateAlreadyExists) else None
    {
      if CreationError(cert).Some? {
        return CreationError(cert);
      }
      var existing := store.GetCertificateByReference(cert.refType, cert.refID);
      match existing
      case Ok(_) => return Some(CertificateAlreadyExists);
      case Err(StatementFailed) => return Some(InternalServerError);
      case Err(RowNotFound) =>
        var ok := store.CreateCertificate(cert.(id := generatedID));
        error := if ok then None else Some(InternalServerError);
    }

    /** The table gets the new type and value under the old ID. The caches get the caller's object, whose ID nobody
        compares with `id`; UpdateByIDCoherentIff says exactly when that leaves them right. */
    method UpdateCertificateByID(id: string, cert: Certificate) returns (error: Option<CertError>)
      requires store.Valid()
      modifies store
      ensures TableValid(store.rows)
      ensures error.Some? || cert.id == id ==> store.Valid()
      ensures error.Some? ==> store.rows == old(store.rows)
      ensures error.None? ==>
                && id in old(store.rows) && SameReference(old(store.rows)[id], cert)
                && store.rows == Updated(old(store.rows), old(store.rows)[id], cert)
                && (cert.id == id ==> store.rows == old(store.rows)[id := cert])
      ensures id == "" ==> error == Some(InvalidCertificateID)
      ensures id != "" && ValidationError(cert).Some? ==> error == ValidationError(cert)
      ensures id != "" && ValidationError(cert).None? ==>
                var own := if id !in old(store.rows) then Some(CertificateNotFound)
                           else if SameReference(old(store.rows)[id], cert) then None
                           else Some(ReferenceUpdateIsNotAllowed);
                error == own || (!store.reliable && error == Some(InternalServerError))
    {
      if id == "" {
        return Some(InvalidCertificateID);
      }
      if ValidationError(cert).Some? {
        return ValidationError(cert);
      }
      var existing := store.GetCertificateByID(id);
      match existing
      case Err(RowNotFound) => return Some(CertificateNotFound);
      case Err(StatementFailed) => return Some(InternalServerError);
      case Ok(row) =>
        if !SameReference(row, cert) {
          return Some(ReferenceUpdateIsNotAllowed);
        }
        var ok := store.UpdateCertificate(row, cert);
        error := if ok then None else Some(InternalServerError);
    }

    method UpdateCertificateByReference(refType: string, refID: string, cert: Certificate)
      returns (error: Option<CertError>, ghost id: string)
      requires store.Valid()
      modifies store
      ensures store.Valid()
      ensures error.Some? ==> store.rows == old(store.rows)
      ensures !ValidReferenceType(refType) ==> error == Some(InvalidReferenceType)
      ensures ValidReferenceType(refType) && refID == "" ==> error == Some(InvalidReferenceID)
      ensures ValidReferenceType(refType) && refID != "" && ValidationError(cert).Some? ==>
                error == ValidationError(cert)
      ensures error.None? ==> id in old(store.rows) && HasReference(old(store.rows)[id], refType, refID) &&
                              SameReference(old(store.rows)[id], cert) &&
                              store.rows == old(store.rows)[id := cert.(id := id)]
      ensures store.reliable && ValidReferenceType(refType) && refID != "" && ValidationError(cert).None? ==>
                error == if !ReferenceTaken(old(store.rows), refType, refID) then Some(CertificateNotFound)
                         else if HasReference(cert, refType, refID) then None else Some(ReferenceUpdateIsNotAllowed)
    {
      id := "";
      if !ValidReferenceType(refType) {
        return Some(InvalidReferenceType), id;
      }
      if refID == "" {
        return Some(InvalidReferenceID), id;
      }
      if ValidationError(cert).Some? {
        return ValidationError(cert), id;
      }
      var existing := store.GetCertificateByReference(refType, refID);
      match existing
      case Err(RowNotFound) => return Some(CertificateNotFound), id;
      case Err(StatementFailed) => return Some(InternalServerError), id;
      case Ok(row) =>
        if !SameReference(row, cert) {
          return Some(ReferenceUpdateIsNotAllowed), id;
        }
        id := row.id;
        var ok := store.UpdateCertificate(row, cert.(id := row.id));
        error := if ok then None else Some(InternalServerError);
    }

    method DeleteCertificateByID(id: string) returns (error: Option<CertError>)
      requires store.Valid()
      modifies store
      ensures store.Valid()
      ensures store.rows == if error.None? then old(store.rows) - {id} else old(store.rows)
      ensures error.Some? ==> error.value == if id == "" then InvalidCertificateID else InternalServerError
      ensures store.reliable && id != "" ==> error.None?
    {
      if id == "" {
        return Some(InvalidCertificateID);
      }
      var ok := store.DeleteCertificateByID(id);
      error := if ok then None else Some(InternalServerError);
    }

    /** `refused` says that the database refuses a statement of this call. */
    method DeleteCertificateByReference(refType: string, refID: string, refused: bool)
      returns (error: Option<CertError>)
      requires store.Valid()
      modifies store
      ensures store.Valid()
      ensures store.rows == if error.None? then WithoutReference(old(store.rows), refType, refID) else old(store.rows)
      ensures error == if !ValidReferenceType(refType) then Some(InvalidReferenceType)
                       else if refID == "" then Some(InvalidReferenceID)
                       else if refused then Some(InternalServerError) else None
    {
      if !ValidReferenceType(refType) {
        return Some(InvalidReferenceType);
      }
      if refID == "" {
        return Some(InvalidReferenceID);
      }
      var ok := store.DeleteCertificateByReference(refType, refID, refused);
      error := if ok then None else Some(InternalServerError);
    }
  }
}
