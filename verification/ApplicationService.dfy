/** The application service. Create and update write two stores with no common transaction and undo the
    certificate step by hand; every statement of either store may fail. */
module ApplicationService {
  import opened Prelude
  import opened ApplicationRows
  import opened ApplicationStore
  import opened ApplicationCaches
  import C = Certificates
  import CS = CertificateService

  datatype AppError =
    | InvalidApplicationID | InvalidApplicationName | NameExists | ClientIDExists | ApplicationNotFound
    | ValidationFailed(reason: string) | InvalidCertificateType | InvalidCertificateValue | InvalidJWKSURI
    | CertificateClientError | CertificateServerError | InternalServerError

  /** The certificate part of a request; `uriValid` is the verdict of the URI parser on the value. */
  datatype CertInput = CertInput(certType: string, value: string, uriValid: bool)

  /** A create or update request. `app` holds the fields to store, with an empty ID or client ID where one
      is to be generated; the two reasons are the verdicts of the checks that read no store. */
  datatype Request = Request(app: App, certificate: Option<CertInput>, oauthError: Option<string>,
                             otherError: Option<string>)

  predicate Int64Periods(app: App) {
    && (app.token.Some? ==> IsInt64(app.token.value.validityPeriod))
    && (app.inbound.Some? ==> PeriodsFit(app.inbound.value))
  }

  /** The application as stored: its OAuth configuration names it and has the chosen client ID. */
  function Processed(app: App, appID: string, clientID: string): App {
    app.(id := appID,
         inbound := if app.inbound.Some? then Some(app.inbound.value.(appID := appID, clientID := clientID)) else None)
  }

  /** The certificate a request asks for; none for a missing, empty or NONE type. */
  function RequestedCertificate(appID: string, certID: string, input: Option<CertInput>)
    : Result<Option<C.Certificate>, AppError>
  {
    if input.None? || input.value.certType == "" || input.value.certType == "NONE" then Ok(None)
    else if input.value.certType == "JWKS" then
      if input.value.value == "" then Err(InvalidCertificateValue)
      else Ok(Some(C.Certificate(certID, C.APPLICATION, appID, "JWKS", input.value.value)))
    else if input.value.certType == "JWKS_URI" then
      if !input.value.uriValid then Err(InvalidJWKSURI)
      else Ok(Some(C.Certificate(certID, C.APPLICATION, appID, "JWKS_URI", input.value.value)))
    else Err(InvalidCertificateType)
  }

  /** A request is for a certificate unless its type is missing, empty or NONE. */
  predicate AsksForCertificate(input: Option<CertInput>) {
    input.Some? && input.value.certType != "" && input.value.certType != "NONE"
  }

  /** A request is refused exactly when it asks for something other than a non-empty JWKS or a JWKS_URI with a valid
      URI; what it asks for is bound to the application under its own type and value. */
  lemma RequestedCertificateIs(appID: string, certID: string, input: Option<CertInput>)
    ensures var cert := RequestedCertificate(appID, certID, input);
            && (cert.Ok? <==>
                  || input.None? || input.value.certType == "" || input.value.certType == "NONE"
                  || (input.value.certType == "JWKS" && input.value.value != "")
                  || (input.value.certType == "JWKS_URI" && input.value.uriValid))
            && (cert.Ok? ==> (cert.value.Some? <==> AsksForCertificate(input)))
            && (cert.Ok? && cert.value.Some? ==>
                  cert.value.value == C.Certificate(certID, "APPLICATION", appID, input.value.certType,
                                                    input.value.value))
    ensures var cert := RequestedCertificate(appID, certID, input);
            cert.Err? ==>
              match input.value.certType
              case "JWKS" => cert.error == InvalidCertificateValue
              case "JWKS_URI" => cert.error == InvalidJWKSURI
              case _ => cert.error == InvalidCertificateType
  {
  }

  /** The application is bound to the certificate asked for, by the request's own type and value, and no other binding
      has changed. */
  ghost predicate BoundAsAsked(before: C.CertTable, after: C.CertTable, appID: string, input: CertInput) {
    C.Bindings(after) == (set b | b in C.Bindings(before) && !(b.refType == "APPLICATION" && b.refID == appID)) +
                         {C.Binding("APPLICATION", appID, input.certType, input.value)}
  }

  function RequestedBinding(appID: string, input: Option<CertInput>): Option<C.Binding> {
    var cert := RequestedCertificate(appID, "", input);
    if cert.Ok? && cert.value.Some? then Some(C.BindingOf(cert.value.value)) else None
  }

  lemma RequestedBindingIs(appID: string, input: Option<CertInput>)
    requires RequestedCertificate(appID, "", input).Ok?
    ensures RequestedBinding(appID, input) ==
            if AsksForCertificate(input)
            then Some(C.Binding("APPLICATION", appID, input.value.certType, input.value.value)) else None
  {
    RequestedCertificateIs(appID, "", input);
  }

  function MapCertError(error: C.CertError): AppError {
    if C.IsClientError(error) then CertificateClientError else CertificateServerError
  }

  predicate IsCertificateError(error: AppError) {
    error.InvalidCertificateType? || error.InvalidCertificateValue? || error.InvalidJWKSURI? ||
    error.CertificateClientError? || error.CertificateServerError?
  }

  // ---------------------------------------------------------------- what is checked before writing

  /** The name of a request is free, or already the application's own. */
  predicate NameFree(contents: Contents, appID: string, name: string) {
    forall id | id in contents :: UsesName(contents, id, name) ==> id == appID
  }

  predicate ClientIDFree(contents: Contents, appID: string, clientID: string) {
    forall id | id in contents :: UsesClientID(contents, id, clientID) ==> id == appID
  }

  /** An error that names a conflict or a missing application is true of the stored applications. */
  ghost predicate Truthful(contents: Contents, appID: string, app: App, error: AppError) {
    && (error.InvalidApplicationID? ==> appID == "")
    && (error.InvalidApplicationName? ==> app.name == "")
    && (error.ApplicationNotFound? ==> appID !in contents)
    && (error.NameExists? ==> !NameFree(contents, appID, app.name))
    && (error.ClientIDExists? ==>
          && app.inbound.Some? && !ClientIDFree(contents, appID, app.inbound.value.clientID)
          && NameFree(contents, appID, app.name))
  }

  /** The same for a create, where the application has no row of its own yet. */
  ghost predicate RefusedTruthfully(contents: Contents, app: App, error: AppError) {
    && !error.InvalidApplicationID? && !error.ApplicationNotFound?
    && (error.InvalidApplicationName? ==> app.name == "")
    && (error.NameExists? ==> NameTaken(contents, app.name))
    && (error.ClientIDExists? ==>
          && app.inbound.Some? && ClientIDTaken(contents, app.inbound.value.clientID)
          && !NameTaken(contents, app.name))
  }

  /** An error that blames the certificate asked for is right about it. */
  predicate CertificateReasonHolds(input: Option<CertInput>, error: AppError) {
    && (error.InvalidCertificateType? || error.InvalidCertificateValue? || error.InvalidJWKSURI? ==>
          AsksForCertificate(input))
    && (error.InvalidCertificateType? ==> input.value.certType != "JWKS" && input.value.certType != "JWKS_URI")
    && (error.InvalidCertificateValue? ==> input.value.certType == "JWKS" && input.value.value == "")
    && (error.InvalidJWKSURI? ==> input.value.certType == "JWKS_URI" && !input.value.uriValid)
  }

  /** An error that blames the request is right about it. */
  predicate ReasonHolds(request: Request, error: AppError) {
    && CertificateReasonHolds(request.certificate, error)
    && (error.ValidationFailed? ==>
          || request.otherError == Some(error.reason)
          || (request.app.inbound.Some? && request.oauthError == Some(error.reason)))
  }

  lemma RequestErrorHolds(request: Request, error: AppError)
    requires !error.InvalidCertificateType? && !error.InvalidCertificateValue? && !error.InvalidJWKSURI?
    requires error.ValidationFailed? ==>
               || request.otherError == Some(error.reason)
               || (request.app.inbound.Some? && request.oauthError == Some(error.reason))
    ensures ReasonHolds(request, error)
  {
  }

  lemma CertificateErrorHolds(request: Request, error: AppError)
    requires CertificateReasonHolds(request.certificate, error) && !error.ValidationFailed?
    ensures ReasonHolds(request, error)
  {
  }

  lemma CertificateErrorsAreTruthful(contents: Contents, appID: string, app: App, error: AppError)
    requires IsCertificateError(error) || error.InternalServerError?
    ensures Truthful(contents, appID, app, error) && RefusedTruthfully(contents, app, error)
  {
  }

  lemma StoreErrorsAreTrue(contents: Contents, appID: string, request: Request, error: AppError)
    requires error.CertificateClientError? || error.CertificateServerError? || error.InternalServerError?
    ensures Truthful(contents, appID, request.app, error) && RefusedTruthfully(contents, request.app, error)
    ensures ReasonHolds(request, error)
  {
  }

  /** The client ID of a request may be used; an empty one is replaced by a generated one. */
  predicate MayUseClientID(request: Request, free: bool) {
    request.app.inbound.Some? ==> request.oauthError.None? && (request.app.inbound.value.clientID == "" || free)
  }

  /** Every field is the request's, but for the application's ID, its copy in the OAuth configuration, and a client ID
      that the request left open. */
  predicate StoredAsAsked(asked: App, stored: App, generatedClientID: string) {
    && stored.name == asked.name && stored.description == asked.description && stored.authFlow == asked.authFlow
    && stored.registrationFlow == asked.registrationFlow && stored.registrationEnabled == asked.registrationEnabled
    && stored.brandingID == asked.brandingID && stored.template == asked.template && stored.url == asked.url
    && stored.logoURL == asked.logoURL && stored.tosURI == asked.tosURI && stored.policyURI == asked.policyURI
    && stored.contacts == asked.contacts && stored.allowedUserTypes == asked.allowedUserTypes
    && stored.token == asked.token && (stored.inbound.Some? <==> asked.inbound.Some?)
    && (asked.inbound.Some? ==>
          var wanted, got := asked.inbound.value, stored.inbound.value;
          && got.appID == stored.id
          && got.clientID == (if wanted.clientID == "" then generatedClientID else wanted.clientID)
          && got.hashedSecret == wanted.hashedSecret && got.redirectURIs == wanted.redirectURIs
          && got.grantTypes == wanted.grantTypes && got.responseTypes == wanted.responseTypes
          && got.authMethod == wanted.authMethod && got.pkceRequired == wanted.pkceRequired
          && got.publicClient == wanted.publicClient && got.token == wanted.token && got.scopes == wanted.scopes)
  }

  function WantedClientID(app: App): string {
    if app.inbound.Some? then app.inbound.value.clientID else ""
  }

  /** What a create asks of the stored applications and of the request. */
  ghost predicate CreateAllowed(contents: Contents, request: Request) {
    && request.app.name != "" && !NameTaken(contents, request.app.name)
    && MayUseClientID(request, !ClientIDTaken(contents, WantedClientID(request.app)))
    && request.otherError.None?
  }

  ghost predicate UpdateAllowed(contents: Contents, appID: string, request: Request) {
    && appID != "" && appID in contents && request.app.name != "" && NameFree(contents, appID, request.app.name)
    && MayUseClientID(request, ClientIDFree(contents, appID, WantedClientID(request.app)))
    && request.otherError.None?
  }

  /** The requested certificate is none, or a valid one that can be stored. */
  ghost predicate CertificateAllowed(rows: C.CertTable, appID: string, input: Option<CertInput>, generatedID: string,
                                     mayReplace: bool) {
    var wanted := RequestedCertificate(appID, "", input);
    wanted.Ok? && (wanted.value.Some? ==>
                     && C.CreationError(wanted.value.value).None?
                     && if C.ReferenceTaken(rows, C.APPLICATION, appID) then mayReplace else generatedID !in rows)
  }

  /** The two applications share neither the name nor the client ID. */
  predicate Apart(a: App, b: App) {
    && a.name != b.name
    && (a.inbound.Some? && b.inbound.Some? ==> a.inbound.value.clientID != b.inbound.value.clientID)
  }

  predicate ProperCertificate(input: CertInput) {
    && (input.certType == "JWKS" || (input.certType == "JWKS_URI" && input.uriValid))
    && 10 <= |input.value| <= 4096
  }

  /** No certificate is bound to the application. */
  predicate Uncertified(rows: C.CertTable, appID: string) {
    forall id | id in rows :: !(rows[id].refType == "APPLICATION" && rows[id].refID == appID)
  }

  lemma CreateAllowedIff(contents: Contents, request: Request)
    requires ContentsValid(contents)
    ensures CreateAllowed(contents, request) <==>
            && request.app.name != "" && request.otherError.None?
            && (request.app.inbound.Some? ==> request.oauthError.None?)
            && (forall id | id in contents :: Apart(request.app, contents[id]))
  {
    forall id | id in contents ensures WellFormed(contents[id]) {
    }
    assert forall id | id in contents :: Apart(request.app, contents[id]) <==>
             !UsesName(contents, id, request.app.name) &&
             (request.app.inbound.Some? ==> !UsesClientID(contents, id, WantedClientID(request.app)));
  }

  lemma UpdateAllowedIff(contents: Contents, appID: string, request: Request)
    requires ContentsValid(contents)
    ensures UpdateAllowed(contents, appID, request) <==>
            && appID != "" && appID in contents
            && request.app.name != "" && request.otherError.None?
            && (request.app.inbound.Some? ==> request.oauthError.None?)
            && (forall id | id in contents && id != appID :: Apart(request.app, contents[id]))
  {
    forall id | id in contents ensures WellFormed(contents[id]) {
    }
    assert forall id | id in contents :: Apart(request.app, contents[id]) <==>
             !UsesName(contents, id, request.app.name) &&
             (request.app.inbound.Some? ==> !UsesClientID(contents, id, WantedClientID(request.app)));
  }

  lemma CertificateAllowedIff(rows: C.CertTable, appID: string, input: Option<CertInput>, generatedID: string,
                              mayReplace: bool)
    requires appID != ""
    ensures CertificateAllowed(rows, appID, input, generatedID, mayReplace) <==>
            (AsksForCertificate(input) ==>
               && ProperCertificate(input.value)
               && if Uncertified(rows, appID) then generatedID !in rows else mayReplace)
  {
    assert Uncertified(rows, appID) <==> !C.ReferenceTaken(rows, C.APPLICATION, appID) by {
      assert forall id | id in rows ::
          C.HasReference(rows[id], C.APPLICATION, appID) <==>
          rows[id].refType == "APPLICATION" && rows[id].refID == appID;
    }
  }

  /** Whether a certificate asked for can be created, in terms of the request. */
  lemma CreatableIff(rows: C.CertTable, appID: string, input: Option<CertInput>)
    requires appID != "" && AsksForCertificate(input) && RequestedCertificate(appID, "", input).Ok?
    ensures var cert := RequestedCertificate(appID, "", input).value.value;
            C.CreationError(cert).None? <==> ProperCertificate(input.value)
    ensures C.ReferenceTaken(rows, "APPLICATION", appID) <==> !Uncertified(rows, appID)
  {
    assert forall id | id in rows ::
        C.HasReference(rows[id], C.APPLICATION, appID) <==>
          rows[id].refType == "APPLICATION" && rows[id].refID == appID;
  }

  /** The certificate ID plays no part in what is asked for nor in whether it is valid. */
  lemma RequestIgnoresID(appID: string, certID: string, input: Option<CertInput>)
    ensures var plain, named := RequestedCertificate(appID, "", input), RequestedCertificate(appID, certID, input);
            && (plain.Ok? <==> named.Ok?)
            && (plain.Ok? ==> (plain.value.Some? <==> named.value.Some?))
            && (plain.Ok? && plain.value.Some? ==>
                  && named.value.value == plain.value.value.(id := certID)
                  && C.CreationError(named.value.value) == C.CreationError(plain.value.value)
                  && (certID != "" ==> C.ValidationError(named.value.value) == C.CreationError(plain.value.value)))
  {
  }

  lemma StoredIDIsProper(rows: C.CertTable, cert: C.Certificate)
    requires C.TableValid(rows) && cert.id in rows
    ensures cert.id != ""
  {
    assert rows[cert.id].id == cert.id && C.ValidationError(rows[cert.id]).None?;
  }

  /** With the name and the client ID checked, the processed application may be written. */
  lemma CheckedMayWrite(contents: Contents, app: App, appID: string, clientID: string)
    requires appID != "" && app.name != "" && Int64Periods(app)
    requires NameFree(contents, appID, app.name)
    requires app.inbound.Some? ==> clientID != "" && ClientIDFree(contents, appID, clientID)
    ensures MayWrite(contents, Processed(app, appID, clientID))
  {
  }

  lemma ProcessedAsAsked(app: App, appID: string, clientID: string, generatedClientID: string)
    requires app.inbound.Some? ==>
               clientID == if WantedClientID(app) == "" then generatedClientID else WantedClientID(app)
    ensures StoredAsAsked(app, Processed(app, appID, clientID), generatedClientID)
  {
  }

  /** The state of the certificate table once the update's certificate step has been done: the four cases
      of old and new certificate present or absent. */
  ghost predicate CertStepDone(before: C.CertTable, after: C.CertTable, appID: string,
                               existing: Option<C.Certificate>, updated: Option<C.Certificate>) {
    && C.IsLookupByReference(before, C.APPLICATION, appID, existing)
    && (updated.Some? ==> C.HasReference(updated.value, C.APPLICATION, appID))
    && if updated.Some? then
         if existing.Some? then
           updated.value.id == existing.value.id && after == before[existing.value.id := updated.value]
         else updated.value.id !in before && after == before[updated.value.id := updated.value]
       else after == C.WithoutReference(before, C.APPLICATION, appID)
  }

  /** Done, the step has bound the application to the requested certificate and touched no other. */
  lemma CertStepRebinds(before: C.CertTable, after: C.CertTable, appID: string,
                        existing: Option<C.Certificate>, updated: Option<C.Certificate>)
    requires C.TableValid(before) && CertStepDone(before, after, appID, existing, updated)
    ensures C.Rebound(before, after, C.APPLICATION, appID,
                      if updated.Some? then Some(C.BindingOf(updated.value)) else None)
  {
    if updated.Some? {
      if existing.Some? {
        C.UpdateRebinds(before, existing.value, updated.value);
      } else {
        C.CreateRebinds(before, updated.value);
      }
    } else {
      C.DeleteRebinds(before, C.APPLICATION, appID);
    }
  }

  lemma StepBindsAsAsked(before: C.CertTable, after: C.CertTable, appID: string, input: Option<CertInput>,
                         existing: Option<C.Certificate>, updated: Option<C.Certificate>)
    requires C.TableValid(before) && CertStepDone(before, after, appID, existing, updated)
    requires RequestedBinding(appID, input) == if updated.Some? then Some(C.BindingOf(updated.value)) else None
    requires RequestedCertificate(appID, "", input).Ok?
    ensures if AsksForCertificate(input) then BoundAsAsked(before, after, appID, input.value)
            else C.Bindings(after) ==
                 set b | b in C.Bindings(before) && !(b.refType == "APPLICATION" && b.refID == appID)
  {
    CertStepRebinds(before, after, appID, existing, updated);
    RequestedBindingIs(appID, input);
  }

  /** The table after the undo of a certificate step. The step was made for the ID in the request; the undo of a created
      certificate deletes by the ID in the path. */
  ghost function Undone(rows: C.CertTable, appID: string, existing: Option<C.Certificate>,
                        updated: Option<C.Certificate>, undoID: string): C.CertTable
  {
    if updated.Some? then
      if existing.Some? then rows[existing.value.id := existing.value]
      else C.WithoutReference(rows, C.APPLICATION, appID)
    else if existing.Some? then rows[undoID := existing.value.(id := undoID)]
    else rows
  }

  /** The undo restores every binding if and only if the two IDs agree or the step did not create a certificate. */
  lemma UndoRestoresIff(before: C.CertTable, after: C.CertTable, requestID: string, appID: string,
                        existing: Option<C.Certificate>, updated: Option<C.Certificate>, undoID: string)
    requires C.TableValid(before) && CertStepDone(before, after, requestID, existing, updated)
    requires updated.None? && existing.Some? ==> undoID !in after
    ensures C.Bindings(Undone(after, appID, existing, updated, undoID)) == C.Bindings(before)
            <==> requestID == appID || existing.Some? || updated.None?
    ensures (requestID == appID && updated.Some?) || (existing.Some? <==> updated.Some?) ==>
              Undone(after, appID, existing, updated, undoID) == before
  {
    if updated.Some? && existing.Some? {
      C.UpdateRebinds(before, existing.value, updated.value);
    } else if updated.Some? {
      C.CreateRebinds(before, updated.value);
      if requestID != appID {
        var undone := Undone(after, appID, existing, updated, undoID);
        assert updated.value.id in undone && undone[updated.value.id] == updated.value;
        assert C.BindingOf(updated.value) in C.Bindings(undone);
        NotBound(before, requestID, C.BindingOf(updated.value));
      }
    } else if existing.Some? {
      C.RecreateRestoresBindings(before, existing.value, undoID);
    } else {
      C.DeleteByReferenceRemovesLookup(before, C.APPLICATION, requestID, None);
    }
  }

  /** What an undo leaves that was sent to the wrong place: the requested certificate, and none for the path's ID. */
  ghost predicate UndoneElsewhere(before: C.CertTable, after: C.CertTable, requestID: string, appID: string,
                                  wanted: Option<C.Binding>)
  {
    exists step: C.CertTable ::
      && C.Rebound(before, step, C.APPLICATION, requestID, wanted)
      && after == C.WithoutReference(step, C.APPLICATION, appID)
  }

  lemma StepFindsExisting(before: C.CertTable, after: C.CertTable, appID: string,
                          existing: Option<C.Certificate>, updated: Option<C.Certificate>)
    requires CertStepDone(before, after, appID, existing, updated)
    ensures existing.Some? <==> C.ReferenceTaken(before, C.APPLICATION, appID)
  {
  }

  lemma NotBound(rows: C.CertTable, appID: string, binding: C.Binding)
    requires !C.ReferenceTaken(rows, C.APPLICATION, appID)
    requires binding.refType == C.APPLICATION && binding.refID == appID
    ensures binding !in C.Bindings(rows)
  {
    forall id | id in rows ensures C.BindingOf(rows[id]) != binding {
      assert C.HasReference(rows[id], C.APPLICATION, appID) <==>
             C.BindingOf(rows[id]).refType == C.APPLICATION && C.BindingOf(rows[id]).refID == appID;
    }
  }

  /** With different IDs the undo of a created certificate keeps it and deletes another application's instead. */
  lemma MisdirectedUndo()
    ensures var own := C.Certificate("1", C.APPLICATION, "path", "JWKS", "0123456789");
            var created := C.Certificate("2", C.APPLICATION, "body", "JWKS", "9876543210");
            var before, after := map["1" := own], map["1" := own, "2" := created];
            && C.TableValid(before) && CertStepDone(before, after, "body", None, Some(created))
            && Undone(after, "path", None, Some(created), "3") == map["2" := created]
  {
    var own := C.Certificate("1", C.APPLICATION, "path", "JWKS", "0123456789");
    C.NewRowKeepsValid(map[], C.CertCache(map[], map[]), own);
  }

  // ---------------------------------------------------------------- deleting an application

  /** Which of the two stores refuses a statement of the call. */
  datatype Refusals = Refusals(application: bool, certificate: bool)

  datatype Deleted = Deleted(contents: Contents, rows: C.CertTable, error: Option<AppError>)

  /** Deletes the application and then its certificate; nothing undoes the first step when the second fails. */
  function DeleteStep(contents: Contents, rows: C.CertTable, appID: string, refused: Refusals): Deleted {
    if appID == "" then Deleted(contents, rows, Some(InvalidApplicationID))
    else if refused.application then Deleted(contents, rows, Some(InternalServerError))
    else if refused.certificate then Deleted(contents - {appID}, rows, Some(CertificateServerError))
    else Deleted(contents - {appID}, C.WithoutReference(rows, C.APPLICATION, appID), None)
  }

  /** A delete makes the certificate outlive its application exactly when the application's delete was taken, the
      certificate's was refused, and a certificate was bound. */
  lemma DeleteLeavesOrphanIff(contents: Contents, rows: C.CertTable, appID: string, refused: Refusals)
    requires ContentsValid(contents) && C.TableValid(rows)
    ensures var deleted := DeleteStep(contents, rows, appID, refused);
            appID in contents ==>
              (appID !in deleted.contents && C.ReferenceTaken(deleted.rows, C.APPLICATION, appID) <==>
               !refused.application && refused.certificate && C.ReferenceTaken(rows, C.APPLICATION, appID))
    ensures var deleted := DeleteStep(contents, rows, appID, refused);
            appID !in contents ==>
              (C.ReferenceTaken(deleted.rows, C.APPLICATION, appID) <==>
               (refused.application || refused.certificate) && C.ReferenceTaken(rows, C.APPLICATION, appID))
  {
    assert appID in contents ==> WellFormed(contents[appID]);
    assert !C.ReferenceTaken(rows, C.APPLICATION, "") by {
      forall id | id in rows ensures !C.HasReference(rows[id], C.APPLICATION, "") {
        assert C.ValidationError(rows[id]).None?;
      }
    }
  }

  /** Such a state, and the orphan a refused certificate delete leaves in it. */
  lemma DeleteLeavesOrphan()
    ensures var app := App("a", "n", "", "", "", false, "", "", "", "", "", "", None, None, None, None);
            var cert := C.Certificate("1", C.APPLICATION, "a", "JWKS", "0123456789");
            var deleted := DeleteStep(map["a" := app], map["1" := cert], "a", Refusals(false, true));
            && ContentsValid(map["a" := app]) && C.TableValid(map["1" := cert])
            && deleted == Deleted(map[], map["1" := cert], Some(CertificateServerError))
            && C.ReferenceTaken(deleted.rows, C.APPLICATION, "a")
  {
    var app := App("a", "n", "", "", "", false, "", "", "", "", "", "", None, None, None, None);
    var cert := C.Certificate("1", C.APPLICATION, "a", "JWKS", "0123456789");
    C.NewRowKeepsValid(map[], C.CertCache(map[], map[]), cert);
    WriteKeepsContentsValid(map[], app);
    assert map["a" := app] - {"a"} == map[];
    assert C.HasReference(map["1" := cert]["1"], C.APPLICATION, "a");
  }

  /** A new row with the certificate asked for binds the application to it. Without one a create does not look at the
      table, so a certificate left behind under that ID stays. */
  lemma NewRowBinds(before: C.CertTable, certID: string, appID: string, input: CertInput)
    requires certID !in before && !C.ReferenceTaken(before, C.APPLICATION, appID)
    ensures var cert := C.Certificate(certID, "APPLICATION", appID, input.certType, input.value);
            BoundAsAsked(before, before[certID := cert], appID, input)
  {
    C.CreateRebinds(before, C.Certificate(certID, "APPLICATION", appID, input.certType, input.value));
  }

  // ---------------------------------------------------------------- the service

  class ApplicationService {
    const apps: CachedApplicationStore
    const certs: CS.CertificateService

    /** Joint invariant: unique names and client IDs, caches that agree with the tables, valid and unique
        certificates, and certificate caches that agree with theirs. */
    ghost predicate Valid()
      reads this, apps, apps.store, certs, certs.store
    {
      apps.Valid() && certs.store.Valid()
    }

    constructor (reliable: bool)
      ensures Valid() && apps.store.contents == map[] && certs.store.rows == map[]
      ensures apps.store.reliable == certs.store.reliable == reliable
    {
      apps := new CachedApplicationStore(reliable);
      certs := new CS.CertificateService(reliable);
    }

    /** The client ID an OAuth request gets: generated when empty, kept when it is the application's own,
        and otherwise required to be unused, as seen through the client-ID cache. */
    method ProcessInboundAuthConfig(app: App, oauthError: Option<string>, existing: Option<App>, appID: string,
                                    generatedClientID: string)
      returns (error: Option<AppError>, clientID: string)
      requires Valid()
      requires generatedClientID != "" && !ClientIDTaken(apps.store.contents, generatedClientID)
      requires existing.Some? ==> appID in apps.store.contents && SameApp(existing.value, apps.store.contents[appID])
      modifies apps`caches
      ensures Valid()
      ensures error.None? && app.inbound.Some? ==>
                && clientID == (if WantedClientID(app) == "" then generatedClientID else WantedClientID(app))
                && clientID != "" && ClientIDFree(apps.store.contents, appID, clientID)
      ensures error.None? && existing.None? && app.inbound.Some? ==> !ClientIDTaken(apps.store.contents, clientID)
      ensures error.Some? ==>
                error.value.ValidationFailed? || error.value.ClientIDExists? || error.value.InternalServerError?
      ensures error.Some? && error.value.ValidationFailed? ==>
                app.inbound.Some? && oauthError == Some(error.value.reason)
      ensures error == Some(ClientIDExists) ==> app.inbound.Some?
      ensures error == Some(ClientIDExists) ==>
                if existing.Some? then !ClientIDFree(apps.store.contents, appID, app.inbound.value.clientID)
                else ClientIDTaken(apps.store.contents, app.inbound.value.clientID)
      ensures apps.store.reliable && app.inbound.Some? ==>
                var wanted := app.inbound.value.clientID;
                var free := if existing.Some? then ClientIDFree(apps.store.contents, appID, wanted)
                            else !ClientIDTaken(apps.store.contents, wanted);
                error.None? <==> oauthError.None? && (wanted == "" || free)
      ensures app.inbound.None? ==> error.None?
    {
      hide Represents, ApplicationCaches.Coherent, Normal, NormalOAuth, AppsAgree, OAuthAgree;
      clientID := "";
      error := None;
      if app.inbound.None? {
        return;
      }
      if oauthError.Some? {
        return Some(ValidationFailed(oauthError.value)), "";
      }
      clientID := app.inbound.value.clientID;
      if clientID == "" {
        return None, generatedClientID;
      }
      if existing.Some? {
        SameAppSameKeys(existing.value, apps.store.contents[appID]);
      }
      hide SameApp;
      if existing.Some? && existing.value.inbound.Some? && clientID == existing.value.inbound.value.clientID {
        assert UsesClientID(apps.store.contents, appID, clientID);
        return;
      }
      var owner := apps.GetOAuthApplication(clientID);
      match owner
      case Ok(_) => error := Some(ClientIDExists);
      case Err(StatementFailed) => error := Some(InternalServerError);
      case Err(RowNotFound) =>
    }

    /** The name check, as seen through the name cache. */
    method CheckName(name: string) returns (error: Option<AppError>)
      requires Valid()
      modifies apps`caches
      ensures Valid()
      ensures error.None? ==> !NameTaken(apps.store.contents, name)
      ensures error.Some? ==>
                || error == Some(InternalServerError)
                || (error == Some(NameExists) && NameTaken(apps.store.contents, name))
      ensures apps.store.reliable ==> error != Some(InternalServerError)
    {
      var owner := apps.GetApplicationByName(name);
      match owner
      case Ok(_) => error := Some(NameExists);
      case Err(StatementFailed) => error := Some(InternalServerError);
      case Err(RowNotFound) => error := None;
    }

    /** The checks of a create, and the application to store if they pass. */
    method ValidateApplication(request: Request, generatedAppID: string, generatedClientID: string)
      returns (error: Option<AppError>, processed: App)
      requires Valid() && Int64Periods(request.app) && generatedAppID != ""
      requires generatedClientID != "" && !ClientIDTaken(apps.store.contents, generatedClientID)
      modifies apps`caches
      ensures Valid()
      ensures error.None? ==>
                && processed == Processed(request.app, if request.app.id == "" then generatedAppID else request.app.id,
                                          ClientIDOf(processed))
                && processed.id != ""
                && MayWrite(apps.store.contents, processed)
                && StoredAsAsked(request.app, processed, generatedClientID)
      ensures error.None? ==> !NameTaken(apps.store.contents, request.app.name)
      ensures error.None? && processed.inbound.Some? ==> !ClientIDTaken(apps.store.contents, ClientIDOf(processed))
      ensures error.Some? ==> RefusedTruthfully(apps.store.contents, request.app, error.value)
      ensures error.Some? ==> ReasonHolds(request, error.value) && !IsCertificateError(error.value)
      ensures apps.store.reliable ==> (error.None? <==> CreateAllowed(apps.store.contents, request))
    {
      hide Represents, ContentsValid, ApplicationCaches.Coherent, Normal, NormalOAuth, SameApp, StoredAsAsked;
      hide ReasonHolds;
      processed := request.app;
      var app := request.app;
      if app.name == "" {
        RequestErrorHolds(request, InvalidApplicationName);
        return Some(InvalidApplicationName), app;
      }
      error := CheckName(app.name);
      if error.Some? {
        RequestErrorHolds(request, error.value);
        return;
      }
      var clientID;
      var appID := if app.id == "" then generatedAppID else app.id;
      error, clientID := ProcessInboundAuthConfig(app, request.oauthError, None, appID, generatedClientID);
      if error.Some? {
        RequestErrorHolds(request, error.value);
        return;
      }
      if request.otherError.Some? {
        RequestErrorHolds(request, ValidationFailed(request.otherError.value));
        return Some(ValidationFailed(request.otherError.value)), app;
      }
      CheckedMayWrite(apps.store.contents, app, appID, clientID);
      ProcessedAsAsked(app, appID, clientID, generatedClientID);
      processed := Processed(app, appID, clientID);
    }

    /** Stores the certificate, if there is one. */
    method CreateApplicationCertificate(cert: Option<C.Certificate>, generatedCertID: string)
      returns (error: Option<AppError>)
      requires Valid() && generatedCertID != ""
      modifies certs.store
      ensures Valid()
      ensures cert.None? ==> error.None?
      ensures error.None? && cert.Some? ==>
                && generatedCertID !in old(certs.store.rows)
                && !C.ReferenceTaken(old(certs.store.rows), cert.value.refType, cert.value.refID)
                && certs.store.rows == old(certs.store.rows)[generatedCertID := cert.value.(id := generatedCertID)]
      ensures error.Some? || cert.None? ==> certs.store.rows == old(certs.store.rows)
      ensures error.Some? ==> error.value.CertificateClientError? || error.value.CertificateServerError?
      ensures error == Some(CertificateClientError) ==>
                || C.CreationError(cert.value).Some?
                || C.ReferenceTaken(old(certs.store.rows), cert.value.refType, cert.value.refID)
      ensures error == Some(CertificateServerError) ==>
                !certs.store.reliable || generatedCertID in old(certs.store.rows)
      ensures certs.store.reliable && cert.Some? ==>
                (error.None? <==>
                   && C.CreationError(cert.value).None? && generatedCertID !in old(certs.store.rows)
                   && !C.ReferenceTaken(old(certs.store.rows), cert.value.refType, cert.value.refID))
    {
      error := None;
      if cert.None? {
        return;
      }
      C.CreationErrorIff(cert.value);
      hide Represents, ContentsValid, ApplicationCaches.Coherent, C.TableValid, C.Coherent, C.CreationError;
      hide C.ReferenceTaken;
      var certError := certs.CreateCertificate(cert.value, generatedCertID);
      error := if certError.Some? then Some(MapCertError(certError.value)) else None;
    }

    /** Deletes the certificate of an application that could not be stored. */
    method RollbackAppCertificateCreation(appID: string) returns (error: Option<AppError>)
      requires Valid() && appID != ""
      modifies certs.store
      ensures Valid()
      ensures certs.store.rows == if error.None? then C.WithoutReference(old(certs.store.rows), C.APPLICATION, appID)
                                  else old(certs.store.rows)
      ensures error.Some? ==> error == Some(CertificateServerError) && !certs.store.reliable
    {
      var refused := MayRefuse();
      var certError := certs.DeleteCertificateByReference(C.APPLICATION, appID, refused);
      error := if certError.Some? then Some(MapCertError(certError.value)) else None;
    }

    /** The writing half of a create: the certificate, then the application, then the undo if that fails. */
    method StoreWithCertificate(app: App, input: Option<CertInput>, generatedCertID: string)
      returns (error: Option<AppError>, undoFailed: bool)
      requires Valid() && app.id != "" && generatedCertID != "" && MayWrite(apps.store.contents, app)
      modifies apps`caches, apps.store, certs.store
      ensures Valid()
      ensures error.None? ==>
                && !undoFailed && app.id !in old(apps.store.contents)
                && apps.store.contents == old(apps.store.contents)[app.id := app]
                && if AsksForCertificate(input)
                   then BoundAsAsked(old(certs.store.rows), certs.store.rows, app.id, input.value)
                   else certs.store.rows == old(certs.store.rows)
      ensures error.Some? ==>
                && apps.store.contents == old(apps.store.contents) && CertificateReasonHolds(input, error.value)
                && (IsCertificateError(error.value) || error.value.InternalServerError?)
      ensures error == Some(CertificateClientError) ==>
                && AsksForCertificate(input)
                && !(ProperCertificate(input.value) && Uncertified(old(certs.store.rows), app.id))
      ensures error == Some(CertificateServerError) ==>
                !certs.store.reliable || generatedCertID in old(certs.store.rows)
      ensures error.Some? && !undoFailed ==> certs.store.rows == old(certs.store.rows)
      ensures undoFailed ==> error == Some(CertificateServerError) && !certs.store.reliable
      ensures undoFailed ==>
                && AsksForCertificate(input)
                && certs.store.rows == old(certs.store.rows)[generatedCertID :=
                     C.Certificate(generatedCertID, "APPLICATION", app.id, input.value.certType, input.value.value)]
      ensures apps.store.reliable && certs.store.reliable ==>
                (error.None? <==>
                   && app.id !in old(apps.store.contents)
                   && (AsksForCertificate(input) ==>
                         && ProperCertificate(input.value) && generatedCertID !in old(certs.store.rows)
                         && Uncertified(old(certs.store.rows), app.id)))
    {
      hide Represents, ContentsValid, ApplicationCaches.Coherent, MayWrite, C.TableValid, C.Coherent, C.CreationError;
      hide BoundAsAsked;
      undoFailed := false;
      CertificateAllowedIff(certs.store.rows, app.id, input, generatedCertID, false);
      RequestedCertificateIs(app.id, "", input);
      var cert := RequestedCertificate(app.id, "", input);
      if cert.Err? {
        return Some(cert.error), false;
      }
      if AsksForCertificate(input) {
        CreatableIff(certs.store.rows, app.id, input);
      }
      hide Uncertified, ProperCertificate, RequestedCertificate, C.ReferenceTaken, AsksForCertificate;
      error := CreateApplicationCertificate(cert.value, generatedCertID);
      if error.Some? {
        return;
      }
      if cert.value.Some? {
        NewRowBinds(old(certs.store.rows), generatedCertID, app.id, input.value);
      }
      var ok := apps.CreateApplication(app);
      if ok {
        return;
      }
      error := Some(InternalServerError);
      if cert.value.Some? {
        var undoError := RollbackAppCertificateCreation(app.id);
        if undoError.Some? {
          error, undoFailed := undoError, true;
        }
      }
    }

    /** On success both stores hold what was asked for. On an error, unless the compensating delete itself
        failed, neither store has changed; and that delete can only fail on a server error. */
    method CreateApplication(request: Request, generatedAppID: string, generatedClientID: string,
                             generatedCertID: string)
      returns (error: Option<AppError>, undoFailed: bool, stored: App)
      requires Valid() && Int64Periods(request.app)
      requires generatedAppID != "" && generatedCertID != ""
      requires generatedClientID != "" && !ClientIDTaken(apps.store.contents, generatedClientID)
      modifies apps`caches, apps.store, certs.store
      ensures Valid()
      ensures error.None? ==>
                && !undoFailed
                && stored.id !in old(apps.store.contents)
                && apps.store.contents == old(apps.store.contents)[stored.id := stored]
                && stored.id == (if request.app.id == "" then generatedAppID else request.app.id)
                && StoredAsAsked(request.app, stored, generatedClientID)
      ensures error.None? ==>
                if AsksForCertificate(request.certificate)
                then BoundAsAsked(old(certs.store.rows), certs.store.rows, stored.id, request.certificate.value)
                else certs.store.rows == old(certs.store.rows)
      ensures error.None? ==>
                && !NameTaken(old(apps.store.contents), stored.name)
                && (stored.inbound.Some? ==> !ClientIDTaken(old(apps.store.contents), ClientIDOf(stored)))
      ensures error.Some? ==> RefusedTruthfully(old(apps.store.contents), request.app, error.value)
      ensures error.Some? ==> ReasonHolds(request, error.value)
      ensures error.Some? ==> apps.store.contents == old(apps.store.contents)
      ensures error == Some(CertificateClientError) ==>
                && AsksForCertificate(request.certificate)
                && !(ProperCertificate(request.certificate.value) && Uncertified(old(certs.store.rows), stored.id))
      ensures error == Some(CertificateServerError) ==>
                !certs.store.reliable || generatedCertID in old(certs.store.rows)
      ensures error.Some? && !undoFailed ==> certs.store.rows == old(certs.store.rows)
      ensures undoFailed ==> error == Some(CertificateServerError) && !certs.store.reliable
      ensures undoFailed ==>
                && AsksForCertificate(request.certificate)
                && certs.store.rows == old(certs.store.rows)[generatedCertID :=
                     C.Certificate(generatedCertID, "APPLICATION", stored.id, request.certificate.value.certType,
                                   request.certificate.value.value)]
      ensures apps.store.reliable && certs.store.reliable ==>
                var appID := if request.app.id == "" then generatedAppID else request.app.id;
                error.None? <==>
                  && request.app.name != "" && request.otherError.None? && appID !in old(apps.store.contents)
                  && (request.app.inbound.Some? ==> request.oauthError.None?)
                  && (forall id | id in old(apps.store.contents) ::
                        Apart(request.app, old(apps.store.contents)[id]))
                  && (AsksForCertificate(request.certificate) ==>
                        && ProperCertificate(request.certificate.value) && generatedCertID !in old(certs.store.rows)
                        && Uncertified(old(certs.store.rows), appID))
    {
      hide Represents, ContentsValid, ApplicationCaches.Coherent, Normal, NormalOAuth, SameApp, MayWrite;
      hide C.TableValid, C.Coherent, RefusedTruthfully, CreateAllowed, BoundAsAsked, StoredAsAsked, Int64Periods;
      CreateAllowedIff(apps.store.contents, request);
      hide Processed, ReasonHolds, Apart, Uncertified, ProperCertificate, AsksForCertificate, CertificateReasonHolds;
      undoFailed := false;
      error, stored := ValidateApplication(request, generatedAppID, generatedClientID);
      if error.Some? {
        return;
      }
      error, undoFailed := StoreWithCertificate(stored, request.certificate, generatedCertID);
      if error.Some? {
        CertificateErrorsAreTruthful(apps.store.contents, stored.id, request.app, error.value);
        CertificateErrorHolds(request, error.value);
      }
    }

    /** Whether the certificate database refuses the next statements. */
    method MayRefuse() returns (refused: bool)
      ensures certs.store.reliable ==> !refused
    {
      refused := *;
      if certs.store.reliable {
        refused := false;
      }
    }

    /** The certificate step of an update: change, create, delete, or nothing. */
    method UpdateApplicationCertificate(appID: string, input: Option<CertInput>, generatedCertID: string)
      returns (error: Option<AppError>, existing: Option<C.Certificate>, updated: Option<C.Certificate>)
      requires Valid() && generatedCertID != ""
      modifies certs.store
      ensures Valid()
      ensures error.Some? ==> certs.store.rows == old(certs.store.rows) && IsCertificateError(error.value)
      ensures error.None? ==> CertStepDone(old(certs.store.rows), certs.store.rows, appID, existing, updated)
      ensures error.None? ==>
                RequestedBinding(appID, input) == if updated.Some? then Some(C.BindingOf(updated.value)) else None
      ensures error.None? ==>
                if AsksForCertificate(input)
                then BoundAsAsked(old(certs.store.rows), certs.store.rows, appID, input.value)
                else C.Bindings(certs.store.rows) ==
                     set b | b in C.Bindings(old(certs.store.rows)) && !(b.refType == "APPLICATION" && b.refID == appID)
      ensures error.Some? ==> CertificateReasonHolds(input, error.value)
      ensures error == Some(CertificateClientError) ==>
                appID == "" || (AsksForCertificate(input) && !ProperCertificate(input.value))
      ensures error == Some(CertificateServerError) ==>
                !certs.store.reliable || generatedCertID in old(certs.store.rows)
      ensures appID == "" ==> error.Some?
      ensures certs.store.reliable && appID != "" ==>
                (error.None? <==> CertificateAllowed(old(certs.store.rows), appID, input, generatedCertID, true))
    {
      hide Represents, ContentsValid, ApplicationCaches.Coherent, Normal, NormalOAuth, MayWrite;
      hide C.TableValid, C.Coherent, C.CreationError, C.ValidationError;
      existing, updated := None, None;
      var found := certs.GetCertificateByReference(C.APPLICATION, appID);
      match found {
        case Ok(cert) => existing := Some(cert);
        case Err(certError) =>
          if certError != C.CertificateNotFound {
            return Some(MapCertError(certError)), None, None;
          }
      }
      if existing.Some? {
        StoredIDIsProper(certs.store.rows, existing.value);
        RequestIgnoresID(appID, existing.value.id, input);
      }
      var wanted := RequestedCertificate(appID, if existing.Some? then existing.value.id else "", input);
      RequestedCertificateIs(appID, if existing.Some? then existing.value.id else "", input);
      if wanted.Err? {
        return Some(wanted.error), None, None;
      }
      if AsksForCertificate(input) && appID != "" {
        CreatableIff(certs.store.rows, appID, input);
      }
      hide ProperCertificate, CertificateReasonHolds, RequestedCertificate, BoundAsAsked;
      updated := wanted.value;
      if updated.Some? {
        C.CreationErrorIff(updated.value);
      }
      var certError: Option<C.CertError> := None;
      if updated.Some? {
        if existing.Some? {
          certError := certs.UpdateCertificateByID(existing.value.id, updated.value);
        } else {
          certError := certs.CreateCertificate(updated.value, generatedCertID);
          updated := Some(updated.value.(id := generatedCertID));
        }
      } else if existing.Some? {
        var refused := MayRefuse();
        certError := certs.DeleteCertificateByReference(C.APPLICATION, appID, refused);
      } else {
        C.DeleteByReferenceRemovesLookup(certs.store.rows, C.APPLICATION, appID, None);
      }
      error := if certError.Some? then Some(MapCertError(certError.value)) else None;
      if error.None? {
        StepBindsAsAsked(old(certs.store.rows), certs.store.rows, appID, input, existing, updated);
      }
    }

    /** Undoes the certificate step that was made for `requestID`. Stored certificates being valid, the undo never fails
        its own validation: only the database can stop it, and then the table stays as the step left it. */
    method RollbackCertificateUpdate(appID: string, existing: Option<C.Certificate>, updated: Option<C.Certificate>,
                                     generatedCertID: string, ghost before: C.CertTable, ghost requestID: string)
      returns (error: Option<AppError>)
      requires Valid() && appID != "" && generatedCertID != "" && C.TableValid(before)
      requires CertStepDone(before, certs.store.rows, requestID, existing, updated)
      modifies certs.store
      ensures Valid()
      ensures error.None? ==>
                certs.store.rows == Undone(old(certs.store.rows), appID, existing, updated, generatedCertID)
      ensures error.None? ==>
                (C.Bindings(certs.store.rows) == C.Bindings(before) <==>
                 requestID == appID || existing.Some? || updated.None?)
      ensures error.None? && existing.Some? ==>
                certs.store.rows ==
                if updated.Some? then before
                else old(certs.store.rows)[generatedCertID := existing.value.(id := generatedCertID)]
      ensures error.None? && updated.Some? && existing.None? ==>
                Uncertified(certs.store.rows, appID) && (requestID == appID ==> certs.store.rows == before)
      ensures error.Some? ==> error == Some(CertificateServerError) && certs.store.rows == old(certs.store.rows)
      ensures certs.store.reliable && generatedCertID !in before ==> error.None?
    {
      var certError: Option<C.CertError> := None;
      if updated.Some? {
        if existing.Some? {
          certError := certs.UpdateCertificateByID(existing.value.id, existing.value);
        } else {
          var refused := MayRefuse();
          certError := certs.DeleteCertificateByReference(C.APPLICATION, appID, refused);
        }
      } else if existing.Some? {
        C.DeleteByReferenceRemovesLookup(before, C.APPLICATION, requestID, existing);
        certError := certs.CreateCertificate(existing.value, generatedCertID);
      }
      error := if certError.Some? then Some(MapCertError(certError.value)) else None;
      if error.None? {
        UndoRestoresIff(before, old(certs.store.rows), requestID, appID, existing, updated, generatedCertID);
      }
    }

    /** The checks of an update against the application found. */
    method CheckChange(existing: App, appID: string, request: Request, generatedClientID: string)
      returns (error: Option<AppError>, clientID: string)
      requires Valid() && Int64Periods(request.app) && appID != "" && request.app.name != ""
      requires appID in apps.store.contents && SameApp(existing, apps.store.contents[appID])
      requires generatedClientID != "" && !ClientIDTaken(apps.store.contents, generatedClientID)
      modifies apps`caches
      ensures Valid()
      ensures error.Some? ==> Truthful(apps.store.contents, appID, request.app, error.value)
      ensures error.Some? ==> ReasonHolds(request, error.value) && !IsCertificateError(error.value)
      ensures error.None? ==>
                && MayWrite(apps.store.contents, Processed(request.app, appID, clientID))
                && StoredAsAsked(request.app, Processed(request.app, appID, clientID), generatedClientID)
      ensures apps.store.reliable ==> (error.None? <==> UpdateAllowed(apps.store.contents, appID, request))
    {
      hide Represents, ApplicationCaches.Coherent, Normal, NormalOAuth, MayWrite, StoredAsAsked, AppsAgree, ReasonHolds;
      var app := request.app;
      clientID := "";
      SameAppSameKeys(existing, apps.store.contents[appID]);
      hide SameApp;
      if existing.name != app.name {
        error := CheckName(app.name);
        if error.Some? {
          RequestErrorHolds(request, error.value);
          return;
        }
      } else {
        assert UsesName(apps.store.contents, appID, app.name);
      }
      error, clientID := ProcessInboundAuthConfig(app, request.oauthError, Some(existing), appID, generatedClientID);
      if error.Some? {
        RequestErrorHolds(request, error.value);
        return;
      }
      if request.otherError.Some? {
        RequestErrorHolds(request, ValidationFailed(request.otherError.value));
        return Some(ValidationFailed(request.otherError.value)), clientID;
      }
      CheckedMayWrite(apps.store.contents, app, appID, clientID);
      ProcessedAsAsked(app, appID, clientID, generatedClientID);
    }

    /** The checks of an update, made against the stored application. */
    method CheckUpdate(appID: string, request: Request, generatedClientID: string)
      returns (error: Option<AppError>, existing: App, clientID: string)
      requires Valid() && Int64Periods(request.app)
      requires generatedClientID != "" && !ClientIDTaken(apps.store.contents, generatedClientID)
      modifies apps`caches
      ensures Valid()
      ensures error.Some? ==> Truthful(apps.store.contents, appID, request.app, error.value)
      ensures error.Some? ==> ReasonHolds(request, error.value) && !IsCertificateError(error.value)
      ensures error.None? ==>
                && appID != "" && appID in apps.store.contents && SameApp(existing, apps.store.contents[appID])
                && MayWrite(apps.store.contents, Processed(request.app, appID, clientID))
                && StoredAsAsked(request.app, Processed(request.app, appID, clientID), generatedClientID)
      ensures apps.store.reliable ==> (error.None? <==> UpdateAllowed(apps.store.contents, appID, request))
    {
      hide Represents, ApplicationCaches.Coherent, MayWrite, SameApp, StoredAsAsked, AppsAgree, Processed, Int64Periods;
      hide ContentsValid;
      existing, clientID := request.app, "";
      if appID == "" {
        return Some(InvalidApplicationID), existing, clientID;
      }
      if request.app.name == "" {
        return Some(InvalidApplicationName), existing, clientID;
      }
      var found := apps.GetApplicationByID(appID);
      match found {
        case Err(RowNotFound) => return Some(ApplicationNotFound), existing, clientID;
        case Err(StatementFailed) => return Some(InternalServerError), existing, clientID;
        case Ok(_) =>
      }
      existing := found.value;
      error, clientID := CheckChange(existing, appID, request, generatedClientID);
    }

    /** As for create. A certificate that was deleted and had to be created again has a new ID; its reference, type and
        value are the old ones. The certificate step goes by the ID in the request. */
    method UpdateApplication(appID: string, request: Request, generatedClientID: string,
                             generatedCertID: string, generatedUndoID: string)
      returns (error: Option<AppError>, undoFailed: bool, stored: App)
      requires Valid() && Int64Periods(request.app)
      requires generatedCertID != "" && generatedUndoID != ""
      requires generatedClientID != "" && !ClientIDTaken(apps.store.contents, generatedClientID)
      modifies apps`caches, apps.store, certs.store
      ensures Valid()
      ensures error.None? ==>
                && !undoFailed
                && appID in old(apps.store.contents)
                && stored == Processed(request.app, appID, ClientIDOf(stored))
                && apps.store.contents == old(apps.store.contents)[appID := stored]
                && C.Rebound(old(certs.store.rows), certs.store.rows, C.APPLICATION, request.app.id,
                             RequestedBinding(request.app.id, request.certificate))
      ensures error.None? ==>
                && stored.id == appID && StoredAsAsked(request.app, stored, generatedClientID)
                && if AsksForCertificate(request.certificate)
                   then BoundAsAsked(old(certs.store.rows), certs.store.rows, request.app.id, request.certificate.value)
                   else C.Bindings(certs.store.rows) ==
                        set b | b in C.Bindings(old(certs.store.rows)) &&
                                !(b.refType == "APPLICATION" && b.refID == request.app.id)
      ensures error.Some? ==> Truthful(old(apps.store.contents), appID, request.app, error.value)
      ensures error.Some? ==> ReasonHolds(request, error.value)
      ensures error == Some(CertificateClientError) ==>
                || request.app.id == ""
                || (AsksForCertificate(request.certificate) && !ProperCertificate(request.certificate.value))
      ensures error == Some(CertificateServerError) ==>
                !certs.store.reliable || generatedCertID in old(certs.store.rows) ||
                generatedUndoID in old(certs.store.rows)
      ensures error.Some? ==> apps.store.contents == old(apps.store.contents)
      ensures error.Some? && !undoFailed &&
              (request.app.id == appID || RequestedBinding(request.app.id, request.certificate).None? ||
               C.ReferenceTaken(old(certs.store.rows), C.APPLICATION, request.app.id)) ==>
                C.Bindings(certs.store.rows) == C.Bindings(old(certs.store.rows))
      ensures error.Some? && !undoFailed ==>
                || C.Bindings(certs.store.rows) == C.Bindings(old(certs.store.rows))
                || UndoneElsewhere(old(certs.store.rows), certs.store.rows, request.app.id, appID,
                                   RequestedBinding(request.app.id, request.certificate))
      ensures undoFailed ==> error == Some(CertificateServerError)
      ensures undoFailed ==>
                C.Rebound(old(certs.store.rows), certs.store.rows, C.APPLICATION, request.app.id,
                          RequestedBinding(request.app.id, request.certificate))
      ensures undoFailed ==> !certs.store.reliable || generatedUndoID in old(certs.store.rows)
      ensures apps.store.reliable && certs.store.reliable ==>
                (error.None? <==>
                   && appID != "" && appID in old(apps.store.contents) && request.app.id != ""
                   && request.app.name != "" && request.otherError.None?
                   && (request.app.inbound.Some? ==> request.oauthError.None?)
                   && (forall id | id in old(apps.store.contents) && id != appID ::
                         Apart(request.app, old(apps.store.contents)[id]))
                   && (AsksForCertificate(request.certificate) ==>
                         && ProperCertificate(request.certificate.value)
                         && (Uncertified(old(certs.store.rows), request.app.id) ==>
                               generatedCertID !in old(certs.store.rows))))
    {
      hide Represents, ApplicationCaches.Coherent, Normal, NormalOAuth, MayWrite, SameApp, ContentsValid, Truthful;
      hide C.Coherent, C.CreationError, C.TableValid, CertStepDone, RequestedCertificate;
      UpdateAllowedIff(apps.store.contents, appID, request);
      if request.app.id != "" {
        CertificateAllowedIff(certs.store.rows, request.app.id, request.certificate, generatedCertID, true);
      }
      hide Apart, Uncertified, ProperCertificate, UpdateAllowed, CertificateAllowed, StoredAsAsked, AsksForCertificate;
      hide BoundAsAsked, ReasonHolds, CertificateReasonHolds, Processed, Int64Periods;
      undoFailed, stored := false, request.app;
      var existing, clientID;
      error, existing, clientID := CheckUpdate(appID, request, generatedClientID);
      if error.Some? {
        return;
      }
      var existingCert, updatedCert;
      error, existingCert, updatedCert :=
        UpdateApplicationCertificate(request.app.id, request.certificate, generatedCertID);
      if error.Some? {
        CertificateErrorsAreTruthful(apps.store.contents, appID, request.app, error.value);
        CertificateErrorHolds(request, error.value);
        return;
      }
      CertStepRebinds(old(certs.store.rows), certs.store.rows, request.app.id, existingCert, updatedCert);
      StepFindsExisting(old(certs.store.rows), certs.store.rows, request.app.id, existingCert, updatedCert);
      var processed := Processed(request.app, appID, clientID);
      stored := processed;
      var ok := apps.UpdateApplication(existing, processed);
      if ok {
        return;
      }
      error := RollbackCertificateUpdate(appID, existingCert, updatedCert, generatedUndoID, old(certs.store.rows),
                                         request.app.id);
      undoFailed := error.Some?;
      error := if undoFailed then error else Some(InternalServerError);
      StoreErrorsAreTrue(apps.store.contents, appID, request, error.value);
    }

    /** Deletes the application and then its certificate. There is no undo here: DeleteLeavesOrphanIff says exactly when
        the certificate outlives the application. */
    method DeleteApplication(appID: string, refused: Refusals) returns (error: Option<AppError>)
      requires Valid()
      modifies apps`caches, apps.store, certs.store
      ensures Valid()
      ensures Deleted(apps.store.contents, certs.store.rows, error)
              == DeleteStep(old(apps.store.contents), old(certs.store.rows), appID, refused)
      ensures error.None? <==> appID != "" && !refused.application && !refused.certificate
      ensures apps.store.contents ==
              if appID != "" && !refused.application then old(apps.store.contents) - {appID}
              else old(apps.store.contents)
      ensures error.None? ==> Uncertified(certs.store.rows, appID)
      ensures error.None? ==> C.Rebound(old(certs.store.rows), certs.store.rows, C.APPLICATION, appID, None)
      ensures error.Some? ==> certs.store.rows == old(certs.store.rows)
    {
      if appID == "" {
        return Some(InvalidApplicationID);
      }
      var ok := apps.DeleteApplication(appID, refused.application);
      if !ok {
        return Some(InternalServerError);
      }
      var certError := certs.DeleteCertificateByReference(C.APPLICATION, appID, refused.certificate);
      if certError.Some? {
        return Some(MapCertError(certError.value));
      }
      C.DeleteRebinds(old(certs.store.rows), C.APPLICATION, appID);
      error := None;
    }
  }
}
