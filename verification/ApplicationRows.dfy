/** Applications, the rows they are stored in, and the codec between the two. Slices and pointers that Go
    keeps apart from their empty values are options here; JSON columns are JSON value trees. */
module ApplicationRows {
  import opened Prelude
  import opened Float64

  type Strings = seq<string>

  // ---------------------------------------------------------------- applications

  datatype TokenConfig = TokenConfig(issuer: string, validityPeriod: int, userAttributes: Option<Strings>)

  datatype AccessToken = AccessToken(validityPeriod: int, userAttributes: Option<Strings>)

  datatype IDToken = IDToken(validityPeriod: int, userAttributes: Option<Strings>,
                             scopeClaims: Option<map<string, Strings>>)

  datatype OAuthToken = OAuthToken(issuer: string, accessToken: Option<AccessToken>, idToken: Option<IDToken>)

  datatype OAuthApp = OAuthApp(
    appID: string, clientID: string, hashedSecret: string, redirectURIs: Option<Strings>,
    grantTypes: Option<Strings>, responseTypes: Option<Strings>, authMethod: string,
    pkceRequired: bool, publicClient: bool, token: Option<OAuthToken>, scopes: Option<Strings>)

  /** The first inbound configuration is the only one the service writes. */
  datatype App = App(
    id: string, name: string, description: string, authFlow: string, registrationFlow: string,
    registrationEnabled: bool, brandingID: string, template: string, url: string, logoURL: string,
    tosURI: string, policyURI: string, contacts: Option<Strings>, allowedUserTypes: Option<Strings>,
    token: Option<TokenConfig>, inbound: Option<OAuthApp>)

  // ---------------------------------------------------------------- rows

  /** The member names of the two JSON columns. */
  datatype Key =
    | KeyUrl | KeyLogoUrl | KeyTosUri | KeyPolicyUri | KeyContacts | KeyTemplate | KeyAllowedUserTypes | KeyToken
    | KeyIssuer | KeyValidityPeriod | KeyUserAttributes | KeyRedirectUris | KeyGrantTypes | KeyResponseTypes
    | KeyTokenEndpointAuthMethod | KeyPkceRequired | KeyPublicClient | KeyScopes | KeyAccessToken | KeyIdToken
    | KeyScopeClaims

  type Object = map<Key, Json>

  datatype Json =
    | JNull | JBool(b: bool) | JNum(n: int) | JStr(s: string) | JArr(items: seq<Json>) | JObj(fields: Object)
    | JDict(entries: map<string, Json>)  // an object with free member names

  datatype AppRow = AppRow(id: string, name: string, description: string, authFlow: string, registrationFlow: string,
                           registrationEnabled: string, brandingID: Option<string>, appJSON: Object)

  datatype OAuthRow = OAuthRow(appID: string, clientID: string, secret: string, config: Object)

  // ---------------------------------------------------------------- JSON values

  function StringsToJson(strings: Strings): Json {
    JArr(seq(|strings|, i requires 0 <= i < |strings| => JStr(strings[i])))
  }

  /** A nil slice is written as null. */
  function SliceToJson(strings: Option<Strings>): Json {
    if strings.Some? then StringsToJson(strings.value) else JNull
  }

  /** Adds a member, unless the value is not there. */
  function Put(fields: Object, key: Key, value: Option<Json>): Object {
    if value.Some? then fields[key := value.value] else fields
  }

  function OptionalString(s: string): Option<Json> {
    if s != "" then Some(JStr(s)) else None
  }

  function OptionalNumber(n: int): Option<Json> {
    if n != 0 then Some(JNum(n)) else None
  }

  function OptionalStrings(strings: Option<Strings>): Option<Json> {
    if NonEmpty(strings).Some? then Some(StringsToJson(strings.value)) else None
  }

  function Field(fields: Object, key: Key): Json {
    if key in fields then fields[key] else JNull
  }

  function NonEmpty(strings: Option<Strings>): Option<Strings> {
    if strings.Some? && strings.value != [] then strings else None
  }

  function OrEmpty(strings: Option<Strings>): Option<Strings> {
    if strings.Some? then strings else Some([])
  }

  /** A []string field of a Go struct read from JSON: null or absent is nil. The outer None is an error. */
  function SliceOf(j: Json): Option<Option<Strings>> {
    match j
    case JNull => Some(None)
    case JArr(items) =>
      if forall i | 0 <= i < |items| :: items[i].JStr?
      then Some(Some(seq(|items|, i requires 0 <= i < |items| => items[i].s))) else None
    case _ => None
  }

  function StringOf(j: Json): Option<string> {
    match j
    case JNull => Some("")
    case JStr(s) => Some(s)
    case _ => None
  }

  function BoolOf(j: Json): Option<bool> {
    match j
    case JNull => Some(false)
    case JBool(b) => Some(b)
    case _ => None
  }

  /** An int64 field of a Go struct: the number is read exactly. */
  function Int64Of(j: Json): Option<int> {
    match j
    case JNull => Some(0)
    case JNum(n) => if MIN_INT64 <= n <= MAX_INT64 then Some(n) else None
    case _ => None
  }

  lemma SliceRoundTrips(strings: Strings)
    ensures SliceOf(StringsToJson(strings)) == Some(Some(strings))
  {
    var items := StringsToJson(strings).items;
    assert seq(|items|, i requires 0 <= i < |items| => items[i].s) == strings;
  }

  // ---------------------------------------------------------------- the application row

  function EncodeToken(token: TokenConfig): Object {
    Put(Put(Put(map[], KeyIssuer, OptionalString(token.issuer)),
            KeyValidityPeriod, OptionalNumber(token.validityPeriod)),
        KeyUserAttributes, OptionalStrings(token.userAttributes))
  }

  function EncodeAppJSON(app: App): Object {
    Put(Put(Put(map[KeyUrl := JStr(app.url), KeyLogoUrl := JStr(app.logoURL), KeyTosUri := JStr(app.tosURI),
                    KeyPolicyUri := JStr(app.policyURI), KeyContacts := SliceToJson(app.contacts)],
                KeyTemplate, OptionalString(app.template)),
            KeyAllowedUserTypes, if app.allowedUserTypes.Some? then Some(SliceToJson(app.allowedUserTypes)) else None),
        KeyToken, if app.token.Some? && EncodeToken(app.token.value) != map[]
                  then Some(JObj(EncodeToken(app.token.value))) else None)
  }

  function EncodeApp(app: App): (row: AppRow)
    ensures row.id == app.id && row.name == app.name
  {
    AppRow(app.id, app.name, app.description, app.authFlow, app.registrationFlow,
           if app.registrationEnabled then "1" else "0",
           if app.brandingID != "" then Some(app.brandingID) else None,
           EncodeAppJSON(app))
  }

  /** Reads the untyped token object: what has the wrong type is skipped, numbers pass through float64. */
  function DecodeToken(j: Json): Option<TokenConfig> {
    match j
    case JObj(fields) =>
      Some(TokenConfig(
             if Field(fields, KeyIssuer).JStr? then Field(fields, KeyIssuer).s else "",
             if Field(fields, KeyValidityPeriod).JNum? then ThroughFloat64(Field(fields, KeyValidityPeriod).n) else 0,
             if Field(fields, KeyUserAttributes).JArr?
             then NonEmpty(Some(OnlyStrings(Field(fields, KeyUserAttributes).items))) else None))
    case _ => None
  }

  function OnlyStrings(items: seq<Json>): Strings {
    if items == [] then []
    else (if items[0].JStr? then [items[0].s] else []) + OnlyStrings(items[1..])
  }

  lemma {:induction false} OnlyStringsOfStrings(strings: Strings)
    ensures OnlyStrings(StringsToJson(strings).items) == strings
  {
    if strings != [] {
      OnlyStringsOfStrings(strings[1..]);
      assert StringsToJson(strings).items[1..] == StringsToJson(strings[1..]).items;
      assert strings == [strings[0]] + strings[1..];
    }
  }

  // ---------------------------------------------------------------- the OAuth row

  function EncodeScopeClaims(claims: map<string, Strings>): Json {
    JDict(map scope | scope in claims :: StringsToJson(claims[scope]))
  }

  function EncodeAccessToken(token: AccessToken): Json {
    JObj(Put(Put(map[], KeyValidityPeriod, OptionalNumber(token.validityPeriod)),
             KeyUserAttributes, OptionalStrings(token.userAttributes)))
  }

  function EncodeIDToken(token: IDToken): Json {
    JObj(Put(Put(Put(map[], KeyValidityPeriod, OptionalNumber(token.validityPeriod)),
                 KeyUserAttributes, OptionalStrings(token.userAttributes)),
             KeyScopeClaims, if token.scopeClaims.Some? && token.scopeClaims.value != map[]
                             then Some(EncodeScopeClaims(token.scopeClaims.value)) else None))
  }

  function EncodeOAuthToken(token: OAuthToken): Json {
    JObj(Put(Put(Put(map[], KeyIssuer, OptionalString(token.issuer)),
                 KeyAccessToken,
                 if token.accessToken.Some? then Some(EncodeAccessToken(token.accessToken.value)) else None),
             KeyIdToken, if token.idToken.Some? then Some(EncodeIDToken(token.idToken.value)) else None))
  }

  function EncodeOAuthConfig(oauth: OAuthApp): Object {
    Put(Put(map[KeyRedirectUris := SliceToJson(oauth.redirectURIs),
                KeyGrantTypes := SliceToJson(OrEmpty(oauth.grantTypes)),
                KeyResponseTypes := SliceToJson(OrEmpty(oauth.responseTypes)),
                KeyTokenEndpointAuthMethod := JStr(oauth.authMethod), KeyPkceRequired := JBool(oauth.pkceRequired),
                KeyPublicClient := JBool(oauth.publicClient)],
            KeyToken, if oauth.token.Some? then Some(EncodeOAuthToken(oauth.token.value)) else None),
        KeyScopes, OptionalStrings(oauth.scopes))
  }

  /** The row is written under the application's ID. */
  function EncodeOAuth(appID: string, oauth: OAuthApp): (row: OAuthRow)
    ensures row.appID == appID && row.clientID == oauth.clientID
  {
    OAuthRow(appID, oauth.clientID, oauth.hashedSecret, EncodeOAuthConfig(oauth))
  }

  predicate IsSliceOfStrings(value: Json) {
    SliceOf(value).Some? && SliceOf(value).value.Some?
  }

  function DecodeScopeClaims(j: Json): Option<Option<map<string, Strings>>> {
    match j
    case JNull => Some(None)
    case JDict(entries) =>
      if forall scope | scope in entries :: IsSliceOfStrings(entries[scope])
      then Some(Some(map scope | scope in entries :: SliceOf(entries[scope]).value.value)) else None
    case _ => None
  }

  function DecodeAccessToken(j: Json): Option<Option<AccessToken>> {
    match j
    case JNull => Some(None)
    case JObj(fields) =>
      var period, attributes := Int64Of(Field(fields, KeyValidityPeriod)), SliceOf(Field(fields, KeyUserAttributes));
      if period.None? || attributes.None? then None
      else Some(Some(AccessToken(period.value, OrEmpty(attributes.value))))
    case _ => None
  }

  function DecodeIDToken(j: Json): Option<Option<IDToken>> {
    match j
    case JNull => Some(None)
    case JObj(fields) =>
      var period, attributes := Int64Of(Field(fields, KeyValidityPeriod)), SliceOf(Field(fields, KeyUserAttributes));
      var claims := DecodeScopeClaims(Field(fields, KeyScopeClaims));
      if period.None? || attributes.None? || claims.None? then None
      else Some(Some(IDToken(period.value, OrEmpty(attributes.value),
                             if claims.value.Some? then claims.value else Some(map[]))))
    case _ => None
  }

  function DecodeOAuthToken(j: Json): Option<Option<OAuthToken>> {
    match j
    case JNull => Some(None)
    case JObj(fields) =>
      var issuer := StringOf(Field(fields, KeyIssuer));
      var access, id := DecodeAccessToken(Field(fields, KeyAccessToken)), DecodeIDToken(Field(fields, KeyIdToken));
      if issuer.None? || access.None? || id.None? then None
      else Some(Some(OAuthToken(issuer.value, access.value, id.value)))
    case _ => None
  }

  /** None is a failure to parse. */
  function DecodeOAuth(row: OAuthRow): Option<OAuthApp> {
    var redirects, grants := SliceOf(Field(row.config, KeyRedirectUris)), SliceOf(Field(row.config, KeyGrantTypes));
    var responses, scopes := SliceOf(Field(row.config, KeyResponseTypes)), SliceOf(Field(row.config, KeyScopes));
    var authMethod := StringOf(Field(row.config, KeyTokenEndpointAuthMethod));
    var pkce, public := BoolOf(Field(row.config, KeyPkceRequired)), BoolOf(Field(row.config, KeyPublicClient));
    var token := DecodeOAuthToken(Field(row.config, KeyToken));
    if redirects.None? || grants.None? || responses.None? || scopes.None? || authMethod.None? ||
       pkce.None? || public.None? || token.None?
    then None
    else Some(OAuthApp(row.appID, row.clientID, row.secret, redirects.value, OrEmpty(grants.value),
                       OrEmpty(responses.value), authMethod.value, pkce.value, public.value, token.value, scopes.value))
  }

  /** Builds an application from its row and the joined OAuth row, if there is one. */
  function DecodeApp(row: AppRow, oauthRow: Option<OAuthRow>): Option<App> {
    var url, logoURL := StringOf(Field(row.appJSON, KeyUrl)), StringOf(Field(row.appJSON, KeyLogoUrl));
    var tosURI, policyURI := StringOf(Field(row.appJSON, KeyTosUri)), StringOf(Field(row.appJSON, KeyPolicyUri));
    var template := StringOf(Field(row.appJSON, KeyTemplate));
    var contacts := SliceOf(Field(row.appJSON, KeyContacts));
    var userTypes := SliceOf(Field(row.appJSON, KeyAllowedUserTypes));
    var hasOAuth := oauthRow.Some? && oauthRow.value.clientID != "";
    var oauth := if hasOAuth then DecodeOAuth(oauthRow.value) else None;
    if url.None? || logoURL.None? || tosURI.None? || policyURI.None? || template.None? ||
       contacts.None? || userTypes.None? || (hasOAuth && oauth.None?)
    then None
    else Some(App(row.id, row.name, row.description, row.authFlow, row.registrationFlow,
                  row.registrationEnabled == "1", if row.brandingID.Some? then row.brandingID.value else "",
                  template.value, url.value, logoURL.value, tosURI.value, policyURI.value,
                  OrEmpty(contacts.value), OrEmpty(userTypes.value),
                  DecodeToken(Field(row.appJSON, KeyToken)),
                  if hasOAuth then Some(oauth.value.(appID := row.id)) else None))
  }

  // ---------------------------------------------------------------- the normal form

  function NormalToken(token: TokenConfig): Option<TokenConfig> {
    if token.issuer == "" && token.validityPeriod == 0 && NonEmpty(token.userAttributes).None? then None
    else Some(TokenConfig(token.issuer, ThroughFloat64(token.validityPeriod), NonEmpty(token.userAttributes)))
  }

  function NormalAccessToken(token: AccessToken): AccessToken {
    token.(userAttributes := OrEmpty(token.userAttributes))
  }

  function NormalIDToken(token: IDToken): IDToken {
    token.(userAttributes := OrEmpty(token.userAttributes),
           scopeClaims := if token.scopeClaims.Some? then token.scopeClaims else Some(map[]))
  }

  function NormalOAuthToken(token: OAuthToken): OAuthToken {
    token.(accessToken := if token.accessToken.Some? then Some(NormalAccessToken(token.accessToken.value)) else None,
           idToken := if token.idToken.Some? then Some(NormalIDToken(token.idToken.value)) else None)
  }

  function NormalOAuth(oauth: OAuthApp): OAuthApp {
    oauth.(grantTypes := OrEmpty(oauth.grantTypes), responseTypes := OrEmpty(oauth.responseTypes),
           token := if oauth.token.Some? then Some(NormalOAuthToken(oauth.token.value)) else None,
           scopes := NonEmpty(oauth.scopes))
  }

  /** What an application looks like after being stored and read back. */
  function Normal(app: App): App {
    app.(contacts := OrEmpty(app.contacts), allowedUserTypes := OrEmpty(app.allowedUserTypes),
         token := if app.token.Some? then NormalToken(app.token.value) else None,
         inbound := if app.inbound.Some? then Some(NormalOAuth(app.inbound.value)) else None)
  }

  /** Normal forms keep the keys an application is looked up by. */
  lemma NormalKeepsKeys(app: App)
    ensures Normal(app).id == app.id && Normal(app).name == app.name
    ensures Normal(app).inbound.Some? <==> app.inbound.Some?
    ensures app.inbound.Some? ==> Normal(app).inbound.value == NormalOAuth(app.inbound.value) &&
                                  Normal(app).inbound.value.clientID == app.inbound.value.clientID &&
                                  Normal(app).inbound.value.appID == app.inbound.value.appID
  {
  }

  predicate IsInt64(n: int) { MIN_INT64 <= n <= MAX_INT64 }

  predicate PeriodsFit(oauth: OAuthApp) {
    oauth.token.Some? ==>
      && (oauth.token.value.accessToken.Some? ==> IsInt64(oauth.token.value.accessToken.value.validityPeriod))
      && (oauth.token.value.idToken.Some? ==> IsInt64(oauth.token.value.idToken.value.validityPeriod))
  }

  /** What the service stores: an ID and a name, periods within int64, and an OAuth configuration that
      names its application and has a client ID. */
  predicate WellFormed(app: App) {
    && app.id != "" && app.name != ""
    && (app.token.Some? ==> IsInt64(app.token.value.validityPeriod))
    && (app.inbound.Some? ==> WellFormedOAuth(app.id, app.inbound.value))
  }

  predicate WellFormedOAuth(appID: string, oauth: OAuthApp) {
    oauth.appID == appID && oauth.clientID != "" && PeriodsFit(oauth)
  }

  function StoredOAuth(app: App): Option<OAuthRow> {
    if app.inbound.Some? then Some(EncodeOAuth(app.id, app.inbound.value)) else None
  }

  // ---------------------------------------------------------------- decode after encode

  lemma TokenRoundTrips(token: TokenConfig)
    ensures EncodeToken(token) == map[] <==> NormalToken(token).None?
    ensures EncodeToken(token) != map[] ==> DecodeToken(JObj(EncodeToken(token))) == NormalToken(token)
  {
    var fields := EncodeToken(token);
    assert KeyIssuer in fields <==> token.issuer != "";
    assert KeyValidityPeriod in fields <==> token.validityPeriod != 0;
    assert KeyUserAttributes in fields <==> NonEmpty(token.userAttributes).Some?;
    if NonEmpty(token.userAttributes).Some? {
      OnlyStringsOfStrings(token.userAttributes.value);
    }
    if token.validityPeriod == 0 {
      assert ThroughFloat64(0) == 0;
    }
  }

  lemma ScopeClaimsRoundTrip(claims: map<string, Strings>)
    ensures DecodeScopeClaims(EncodeScopeClaims(claims)) == Some(Some(claims))
  {
    forall scope | scope in claims ensures SliceOf(StringsToJson(claims[scope])) == Some(Some(claims[scope])) {
      SliceRoundTrips(claims[scope]);
    }
    var entries := EncodeScopeClaims(claims).entries;
    assert (map scope | scope in entries :: SliceOf(entries[scope]).value.value) == claims;
  }

  lemma OptionalFieldsRoundTrip(period: int, attributes: Option<Strings>)
    requires IsInt64(period)
    ensures Int64Of(if OptionalNumber(period).Some? then OptionalNumber(period).value else JNull) == Some(period)
    ensures SliceOf(if OptionalStrings(attributes).Some? then OptionalStrings(attributes).value else JNull)
            == Some(NonEmpty(attributes))
  {
    if NonEmpty(attributes).Some? {
      SliceRoundTrips(attributes.value);
    }
  }

  lemma AccessTokenRoundTrips(token: AccessToken)
    requires IsInt64(token.validityPeriod)
    ensures DecodeAccessToken(EncodeAccessToken(token)) == Some(Some(NormalAccessToken(token)))
  {
    OptionalFieldsRoundTrip(token.validityPeriod, token.userAttributes);
    assert OrEmpty(NonEmpty(token.userAttributes)) == OrEmpty(token.userAttributes);
  }

  lemma IDTokenRoundTrips(token: IDToken)
    requires IsInt64(token.validityPeriod)
    ensures DecodeIDToken(EncodeIDToken(token)) == Some(Some(NormalIDToken(token)))
  {
    OptionalFieldsRoundTrip(token.validityPeriod, token.userAttributes);
    assert OrEmpty(NonEmpty(token.userAttributes)) == OrEmpty(token.userAttributes);
    var claims := Field(EncodeIDToken(token).fields, KeyScopeClaims);
    if claims.JDict? {
      ScopeClaimsRoundTrip(token.scopeClaims.value);
      assert DecodeScopeClaims(claims) == Some(token.scopeClaims);
    } else {
      assert DecodeScopeClaims(claims) == Some(None);
    }
  }

  lemma OAuthTokenRoundTrips(token: OAuthToken)
    requires token.accessToken.Some? ==> IsInt64(token.accessToken.value.validityPeriod)
    requires token.idToken.Some? ==> IsInt64(token.idToken.value.validityPeriod)
    ensures DecodeOAuthToken(EncodeOAuthToken(token)) == Some(Some(NormalOAuthToken(token)))
  {
    if token.accessToken.Some? {
      AccessTokenRoundTrips(token.accessToken.value);
    }
    if token.idToken.Some? {
      IDTokenRoundTrips(token.idToken.value);
    }
  }

  lemma SliceFieldRoundTrips(strings: Option<Strings>)
    ensures SliceOf(SliceToJson(strings)) == Some(strings)
  {
    if strings.Some? {
      SliceRoundTrips(strings.value);
    }
  }

  lemma OAuthFields(oauth: OAuthApp)
    requires PeriodsFit(oauth)
    ensures var c := EncodeOAuthConfig(oauth);
            && SliceOf(Field(c, KeyRedirectUris)) == Some(oauth.redirectURIs)
            && SliceOf(Field(c, KeyGrantTypes)) == Some(OrEmpty(oauth.grantTypes))
            && SliceOf(Field(c, KeyResponseTypes)) == Some(OrEmpty(oauth.responseTypes))
            && SliceOf(Field(c, KeyScopes)) == Some(NonEmpty(oauth.scopes))
            && Field(c, KeyTokenEndpointAuthMethod) == JStr(oauth.authMethod)
            && Field(c, KeyPkceRequired) == JBool(oauth.pkceRequired)
            && Field(c, KeyPublicClient) == JBool(oauth.publicClient)
            && DecodeOAuthToken(Field(c, KeyToken)) ==
               Some(if oauth.token.Some? then Some(NormalOAuthToken(oauth.token.value)) else None)
  {
    SliceFieldRoundTrips(oauth.redirectURIs);
    SliceFieldRoundTrips(OrEmpty(oauth.grantTypes));
    SliceFieldRoundTrips(OrEmpty(oauth.responseTypes));
    SliceFieldRoundTrips(NonEmpty(oauth.scopes));
    if oauth.token.Some? {
      OAuthTokenRoundTrips(oauth.token.value);
    }
  }

  /** Decoding an encoded OAuth row gives the normal form of the configuration. */
  lemma OAuthRoundTrips(appID: string, oauth: OAuthApp)
    requires WellFormedOAuth(appID, oauth)
    ensures DecodeOAuth(EncodeOAuth(appID, oauth)) == Some(NormalOAuth(oauth))
  {
    OAuthFields(oauth);
  }

  lemma AppFields(app: App)
    requires WellFormed(app)
    ensures var j := EncodeAppJSON(app);
            && Field(j, KeyUrl) == JStr(app.url) && Field(j, KeyLogoUrl) == JStr(app.logoURL)
            && Field(j, KeyTosUri) == JStr(app.tosURI) && Field(j, KeyPolicyUri) == JStr(app.policyURI)
            && StringOf(Field(j, KeyTemplate)) == Some(app.template)
            && SliceOf(Field(j, KeyContacts)) == Some(app.contacts)
            && SliceOf(Field(j, KeyAllowedUserTypes)) == Some(app.allowedUserTypes)
            && DecodeToken(Field(j, KeyToken)) == if app.token.Some? then NormalToken(app.token.value) else None
  {
    SliceFieldRoundTrips(app.contacts);
    SliceFieldRoundTrips(app.allowedUserTypes);
    if app.token.Some? {
      TokenRoundTrips(app.token.value);
    }
  }

  /** Decoding the stored rows of an application gives its normal form. */
  lemma AppRoundTrips(app: App)
    requires WellFormed(app)
    ensures DecodeApp(EncodeApp(app), StoredOAuth(app)) == Some(Normal(app))
  {
    hide EncodeAppJSON;
    AppFields(app);
    if app.inbound.Some? {
      OAuthRoundTrips(app.id, app.inbound.value);
    }
  }

  lemma NormalTokenIsIdempotent(token: TokenConfig)
    requires IsInt64(token.validityPeriod)
    ensures var n := NormalToken(token);
            n.Some? ==> IsInt64(n.value.validityPeriod) && NormalToken(n.value) == n
  {
    ThroughFloat64Idempotent(token.validityPeriod);
  }

  lemma NormalOAuthIsIdempotent(oauth: OAuthApp)
    ensures NormalOAuth(NormalOAuth(oauth)) == NormalOAuth(oauth)
    ensures PeriodsFit(oauth) ==> PeriodsFit(NormalOAuth(oauth))
  {
  }

  /** Storing what was read and reading it again changes nothing more. */
  lemma NormalIsIdempotent(app: App)
    requires WellFormed(app)
    ensures WellFormed(Normal(app)) && Normal(Normal(app)) == Normal(app)
  {
    if app.token.Some? {
      NormalTokenIsIdempotent(app.token.value);
    }
    if app.inbound.Some? {
      NormalOAuthIsIdempotent(app.inbound.value);
    }
  }

  // ---------------------------------------------------------------- what storing keeps

  function Elements(strings: Option<Strings>): Strings {
    if strings.Some? then strings.value else []
  }

  function ClaimsOf(token: IDToken): map<string, Strings> {
    if token.scopeClaims.Some? then token.scopeClaims.value else map[]
  }

  /** No token object is read as an empty one, and the other way round. */
  function TokenOrEmpty(token: Option<TokenConfig>): TokenConfig {
    if token.Some? then token.value else TokenConfig("", 0, None)
  }

  /** The root tokens agree: issuer, attributes, and the period as a double. */
  predicate TokensAgree(a: TokenConfig, b: TokenConfig) {
    && a.issuer == b.issuer && Elements(a.userAttributes) == Elements(b.userAttributes)
    && ThroughFloat64(a.validityPeriod) == ThroughFloat64(b.validityPeriod)
  }

  predicate AccessTokensAgree(a: AccessToken, b: AccessToken) {
    a.validityPeriod == b.validityPeriod && Elements(a.userAttributes) == Elements(b.userAttributes)
  }

  predicate IDTokensAgree(a: IDToken, b: IDToken) {
    && a.validityPeriod == b.validityPeriod && Elements(a.userAttributes) == Elements(b.userAttributes)
    && ClaimsOf(a) == ClaimsOf(b)
  }

  predicate OAuthTokensAgree(a: OAuthToken, b: OAuthToken) {
    && a.issuer == b.issuer
    && (a.accessToken.Some? <==> b.accessToken.Some?) && (a.idToken.Some? <==> b.idToken.Some?)
    && (a.accessToken.Some? ==> AccessTokensAgree(a.accessToken.value, b.accessToken.value))
    && (a.idToken.Some? ==> IDTokensAgree(a.idToken.value, b.idToken.value))
  }

  /** Two OAuth configurations agree field by field; of a list, that it is nil or empty makes no difference, except
      for the redirect URIs. */
  predicate OAuthAgree(a: OAuthApp, b: OAuthApp) {
    && a.appID == b.appID && a.clientID == b.clientID && a.hashedSecret == b.hashedSecret
    && a.redirectURIs == b.redirectURIs && a.authMethod == b.authMethod
    && a.pkceRequired == b.pkceRequired && a.publicClient == b.publicClient
    && Elements(a.grantTypes) == Elements(b.grantTypes) && Elements(a.responseTypes) == Elements(b.responseTypes)
    && Elements(a.scopes) == Elements(b.scopes)
    && (a.token.Some? <==> b.token.Some?)
    && (a.token.Some? ==> OAuthTokensAgree(a.token.value, b.token.value))
  }

  /** Two applications agree field by field. */
  predicate AppsAgree(a: App, b: App) {
    && a.id == b.id && a.name == b.name && a.description == b.description && a.authFlow == b.authFlow
    && a.registrationFlow == b.registrationFlow && a.registrationEnabled == b.registrationEnabled
    && a.brandingID == b.brandingID && a.template == b.template && a.url == b.url && a.logoURL == b.logoURL
    && a.tosURI == b.tosURI && a.policyURI == b.policyURI
    && Elements(a.contacts) == Elements(b.contacts) && Elements(a.allowedUserTypes) == Elements(b.allowedUserTypes)
    && TokensAgree(TokenOrEmpty(a.token), TokenOrEmpty(b.token))
    && (a.inbound.Some? <==> b.inbound.Some?)
    && (a.inbound.Some? ==> OAuthAgree(a.inbound.value, b.inbound.value))
  }

  /** Two configurations have one normal form exactly when they agree on every field. */
  lemma SameNormalOAuthIff(a: OAuthApp, b: OAuthApp)
    ensures NormalOAuth(a) == NormalOAuth(b) <==> OAuthAgree(a, b)
  {
    if a.token.Some? && b.token.Some? {
      SameNormalOAuthTokenIff(a.token.value, b.token.value);
    }
    hide NormalOAuthToken, OAuthTokensAgree;
  }

  lemma SameNormalOAuthTokenIff(a: OAuthToken, b: OAuthToken)
    ensures NormalOAuthToken(a) == NormalOAuthToken(b) <==> OAuthTokensAgree(a, b)
  {
  }

  lemma SameNormalTokenIff(a: Option<TokenConfig>, b: Option<TokenConfig>)
    ensures (if a.Some? then NormalToken(a.value) else None) == (if b.Some? then NormalToken(b.value) else None)
            <==> TokensAgree(TokenOrEmpty(a), TokenOrEmpty(b))
  {
    if a.Some? {
      OnlyZeroIsZero(a.value.validityPeriod);
    }
    if b.Some? {
      OnlyZeroIsZero(b.value.validityPeriod);
    }
  }

  lemma SameNormalIff(a: App, b: App)
    ensures Normal(a) == Normal(b) <==> AppsAgree(a, b)
  {
    SameNormalTokenIff(a.token, b.token);
    hide NormalToken, NormalOAuth, TokensAgree, OAuthAgree;
    if a.inbound.Some? && b.inbound.Some? {
      SameNormalOAuthIff(a.inbound.value, b.inbound.value);
    }
  }

  lemma NormalAgrees(app: App)
    requires WellFormed(app)
    ensures AppsAgree(Normal(app), app)
  {
    NormalIsIdempotent(app);
    SameNormalIff(Normal(app), app);
  }

  lemma NormalOAuthAgrees(oauth: OAuthApp)
    ensures OAuthAgree(NormalOAuth(oauth), oauth)
  {
    NormalOAuthIsIdempotent(oauth);
    SameNormalOAuthIff(NormalOAuth(oauth), oauth);
  }

  /** Nothing that storing changes: every list that is always filled is there, no optional list or token is empty, and
      the root token's period is a double. */
  ghost predicate Plain(app: App) {
    && app.contacts.Some? && app.allowedUserTypes.Some?
    && (app.token.Some? ==> PlainToken(app.token.value))
    && (app.inbound.Some? ==> PlainOAuth(app.inbound.value))
  }

  ghost predicate PlainToken(token: TokenConfig) {
    && (token.issuer != "" || token.validityPeriod != 0 || token.userAttributes.Some?)
    && token.userAttributes != Some([])
    && IsDouble(Magnitude(token.validityPeriod))
  }

  predicate PlainOAuth(oauth: OAuthApp) {
    && oauth.grantTypes.Some? && oauth.responseTypes.Some? && oauth.scopes != Some([])
    && (oauth.token.Some? && oauth.token.value.accessToken.Some? ==>
          oauth.token.value.accessToken.value.userAttributes.Some?)
    && (oauth.token.Some? && oauth.token.value.idToken.Some? ==>
          oauth.token.value.idToken.value.userAttributes.Some? && oauth.token.value.idToken.value.scopeClaims.Some?)
  }

  lemma NormalTokenUnchangedIff(token: TokenConfig)
    requires IsInt64(token.validityPeriod)
    ensures NormalToken(token) == Some(token) <==> PlainToken(token)
  {
    RoundTripsIff(token.validityPeriod);
    hide ThroughFloat64, IsDouble;
  }

  lemma NormalOAuthUnchangedIff(oauth: OAuthApp)
    ensures NormalOAuth(oauth) == oauth <==> PlainOAuth(oauth)
  {
  }

  /** An application is read back as it was stored if and only if it is plain. */
  lemma ReadsBackUnchangedIff(app: App)
    requires WellFormed(app)
    ensures DecodeApp(EncodeApp(app), StoredOAuth(app)) == Some(app) <==> Plain(app)
  {
    AppRoundTrips(app);
    hide DecodeApp, EncodeApp, StoredOAuth, NormalToken, NormalOAuth, PlainToken, PlainOAuth;
    if app.token.Some? {
      NormalTokenUnchangedIff(app.token.value);
    }
    if app.inbound.Some? {
      NormalOAuthUnchangedIff(app.inbound.value);
    }
  }

  /** Whatever the application, what is read back agrees with it on every field: scalars, flags, the secret, URIs and
      the elements of every list; the root token's period is the double nearest to it. */
  lemma ReadBackAgrees(app: App)
    requires WellFormed(app)
    ensures var read := DecodeApp(EncodeApp(app), StoredOAuth(app)); read.Some? && AppsAgree(read.value, app)
    ensures app.inbound.Some? ==>
              var read := DecodeOAuth(EncodeOAuth(app.id, app.inbound.value));
              read.Some? && OAuthAgree(read.value, app.inbound.value)
  {
    AppRoundTrips(app);
    NormalAgrees(app);
    hide DecodeApp, EncodeApp, DecodeOAuth, EncodeOAuth, AppsAgree, Normal;
    if app.inbound.Some? {
      OAuthRoundTrips(app.id, app.inbound.value);
      NormalOAuthAgrees(app.inbound.value);
    }
  }
}
