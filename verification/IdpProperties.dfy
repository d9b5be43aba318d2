/** Identity provider properties: filtering against the type's configuration, defaults, and the openid scope.
    A secret property's value is what decryption gives back; None is a value that cannot be decrypted. */
module IdpProperties {
  import opened Prelude
  import opened Text

  datatype Property = Property(name: string, value: Option<string>, isSecret: bool)

  datatype Config = Config(required: seq<string>, optional: seq<string>, defaults: map<string, string>)

  datatype Error = InvalidIDPProperty | UnsupportedIDPProperty | InternalServerError

  const OAUTH := "OAUTH"
  const OIDC := "OIDC"
  const GOOGLE := "GOOGLE"
  const GITHUB := "GITHUB"

  const CLIENT_ID := "client_id"
  const CLIENT_SECRET := "client_secret"
  const REDIRECT_URI := "redirect_uri"
  const SCOPES := "scopes"
  const AUTHORIZATION_ENDPOINT := "authorization_endpoint"
  const TOKEN_ENDPOINT := "token_endpoint"
  const USER_INFO_ENDPOINT := "userinfo_endpoint"
  const USER_EMAIL_ENDPOINT := "user_email_endpoint"
  const LOGOUT_ENDPOINT := "logout_endpoint"
  const JWKS_ENDPOINT := "jwks_endpoint"
  const PROMPT := "prompt"

  const OPENID := "openid"

  const GOOGLE_AUTHORIZATION := "https://accounts.google.com/o/oauth2/v2/auth"
  const GOOGLE_TOKEN := "https://oauth2.googleapis.com/token"
  const GOOGLE_USER_INFO := "https://openidconnect.googleapis.com/v1/userinfo"
  const GOOGLE_JWKS := "https://www.googleapis.com/oauth2/v3/certs"

  const GITHUB_AUTHORIZATION := "https://github.com/login/oauth/authorize"
  const GITHUB_TOKEN := "https://github.com/login/oauth/access_token"
  const GITHUB_USER_INFO := "https://api.github.com/user"
  const GITHUB_USER_EMAIL := "https://api.github.com/user/emails"

  const OAUTH_CONFIG :=
    Config([CLIENT_ID, CLIENT_SECRET, REDIRECT_URI, AUTHORIZATION_ENDPOINT, TOKEN_ENDPOINT, USER_INFO_ENDPOINT],
           [SCOPES, LOGOUT_ENDPOINT, PROMPT], map[])

  const OIDC_CONFIG :=
    Config([CLIENT_ID, CLIENT_SECRET, REDIRECT_URI, AUTHORIZATION_ENDPOINT, TOKEN_ENDPOINT],
           [SCOPES, USER_INFO_ENDPOINT, LOGOUT_ENDPOINT, JWKS_ENDPOINT, PROMPT], map[])

  const GOOGLE_CONFIG :=
    Config([CLIENT_ID, CLIENT_SECRET, REDIRECT_URI],
           [AUTHORIZATION_ENDPOINT, TOKEN_ENDPOINT, SCOPES, USER_INFO_ENDPOINT, LOGOUT_ENDPOINT, JWKS_ENDPOINT, PROMPT],
           map[AUTHORIZATION_ENDPOINT := GOOGLE_AUTHORIZATION,
               TOKEN_ENDPOINT := GOOGLE_TOKEN,
               USER_INFO_ENDPOINT := GOOGLE_USER_INFO,
               JWKS_ENDPOINT := GOOGLE_JWKS])

  const GITHUB_CONFIG :=
    Config([CLIENT_ID, CLIENT_SECRET, REDIRECT_URI],
           [AUTHORIZATION_ENDPOINT, TOKEN_ENDPOINT, USER_INFO_ENDPOINT, USER_EMAIL_ENDPOINT, SCOPES, LOGOUT_ENDPOINT,
            PROMPT],
           map[AUTHORIZATION_ENDPOINT := GITHUB_AUTHORIZATION,
               TOKEN_ENDPOINT := GITHUB_TOKEN,
               USER_INFO_ENDPOINT := GITHUB_USER_INFO,
               USER_EMAIL_ENDPOINT := GITHUB_USER_EMAIL])

  function ConfigOf(idpType: string): Option<Config> {
    if idpType == OAUTH then Some(OAUTH_CONFIG)
    else if idpType == OIDC then Some(OIDC_CONFIG)
    else if idpType == GOOGLE then Some(GOOGLE_CONFIG)
    else if idpType == GITHUB then Some(GITHUB_CONFIG)
    else None
  }

  predicate NeedsOpenID(idpType: string) {
    idpType == OIDC || idpType == GOOGLE
  }

  function Allowed(c: Config): seq<string> {
    c.required + c.optional
  }

  // ---------------------------------------------------------------- what is wrong with a request

  predicate Blank(s: string) {
    TrimSpace(s) == ""
  }

  function PropertyError(c: Config, p: Property): Option<Error> {
    if Blank(p.name) then Some(InvalidIDPProperty)
    else if p.name !in Allowed(c) then Some(UnsupportedIDPProperty)
    else if p.value.None? || Blank(p.value.value) then Some(InvalidIDPProperty)
    else None
  }

  function FirstError(c: Config, properties: seq<Property>): Option<Error> {
    if properties == [] then None
    else if PropertyError(c, properties[0]).Some? then PropertyError(c, properties[0])
    else FirstError(c, properties[1..])
  }

  predicate Names(properties: seq<Property>, name: string) {
    exists i | 0 <= i < |properties| :: properties[i].name == name
  }

  function InputError(c: Config, properties: seq<Property>): Option<Error> {
    if FirstError(c, properties).Some? then FirstError(c, properties)
    else if exists r | r in c.required :: !Names(properties, r) then Some(InvalidIDPProperty)
    else None
  }

  // ---------------------------------------------------------------- the normal form, as a map

  /** The supplied properties by name; a later one replaces an earlier one. */
  function Supplied(properties: seq<Property>): map<string, Property> {
    if properties == [] then map[]
    else
      var n := |properties| - 1;
      Supplied(properties[..n])[properties[n].name := properties[n]]
  }

  function WithDefaults(m: map<string, Property>, defaults: map<string, string>): map<string, Property> {
    map k | k in m.Keys + defaults.Keys :: if k in m then m[k] else Property(k, Some(defaults[k]), false)
  }

  /** The scopes a value stands for: split at commas, trimmed, blanks dropped. */
  function Scopes(value: string): seq<string> {
    Segments(Split(value, ','))
  }

  function WithOpenID(m: map<string, Property>): map<string, Property> {
    if SCOPES !in m || m[SCOPES].value.None? || Scopes(m[SCOPES].value.value) == []
    then m[SCOPES := Property(SCOPES, Some(OPENID), false)]
    else
      var scopes := Scopes(m[SCOPES].value.value);
      if OPENID in scopes then m
      else m[SCOPES := Property(SCOPES, Some(Join(scopes + [OPENID], ',')), m[SCOPES].isSecret)]
  }

  function Normalised(c: Config, openID: bool, properties: seq<Property>): map<string, Property> {
    var filled := WithDefaults(Supplied(properties), c.defaults);
    if openID then WithOpenID(filled) else filled
  }

  /** The sequence holds each property of the map once, in any order. */
  predicate Lists(listing: seq<Property>, m: map<string, Property>) {
    && (forall i, j | 0 <= i < j < |listing| :: listing[i].name != listing[j].name)
    && (forall p | p in listing :: p.name in m && m[p.name] == p)
    && (forall k | k in m :: m[k] in listing)
  }

  // ---------------------------------------------------------------- the configurations

  predicate DefaultsProper(c: Config) {
    forall k | k in c.defaults :: k in Allowed(c) && k != SCOPES && !Blank(c.defaults[k])
  }

  predicate ConfigFits(c: Config) {
    SCOPES in Allowed(c) && (forall k | k in Allowed(c) :: !Blank(k)) && DefaultsProper(c)
  }

  lemma StartsSolid(s: string)
    requires s != "" && !IsSpace(s[0])
    ensures !Blank(s)
  {
    BlankIff(s);
  }

  /** Every default is an allowed property with a proper value, and none is about the scopes. */
  lemma ConfigsFit(idpType: string)
    requires ConfigOf(idpType).Some?
    ensures ConfigFits(ConfigOf(idpType).value)
  {
    hide ConfigFits;
    OAuthConfigFits();
    OidcConfigFits();
    GoogleConfigFits();
    GitHubConfigFits();
  }

  lemma OAuthConfigFits()
    ensures ConfigFits(OAUTH_CONFIG)
  {
    hide Blank;
    NamesAreSolid();
  }

  lemma OidcConfigFits()
    ensures ConfigFits(OIDC_CONFIG)
  {
    hide Blank;
    NamesAreSolid();
  }

  lemma GoogleConfigFits()
    ensures ConfigFits(GOOGLE_CONFIG)
  {
    hide Blank;
    NamesAreSolid();
    GoogleDefaultsFit();
    hide DefaultsProper;
  }

  lemma GitHubConfigFits()
    ensures ConfigFits(GITHUB_CONFIG)
  {
    hide Blank;
    NamesAreSolid();
    GitHubDefaultsFit();
    hide DefaultsProper;
  }

  lemma GoogleDefaultsFit()
    ensures DefaultsProper(GOOGLE_CONFIG)
  {
    hide Blank;
    StartsSolid(GOOGLE_AUTHORIZATION);
    StartsSolid(GOOGLE_TOKEN);
    StartsSolid(GOOGLE_USER_INFO);
    StartsSolid(GOOGLE_JWKS);
    forall k | k in GOOGLE_CONFIG.defaults ensures k != SCOPES {
      assert |k| > |SCOPES|;
    }
  }

  lemma GitHubDefaultsFit()
    ensures DefaultsProper(GITHUB_CONFIG)
  {
    hide Blank;
    StartsSolid(GITHUB_AUTHORIZATION);
    StartsSolid(GITHUB_TOKEN);
    StartsSolid(GITHUB_USER_INFO);
    StartsSolid(GITHUB_USER_EMAIL);
    forall k | k in GITHUB_CONFIG.defaults ensures k != SCOPES {
      assert |k| > |SCOPES|;
    }
  }

  lemma NamesAreSolid()
    ensures forall k | k in {CLIENT_ID, CLIENT_SECRET, REDIRECT_URI, SCOPES, AUTHORIZATION_ENDPOINT, TOKEN_ENDPOINT,
                             USER_INFO_ENDPOINT, USER_EMAIL_ENDPOINT, LOGOUT_ENDPOINT, JWKS_ENDPOINT, PROMPT}
              :: !Blank(k)
  {
    hide Blank;
    StartsSolid(CLIENT_ID);
    StartsSolid(CLIENT_SECRET);
    StartsSolid(REDIRECT_URI);
    StartsSolid(SCOPES);
    StartsSolid(AUTHORIZATION_ENDPOINT);
    StartsSolid(TOKEN_ENDPOINT);
    StartsSolid(USER_INFO_ENDPOINT);
    StartsSolid(USER_EMAIL_ENDPOINT);
    StartsSolid(LOGOUT_ENDPOINT);
    StartsSolid(JWKS_ENDPOINT);
    StartsSolid(PROMPT);
  }

  // ---------------------------------------------------------------- proofs

  /** A map of properties under their own names that each pass the filter. */
  predicate AllFit(c: Config, m: map<string, Property>) {
    forall k | k in m :: m[k].name == k && PropertyError(c, m[k]).None?
  }

  /** The last property of a name wins. */
  lemma {:induction false} LastWins(properties: seq<Property>, name: string)
    ensures name in Supplied(properties) <==> Names(properties, name)
    ensures name in Supplied(properties) ==>
              exists i | 0 <= i < |properties| ::
                && Supplied(properties)[name] == properties[i] && properties[i].name == name
                && forall j | i < j < |properties| :: properties[j].name != name
  {
    if properties != [] {
      var n := |properties| - 1;
      var front := properties[..n];
      LastWins(front, name);
      if properties[n].name == name {
        assert Supplied(properties)[name] == properties[n];
      } else if name in Supplied(front) {
        var i :| 0 <= i < n && Supplied(front)[name] == front[i] && front[i].name == name
                 && forall j | i < j < n :: front[j].name != name;
        assert properties[i] == front[i];
        forall j | i < j < |properties| ensures properties[j].name != name {
          assert j < n ==> properties[j] == front[j];
        }
        assert Supplied(properties)[name] == properties[i];
      } else {
        assert forall i | 0 <= i < n :: front[i].name == properties[i].name;
      }
    }
  }

  lemma {:induction false} NoErrorInside(c: Config, properties: seq<Property>)
    ensures FirstError(c, properties).None? <==>
            forall i | 0 <= i < |properties| :: PropertyError(c, properties[i]).None?
  {
    if properties != [] {
      NoErrorInside(c, properties[1..]);
      assert forall i | 1 <= i < |properties| :: properties[i] == properties[1..][i - 1];
    }
  }

  lemma SuppliedFits(c: Config, properties: seq<Property>)
    requires FirstError(c, properties).None?
    ensures AllFit(c, Supplied(properties))
  {
    NoErrorInside(c, properties);
    forall k | k in Supplied(properties)
      ensures Supplied(properties)[k].name == k && PropertyError(c, Supplied(properties)[k]).None?
    {
      LastWins(properties, k);
    }
  }

  /** Adding openid keeps what was asked for, in order, and is there once it has been added. */
  lemma OpenIDIsAdded(m: map<string, Property>)
    ensures var after := WithOpenID(m);
            && SCOPES in after && after[SCOPES].value.Some? && OPENID in Scopes(after[SCOPES].value.value)
            && !Blank(after[SCOPES].value.value)
    ensures SCOPES in m && m[SCOPES].value.Some? ==>
              var asked := Scopes(m[SCOPES].value.value);
              Scopes(WithOpenID(m)[SCOPES].value.value) == if OPENID in asked then asked else asked + [OPENID]
  {
    OpenIDReads();
    if SCOPES in m && m[SCOPES].value.Some? && Scopes(m[SCOPES].value.value) != [] {
      var pieces := Split(m[SCOPES].value.value, ',');
      var scopes := Scopes(m[SCOPES].value.value);
      SplitIsSepFree(m[SCOPES].value.value, ',');
      SegmentsAreSepFree(pieces, ',');
      SegmentsAreTrimmed(pieces);
      SegmentsOfJoin(scopes + [OPENID], ',');
    }
    BlankHasNoSegments(WithOpenID(m)[SCOPES].value.value, ',');
  }

  lemma OpenIDReads()
    ensures Scopes(OPENID) == [OPENID] && !Blank(OPENID) && Trimmed(OPENID) && ',' !in OPENID
  {
    StartsSolid(OPENID);
    CleanIffUnchanged(OPENID, IsSpace);
    SplitSepFree(OPENID, ',');
    SegmentsOfTrimmed([OPENID]);
  }

  lemma DefaultsFit(c: Config, m: map<string, Property>)
    requires ConfigFits(c) && AllFit(c, m)
    ensures AllFit(c, WithDefaults(m, c.defaults))
  {
    hide Blank;
  }

  lemma OpenIDFits(c: Config, m: map<string, Property>)
    requires ConfigFits(c) && AllFit(c, m)
    ensures AllFit(c, WithOpenID(m))
  {
    hide Blank, Scopes, Join;
    OpenIDIsAdded(m);
  }

  /** The normal form's properties pass the filter again, and nothing required is missing. */
  lemma NormalisedFits(c: Config, openID: bool, properties: seq<Property>)
    requires ConfigFits(c) && InputError(c, properties).None?
    ensures AllFit(c, Normalised(c, openID, properties))
    ensures forall k | k in c.required :: k in Normalised(c, openID, properties)
  {
    hide AllFit, ConfigFits, Scopes, Join, FirstError;
    SuppliedFits(c, properties);
    forall k | k in c.required ensures k in Supplied(properties) {
      LastWins(properties, k);
    }
    DefaultsFit(c, Supplied(properties));
    OpenIDFits(c, WithDefaults(Supplied(properties), c.defaults));
  }

  /** The names kept lie between the required and the allowed ones, and every default is filled in. */
  lemma KeysBetween(c: Config, openID: bool, properties: seq<Property>, k: string)
    requires ConfigFits(c) && InputError(c, properties).None?
    ensures k in c.required || k in c.defaults ==> k in Normalised(c, openID, properties)
    ensures k in Normalised(c, openID, properties) ==> k in Allowed(c)
  {
    NormalisedFits(c, openID, properties);
  }

  /** A supplied value is never replaced by a default: outside the scopes the last supplied property stands. */
  lemma SuppliedStands(c: Config, openID: bool, properties: seq<Property>, i: nat)
    requires i < |properties| && properties[i].name != SCOPES
    requires forall j | i < j < |properties| :: properties[j].name != properties[i].name
    ensures properties[i].name in Normalised(c, openID, properties)
    ensures Normalised(c, openID, properties)[properties[i].name] == properties[i]
  {
    var name := properties[i].name;
    LastWins(properties, name);
    assert Names(properties, name);
  }

  /** For OpenID Connect and Google the scopes always contain openid, after the scopes that were asked for. */
  lemma OpenIDAlwaysThere(c: Config, properties: seq<Property>)
    requires ConfigFits(c) && InputError(c, properties).None?
    ensures var m := Normalised(c, true, properties);
            && SCOPES in m && m[SCOPES].value.Some? && OPENID in Scopes(m[SCOPES].value.value)
            && (SCOPES in Supplied(properties) && Supplied(properties)[SCOPES].value.Some? ==>
                  Scopes(Supplied(properties)[SCOPES].value.value) <= Scopes(m[SCOPES].value.value))
  {
    OpenIDIsAdded(WithDefaults(Supplied(properties), c.defaults));
  }

  /** Reading a listing of a map gives the map back. */
  lemma SuppliedOfListing(listing: seq<Property>, m: map<string, Property>)
    requires Lists(listing, m)
    requires forall k | k in m :: m[k].name == k
    ensures Supplied(listing) == m
  {
    forall k ensures k in Supplied(listing) <==> k in m {
      LastWins(listing, k);
      if k in m {
        var i :| 0 <= i < |listing| && listing[i] == m[k];
      }
    }
    forall k | k in m ensures Supplied(listing)[k] == m[k] {
      LastWins(listing, k);
      assert Supplied(listing)[k] in listing;
    }
  }

  /** Normalising a normal form, listed in any order, is accepted and changes nothing. */
  lemma NormalisationIsIdempotent(c: Config, openID: bool, properties: seq<Property>, listing: seq<Property>)
    requires ConfigFits(c) && InputError(c, properties).None?
    requires Lists(listing, Normalised(c, openID, properties))
    ensures InputError(c, listing).None?
    ensures Normalised(c, openID, listing) == Normalised(c, openID, properties)
  {
    hide ConfigFits, Scopes, Join, PropertyError, Supplied, Names, WithDefaults, WithOpenID;
    var m := Normalised(c, openID, properties);
    NormalisedFits(c, openID, properties);
    SuppliedOfListing(listing, m);
    NoErrorInside(c, listing);
    forall r | r in c.required ensures Names(listing, r) {
      LastWins(listing, r);
    }
    FillingIsIdempotent(Supplied(properties), c.defaults);
  }

  lemma FillingIsIdempotent(m: map<string, Property>, defaults: map<string, string>)
    ensures var filled := WithDefaults(m, defaults);
            && WithDefaults(filled, defaults) == filled
            && WithDefaults(WithOpenID(filled), defaults) == WithOpenID(filled)
            && WithOpenID(WithOpenID(filled)) == WithOpenID(filled)
  {
    hide Scopes, Join;
    OpenIDIsAdded(WithDefaults(m, defaults));
  }

  predicate DistinctNames(properties: seq<Property>) {
    forall i, j | 0 <= i < j < |properties| :: properties[i].name != properties[j].name
  }

  lemma SuppliedIffIn(properties: seq<Property>, p: Property)
    requires DistinctNames(properties)
    ensures p.name in Supplied(properties) && Supplied(properties)[p.name] == p <==> p in properties
  {
    LastWins(properties, p.name);
    if p in properties {
      var i :| 0 <= i < |properties| && properties[i] == p;
      assert Names(properties, p.name);
    }
  }

  lemma SuppliedWithin(a: seq<Property>, b: seq<Property>, k: string)
    requires DistinctNames(a) && DistinctNames(b) && k in Supplied(a)
    requires forall p :: p in a ==> p in b
    ensures k in Supplied(b) && Supplied(b)[k] == Supplied(a)[k]
  {
    LastWins(a, k);
    var p := Supplied(a)[k];
    hide Supplied;
    SuppliedIffIn(a, p);
    SuppliedIffIn(b, p);
  }

  /** The order in which distinct properties are supplied does not matter. */
  lemma InputOrderDoesNotMatter(c: Config, openID: bool, a: seq<Property>, b: seq<Property>)
    requires DistinctNames(a) && DistinctNames(b)
    requires forall p :: p in a <==> p in b
    ensures InputError(c, a).None? <==> InputError(c, b).None?
    ensures Normalised(c, openID, a) == Normalised(c, openID, b)
  {
    hide Supplied, Names, PropertyError, WithDefaults, WithOpenID, FirstError;
    NoErrorInside(c, a);
    NoErrorInside(c, b);
    assert forall i | 0 <= i < |a| :: a[i] in b;
    assert forall i | 0 <= i < |b| :: b[i] in a;
    forall k | k in Supplied(a) ensures k in Supplied(b) && Supplied(b)[k] == Supplied(a)[k] {
      SuppliedWithin(a, b, k);
    }
    forall k | k in Supplied(b) ensures k in Supplied(a) {
      SuppliedWithin(b, a, k);
    }
    assert Supplied(a) == Supplied(b);
    forall k ensures Names(a, k) <==> Names(b, k) {
      LastWins(a, k);
      LastWins(b, k);
    }
  }

  // ---------------------------------------------------------------- what is accepted, and what it becomes

  /** No later property has this one's name. */
  predicate IsLast(properties: seq<Property>, i: int) {
    0 <= i < |properties| && forall j | i < j < |properties| :: properties[j].name != properties[i].name
  }

  /** `p` was supplied, and no later property has its name. */
  ghost predicate LastSupplied(properties: seq<Property>, p: Property) {
    exists i :: IsLast(properties, i) && properties[i] == p
  }

  /** `p` is `last` with openid among its scopes. */
  predicate HasOpenIDAfter(last: Property, p: Property) {
    && last.value.Some? && p.value.Some?
    && var asked := Scopes(last.value.value);
       if "openid" in asked then p == last
       else Scopes(p.value.value) == asked + ["openid"] && (asked != [] ==> p.isSecret == last.isSecret)
  }

  /** The listing has one scopes property. Its scopes are those of the last one supplied, in order, and openid after
      them unless it was there; a supplied property that has openid is kept as it is. */
  ghost predicate OpenIDAdded(properties: seq<Property>, listing: seq<Property>) {
    exists p | p in listing && p.name == "scopes" && p.value.Some? ::
      && "openid" in Scopes(p.value.value)
      && (forall q | q in listing && q.name == "scopes" :: q == p)
      && (!Names(properties, "scopes") ==> p == Property("scopes", Some("openid"), false))
      && (forall last | LastSupplied(properties, last) && last.name == "scopes" :: HasOpenIDAfter(last, p))
  }

  /** The scopes property is the last one supplied, if any. */
  ghost predicate ScopesUntouched(properties: seq<Property>, listing: seq<Property>) {
    forall p: Property | p.name == "scopes" :: p in listing <==> LastSupplied(properties, p)
  }

  /** Scopes aside, the listing has the last property supplied of each name and the defaults of the other names. */
  ghost predicate OthersListed(defaults: map<string, string>, properties: seq<Property>, listing: seq<Property>) {
    forall p: Property | p.name != "scopes" ::
      p in listing <==>
        || LastSupplied(properties, p)
        || (!Names(properties, p.name) && p.name in defaults && p == Property(p.name, Some(defaults[p.name]), false))
  }

  predicate RequiredSupplied(idpType: string, properties: seq<Property>) {
    && Names(properties, "client_id") && Names(properties, "client_secret") && Names(properties, "redirect_uri")
    && (idpType == "OAUTH" || idpType == "OIDC" ==>
          Names(properties, "authorization_endpoint") && Names(properties, "token_endpoint"))
    && (idpType == "OAUTH" ==> Names(properties, "userinfo_endpoint"))
  }

  predicate AllProper(properties: seq<Property>) {
    forall i | 0 <= i < |properties| :: Proper(properties[i])
  }

  predicate Proper(p: Property) {
    TrimSpace(p.name) != "" && p.value.Some? && TrimSpace(p.value.value) != ""
  }

  /** The first faulty property, if any, has a proper name that the type does not know. */
  predicate FirstFaultIsUnknownName(idpType: string, properties: seq<Property>) {
    exists i | 0 <= i < |properties| ::
      && TrimSpace(properties[i].name) != "" && !KnownName(idpType, properties[i].name)
      && AllProper(properties[..i]) && AllKnown(idpType, properties[..i])
  }

  /** The names each type knows. */
  predicate KnownName(idpType: string, name: string) {
    || name in {"client_id", "client_secret", "redirect_uri", "scopes", "authorization_endpoint", "token_endpoint",
                "userinfo_endpoint", "logout_endpoint", "prompt"}
    || (name == "jwks_endpoint" && (idpType == "OIDC" || idpType == "GOOGLE"))
    || (name == "user_email_endpoint" && idpType == "GITHUB")
  }

  predicate AllKnown(idpType: string, properties: seq<Property>) {
    forall i | 0 <= i < |properties| :: KnownName(idpType, properties[i].name)
  }

  predicate Defaulted(properties: seq<Property>, listing: seq<Property>, name: string, value: string) {
    !Names(properties, name) ==> Property(name, Some(value), false) in listing
  }

  predicate DefaultsThere(idpType: string, properties: seq<Property>, listing: seq<Property>) {
    && (idpType == "GOOGLE" ==>
          && Defaulted(properties, listing, "authorization_endpoint", "https://accounts.google.com/o/oauth2/v2/auth")
          && Defaulted(properties, listing, "token_endpoint", "https://oauth2.googleapis.com/token")
          && Defaulted(properties, listing, "userinfo_endpoint", "https://openidconnect.googleapis.com/v1/userinfo")
          && Defaulted(properties, listing, "jwks_endpoint", "https://www.googleapis.com/oauth2/v3/certs"))
    && (idpType == "GITHUB" ==>
          && Defaulted(properties, listing, "authorization_endpoint", "https://github.com/login/oauth/authorize")
          && Defaulted(properties, listing, "token_endpoint", "https://github.com/login/oauth/access_token")
          && Defaulted(properties, listing, "userinfo_endpoint", "https://api.github.com/user")
          && Defaulted(properties, listing, "user_email_endpoint", "https://api.github.com/user/emails"))
  }

  /** A request is accepted exactly when each property has a proper name that the type allows and a proper value, and
      every required one is there. */
  lemma InputErrorIff(c: Config, properties: seq<Property>)
    ensures InputError(c, properties).None? <==>
            && AllProper(properties)
            && (forall i | 0 <= i < |properties| ::
                  properties[i].name in c.required || properties[i].name in c.optional)
            && (forall r | r in c.required :: Names(properties, r))
  {
    NoErrorInside(c, properties);
  }

  /** The last property supplied of a name is the one that the map of the supplied properties has. */
  lemma SuppliedIsLast(properties: seq<Property>, p: Property)
    ensures p.name in Supplied(properties) && Supplied(properties)[p.name] == p <==> LastSupplied(properties, p)
  {
    LastWins(properties, p.name);
    if LastSupplied(properties, p) {
      var i :| IsLast(properties, i) && properties[i] == p;
      assert Names(properties, p.name);
    }
    if p.name in Supplied(properties) && Supplied(properties)[p.name] == p {
      var i :| 0 <= i < |properties| && p == properties[i] &&
               forall j | i < j < |properties| :: properties[j].name != p.name;
      assert IsLast(properties, i);
    }
  }

  lemma OthersAreListed(c: Config, openID: bool, properties: seq<Property>, listing: seq<Property>)
    requires Lists(listing, Normalised(c, openID, properties))
    ensures OthersListed(c.defaults, properties, listing)
  {
    hide Supplied, Scopes, Join, LastSupplied;
    var m := Normalised(c, openID, properties);
    forall p: Property | p.name != "scopes"
      ensures p in listing <==>
              || LastSupplied(properties, p)
              || (!Names(properties, p.name) && p.name in c.defaults &&
                  p == Property(p.name, Some(c.defaults[p.name]), false))
    {
      SuppliedIsLast(properties, p);
      LastWins(properties, p.name);
      assert p in listing <==> p.name in m && m[p.name] == p;
    }
  }

  lemma ScopesAreUntouched(c: Config, properties: seq<Property>, listing: seq<Property>)
    requires ConfigFits(c) && Lists(listing, Normalised(c, false, properties))
    ensures ScopesUntouched(properties, listing)
  {
    hide Supplied, LastSupplied;
    var m := Normalised(c, false, properties);
    forall p: Property | p.name == "scopes" ensures p in listing <==> LastSupplied(properties, p) {
      SuppliedIsLast(properties, p);
      assert p in listing <==> p.name in m && m[p.name] == p;
    }
  }

  lemma OpenIDAfterScopes(m: map<string, Property>)
    ensures SCOPES !in m ==> WithOpenID(m)[SCOPES] == Property(SCOPES, Some(OPENID), false)
    ensures SCOPES in m && m[SCOPES].value.Some? ==> HasOpenIDAfter(m[SCOPES], WithOpenID(m)[SCOPES])
    ensures SCOPES in m && m[SCOPES].name == SCOPES ==> WithOpenID(m)[SCOPES].name == SCOPES
  {
    hide Scopes, Join;
    OpenIDIsAdded(m);
    OpenIDReads();
  }

  /** Without a default of their own the scopes come from the request alone. */
  lemma ScopesComeFromRequest(c: Config, properties: seq<Property>)
    requires ConfigFits(c) && FirstError(c, properties).None?
    ensures var filled := WithDefaults(Supplied(properties), c.defaults);
            && (SCOPES in filled <==> Names(properties, SCOPES))
            && (SCOPES in filled ==> filled[SCOPES].name == SCOPES && filled[SCOPES].value.Some?)
            && (forall last | LastSupplied(properties, last) && last.name == SCOPES
                  :: SCOPES in filled && filled[SCOPES] == last)
  {
    LastWins(properties, SCOPES);
    SuppliedFits(c, properties);
    hide Supplied, FirstError, LastSupplied;
    forall last | LastSupplied(properties, last) && last.name == SCOPES
      ensures SCOPES in Supplied(properties) && Supplied(properties)[SCOPES] == last
    {
      SuppliedIsLast(properties, last);
    }
  }

  lemma OpenIDIsListed(c: Config, properties: seq<Property>, listing: seq<Property>)
    requires ConfigFits(c) && InputError(c, properties).None? && Lists(listing, Normalised(c, true, properties))
    ensures OpenIDAdded(properties, listing)
  {
    ScopesComeFromRequest(c, properties);
    var filled := WithDefaults(Supplied(properties), c.defaults);
    OpenIDIsAdded(filled);
    OpenIDAfterScopes(filled);
    hide Supplied, LastSupplied, Scopes, Join, WithDefaults, WithOpenID, Names, ConfigFits, InputError, HasOpenIDAfter;
    var p := WithOpenID(filled)[SCOPES];
    assert p in listing && p.name == SCOPES;
    forall q | q in listing && q.name == SCOPES ensures q == p {
    }
  }

  lemma AllowedIsKnown(idpType: string, name: string)
    requires ConfigOf(idpType).Some?
    ensures name in Allowed(ConfigOf(idpType).value) <==> KnownName(idpType, name)
  {
  }

  lemma RequiredAre(idpType: string, properties: seq<Property>)
    requires ConfigOf(idpType).Some?
    ensures (forall r | r in ConfigOf(idpType).value.required :: Names(properties, r)) <==>
            RequiredSupplied(idpType, properties)
  {
    hide Names;
  }

  /** Which requests each type accepts. */
  lemma AcceptedIff(idpType: string, properties: seq<Property>)
    requires ConfigOf(idpType).Some?
    ensures InputError(ConfigOf(idpType).value, properties).None? <==>
            AllProper(properties) && AllKnown(idpType, properties) && RequiredSupplied(idpType, properties)
  {
    InputErrorIff(ConfigOf(idpType).value, properties);
    RequiredAre(idpType, properties);
    hide AllProper, Names, InputError, ConfigOf, KnownName, RequiredSupplied;
    forall i | 0 <= i < |properties|
      ensures properties[i].name in Allowed(ConfigOf(idpType).value) <==> KnownName(idpType, properties[i].name)
    {
      AllowedIsKnown(idpType, properties[i].name);
    }
  }

  /** What an accepted request means for each type. */
  lemma AcceptedMeans(idpType: string, properties: seq<Property>, listing: seq<Property>)
    requires ConfigOf(idpType).Some? && ConfigFits(ConfigOf(idpType).value)
    requires IsOutcome(ConfigOf(idpType).value, NeedsOpenID(idpType), properties, Ok(listing))
    ensures AllProper(properties) && AllKnown(idpType, properties) && RequiredSupplied(idpType, properties)
    ensures DefaultsThere(idpType, properties, listing)
    ensures idpType == "OIDC" || idpType == "GOOGLE" ==> OpenIDAdded(properties, listing)
    ensures idpType == "OAUTH" || idpType == "GITHUB" ==> ScopesUntouched(properties, listing)
    ensures OthersListed(ConfigOf(idpType).value.defaults, properties, listing)
  {
    hide ConfigFits, Lists, Names, Normalised, InputError, AllProper, OpenIDAdded, ScopesUntouched;
    var c := ConfigOf(idpType).value;
    AcceptedIff(idpType, properties);
    hide RequiredSupplied, AllKnown;
    OthersAreListed(c, NeedsOpenID(idpType), properties, listing);
    if NeedsOpenID(idpType) {
      OpenIDIsListed(c, properties, listing);
    } else {
      ScopesAreUntouched(c, properties, listing);
    }
  }

  /** The error that this property deserves: for a proper name that is not allowed, or for a missing name or value. */
  predicate IsFault(c: Config, p: Property, error: Error) {
    if TrimSpace(p.name) != "" && p.name !in c.required && p.name !in c.optional then error == UnsupportedIDPProperty
    else error == InvalidIDPProperty && !Proper(p)
  }

  /** The error is the one that the first faulty property deserves. */
  lemma {:induction false} FirstErrorIsTrue(c: Config, properties: seq<Property>)
    ensures FirstError(c, properties) != Some(InternalServerError)
    ensures FirstError(c, properties).Some? ==>
              exists i | 0 <= i < |properties| ::
                FirstError(c, properties[..i]).None? && IsFault(c, properties[i], FirstError(c, properties).value)
  {
    hide TrimSpace;
    if properties != [] {
      FirstErrorIsTrue(c, properties[1..]);
      if PropertyError(c, properties[0]).Some? {
        assert properties[..0] == [];
      } else if FirstError(c, properties[1..]).Some? {
        var i :| 0 <= i < |properties| - 1 && FirstError(c, properties[1..][..i]).None? &&
                 IsFault(c, properties[1..][i], FirstError(c, properties).value);
        assert properties[..i + 1][1..] == properties[1..][..i];
        assert properties[i + 1] == properties[1..][i];
      }
    }
  }

  lemma RefusedMeans(idpType: string, properties: seq<Property>, error: Error)
    requires ConfigOf(idpType).Some? && IsOutcome(ConfigOf(idpType).value, NeedsOpenID(idpType), properties, Err(error))
    ensures if InputError(ConfigOf(idpType).value, properties).None?
            then error == InternalServerError && idpType in {"OIDC", "GOOGLE"} && SecretScopes(properties)
            else error == if FirstFaultIsUnknownName(idpType, properties) then UnsupportedIDPProperty
                          else InvalidIDPProperty
  {
    hide Proper, Names, SecretScopes, KnownName;
    var c := ConfigOf(idpType).value;
    if InputError(c, properties).Some? {
      if FirstError(c, properties).Some? {
        FirstErrorIsTrue(c, properties);
      }
      FirstFaultIff(idpType, properties);
    }
  }

  lemma FirstFaultIff(idpType: string, properties: seq<Property>)
    requires ConfigOf(idpType).Some?
    ensures FirstFaultIsUnknownName(idpType, properties) <==>
            FirstError(ConfigOf(idpType).value, properties) == Some(UnsupportedIDPProperty)
  {
    var c := ConfigOf(idpType).value;
    forall i | 0 <= i < |properties|
      ensures properties[i].name in c.required || properties[i].name in c.optional <==>
              KnownName(idpType, properties[i].name)
    {
      AllowedIsKnown(idpType, properties[i].name);
    }
    forall i | 0 <= i < |properties|
      ensures FirstError(c, properties[..i]).None? <==> AllProper(properties[..i]) && AllKnown(idpType, properties[..i])
    {
      PassesIff(idpType, properties[..i]);
    }
    if FirstError(c, properties).Some? {
      FirstErrorIsTrue(c, properties);
    }
    hide KnownName, ConfigOf, TrimSpace, AllProper, AllKnown;
    if i :| 0 <= i < |properties| && TrimSpace(properties[i].name) != "" && !KnownName(idpType, properties[i].name) &&
            FirstError(c, properties[..i]).None?
    {
      FirstErrorAt(c, properties, i);
    }
  }

  lemma PassesIff(idpType: string, properties: seq<Property>)
    requires ConfigOf(idpType).Some?
    ensures FirstError(ConfigOf(idpType).value, properties).None? <==>
            AllProper(properties) && AllKnown(idpType, properties)
  {
    NoErrorInside(ConfigOf(idpType).value, properties);
    hide KnownName, ConfigOf;
    forall i | 0 <= i < |properties|
      ensures properties[i].name in Allowed(ConfigOf(idpType).value) <==> KnownName(idpType, properties[i].name)
    {
      AllowedIsKnown(idpType, properties[i].name);
    }
  }

  /** The first faulty property decides the error. */
  lemma {:induction false} FirstErrorAt(c: Config, properties: seq<Property>, i: nat)
    requires i < |properties| && FirstError(c, properties[..i]).None? && PropertyError(c, properties[i]).Some?
    ensures FirstError(c, properties) == PropertyError(c, properties[i])
  {
    if i > 0 {
      assert properties[..i][0] == properties[0] && properties[..i][1..] == properties[1..][..i - 1];
      FirstErrorAt(c, properties[1..], i - 1);
    }
  }

  // ---------------------------------------------------------------- the validator

  /** Encrypting a secret value may fail; a plain value is stored as it is. */
  method CreateProperty(name: string, value: string, isSecret: bool) returns (p: Option<Property>)
    ensures p == Some(Property(name, Some(value), isSecret)) || (isSecret && p == None)
  {
    if isSecret && value != "" {
      if * {
        return None;
      }
    }
    p := Some(Property(name, Some(value), isSecret));
  }

  /** The scopes of a value, in order and without blanks. */
  method ParseScopes(value: string) returns (scopes: seq<string>)
    ensures scopes == Scopes(value)
  {
    hide TrimSpace, Split;
    var pieces := Split(value, ',');
    scopes := [];
    for i := 0 to |pieces|
      invariant scopes + Segments(pieces[i..]) == Segments(pieces)
    {
      assert pieces[i..][1..] == pieces[i + 1..];
      var scope := TrimSpace(pieces[i]);
      if scope != "" {
        scopes := scopes + [scope];
      }
    }
    assert pieces[|pieces|..] == [];
  }

  method EnsureOpenIDScope(m: map<string, Property>) returns (r: Result<map<string, Property>, Error>)
    requires SCOPES in m ==> m[SCOPES].value.Some?
    ensures r == Ok(WithOpenID(m)) || (r == Err(InternalServerError) && SCOPES in m && m[SCOPES].isSecret)
  {
    if SCOPES !in m {
      var created := CreateProperty(SCOPES, OPENID, false);
      return Ok(m[SCOPES := created.value]);
    }
    hide Scopes, Join;
    var scopes := ParseScopes(m[SCOPES].value.value);
    if |scopes| == 0 {
      var created := CreateProperty(SCOPES, OPENID, false);
      return Ok(m[SCOPES := created.value]);
    }
    if OPENID !in scopes {
      var created := CreateProperty(SCOPES, Join(scopes + [OPENID], ','), m[SCOPES].isSecret);
      if created.None? {
        return Err(InternalServerError);
      }
      return Ok(m[SCOPES := created.value]);
    }
    r := Ok(m);
  }

  lemma ListsNothing()
    ensures Lists([], map[])
  {
  }

  lemma ListsOneMore(listing: seq<Property>, m: map<string, Property>, p: Property)
    requires Lists(listing, m) && p.name !in m
    ensures Lists(listing + [p], m[p.name := p])
  {
    var longer, more := listing + [p], m[p.name := p];
    forall i, j | 0 <= i < j < |longer| ensures longer[i].name != longer[j].name {
      assert longer[i] in listing;
    }
    forall k | k in more ensures more[k] in longer {
      assert longer[|listing|] == p;
      assert k != p.name ==> m[k] in listing;
    }
  }

  /** Goes through the map in whatever order. */
  method PropertyMapToSlice(m: map<string, Property>) returns (listing: seq<Property>)
    requires forall k | k in m :: m[k].name == k
    ensures Lists(listing, m)
  {
    hide Lists;
    listing := [];
    var rest := m.Keys;
    assert m - rest == map[];
    ListsNothing();
    while rest != {}
      invariant rest <= m.Keys
      invariant Lists(listing, m - rest)
      decreases |rest|
    {
      var k :| k in rest;
      ListsOneMore(listing, m - rest, m[k]);
      assert m - (rest - {k}) == (m - rest)[k := m[k]];
      listing := listing + [m[k]];
      rest := rest - {k};
    }
    assert m - {} == m;
  }

  /** Fills in the defaults in whatever order. */
  method ApplyDefaults(m: map<string, Property>, defaults: map<string, string>) returns (filled: map<string, Property>)
    ensures filled == WithDefaults(m, defaults)
  {
    filled := m;
    var rest := defaults.Keys;
    while rest != {}
      invariant rest <= defaults.Keys
      invariant filled == WithDefaults(m, defaults - rest)
      decreases |rest|
    {
      var k :| k in rest;
      if k !in filled {
        var created := CreateProperty(k, defaults[k], false);
        filled := filled[k := created.value];
      }
      rest := rest - {k};
    }
    assert defaults - {} == defaults;
  }

  /** The filter: each supplied property in turn, then the required ones. */
  method FilterProperties(c: Config, properties: seq<Property>) returns (r: Result<map<string, Property>, Error>)
    ensures var wrong := InputError(c, properties);
            r == if wrong.Some? then Err(wrong.value) else Ok(Supplied(properties))
  {
    hide Blank, Allowed;
    var filtered: map<string, Property> := map[];
    var keys: seq<string> := [];
    for i := 0 to |properties|
      invariant FirstError(c, properties) == FirstError(c, properties[i..])
      invariant filtered == Supplied(properties[..i])
      invariant |keys| == i && forall j | 0 <= j < i :: keys[j] == properties[j].name
    {
      var prop := properties[i];
      assert properties[i..][0] == prop && properties[i..][1..] == properties[i + 1..];
      assert properties[..i + 1][..i] == properties[..i];
      if Blank(prop.name) {
        return Err(InvalidIDPProperty);
      }
      if prop.name !in Allowed(c) {
        return Err(UnsupportedIDPProperty);
      }
      if prop.value.None? {
        return Err(InvalidIDPProperty);
      }
      if Blank(prop.value.value) {
        return Err(InvalidIDPProperty);
      }
      filtered := filtered[prop.name := prop];
      keys := keys + [prop.name];
    }
    assert properties[..|properties|] == properties && properties[|properties|..] == [];
    for i := 0 to |c.required|
      invariant forall j | 0 <= j < i :: Names(properties, c.required[j])
    {
      assert Names(properties, c.required[i]) <==> c.required[i] in keys;
      if c.required[i] !in keys {
        return Err(InvalidIDPProperty);
      }
    }
    r := Ok(filtered);
  }

  /** The normal form in some order, or the first thing wrong with the request; only re-encrypting a secret scopes
      value can fail otherwise. */
  ghost predicate IsOutcome(c: Config, openID: bool, properties: seq<Property>, r: Result<seq<Property>, Error>) {
    var wrong := InputError(c, properties);
    if wrong.Some? then r == Err(wrong.value)
    else if r.Ok? then Lists(r.value, Normalised(c, openID, properties))
    else r.error == InternalServerError && openID && SecretScopes(properties)
  }

  predicate SecretScopes(properties: seq<Property>) {
    exists i | 0 <= i < |properties| :: properties[i].name == SCOPES && properties[i].isSecret
  }

  method NormaliseProperties(c: Config, openID: bool, properties: seq<Property>)
    returns (r: Result<seq<Property>, Error>)
    requires ConfigFits(c)
    ensures IsOutcome(c, openID, properties, r)
  {
    hide ConfigFits, InputError, Allowed, Blank, WithOpenID, WithDefaults, Lists, Supplied, SecretScopes;
    var supplied := FilterProperties(c, properties);
    if supplied.Err? {
      return Err(supplied.error);
    }
    NormalisedFits(c, openID, properties);
    NormalisedFits(c, false, properties);
    var filled := ApplyDefaults(supplied.value, c.defaults);
    if openID {
      var ensured := EnsureOpenIDScope(filled);
      if ensured.Err? {
        SecretScopesWereSupplied(c, properties);
        return Err(ensured.error);
      }
      filled := ensured.value;
    }
    var listing := PropertyMapToSlice(filled);
    r := Ok(listing);
  }

  /** The outcome does not depend on the order in which maps are visited. */
  method ValidateIDPProperties(idpType: string, properties: seq<Property>) returns (r: Result<seq<Property>, Error>)
    ensures ConfigOf(idpType).None? ==> r == Err(InternalServerError)
    ensures ConfigOf(idpType).Some? ==> IsOutcome(ConfigOf(idpType).value, NeedsOpenID(idpType), properties, r)
    ensures idpType !in {"OAUTH", "OIDC", "GOOGLE", "GITHUB"} ==> r == Err(InternalServerError)
    ensures r.Ok? ==>
              && AllProper(properties) && AllKnown(idpType, properties) && RequiredSupplied(idpType, properties)
              && DefaultsThere(idpType, properties, r.value)
    ensures idpType in {"OAUTH", "OIDC", "GOOGLE", "GITHUB"} && r.Err? ==>
              if AllProper(properties) && AllKnown(idpType, properties) && RequiredSupplied(idpType, properties)
              then r.error == InternalServerError && idpType in {"OIDC", "GOOGLE"} && SecretScopes(properties)
              else r.error == if FirstFaultIsUnknownName(idpType, properties) then UnsupportedIDPProperty
                              else InvalidIDPProperty
    ensures r.Ok? && (idpType == "OIDC" || idpType == "GOOGLE") ==> OpenIDAdded(properties, r.value)
    ensures r.Ok? && (idpType == "OAUTH" || idpType == "GITHUB") ==> ScopesUntouched(properties, r.value)
    ensures r.Ok? ==> OthersListed(ConfigOf(idpType).value.defaults, properties, r.value)
  {
    hide IsOutcome, ConfigFits, OpenIDAdded, ScopesUntouched, OthersListed;
    hide RequiredSupplied, AllProper, AllKnown, DefaultsThere, FirstFaultIsUnknownName;
    var config := ConfigOf(idpType);
    if config.None? {
      return Err(InternalServerError);
    }
    ConfigsFit(idpType);
    r := NormaliseProperties(config.value, NeedsOpenID(idpType), properties);
    AcceptedIff(idpType, properties);
    if r.Ok? {
      AcceptedMeans(idpType, properties, r.value);
    } else {
      RefusedMeans(idpType, properties, r.error);
    }
  }

  lemma SecretScopesWereSupplied(c: Config, properties: seq<Property>)
    requires var filled := WithDefaults(Supplied(properties), c.defaults); SCOPES in filled && filled[SCOPES].isSecret
    ensures SecretScopes(properties)
  {
    LastWins(properties, SCOPES);
  }
}
