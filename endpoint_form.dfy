/** The rules of the endpoint edit form: validation before save and the
    editing of the API-key pool, as functions and methods over the form's
    working copy. */
module EndpointForm {
  import opened Types

  /** The form's working copy. The form edits a single `path_prefix`
      string; the headers are edited as JSON text, of which validation only
      needs to know whether it parses (`headersParse` below). */
  datatype FormData = FormData(
    id: string,
    pathPrefix: string,
    targetUrl: string,
    authConfig: Option<AuthConfig>)

  /** The blank key the form adds to a pool. */
  const InitialApiKey: ApiKey := ApiKey("", 0, None, None, None)

  /** The fields validation can reject, named in the error map by
      `id`, `path_prefix`, `target_url`, `headers_to_add`,
      `auth_config_name` and `auth_config_values`. */
  datatype Field = Id | PathPrefix | TargetUrl | HeadersToAdd | AuthConfigName | AuthConfigValues

  const IdRequired: string := "ID is required."
  const PrefixRequired: string := "Path Prefix is required."
  const UrlRequired: string := "Target URL is required."
  const HeadersInvalid: string := "Invalid JSON format for headers."
  const NameRequired: string := "Header Name is required for API Key auth."
  const KeysRequired: string := "At least one API Key is required and cannot be empty."

  /** The error text of each field. */
  function Message(f: Field): string {
    match f
    case Id => IdRequired
    case PathPrefix => PrefixRequired
    case TargetUrl => UrlRequired
    case HeadersToAdd => HeadersInvalid
    case AuthConfigName => NameRequired
    case AuthConfigValues => KeysRequired
  }

  /** The characters JavaScript's `trim` removes: white space and line
      terminators. */
  predicate IsTrimmed(c: char) {
    || c == ' ' || c == '\t' || c == '\n' || c == '\U{B}' || c == '\U{C}' || c == '\r'
    || c == '\U{A0}' || c == '\U{1680}' || ('\U{2000}' <= c <= '\U{200A}')
    || c == '\U{2028}' || c == '\U{2029}' || c == '\U{202F}' || c == '\U{205F}'
    || c == '\U{3000}' || c == '\U{FEFF}'
  }

  function TrimStart(s: string): (r: string)
    ensures |r| <= |s| && r == s[|s| - |r|..]
    ensures forall i :: 0 <= i < |s| - |r| ==> IsTrimmed(s[i])
    ensures r != [] ==> !IsTrimmed(r[0])
  {
    if s != [] && IsTrimmed(s[0]) then TrimStart(s[1..]) else s
  }

  function TrimEnd(s: string): (r: string)
    ensures |r| <= |s| && r == s[..|r|]
    ensures forall i :: |r| <= i < |s| ==> IsTrimmed(s[i])
    ensures r != [] ==> !IsTrimmed(r[|r| - 1])
  {
    if s != [] && IsTrimmed(s[|s| - 1]) then TrimEnd(s[..|s| - 1]) else s
  }

  function Trim(s: string): string {
    TrimEnd(TrimStart(s))
  }

  /** `trim` leaves nothing exactly when every character is white space. */
  lemma TrimEmptyIffBlank(s: string)
    ensures Trim(s) == "" <==> forall i :: 0 <= i < |s| ==> IsTrimmed(s[i])
  {
    var t := TrimStart(s);
    if t != "" {
      assert !IsTrimmed(t[0]);
      assert s[|s| - |t|] == t[0];
    }
  }

  predicate IsApiKeyAuth(auth: Option<AuthConfig>) {
    auth.Some? && auth.value.authType == ApiKeyAuth
  }

  /** The key pool as the form reads it: an absent pool is empty. */
  function PoolOf(auth: Option<AuthConfig>): seq<ApiKey> {
    if auth.Some? then auth.value.values.GetOr([]) else []
  }

  /** A header or parameter name is given (present and not empty). */
  predicate NameGiven(auth: AuthConfig) {
    auth.name.Some? && auth.name.value != ""
  }

  /** Some key's secret is empty after `trim` (the `some` test). */
  predicate HasBlankKey(pool: seq<ApiKey>) {
    exists i :: 0 <= i < |pool| && Trim(pool[i].value) == ""
  }

  /** The pool is present, non-empty, and no key is blank after `trim`. */
  predicate PoolFilled(auth: AuthConfig) {
    && auth.values.Some?
    && |auth.values.value| > 0
    && !HasBlankKey(auth.values.value)
  }

  /** The form may be saved: every required field is filled, the headers
      parse, and an `api_key` configuration names its parameter and has a
      non-blank pool. */
  predicate Submittable(form: FormData, headersParse: bool) {
    && form.id != ""
    && form.pathPrefix != ""
    && form.targetUrl != ""
    && headersParse
    && (IsApiKeyAuth(form.authConfig) ==>
          NameGiven(form.authConfig.value) && PoolFilled(form.authConfig.value))
  }

  /** The error map is empty exactly when the form is submittable, given
      that each field is in it exactly when its own check fails. */
  lemma NoErrorsIffSubmittable(errors: map<Field, string>, form: FormData, headersParse: bool)
    requires Id in errors <==> form.id == ""
    requires PathPrefix in errors <==> form.pathPrefix == ""
    requires TargetUrl in errors <==> form.targetUrl == ""
    requires HeadersToAdd in errors <==> !headersParse
    requires AuthConfigName in errors <==>
      IsApiKeyAuth(form.authConfig) && !NameGiven(form.authConfig.value)
    requires AuthConfigValues in errors <==>
      IsApiKeyAuth(form.authConfig) && !PoolFilled(form.authConfig.value)
    ensures |errors| == 0 <==> Submittable(form, headersParse)
  {
    if f: Field :| f in errors {
      assert |errors.Keys| >= 1 by {
        assert errors.Keys == (errors.Keys - {f}) + {f};
      }
      assert !Submittable(form, headersParse) by {
        match f
        case Id =>
        case PathPrefix =>
        case TargetUrl =>
        case HeadersToAdd =>
        case AuthConfigName =>
        case AuthConfigValues =>
      }
    } else {
      assert errors.Keys == {};
    }
  }

  /** The checks of an `api_key` configuration, added to an error map that
      does not yet name its two fields. */
  method CheckApiKeyAuth(auth: AuthConfig, errors: map<Field, string>) returns (r: map<Field, string>)
    requires AuthConfigName !in errors && AuthConfigValues !in errors
    ensures forall f :: f != AuthConfigName && f != AuthConfigValues ==>
      (f in r <==> f in errors) && (f in r ==> r[f] == errors[f])
    ensures AuthConfigName in r ==> r[AuthConfigName] == Message(AuthConfigName)
    ensures AuthConfigName in r <==> !NameGiven(auth)
    ensures AuthConfigValues in r ==> r[AuthConfigValues] == Message(AuthConfigValues)
    ensures AuthConfigValues in r <==> !PoolFilled(auth)
  {
    r := errors;
    if auth.name.None? || auth.name.value == "" {
      r := r[AuthConfigName := Message(AuthConfigName)];
    }
    // no pool, an empty pool, or some key blank after `trim`
    var keysMissing := !PoolFilled(auth);
    if keysMissing {
      r := r[AuthConfigValues := Message(AuthConfigValues)];
    }
  }

  /** Fills the error map field by field; the form is valid when the map is
      empty. Each field is flagged, with its own message, exactly when its
      check fails. */
  method Validate(form: FormData, headersParse: bool) returns (errors: map<Field, string>, valid: bool)
    ensures valid <==> |errors| == 0
    ensures valid <==> Submittable(form, headersParse)
    ensures Id in errors ==> errors[Id] == Message(Id)
    ensures Id in errors <==> form.id == ""
    ensures PathPrefix in errors ==> errors[PathPrefix] == Message(PathPrefix)
    ensures PathPrefix in errors <==> form.pathPrefix == ""
    ensures TargetUrl in errors ==> errors[TargetUrl] == Message(TargetUrl)
    ensures TargetUrl in errors <==> form.targetUrl == ""
    ensures HeadersToAdd in errors ==> errors[HeadersToAdd] == Message(HeadersToAdd)
    ensures HeadersToAdd in errors <==> !headersParse
    ensures AuthConfigName in errors ==> errors[AuthConfigName] == Message(AuthConfigName)
    ensures AuthConfigName in errors <==>
      IsApiKeyAuth(form.authConfig) && !NameGiven(form.authConfig.value)
    ensures AuthConfigValues in errors ==> errors[AuthConfigValues] == Message(AuthConfigValues)
    ensures AuthConfigValues in errors <==>
      IsApiKeyAuth(form.authConfig) && !PoolFilled(form.authConfig.value)
  {
    errors := map[];
    if form.id == "" {
      errors := errors[Id := Message(Id)];
    }
    if form.pathPrefix == "" {
      errors := errors[PathPrefix := Message(PathPrefix)];
    }
    if form.targetUrl == "" {
      errors := errors[TargetUrl := Message(TargetUrl)];
    }
    if !headersParse {
      errors := errors[HeadersToAdd := Message(HeadersToAdd)];
    }
    if IsApiKeyAuth(form.authConfig) {
      errors := CheckApiKeyAuth(form.authConfig.value, errors);
    }
    NoErrorsIffSubmittable(errors, form, headersParse);
    valid := |errors| == 0;
  }

  /** The `api_key` configuration the key editors write back: `type` forced
      to `api_key`, the new pool, and the name and placement carried over
      from the previous configuration. */
  function ApiKeyConfig(prev: Option<AuthConfig>, pool: seq<ApiKey>): AuthConfig {
    match prev
    case None => AuthConfig(ApiKeyAuth, Some(pool), None, None)
    case Some(a) => a.(authType := ApiKeyAuth, values := Some(pool))
  }

  /** Appends one blank key to the pool. */
  function AddApiKey(form: FormData): (r: FormData)
    ensures r.(authConfig := form.authConfig) == form
    ensures IsApiKeyAuth(r.authConfig)
    ensures var pool := PoolOf(r.authConfig);
      |pool| == |PoolOf(form.authConfig)| + 1
      && pool[..|pool| - 1] == PoolOf(form.authConfig)
      && pool[|pool| - 1] == InitialApiKey
    ensures r.authConfig.value.name == (if form.authConfig.Some? then form.authConfig.value.name else None)
    ensures r.authConfig.value.location == (if form.authConfig.Some? then form.authConfig.value.location else None)
  {
    form.(authConfig := Some(ApiKeyConfig(form.authConfig, PoolOf(form.authConfig) + [InitialApiKey])))
  }

  /** The pool without its entry at `index`; an index outside the pool
      removes nothing (the `filter` on the position). */
  function DropIndex(pool: seq<ApiKey>, index: int): (r: seq<ApiKey>)
    ensures 0 <= index < |pool| ==>
      && |r| == |pool| - 1
      && (forall j :: 0 <= j < |r| ==> r[j] == pool[if j < index then j else j + 1])
    ensures !(0 <= index < |pool|) ==> r == pool
  {
    if 0 <= index < |pool| then pool[..index] + pool[index + 1..] else pool
  }

  /** Removing the key just added restores the pool. */
  lemma DropIndexUndoesAppend(pool: seq<ApiKey>, k: ApiKey)
    ensures DropIndex(pool + [k], |pool|) == pool
  {
    assert (pool + [k])[..|pool|] == pool;
  }

  /** Removes the key at `index`; when that empties the pool a blank key is
      put back, so the pool is never empty. */
  method RemoveApiKey(form: FormData, index: int) returns (r: FormData)
    ensures r.(authConfig := form.authConfig) == form
    ensures IsApiKeyAuth(r.authConfig)
    ensures var before, after := PoolOf(form.authConfig), PoolOf(r.authConfig);
      && |after| >= 1
      && (|DropIndex(before, index)| > 0 ==> after == DropIndex(before, index))
      && (|DropIndex(before, index)| == 0 ==> after == [InitialApiKey])
    ensures r.authConfig.value.name == (if form.authConfig.Some? then form.authConfig.value.name else None)
    ensures r.authConfig.value.location == (if form.authConfig.Some? then form.authConfig.value.location else None)
  {
    var newValues := DropIndex(PoolOf(form.authConfig), index);
    if |newValues| == 0 {
      newValues := newValues + [InitialApiKey];
    }
    r := form.(authConfig := Some(ApiKeyConfig(form.authConfig, newValues)));
  }

  /** Sets the secret of the key at `index` (the form only offers indices of
      the keys it shows). */
  function SetApiKeyValue(form: FormData, index: nat, value: string): (r: FormData)
    requires form.authConfig.Some? && form.authConfig.value.values.Some?
    requires index < |form.authConfig.value.values.value|
    ensures r.(authConfig := form.authConfig) == form
    ensures IsApiKeyAuth(r.authConfig)
    ensures r.authConfig.value.name == form.authConfig.value.name
    ensures r.authConfig.value.location == form.authConfig.value.location
    ensures var before, after := PoolOf(form.authConfig), PoolOf(r.authConfig);
      && |after| == |before|
      && after[index].value == value
      && after[index].(value := before[index].value) == before[index]
      && forall j :: 0 <= j < |before| && j != index ==> after[j] == before[j]
  {
    var pool := form.authConfig.value.values.value;
    form.(authConfig := Some(ApiKeyConfig(form.authConfig, pool[index := pool[index].(value := value)])))
  }

  /** Switching the auth type starts from a fresh configuration: `api_key`
      gets an empty name and one blank key, any other type keeps nothing but
      the type. */
  function ChangeAuthType(form: FormData, newType: AuthType): (r: FormData)
    ensures r.(authConfig := form.authConfig) == form
    ensures r.authConfig.Some? && r.authConfig.value.authType == newType
    ensures newType == ApiKeyAuth ==>
      r.authConfig.value == AuthConfig(ApiKeyAuth, Some([InitialApiKey]), Some(""), None)
    ensures newType != ApiKeyAuth ==>
      r.authConfig.value.values.None? && r.authConfig.value.name.None? && r.authConfig.value.location.None?
  {
    if newType == ApiKeyAuth then
      form.(authConfig := Some(AuthConfig(ApiKeyAuth, Some([InitialApiKey]), Some(""), None)))
    else
      form.(authConfig := Some(AuthConfig(newType, None, None, None)))
  }

  /** A form just switched to `api_key` cannot be saved until the name and a
      non-blank key are entered. */
  lemma FreshApiKeyConfigBlocksSave(form: FormData, headersParse: bool)
    ensures !Submittable(ChangeAuthType(form, ApiKeyAuth), headersParse)
  {
    var r := ChangeAuthType(form, ApiKeyAuth);
    assert !NameGiven(r.authConfig.value);
  }

  /** Switching away from `api_key` leaves only the common fields to check. */
  lemma OtherAuthTypeNeedsNoKeys(form: FormData, headersParse: bool, newType: AuthType)
    requires newType != ApiKeyAuth
    ensures Submittable(ChangeAuthType(form, newType), headersParse) <==>
      form.id != "" && form.pathPrefix != "" && form.targetUrl != "" && headersParse
  {
  }

  /** A key whose secret is only white space blocks the save. */
  lemma BlankKeyBlocksSave(form: FormData, headersParse: bool, i: nat)
    requires IsApiKeyAuth(form.authConfig) && form.authConfig.value.values.Some?
    requires i < |form.authConfig.value.values.value|
    requires forall c :: c in form.authConfig.value.values.value[i].value ==> IsTrimmed(c)
    ensures !Submittable(form, headersParse)
  {
    var s := form.authConfig.value.values.value[i].value;
    TrimEmptyIffBlank(s);
  }
}
