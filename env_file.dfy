/**
 * The `.env` loader (`load_env`) and the resolution of the two credentials
 * that runs when the script starts.
 */
module EnvFile {
  import opened Wrappers
  import opened Text

  /** The key/value pair one `.env` line contributes, if any: the stripped line must be
      non-empty, must not start with `#`, and must hold `=`; it splits at the first `=`
      and both halves are stripped. */
  function ParseLine(line: string): Option<(string, string)>
  {
    var t := Strip(line);
    if t != "" && t[0] != '#' then
      match IndexOf(t, '=')
      case None => None
      case Some(i) => Some((Strip(t[..i]), Strip(t[i + 1..])))
    else None
  }

  /** When a line contributes an entry: its stripped form is non-empty, does not start
      with `#`, and holds `=`. */
  lemma ParseLineAccepts(line: string)
    ensures var t := Strip(line);
      ParseLine(line).Some? <==> (t != "" && t[0] != '#' && '=' in t)
  {
  }

  /** Which entry a line contributes: the stripped text before its first `=` and the
      stripped text after it; so the key holds no `=`, and neither part has surrounding
      whitespace. */
  lemma ParseLineSplits(line: string)
    requires ParseLine(line).Some?
    ensures var t := Strip(line);
      exists i :: 0 <= i < |t| && t[i] == '=' && '=' !in t[..i]
        && ParseLine(line).value == (Strip(t[..i]), Strip(t[i + 1..]))
    ensures var entry := ParseLine(line).value;
      '=' !in entry.0 && Strip(entry.0) == entry.0 && Strip(entry.1) == entry.1
  {
    var t := Strip(line);
    var i := IndexOf(t, '=').value;
    var k, v := Strip(t[..i]), Strip(t[i + 1..]);
    assert ParseLine(line) == Some((k, v));
    StripOmits(t[..i], '=');
    StripIdempotent(t[..i]);
    StripIdempotent(t[i + 1..]);
  }

  /** The partner of `ParseLine`: writing `key=value` and parsing it back yields the same
      pair, for any key without `=` that does not start with `#` and any value, both
      without surrounding whitespace. */
  lemma ParseLineRendered(k: string, v: string)
    requires '=' !in k
    requires k == [] || (k[0] != '#' && !IsSpace(k[0]) && !IsSpace(k[|k| - 1]))
    requires v == [] || (!IsSpace(v[0]) && !IsSpace(v[|v| - 1]))
    ensures ParseLine(k + "=" + v) == Some((k, v))
  {
    var line := k + "=" + v;
    assert line[|k|] == '=';
    assert line[..|k|] == k;
    assert line[|k| + 1..] == v;
    StripStripped(line);
    StripStripped(k);
    StripStripped(v);
    assert IndexOf(line, '=') == Some(|k|);
  }

  /** The line contributes an entry for `key`. */
  predicate DefinesKey(line: string, key: string) {
    ParseLine(line).Some? && ParseLine(line).value.0 == key
  }

  /** The `env_vars` dictionary after reading `lines` in order: a later entry for a key
      replaces an earlier one. */
  function EnvOf(lines: seq<string>): map<string, string>
  {
    if lines == [] then map[]
    else
      Extend(EnvOf(lines[..|lines| - 1]), ParseLine(lines[|lines| - 1]))
  }

  /** `env_vars[key] = value` for the entry a line contributes, if any. */
  function Extend(env: map<string, string>, entry: Option<(string, string)>): map<string, string>
  {
    match entry
    case None => env
    case Some((k, v)) => env[k := v]
  }

  /** `load_env` with the file's lines given as input. */
  method LoadEnv(lines: seq<string>) returns (envVars: map<string, string>)
    ensures envVars == EnvOf(lines)
  {
    envVars := map[];
    var i := 0;
    while i < |lines|
      invariant 0 <= i <= |lines|
      invariant envVars == EnvOf(lines[..i])
    {
      assert lines[..i + 1][..i] == lines[..i];
      assert EnvOf(lines[..i + 1]) == Extend(EnvOf(lines[..i]), ParseLine(lines[i]));
      var line := Strip(lines[i]);
      if line != "" && line[0] != '#' && '=' in line {
        var eq := IndexOf(line, '=').value;
        var key, value := line[..eq], line[eq + 1..];
        envVars := envVars[Strip(key) := Strip(value)];
      }
      i := i + 1;
    }
    assert lines[..i] == lines;
  }

  /** A key is present exactly when some line defines it, and its value is the one the
      LAST such line gives. */
  lemma {:induction false} EnvOfSpec(lines: seq<string>, key: string)
    ensures key in EnvOf(lines) <==> exists i :: 0 <= i < |lines| && DefinesKey(lines[i], key)
    ensures key in EnvOf(lines) ==>
      exists i :: 0 <= i < |lines| && ParseLine(lines[i]) == Some((key, EnvOf(lines)[key]))
        && forall j :: i < j < |lines| ==> !DefinesKey(lines[j], key)
  {
    if lines != [] {
      var n := |lines|;
      var init := lines[..n - 1];
      EnvOfSpec(init, key);
      if DefinesKey(lines[n - 1], key) {
        assert ParseLine(lines[n - 1]) == Some((key, EnvOf(lines)[key]));
      } else {
        assert key in EnvOf(lines) <==> key in EnvOf(init);
        if key in EnvOf(init) {
          assert EnvOf(lines)[key] == EnvOf(init)[key];
          var i :| 0 <= i < |init| && ParseLine(init[i]) == Some((key, EnvOf(init)[key]))
            && forall j :: i < j < |init| ==> !DefinesKey(init[j], key);
          assert lines[i] == init[i];
          forall j | i < j < n ensures !DefinesKey(lines[j], key) {
            if j < n - 1 { assert lines[j] == init[j]; }
          }
        }
        if exists i :: 0 <= i < n && DefinesKey(lines[i], key) {
          var i :| 0 <= i < n && DefinesKey(lines[i], key);
          assert init[i] == lines[i];
        }
      }
    }
  }

  const ApiKeyName: string := "DD_API_KEY"
  const AppKeyName: string := "DD_APP_KEY"

  /** A Python value of type `str | None` is truthy. */
  predicate IsSet(v: Option<string>) {
    v.Some? && v.value != ""
  }

  /** Python's `a or b` on two `str | None` values. */
  function Or(a: Option<string>, b: Option<string>): Option<string>
  {
    if IsSet(a) then a else b
  }

  /** `d.get(key)` / `os.getenv(key)`. */
  function Lookup(d: map<string, string>, key: string): Option<string>
  {
    if key in d then Some(d[key]) else None
  }

  /** `env_vars.get(key) or os.getenv(key)`. */
  function Resolve(fileVars: map<string, string>, environ: map<string, string>, key: string): Option<string>
  {
    Or(Lookup(fileVars, key), Lookup(environ, key))
  }

  datatype Credentials = Credentials(apiKey: string, appKey: string)

  /** The one fatal error: a credential is missing, and the script exits with status 1. */
  datatype ConfigError = MissingCredentials

  /** The credential a resolution yields when it is set: the file's value when that is
      non-empty, otherwise the environment's. */
  function Chosen(fileVars: map<string, string>, environ: map<string, string>, key: string): string
  {
    if key in fileVars && fileVars[key] != "" then fileVars[key]
    else if key in environ then environ[key] else ""
  }

  /** Resolution of both credentials, with the abort when either is unset. */
  function LoadCredentials(fileVars: map<string, string>, environ: map<string, string>)
    : (r: Result<Credentials, ConfigError>)
    ensures r.Success? <==>
      ((ApiKeyName in fileVars && fileVars[ApiKeyName] != "") || (ApiKeyName in environ && environ[ApiKeyName] != ""))
      && ((AppKeyName in fileVars && fileVars[AppKeyName] != "") || (AppKeyName in environ && environ[AppKeyName] != ""))
    ensures r.Success? ==>
      r.value.apiKey == Chosen(fileVars, environ, ApiKeyName) && r.value.apiKey != ""
      && r.value.appKey == Chosen(fileVars, environ, AppKeyName) && r.value.appKey != ""
  {
    var api := Resolve(fileVars, environ, ApiKeyName);
    var app := Resolve(fileVars, environ, AppKeyName);
    if !IsSet(api) || !IsSet(app) then Failure(MissingCredentials)
    else Success(Credentials(api.value, app.value))
  }

  /** A `.env` file whose last definition of each credential is non-empty decides both
      credentials, whatever the environment holds. */
  lemma FileOverridesEnvironment(lines: seq<string>, environ: map<string, string>,
                                 i: nat, api: string, j: nat, app: string)
    requires i < |lines| && ParseLine(lines[i]) == Some((ApiKeyName, api)) && api != ""
    requires forall k :: i < k < |lines| ==> !DefinesKey(lines[k], ApiKeyName)
    requires j < |lines| && ParseLine(lines[j]) == Some((AppKeyName, app)) && app != ""
    requires forall k :: j < k < |lines| ==> !DefinesKey(lines[k], AppKeyName)
    ensures LoadCredentials(EnvOf(lines), environ) == Success(Credentials(api, app))
  {
    LastDefinitionWins(lines, ApiKeyName, i, api);
    LastDefinitionWins(lines, AppKeyName, j, app);
  }

  /** The value of a key is what its last defining line says. */
  lemma LastDefinitionWins(lines: seq<string>, key: string, i: nat, v: string)
    requires i < |lines| && ParseLine(lines[i]) == Some((key, v))
    requires forall k :: i < k < |lines| ==> !DefinesKey(lines[k], key)
    ensures key in EnvOf(lines) && EnvOf(lines)[key] == v
  {
    assert DefinesKey(lines[i], key);
    EnvOfSpec(lines, key);
    var i' :| 0 <= i' < |lines| && ParseLine(lines[i']) == Some((key, EnvOf(lines)[key]))
      && forall j :: i' < j < |lines| ==> !DefinesKey(lines[j], key);
    assert DefinesKey(lines[i'], key);
    if i != i' {
      assert false;
    }
  }
}
