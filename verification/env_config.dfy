/**
 Start-up configuration of the GitHub browser: the `KEY=value` lines of the
 `.env` resource (JS/torres-github-api.js, `loadEnvironment`) and the request
 headers built from the configured token (`getAuthHeaders`).
 */
module EnvConfig {
  import opened Strings
  import opened JsValues

  const TokenKey := "GITHUB_TOKEN"
  const UserKey := "GITHUB_USER"
  const DefaultUser := "Aivahn"
  const PlaceholderToken := "YOUR_TOKEN_HERE"
  const AcceptMediaType := "application/vnd.github.v3+json"

  /** The three module-level variables; `None` stands for `undefined`. */
  datatype Config = Config(user: Option<string>, token: Option<string>, reposUrl: string)

  /** The listing endpoint for a user, rendered as the template literal renders it. */
  function ReposUrl(user: Option<string>): string {
    "https://api.github.com/users/" + Render(user) + "/repos"
  }

  /** The values the script starts with before any `.env` line is read. */
  const Defaults := Config(Some(DefaultUser), Some(""), ReposUrl(Some(DefaultUser)))

  /** What one `.env` line asks for. */
  datatype Directive = Skip | Assign(key: string, value: Option<string>)

  /**
   One line: blank and `#` lines are skipped; otherwise the key is the text
   before the first `=` and the value the text between the first and the
   second `=` (absent when there is no `=`), both trimmed.
   */
  function ParseLine(raw: string): (d: Directive)
    ensures d.Skip? <==> (Trim(raw) == "" || Trim(raw)[0] == '#')
    ensures d.Assign? && d.value.Some? ==> Trim(d.value.value) == d.value.value
  {
    var line := Trim(raw);
    if line == "" || line[0] == '#' then Skip
    else
      var parts := Split(line, '=');
      TrimIdempotent(if |parts| >= 2 then parts[1] else "");
      Assign(Trim(parts[0]), if |parts| >= 2 then Some(Trim(parts[1])) else None)
  }

  /** A line `key=value`, optionally followed by `=...`, yields its trimmed key and value. */
  lemma ParseKeyValue(raw: string, key: string, value: string, rest: string)
    requires Trim(raw) == key + ['='] + value + rest
    requires key == [] || key[0] != '#'
    requires '=' !in key && '=' !in value
    requires rest == [] || rest[0] == '='
    ensures ParseLine(raw) == Assign(Trim(key), Some(Trim(value)))
  {
    var line := Trim(raw);
    assert line[0] == (if key == [] then '=' else key[0]);
    SplitKeyValue(line, key, value, rest);
  }

  lemma SplitKeyValue(line: string, key: string, value: string, rest: string)
    requires line == key + ['='] + value + rest
    requires '=' !in key && '=' !in value
    requires rest == [] || rest[0] == '='
    ensures var parts := Split(line, '=');
            |parts| >= 2 && parts[0] == key && parts[1] == value
  {
    if rest == [] {
      assert line == key + ['='] + value;
      SplitNoSeparator(value, '=');
      SplitAtFirst(key, value, '=');
    } else {
      assert line == key + ['='] + (value + ['='] + rest[1..]);
      SplitAtFirst(value, rest[1..], '=');
      SplitAtFirst(key, value + ['='] + rest[1..], '=');
    }
  }

  /** A non-comment line without `=` names a key with an undefined value. */
  lemma ParseKeyOnly(raw: string)
    requires Trim(raw) != "" && Trim(raw)[0] != '#'
    requires '=' !in Trim(raw)
    ensures ParseLine(raw) == Assign(Trim(Trim(raw)), None)
  {
    SplitNoSeparator(Trim(raw), '=');
  }

  /** The variable a key writes. */
  function Field(c: Config, key: string): Option<string>
    requires key == TokenKey || key == UserKey
  {
    if key == TokenKey then c.token else c.user
  }

  /** Whether a line assigns `key`. */
  predicate Assigns(raw: string, key: string) {
    ParseLine(raw).Assign? && ParseLine(raw).key == key
  }

  /** The effect of one line: only the two known keys change anything. */
  function ApplyLine(c: Config, raw: string): (c': Config)
    ensures !Assigns(raw, TokenKey) && !Assigns(raw, UserKey) ==> c' == c
    ensures Assigns(raw, TokenKey) ==> c' == c.(token := ParseLine(raw).value)
    ensures Assigns(raw, UserKey) ==> c'.token == c.token && c'.user == ParseLine(raw).value
    ensures Assigns(raw, UserKey) ==> c'.reposUrl == ReposUrl(c'.user)
  {
    match ParseLine(raw)
    case Skip => c
    case Assign(key, value) =>
      if key == TokenKey then c.(token := value)
      else if key == UserKey then c.(user := value, reposUrl := ReposUrl(value))
      else c
  }

  /** The `forEach` over the lines, in file order. */
  function ApplyLines(c: Config, lines: seq<string>): Config
    decreases |lines|
  {
    if |lines| == 0 then c else ApplyLines(ApplyLine(c, lines[0]), lines[1..])
  }

  /**
   `loadEnvironment`: the text of `.env`, split at every newline, applied line by
   line; a missing or unreadable file (`None`) leaves the configuration as it was.
   */
  function LoadEnvironment(c: Config, envFile: Option<string>): (c': Config)
    ensures envFile.None? ==> c' == c
    ensures c.reposUrl == ReposUrl(c.user) ==> c'.reposUrl == ReposUrl(c'.user)
  {
    match envFile
    case None => c
    case Some(content) =>
      var lines := Split(content, '\n');
      assert c.reposUrl == ReposUrl(c.user) ==> ApplyLines(c, lines).reposUrl == ReposUrl(ApplyLines(c, lines).user) by {
        if c.reposUrl == ReposUrl(c.user) {
          ReposUrlTracksUser(c, lines);
        }
      }
      ApplyLines(c, lines)
  }

  /** A key no line assigns keeps its previous value. */
  lemma {:induction false} UnassignedKeyKept(c: Config, lines: seq<string>, key: string)
    requires key == TokenKey || key == UserKey
    requires forall j :: 0 <= j < |lines| ==> !Assigns(lines[j], key)
    ensures Field(ApplyLines(c, lines), key) == Field(c, key)
    decreases |lines|
  {
    if |lines| > 0 {
      UnassignedKeyKept(ApplyLine(c, lines[0]), lines[1..], key);
    }
  }

  /** Later lines override earlier ones: the last line assigning a key decides its value. */
  lemma {:induction false} LastAssignmentWins(c: Config, lines: seq<string>, key: string, i: nat)
    requires key == TokenKey || key == UserKey
    requires i < |lines| && Assigns(lines[i], key)
    requires forall j :: i < j < |lines| ==> !Assigns(lines[j], key)
    ensures Field(ApplyLines(c, lines), key) == ParseLine(lines[i]).value
    decreases i
  {
    var next := ApplyLine(c, lines[0]);
    assert ApplyLines(c, lines) == ApplyLines(next, lines[1..]);
    if i == 0 {
      assert forall j :: 0 <= j < |lines[1..]| ==> !Assigns(lines[1..][j], key) by {
        forall j | 0 <= j < |lines[1..]| ensures !Assigns(lines[1..][j], key) {
          assert lines[1..][j] == lines[j + 1];
        }
      }
      UnassignedKeyKept(next, lines[1..], key);
    } else {
      assert lines[1..][i - 1] == lines[i];
      assert forall j :: i - 1 < j < |lines[1..]| ==> !Assigns(lines[1..][j], key) by {
        forall j | i - 1 < j < |lines[1..]| ensures !Assigns(lines[1..][j], key) {
          assert lines[1..][j] == lines[j + 1];
        }
      }
      LastAssignmentWins(next, lines[1..], key, i - 1);
    }
  }

  /** The listing URL always names the configured user. */
  lemma {:induction false} ReposUrlTracksUser(c: Config, lines: seq<string>)
    requires c.reposUrl == ReposUrl(c.user)
    ensures ApplyLines(c, lines).reposUrl == ReposUrl(ApplyLines(c, lines).user)
    decreases |lines|
  {
    if |lines| > 0 {
      ReposUrlTracksUser(ApplyLine(c, lines[0]), lines[1..]);
    }
  }

  /**
   Over a whole file: when line `i` of the file is the last to assign a key,
   the loaded configuration holds the value that line gives, and a key no
   line assigns keeps its value.
   */
  lemma LoadedFileLastLineWins(c: Config, lines: seq<string>, key: string, i: nat)
    requires key == TokenKey || key == UserKey
    requires forall j :: 0 <= j < |lines| ==> '\n' !in lines[j]
    requires i < |lines| && Assigns(lines[i], key)
    requires forall j :: i < j < |lines| ==> !Assigns(lines[j], key)
    ensures Field(LoadEnvironment(c, Some(Join(lines, '\n'))), key) == ParseLine(lines[i]).value
  {
    SplitJoin(lines, '\n');
    LastAssignmentWins(c, lines, key, i);
  }

  /** A file none of whose lines assigns a key leaves that key as it was. */
  lemma LoadedFileKeepsUnassigned(c: Config, content: string, key: string)
    requires key == TokenKey || key == UserKey
    requires forall j :: 0 <= j < |Split(content, '\n')| ==> !Assigns(Split(content, '\n')[j], key)
    ensures Field(LoadEnvironment(c, Some(content)), key) == Field(c, key)
  {
    UnassignedKeyKept(c, Split(content, '\n'), key);
  }

  /** The request headers (`getAuthHeaders`). */
  datatype Headers = Headers(accept: string, authorization: Option<string>)

  /**
   `Accept` is always sent; `Authorization: token <T>` only for a token that is
   defined, not blank after trimming and not the placeholder.
   */
  function AuthHeaders(token: Option<string>): (h: Headers)
    ensures h.accept == AcceptMediaType
    ensures h.authorization.Some? <==>
              (token.Some? && Trim(token.value) != "" && token.value != PlaceholderToken)
    ensures h.authorization.Some? ==> h.authorization.value == "token " + token.value
  {
    if Truthy(token) && Trim(token.value) != "" && token.value != PlaceholderToken then
      Headers(AcceptMediaType, Some("token " + token.value))
    else
      Headers(AcceptMediaType, None)
  }

  /**
   After loading a `.env` whose last `GITHUB_TOKEN` line is line `i`, a request
   is authorised exactly when that line gave a non-empty value other than the
   placeholder; the value sent is that value.
   */
  lemma LoadedTokenAuthorises(c: Config, lines: seq<string>, i: nat)
    requires i < |lines| && Assigns(lines[i], TokenKey)
    requires forall j :: i < j < |lines| ==> !Assigns(lines[j], TokenKey)
    ensures var v := ParseLine(lines[i]).value;
            var h := AuthHeaders(ApplyLines(c, lines).token);
            && (h.authorization.Some? <==> (v.Some? && v.value != "" && v.value != PlaceholderToken))
            && (h.authorization.Some? ==> h.authorization.value == "token " + v.value)
  {
    LastAssignmentWins(c, lines, TokenKey, i);
  }

  /** Without any token line the built-in empty token sends no `Authorization` header. */
  lemma DefaultsSendNoAuthorization(lines: seq<string>)
    requires forall j :: 0 <= j < |lines| ==> !Assigns(lines[j], TokenKey)
    ensures AuthHeaders(ApplyLines(Defaults, lines).token).authorization == None
  {
    UnassignedKeyKept(Defaults, lines, TokenKey);
    assert !Truthy(Defaults.token);
  }
}
