/** The configuration part of project/includes/db.php: the connection
    settings (environment value or hard-coded default) and the base path the
    pages put in front of their links and redirects. The environment
    (`getenv`) and the server variables (`$_SERVER`) are parameters. */
module Config {
  import opened Php

  /** PHP truthiness of what `getenv` returns: an unset variable (`false`),
      the empty string and "0" are falsy, every other string is truthy. */
  predicate Truthy(env: map<string, string>, name: string)
  {
    name in env && env[name] != "" && env[name] != "0"
  }

  /** `getenv($name) ?: $default`. */
  function EnvOr(env: map<string, string>, name: string, default: string): string
  {
    if Truthy(env, name) then env[name] else default
  }

  datatype DbSettings = DbSettings(host: string, name: string, user: string, pass: string)

  /** The four connection settings, each overridable from the environment. */
  function Settings(env: map<string, string>): DbSettings
  {
    DbSettings(EnvOr(env, "DB_HOST", "127.0.0.1"),
               EnvOr(env, "DB_NAME", "blogproject"),
               EnvOr(env, "DB_USER", "root"),
               EnvOr(env, "DB_PASS", ""))
  }

  /** A setting keeps the environment value exactly when it is truthy; an
      unset, empty or "0" value falls back to the default. */
  lemma EnvFallback(env: map<string, string>, name: string, default: string)
    ensures name !in env ==> EnvOr(env, name, default) == default
    ensures name in env && (env[name] == "" || env[name] == "0") ==> EnvOr(env, name, default) == default
    ensures name in env && env[name] != "" && env[name] != "0" ==> EnvOr(env, name, default) == env[name]
  {
  }

  /** Without environment variables the defaults of a local XAMPP/MAMP
      installation apply. */
  lemma DefaultSettings()
    ensures Settings(map[]) == DbSettings("127.0.0.1", "blogproject", "root", "")
  {
  }

  // ------------------------------------------------------------------
  // $baseUrl
  // ------------------------------------------------------------------

  /** The project's own subdirectories, in the order they are tried. */
  const KnownSubdirs: seq<string> := ["/posts/", "/categories/", "/includes/"]

  /** `str_replace('\\', '/', (string)($_SERVER['SCRIPT_NAME'] ?? ''))`. */
  function ScriptName(server: map<string, string>): string
  {
    ReplaceBackslashes(StringParam(server, "SCRIPT_NAME", ""))
  }

  /** The index of the first known subdirectory, from index `k` on in list
      order, that occurs anywhere in `s`. */
  function FirstKnownFrom(s: string, k: nat): (r: Option<nat>)
    requires k <= |KnownSubdirs|
    ensures r.Some? ==> k <= r.value < |KnownSubdirs| && StrPos(s, KnownSubdirs[r.value]).Some?
    ensures r.Some? ==> forall j :: k <= j < r.value ==> StrPos(s, KnownSubdirs[j]).None?
    ensures r.None? ==> forall j :: k <= j < |KnownSubdirs| ==> StrPos(s, KnownSubdirs[j]).None?
    decreases |KnownSubdirs| - k
  {
    if k == |KnownSubdirs| then None
    else if StrPos(s, KnownSubdirs[k]).Some? then Some(k)
    else FirstKnownFrom(s, k + 1)
  }

  /** The base before tidying: the text before the first occurrence of the
      first known subdirectory in list order, or else the directory of the
      script. */
  function RawBase(s: string): string
  {
    match FirstKnownFrom(s, 0)
    case Some(k) => s[..StrPos(s, KnownSubdirs[k]).value]
    case None => ReplaceBackslashes(DirName(s))
  }

  /** Trailing slashes removed, and "/" becomes "". */
  function Tidy(b: string): (t: string)
    ensures t == RTrimChar(b, '/')
    ensures t == [] || (t != "/" && t[|t| - 1] != '/')
  {
    var t := RTrimChar(b, '/');
    if t == "/" then "" else t
  }

  /** The base path detected from a (normalised) script name. */
  function DetectedBase(s: string): string
  {
    Tidy(RawBase(s))
  }

  /** `$baseUrl` as the file computes it: `BASE_URL` when it is truthy,
      otherwise auto-detection from the script name, trying the known
      subdirectories in order and stopping at the first that occurs. */
  method BaseUrl(env: map<string, string>, server: map<string, string>) returns (baseUrl: string)
    ensures Truthy(env, "BASE_URL") ==> baseUrl == env["BASE_URL"]
    ensures !Truthy(env, "BASE_URL") ==> baseUrl == DetectedBase(ScriptName(server))
  {
    baseUrl := EnvOr(env, "BASE_URL", "");
    if baseUrl == "" {
      var scriptName := ReplaceBackslashes(StringParam(server, "SCRIPT_NAME", ""));
      baseUrl := "";
      var foundKnownSubdir := false;
      for i := 0 to |KnownSubdirs|
        invariant !foundKnownSubdir
        invariant FirstKnownFrom(scriptName, 0) == FirstKnownFrom(scriptName, i)
      {
        var pos := StrPos(scriptName, KnownSubdirs[i]);
        if pos.Some? {
          baseUrl := scriptName[..pos.value];
          foundKnownSubdir := true;
          break;
        }
      }
      if !foundKnownSubdir {
        baseUrl := ReplaceBackslashes(DirName(scriptName));
      }
      assert baseUrl == RawBase(scriptName);
      baseUrl := RTrimChar(baseUrl, '/');
      if baseUrl == "/" {
        baseUrl := "";
      }
    }
  }

  /** The first subdirectory in list order that occurs decides, not the
      leftmost one: the raw base is the text before that subdirectory's
      first occurrence, and no earlier subdirectory of the list occurs. */
  lemma ListOrderDecides(s: string, k: nat)
    requires k < |KnownSubdirs| && StrPos(s, KnownSubdirs[k]).Some?
    requires forall j :: 0 <= j < k ==> StrPos(s, KnownSubdirs[j]).None?
    ensures var p := StrPos(s, KnownSubdirs[k]).value;
            RawBase(s) == s[..p] && OccursAt(s, KnownSubdirs[k], p)
  {
    assert FirstKnownFrom(s, 0) == Some(k);
  }

  /** A script inside a known subdirectory of the web root (the subdirectory
      at position 0) gives the empty base. */
  lemma SubdirAtRootGivesEmpty(s: string, k: nat)
    requires k < |KnownSubdirs| && StrPos(s, KnownSubdirs[k]) == Some(0)
    requires forall j :: 0 <= j < k ==> StrPos(s, KnownSubdirs[j]).None?
    ensures DetectedBase(s) == ""
  {
    ListOrderDecides(s, k);
    assert RawBase(s) == [];
  }

  /** Without a known subdirectory the base is the script's directory, with
      its trailing slashes removed. */
  lemma NoSubdirUsesDirname(s: string)
    requires forall j :: 0 <= j < |KnownSubdirs| ==> StrPos(s, KnownSubdirs[j]).None?
    ensures DetectedBase(s) == Tidy(ReplaceBackslashes(DirName(s)))
  {
    assert FirstKnownFrom(s, 0).None?;
  }
  /** A directory name between slashes: "/" + name + "/" with no slash in
      the name. */
  predicate DirectoryToken(sub: string)
  {
    && |sub| >= 2 && sub[0] == '/' && sub[|sub| - 1] == '/'
    && forall i :: 0 < i < |sub| - 1 ==> sub[i] != '/'
  }

  /** Each known subdirectory is such a directory name. */
  lemma KnownSubdirsAreTokens()
    ensures forall k :: 0 <= k < |KnownSubdirs| ==> DirectoryToken(KnownSubdirs[k])
  {
  }

  /** In "/" + p + rest, where p is a path segment and rest starts with a
      slash, a directory name can start within "/" + p only at position 0,
      and only when it is "/" + p + "/". */
  lemma OccurrenceInFirstSegment(p: string, rest: string, sub: string, j: int)
    requires PathSegment(p) && rest != [] && rest[0] == '/'
    requires DirectoryToken(sub) && OccursAt("/" + p + rest, sub, j) && j <= |p|
    ensures j == 0 && sub == "/" + p + "/" && sub[1..|sub| - 1] == p
  {
    var s := "/" + p + rest;
    assert s[j] == sub[0];
    assert s[|p| + 1] == '/';
    assert forall i :: 0 < i <= |p| ==> s[i] == p[i - 1];
    assert forall i :: 0 <= i < |sub| ==> s[j + i] == sub[i];
    assert sub == s[..|p| + 2];
    assert s[..|p| + 2] == "/" + p + "/";
    assert ("/" + p + "/")[1..|p| + 1] == p;
  }

  /** A script at "/<p>/<f>" where p is not one of the known subdirectory
      names contains none of them. */
  lemma NoKnownSubdirIn(p: string, f: string)
    requires PathSegment(p) && PathSegment(f)
    requires forall k :: 0 <= k < |KnownSubdirs| ==> KnownSubdirs[k] != "/" + p + "/"
    ensures FirstKnownFrom("/" + p + "/" + f, 0).None?
  {
    var s := "/" + p + "/" + f;
    assert s == "/" + p + ("/" + f);
    KnownSubdirsAreTokens();
    forall k, j | 0 <= k < |KnownSubdirs| && 0 <= j
      ensures !OccursAt(s, KnownSubdirs[k], j)
    {
      var sub := KnownSubdirs[k];
      if j <= |p| && OccursAt(s, sub, j) {
        OccurrenceInFirstSegment(p, "/" + f, sub, j);
      } else if |p| < j && j + |sub| <= |s| {
        assert s[j + |sub| - 1] == f[j + |sub| - |p| - 3];
      }
    }
  }

  /** A script directly in the web root ("/index.php", the Docker or
      built-in server set-up) gives the empty base. */
  lemma WebRootScript(f: string)
    requires PathSegment(f)
    ensures DetectedBase("/" + f) == ""
  {
    var s := "/" + f;
    assert forall i :: 0 < i < |s| ==> s[i] == f[i - 1];
    KnownSubdirsAreTokens();
    forall k, j | 0 <= k < |KnownSubdirs| && 0 <= j
      ensures !OccursAt(s, KnownSubdirs[k], j)
    {
      var sub := KnownSubdirs[k];
      if j + |sub| <= |s| {
        assert s[j + |sub| - 1] == f[j + |sub| - 2];
      }
    }
    assert FirstKnownFrom(s, 0).None?;
    DirNameOfFile("/", f);
    assert ReplaceBackslashes("/") == "/";
  }

  /** A script one folder deep ("/project/index.php", the XAMPP/MAMP
      set-up) gives that folder ("/project"), found through `dirname`. */
  lemma SubfolderScript(p: string, f: string)
    requires PathSegment(p) && PathSegment(f)
    requires forall k :: 0 <= k < |KnownSubdirs| ==> KnownSubdirs[k] != "/" + p + "/"
    ensures DetectedBase("/" + p + "/" + f) == "/" + p
  {
    NoKnownSubdirIn(p, f);
    var a := "/" + p + "/";
    DirNameOfFile(a, f);
    assert RTrimChar(a, '/') == "/" + p by {
      assert a[..|a| - 1] == "/" + p;
      assert ("/" + p)[|p|] == p[|p| - 1];
    }
    assert ReplaceBackslashes("/" + p) == "/" + p;
    assert ("/" + p)[|p|] == p[|p| - 1];
  }

  /** A page under the posts folder of a project folder
      ("/project/posts/edit.php") gives the project folder ("/project"). */
  lemma SubfolderPostsPage(p: string, f: string)
    requires PathSegment(p) && p != "posts"
    ensures DetectedBase("/" + p + "/posts/" + f) == "/" + p
  {
    var s := "/" + p + "/posts/" + f;
    assert s == "/" + p + ("/posts/" + f);
    KnownSubdirsAreTokens();
    assert OccursAt(s, "/posts/", |p| + 1) by {
      assert s[|p| + 1..|p| + 8] == "/posts/";
    }
    forall j | 0 <= j < |p| + 1
      ensures !OccursAt(s, "/posts/", j)
    {
      if OccursAt(s, "/posts/", j) {
        OccurrenceInFirstSegment(p, "/posts/" + f, "/posts/", j);
      }
    }
    assert StrPos(s, KnownSubdirs[0]) == Some(|p| + 1);
    assert FirstKnownFrom(s, 0) == Some(0);
    assert s[..|p| + 1] == "/" + p;
    assert ("/" + p)[|p|] == p[|p| - 1];
  }

  /** A page under the posts folder of the web root ("/posts/edit.php")
      gives the empty base. */
  lemma WebRootPostsPage(f: string)
    ensures DetectedBase("/posts/" + f) == ""
  {
    var s := "/posts/" + f;
    assert OccursAt(s, KnownSubdirs[0], 0) by {
      assert s[..7] == "/posts/";
    }
    SubdirAtRootGivesEmpty(s, 0);
  }
}
