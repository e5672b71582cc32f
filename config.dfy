/** The required-configuration check that runs before anything else
    (main.py lines 246-264). The process environment is a map from variable
    names to values; `os.getenv(name)` is falsy when the name is absent and
    also when its value is the empty string. */
module Config {
  import opened Results
  import opened Text

  /** The variables the pipeline needs, in declaration order. */
  const RequiredEnvVars: seq<string> := [
    "PRESS_CODE", "GOOGLE_API_KEY", "GEMINI_MODEL", "BASE_URL",
    "TELEGRAM_CHAT_TEST_ID", "TELEGRAM_CHAT_ID", "TELEGRAM_BOT_TOKEN"
  ]

  /** `os.getenv(name)` is truthy. */
  predicate IsSet(env: map<string, string>, name: string)
  {
    name in env && env[name] != ""
  }

  /** The names of `names` that are not set, in the order of `names`. */
  function MissingNames(names: seq<string>, env: map<string, string>): seq<string>
  {
    if names == [] then []
    else
      var last := names[|names| - 1];
      MissingNames(names[..|names| - 1], env) + (if IsSet(env, last) then [] else [last])
  }

  const MissingVarsPrefix: string := "🛑 필수 환경변수가 설정되지 않았습니다: "

  /** The message of the `ValueError` raised for a non-empty list. */
  function MissingVarsMessage(missingVars: seq<string>): string
  {
    MissingVarsPrefix + Join(", ", missingVars)
  }

  /** The check: collect the unset names in a loop, then fail with one
      message listing them all if there are any. */
  method CheckRequiredEnv(env: map<string, string>) returns (missingVars: seq<string>, error: Option<string>)
    ensures missingVars == MissingNames(RequiredEnvVars, env)
    ensures error.Some? <==> missingVars != []
    ensures error.Some? ==> error.value == MissingVarsMessage(missingVars)
  {
    missingVars := [];
    for i := 0 to |RequiredEnvVars|
      invariant missingVars == MissingNames(RequiredEnvVars[..i], env)
    {
      var name := RequiredEnvVars[i];
      assert RequiredEnvVars[..i + 1][..i] == RequiredEnvVars[..i];
      if !IsSet(env, name) {
        missingVars := missingVars + [name];
      }
    }
    assert RequiredEnvVars[..|RequiredEnvVars|] == RequiredEnvVars;
    if missingVars != [] {
      error := Some(MissingVarsMessage(missingVars));
    } else {
      error := None;
    }
  }

  /** A name is reported exactly when it is one of `names` and is not set. */
  lemma {:induction false} MissingNamesExact(names: seq<string>, env: map<string, string>, x: string)
    ensures x in MissingNames(names, env) <==> x in names && !IsSet(env, x)
  {
    if names != [] {
      var init := names[..|names| - 1];
      MissingNamesExact(init, env, x);
      assert names == init + [names[|names| - 1]];
    }
  }

  /** The check keeps declaration order: the names missing from `a + b` are
      those missing from `a` followed by those missing from `b`. */
  lemma {:induction false} MissingNamesAppend(a: seq<string>, b: seq<string>, env: map<string, string>)
    ensures MissingNames(a + b, env) == MissingNames(a, env) + MissingNames(b, env)
    decreases |b|
  {
    if b == [] {
      assert a + b == a;
    } else {
      var init := b[..|b| - 1];
      assert (a + b)[..|a + b| - 1] == a + init;
      MissingNamesAppend(a, init, env);
    }
  }

  /** The run stops exactly when some required variable is unset, and the
      message names every unset variable. */
  lemma CheckFailsIffUnset(env: map<string, string>)
    ensures var missing := MissingNames(RequiredEnvVars, env);
      && (missing != [] <==> exists i :: 0 <= i < |RequiredEnvVars| && !IsSet(env, RequiredEnvVars[i]))
      && forall k :: 0 <= k < |missing| ==> Contains(MissingVarsMessage(missing), missing[k])
  {
    var missing := MissingNames(RequiredEnvVars, env);
    if exists i :: 0 <= i < |RequiredEnvVars| && !IsSet(env, RequiredEnvVars[i]) {
      var i :| 0 <= i < |RequiredEnvVars| && !IsSet(env, RequiredEnvVars[i]);
      MissingNamesExact(RequiredEnvVars, env, RequiredEnvVars[i]);
    }
    if missing != [] {
      MissingNamesExact(RequiredEnvVars, env, missing[0]);
    }
    forall k | 0 <= k < |missing| ensures Contains(MissingVarsMessage(missing), missing[k]) {
      JoinContainsPart(", ", missing, k);
      ContainsWithin(MissingVarsPrefix, Join(", ", missing), "", missing[k]);
      assert MissingVarsPrefix + Join(", ", missing) + "" == MissingVarsMessage(missing);
    }
  }

  /** A variable set to the empty string counts as missing, like an absent one. */
  lemma EmptyValueIsMissing(env: map<string, string>, i: nat)
    requires i < |RequiredEnvVars|
    requires RequiredEnvVars[i] in env && env[RequiredEnvVars[i]] == ""
    ensures RequiredEnvVars[i] in MissingNames(RequiredEnvVars, env)
  {
    MissingNamesExact(RequiredEnvVars, env, RequiredEnvVars[i]);
  }
}
