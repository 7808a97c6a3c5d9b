// The command line's ledger file list: the files named by the BEANCOUNT_FILE
// environment value come first, then the command-line files, each file once.
// The environment value, the path separator and the is-absolute test are
// parameters.
module Cli {
  import opened Wrappers
  import opened AccountPath
  import opened Sequences

  /** fava's NonAbsolutePathError, naming the offending file. */
  datatype CliError = NonAbsolutePath(name: string)

  /** `names[i]` is `n`, is not absolute, and every earlier name is. */
  ghost predicate FirstFailure(names: seq<string>, isAbsolute: string -> bool, i: int, n: string)
  {
    0 <= i < |names| && names[i] == n && !isAbsolute(n)
    && forall j :: 0 <= j < i ==> isAbsolute(names[j])
  }

  /** The first name that is not absolute, if any. */
  function FirstNonAbsolute(names: seq<string>, isAbsolute: string -> bool): (r: Option<string>)
    ensures r.None? <==> forall n :: n in names ==> isAbsolute(n)
    ensures r.Some? ==> exists i :: FirstFailure(names, isAbsolute, i, r.value)
  {
    if |names| == 0 then None
    else if !isAbsolute(names[0]) then
      assert FirstFailure(names, isAbsolute, 0, names[0]);
      Some(names[0])
    else
      var rest := FirstNonAbsolute(names[1..], isAbsolute);
      assert forall n :: n in names <==> n == names[0] || n in names[1..];
      if rest.Some? then
        FirstFailureShift(names, isAbsolute, rest.value);
        rest
      else rest
  }

  lemma FirstFailureShift(names: seq<string>, isAbsolute: string -> bool, n: string)
    requires |names| > 0 && isAbsolute(names[0])
    requires exists i :: FirstFailure(names[1..], isAbsolute, i, n)
    ensures exists i :: FirstFailure(names, isAbsolute, i, n)
  {
    var i :| FirstFailure(names[1..], isAbsolute, i, n);
    assert FirstFailure(names, isAbsolute, i + 1, n);
  }

  /** The environment names, when the value is set and non-empty. */
  function EnvNames(env: Option<string>, pathsep: char): seq<string>
  {
    if env.None? || env.value == "" then [] else SplitOn(env.value, pathsep)
  }

  /** `_add_env_filenames`: without an environment value the filenames,
      de-duplicated; otherwise every environment name must be absolute, and
      the environment names then the filenames are de-duplicated. */
  function AddEnvFilenames(env: Option<string>, filenames: seq<string>, pathsep: char, isAbsolute: string -> bool)
    : (r: Result<seq<string>, CliError>)
    ensures r.Err? <==> exists n :: n in EnvNames(env, pathsep) && !isAbsolute(n)
    ensures r.Err? ==> exists i :: FirstFailure(EnvNames(env, pathsep), isAbsolute, i, r.error.name)
    ensures r.Ok? ==> Distinct(r.value)
    ensures r.Ok? ==> forall x :: x in r.value <==> x in EnvNames(env, pathsep) || x in filenames
  {
    if env.None? || env.value == "" then Ok(Dedup(filenames))
    else
      var names := SplitOn(env.value, pathsep);
      match FirstNonAbsolute(names, isAbsolute)
      case Some(n) => Err(NonAbsolutePath(n))
      case None => Ok(Dedup(names + filenames))
  }

  /** The environment names keep their first-occurrence order at the front
      of the result; the filenames only follow them. */
  lemma EnvNamesFirst(env: Option<string>, filenames: seq<string>, pathsep: char, isAbsolute: string -> bool)
    requires AddEnvFilenames(env, filenames, pathsep, isAbsolute).Ok?
    ensures Dedup(EnvNames(env, pathsep)) <= AddEnvFilenames(env, filenames, pathsep, isAbsolute).value
    ensures AddEnvFilenames(env, filenames, pathsep, isAbsolute).value
         == Dedup(EnvNames(env, pathsep) + filenames)
  {
    var names := EnvNames(env, pathsep);
    if env.None? || env.value == "" {
      assert names + filenames == filenames;
    }
    DedupPrefix(names, filenames);
  }

  /** Only the environment names are checked: how the test judges the
      command-line filenames never changes the result. */
  lemma FilenamesUnchecked(env: Option<string>, filenames: seq<string>, pathsep: char,
                           isAbsolute: string -> bool, isAbsolute': string -> bool)
    requires forall n :: n in EnvNames(env, pathsep) ==> isAbsolute(n) == isAbsolute'(n)
    ensures AddEnvFilenames(env, filenames, pathsep, isAbsolute) == AddEnvFilenames(env, filenames, pathsep, isAbsolute')
  {
    if env.Some? && env.value != "" {
      var names := SplitOn(env.value, pathsep);
      SameFirstNonAbsolute(names, isAbsolute, isAbsolute');
    }
  }

  lemma {:induction false} SameFirstNonAbsolute(names: seq<string>, p: string -> bool, q: string -> bool)
    requires forall n :: n in names ==> p(n) == q(n)
    ensures FirstNonAbsolute(names, p) == FirstNonAbsolute(names, q)
  {
    if |names| > 0 && p(names[0]) {
      assert forall n :: n in names[1..] ==> n in names;
      SameFirstNonAbsolute(names[1..], p, q);
    }
  }
}
