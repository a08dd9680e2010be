/**
 The branch resolver of the documentation build: from the CI variables of GitHub
 Actions it picks the branch that source links point at.
 */
module Branch {
  import opened Wrappers
  import opened Text

  /** The process environment, as far as the resolver reads it. */
  type Env = map<string, string>

  const RefName := "GITHUB_REF_NAME"
  const BaseRef := "GITHUB_BASE_REF"
  const RefType := "GITHUB_REF_TYPE"

  /** The exceptions the resolver lets escape. */
  datatype BranchError =
    | KeyError(key: string)       // `os.environ[key]` on a variable that is not set
    | NoVersionPrefix(tag: string) // `re.match` found nothing, so `.group()` fails on None

  /** `p` is a whole match of `\d+\.\d+` (ASCII digits). */
  ghost predicate IsVersion(p: string) {
    exists i :: 0 < i < |p| - 1 && p[i] == '.' && AllDigits(p[..i]) && AllDigits(p[i + 1..])
  }

  /**
   `re.match(r"(\d+\.\d+)", s)`: a greedy digit run, a dot, a greedy digit run, anchored
   at the start of `s` only. Backtracking cannot help the first run (a shorter run is
   followed by a digit, not a dot), so the match is found without it.
   */
  function MatchVersion(s: string): Option<string> {
    var n1 := DigitRun(s);
    if n1 == 0 || n1 == |s| || s[n1] != '.' then None
    else
      var n2 := DigitRun(s[n1 + 1..]);
      if n2 == 0 then None else Some(s[..n1 + 1 + n2])
  }

  /** A prefix shaped like the pattern, with its dot at `i`, is spelled out on `s` itself. */
  lemma VersionPrefixAt(s: string, k: nat, i: nat)
    requires k <= |s| && 0 < i < k - 1
    requires s[..k][i] == '.' && AllDigits(s[..k][..i]) && AllDigits(s[..k][i + 1..])
    ensures s[i] == '.' && AllDigits(s[..i]) && AllDigits(s[i + 1..][..k - i - 1])
  {
    assert s[..k][..i] == s[..i];
    assert s[..k][i + 1..] == s[i + 1..][..k - i - 1];
  }

  /** Any prefix of `s` shaped like the pattern has its dot right after the first digit run. */
  lemma VersionPrefix(s: string, k: nat)
    requires k <= |s| && IsVersion(s[..k])
    ensures var n1 := DigitRun(s);
      && 0 < n1 < |s| && s[n1] == '.'
      && 0 < DigitRun(s[n1 + 1..])
      && k <= n1 + 1 + DigitRun(s[n1 + 1..])
  {
    var q := s[..k];
    var i :| 0 < i < |q| - 1 && q[i] == '.' && AllDigits(q[..i]) && AllDigits(q[i + 1..]);
    VersionPrefixAt(s, k, i);
    DigitRunAtLeast(s, i);
    DigitRunAtMost(s, i);
    DigitRunAtLeast(s[i + 1..], k - i - 1);
  }

  /** A match has the shape of the pattern and is a prefix of the subject. */
  lemma MatchIsVersion(s: string)
    requires MatchVersion(s).Some?
    ensures MatchVersion(s).value <= s && IsVersion(MatchVersion(s).value)
  {
    var n1 := DigitRun(s);
    var t := s[n1 + 1..];
    var n2 := DigitRun(t);
    var p := s[..n1 + 1 + n2];
    assert p[..n1] == s[..n1];
    assert p[n1 + 1..] == s[n1 + 1..n1 + 1 + n2] == t[..n2];
    assert p[n1] == '.';
  }

  /** A match is a prefix of the subject, has the shape of the pattern, and no longer prefix does. */
  lemma MatchVersionSound(s: string)
    requires MatchVersion(s).Some?
    ensures var p := MatchVersion(s).value;
      && p <= s
      && IsVersion(p)
      && forall k :: |p| < k <= |s| ==> !IsVersion(s[..k])
  {
    MatchIsVersion(s);
    var p := MatchVersion(s).value;
    forall k | |p| < k <= |s|
      ensures !IsVersion(s[..k])
    {
      if IsVersion(s[..k]) {
        VersionPrefix(s, k);
      }
    }
  }

  /** No match means that no prefix of the subject has the shape of the pattern. */
  lemma MatchVersionComplete(s: string)
    requires MatchVersion(s).None?
    ensures forall k :: 0 <= k <= |s| ==> !IsVersion(s[..k])
  {
    forall k | 0 <= k <= |s|
      ensures !IsVersion(s[..k])
    {
      if IsVersion(s[..k]) {
        VersionPrefix(s, k);
      }
    }
  }

  /** The match of a tag `d1.d2<rest>` is `d1.d2` when the digit runs are maximal. */
  lemma {:induction false} MatchVersionOf(d1: string, d2: string, rest: string)
    requires d1 != [] && AllDigits(d1) && d2 != [] && AllDigits(d2)
    requires rest == [] || !IsDigit(rest[0])
    ensures MatchVersion(d1 + "." + d2 + rest) == Some(d1 + "." + d2)
  {
    var s := d1 + "." + d2 + rest;
    var n1 := |d1|;
    assert s[..n1] == d1 && s[n1] == '.';
    DigitRunAtLeast(s, n1);
    DigitRunAtMost(s, n1);
    var t := s[n1 + 1..];
    assert t == d2 + rest;
    assert t[..|d2|] == d2;
    DigitRunAtLeast(t, |d2|);
    if rest != [] {
      assert t[|d2|] == rest[0];
      DigitRunAtMost(t, |d2|);
    }
    assert s[..n1 + 1 + |d2|] == d1 + "." + d2;
  }

  /** `determine_github_branch()`, reading the environment `env`. */
  function DetermineBranch(env: Env): Result<string, BranchError> {
    if RefName !in env then Success("main")
    else if BaseRef in env && env[BaseRef] != "" then Success(env[BaseRef])
    else if RefType !in env then Failure(KeyError(RefType))
    else if env[RefType] == "branch" then Success(env[RefName])
    else match MatchVersion(env[RefName])
      case None => Failure(NoVersionPrefix(env[RefName]))
      case Some(v) => Success("stable/" + v)
  }

  /** Local builds: without a ref name the branch is `main`, whatever else is set. */
  lemma LocalBuildIsMain(env: Env)
    requires RefName !in env
    ensures DetermineBranch(env) == Success("main")
  {
  }

  /** Pull-request builds link to the branch they merge into; an empty base ref counts as unset. */
  lemma BaseRefWins(env: Env)
    requires RefName in env
    ensures BaseRef in env && env[BaseRef] != "" ==> DetermineBranch(env) == Success(env[BaseRef])
    ensures BaseRef in env && env[BaseRef] == "" ==> DetermineBranch(env) == DetermineBranch(env - {BaseRef})
  {
  }

  /** Branch builds link to the branch itself; with no ref type at this point the lookup raises. */
  lemma BranchBuild(env: Env)
    requires RefName in env
    requires BaseRef !in env || env[BaseRef] == ""
    ensures RefType !in env ==> DetermineBranch(env) == Failure(KeyError(RefType))
    ensures RefType in env && env[RefType] == "branch" ==> DetermineBranch(env) == Success(env[RefName])
  {
  }

  /** Tag builds link to `stable/<d1>.<d2>`, the maximal digit runs around the first dot. */
  lemma {:induction false} TagBuild(env: Env, d1: string, d2: string, rest: string)
    requires env[RefName := d1 + "." + d2 + rest] == env
    requires BaseRef !in env || env[BaseRef] == ""
    requires RefType in env && env[RefType] != "branch"
    requires d1 != [] && AllDigits(d1) && d2 != [] && AllDigits(d2)
    requires rest == [] || !IsDigit(rest[0])
    ensures DetermineBranch(env) == Success("stable/" + d1 + "." + d2)
  {
    assert env[RefName] == d1 + "." + d2 + rest;
    MatchVersionOf(d1, d2, rest);
    assert "stable/" + (d1 + "." + d2) == "stable/" + d1 + "." + d2;
  }

  /** A tag that does not start with `digits.digits` stops the build. */
  lemma TagWithoutVersionFails(env: Env)
    requires RefName in env
    requires BaseRef !in env || env[BaseRef] == ""
    requires RefType in env && env[RefType] != "branch"
    requires forall k :: 0 <= k <= |env[RefName]| ==> !IsVersion(env[RefName][..k])
    ensures DetermineBranch(env) == Failure(NoVersionPrefix(env[RefName]))
  {
    if MatchVersion(env[RefName]).Some? {
      MatchVersionSound(env[RefName]);
      assert false;
    }
  }

  /** Every branch the resolver returns is one of the four kinds it is meant to produce. */
  lemma {:induction false} BranchKinds(env: Env)
    requires DetermineBranch(env).Success?
    ensures var b := DetermineBranch(env).value;
      || b == "main"
      || (BaseRef in env && b == env[BaseRef] != "")
      || (RefName in env && b == env[RefName])
      || (RefName in env && |b| > 7 && b[..7] == "stable/" && IsVersion(b[7..]) && b[7..] <= env[RefName])
  {
    if RefName in env && (BaseRef !in env || env[BaseRef] == "") && RefType in env && env[RefType] != "branch" {
      MatchVersionSound(env[RefName]);
      var b := DetermineBranch(env).value;
      assert b[7..] == MatchVersion(env[RefName]).value;
    }
  }

  /** The resolver fails exactly when a non-branch build has no ref type or a tag without a version. */
  lemma {:induction false} BranchFailsIff(env: Env)
    ensures DetermineBranch(env).Failure? <==>
      && RefName in env
      && (BaseRef !in env || env[BaseRef] == "")
      && (RefType !in env
          || (env[RefType] != "branch" && forall k :: 0 <= k <= |env[RefName]| ==> !IsVersion(env[RefName][..k])))
  {
    if RefName in env && (BaseRef !in env || env[BaseRef] == "") && RefType in env && env[RefType] != "branch" {
      var tag := env[RefName];
      if MatchVersion(tag).None? {
        MatchVersionComplete(tag);
      } else {
        MatchVersionSound(tag);
        assert tag[..|MatchVersion(tag).value|] == MatchVersion(tag).value;
      }
    }
  }

  /** The three variable names are distinct. */
  lemma VariablesDistinct()
    ensures RefName != BaseRef && RefName != RefType && BaseRef != RefType
  {
  }

  /** Release tags `1.2.3` and `1.2.3rc1` both link to `stable/1.2`. */
  lemma ReleaseTagExamples()
    ensures DetermineBranch(map[RefName := "1.2.3", RefType := "tag"]) == Success("stable/1.2")
    ensures DetermineBranch(map[RefName := "1.2.3rc1", RefType := "tag"]) == Success("stable/1.2")
  {
    TagExample(".3");
    assert "1.2" + ".3" == "1.2.3";
    TagExample(".3rc1");
    assert "1.2" + ".3rc1" == "1.2.3rc1";
  }

  lemma TagExample(rest: string)
    requires rest == ".3" || rest == ".3rc1"
    ensures DetermineBranch(map[RefName := "1.2" + rest, RefType := "tag"]) == Success("stable/1.2")
  {
    VariablesDistinct();
    var env := map[RefName := "1.2" + rest, RefType := "tag"];
    assert env[RefName] == "1" + "." + "2" + rest;
    MatchVersionOf("1", "2", rest);
    assert MatchVersion(env[RefName]) == Some("1.2");
    assert "stable/" + "1.2" == "stable/1.2";
  }

  /** A branch build links to the branch; a tag that is not a version stops the build. */
  lemma OtherRefExamples()
    ensures DetermineBranch(map[RefName := "feature-x", RefType := "branch"]) == Success("feature-x")
    ensures DetermineBranch(map[RefName := "notaversion", RefType := "tag"]).Failure?
  {
  }
}
