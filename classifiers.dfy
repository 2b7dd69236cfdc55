/**
  The two name classifiers of the usage reporter: the environment label in a
  service name and the source-control organisation in a repository URL.
 */
module Classifiers {
  import opened Wrappers
  import opened Text

  /** The environment labels `get_environment` recognises, in the order the script lists them. */
  const EnvLabels: seq<string> := ["dev", "qa", "prod", "prd", "sbx", "staging", "test"]

  /** `tokens[k]` is the first token whose lower-case form is an environment label. */
  ghost predicate FirstLabelAt(tokens: seq<string>, k: int) {
    0 <= k < |tokens| && Lower(tokens[k]) in EnvLabels &&
    forall j :: 0 <= j < k ==> Lower(tokens[j]) !in EnvLabels
  }

  /** No token's lower-case form is an environment label. */
  ghost predicate NoLabel(tokens: seq<string>) {
    forall k :: 0 <= k < |tokens| ==> Lower(tokens[k]) !in EnvLabels
  }

  /** The search loop of `get_environment`: the lower-cased first token that is a label. */
  function FirstLabel(tokens: seq<string>): (env: Option<string>)
    ensures env.None? <==> NoLabel(tokens)
    ensures env.Some? ==> env.value in EnvLabels
    ensures env.Some? ==> exists k :: FirstLabelAt(tokens, k) && env.value == Lower(tokens[k])
  {
    if |tokens| == 0 then None
    else if Lower(tokens[0]) in EnvLabels then
      assert FirstLabelAt(tokens, 0);
      Some(Lower(tokens[0]))
    else
      var env := FirstLabel(tokens[1..]);
      assert env.Some? ==> exists k :: FirstLabelAt(tokens, k) && env.value == Lower(tokens[k]) by {
        if env.Some? {
          var k :| FirstLabelAt(tokens[1..], k) && env.value == Lower(tokens[1..][k]);
          assert FirstLabelAt(tokens, k + 1);
        }
      }
      env
  }

  /** `get_environment(service_name)`: the environment label among the `-`-separated tokens, if any. */
  function GetEnvironment(serviceName: string): (env: Option<string>)
    ensures env.Some? ==> env.value in EnvLabels && env.value != ""
    ensures env.None? <==> NoLabel(Split(serviceName, '-'))
    ensures env.Some? ==>
              exists k :: FirstLabelAt(Split(serviceName, '-'), k) && env.value == Lower(Split(serviceName, '-')[k])
  {
    var tokens := Split(serviceName, '-');
    FirstLabel(tokens)
  }

  /** A name made of the tokens `before + [envLabel] + after` where no token of `before` is a label yields `envLabel`. */
  lemma {:induction false} EnvironmentOfTokens(before: seq<string>, envLabel: string, after: seq<string>)
    requires envLabel in EnvLabels
    requires forall j :: 0 <= j < |before| ==> Lower(before[j]) !in EnvLabels
    ensures FirstLabel(before + [Lower(envLabel)] + after) == Some(envLabel)
    decreases |before|
  {
    var tokens := before + [Lower(envLabel)] + after;
    assert Lower(envLabel) == envLabel by { LowerOfLabel(envLabel); }
    if |before| > 0 {
      assert tokens[0] == before[0];
      assert tokens[1..] == before[1..] + [Lower(envLabel)] + after;
      EnvironmentOfTokens(before[1..], envLabel, after);
    }
  }

  /** Every environment label is spelt in lower-case ASCII letters. */
  lemma LabelLetters(envLabel: string)
    requires envLabel in EnvLabels
    ensures forall i :: 0 <= i < |envLabel| ==> 'a' <= envLabel[i] <= 'z'
  {
  }

  lemma LowerOfLabel(envLabel: string)
    requires envLabel in EnvLabels
    ensures Lower(envLabel) == envLabel
  {
    LabelLetters(envLabel);
    LowerKeepsLowerCase(envLabel);
  }

  /** The tokens around a label hold no `-` when neither side does. */
  lemma NoDashInTokens(before: seq<string>, envLabel: string, after: seq<string>)
    requires envLabel in EnvLabels
    requires forall j :: 0 <= j < |before| ==> '-' !in before[j]
    requires forall j :: 0 <= j < |after| ==> '-' !in after[j]
    ensures forall i :: 0 <= i < |before + [envLabel] + after| ==> '-' !in (before + [envLabel] + after)[i]
  {
    var tokens := before + [envLabel] + after;
    LabelLetters(envLabel);
    assert '-' !in envLabel;
    forall i | 0 <= i < |tokens| ensures '-' !in tokens[i] {
      if i < |before| {
        assert tokens[i] == before[i];
      } else if i > |before| {
        assert tokens[i] == after[i - |before| - 1];
      }
    }
  }

  /**
    A service name made by joining tokens with `-`, none of which holds a `-`,
    has the first label among them as its environment, whatever follows it.
   */
  lemma EnvironmentOfName(before: seq<string>, envLabel: string, after: seq<string>)
    requires envLabel in EnvLabels
    requires forall j :: 0 <= j < |before| ==> Lower(before[j]) !in EnvLabels
    requires forall j :: 0 <= j < |before| ==> '-' !in before[j]
    requires forall j :: 0 <= j < |after| ==> '-' !in after[j]
    ensures GetEnvironment(Join(before + [envLabel] + after, '-')) == Some(envLabel)
  {
    NoDashInTokens(before, envLabel, after);
    SplitJoin(before + [envLabel] + after, '-');
    LowerOfLabel(envLabel);
    EnvironmentOfTokens(before, envLabel, after);
  }

  lemma FooIsNoLabel()
    ensures Lower("foo") == "foo" && "foo" !in EnvLabels
  {
    LowerKeepsLowerCase("foo");
  }

  lemma FooProdBar()
    ensures Join(["foo"] + ["prod"] + ["bar"], '-') == "foo-prod-bar"
  {
    var tokens := ["foo"] + ["prod"] + ["bar"];
    assert tokens[1..][1..] == ["bar"];
    assert Join(tokens[1..], '-') == "prod" + "-" + "bar";
    assert Join(tokens, '-') == "foo" + "-" + ("prod" + "-" + "bar");
  }

  /** `get_environment("foo-prod-bar")` is `"prod"`. */
  lemma EnvironmentExample()
    ensures GetEnvironment("foo-prod-bar") == Some("prod")
  {
    FooIsNoLabel();
    FooProdBar();
    EnvironmentOfName(["foo"], "prod", ["bar"]);
  }

  // ---------------------------------------------------------------------------
  // Organisation
  // ---------------------------------------------------------------------------

  /** `get_github_org(repo_url)`: the organisation segment of an SSH-form or HTTP-form repository URL. */
  function GetGithubOrg(repoUrl: Option<string>): (org: Option<string>)
    ensures org.Some? ==> repoUrl.Some? && '/' !in org.value
    ensures org.Some? ==> StartsWith(repoUrl.value, "git@") || StartsWith(repoUrl.value, "http")
  {
    match repoUrl
    case None => None
    case Some(url) =>
      if StartsWith(url, "git@") then
        var parts := Split(url, ':');
        if |parts| > 1 then Some(Split(parts[1], '/')[0]) else None
      else if StartsWith(url, "http") then
        var parts := Split(url, '/');
        if |parts| > 3 then Some(parts[3]) else None
      else None
  }

  /**
    SSH form: for `git@…` URLs, the organisation is the text after the first
    `:` up to the next `:` or `/` (or the end).
   */
  lemma SshOrganization(url: string, host: string, org: string, rest: string)
    requires StartsWith(url, "git@")
    requires url == host + ":" + org + rest
    requires ':' !in host && ':' !in org && '/' !in org
    requires rest == "" || rest[0] == ':' || rest[0] == '/'
    ensures GetGithubOrg(Some(url)) == Some(org)
  {
    assert url == host + [':'] + (org + rest);
    SplitAtFirst(host, org + rest, ':');
    var second := Split(org + rest, ':')[0];
    SplitConcat(org, rest, ':');
    assert second == org + Split(rest, ':')[0];
    var tail := Split(rest, ':')[0];
    if rest == "" {
      assert tail == "";
      assert second == org;
      SplitNoSeparator(org, '/');
    } else if rest[0] == ':' {
      assert rest == [':'] + rest[1..];
      assert tail == "";
      assert second == org;
      SplitNoSeparator(org, '/');
    } else {
      assert rest == "" + ['/'] + rest[1..];
      if ':' in rest[1..] {
      }
      assert tail == [rest[0]] + Split(rest[1..], ':')[0] by {
        assert rest[0] != ':';
      }
      assert tail == "" + ['/'] + Split(rest[1..], ':')[0];
      assert second == org + ['/'] + Split(rest[1..], ':')[0];
      SplitAtFirst(org, Split(rest[1..], ':')[0], '/');
    }
  }

  /** SSH form without any `:`: no organisation. */
  lemma SshWithoutColon(url: string)
    requires StartsWith(url, "git@") && ':' !in url
    ensures GetGithubOrg(Some(url)).None?
  {
    SplitNoSeparator(url, ':');
  }

  /**
    HTTP form: the organisation is the fourth `/`-separated segment
    (scheme, empty, host, organisation) when a third `/` exists.
   */
  lemma HttpOrganization(url: string, scheme: string, empty: string, host: string, org: string, rest: string)
    requires StartsWith(url, "http")
    requires url == scheme + "/" + empty + "/" + host + "/" + org + rest
    requires '/' !in scheme && '/' !in empty && '/' !in host && '/' !in org
    requires rest == "" || rest[0] == '/'
    ensures GetGithubOrg(Some(url)) == Some(org)
  {
    assert !StartsWith(url, "git@") by {
      assert url[0] == 'h';
    }
    assert url == scheme + ['/'] + (empty + ['/'] + (host + ['/'] + (org + rest)));
    ThreeSegments(scheme, empty, host, org + rest);
    FirstPiece(org, rest);
  }

  /** Cutting `scheme/empty/host/t` at every `/`: three pieces, then the pieces of `t`. */
  lemma ThreeSegments(scheme: string, empty: string, host: string, t: string)
    requires '/' !in scheme && '/' !in empty && '/' !in host
    ensures Split(scheme + ['/'] + (empty + ['/'] + (host + ['/'] + t)), '/') == [scheme, empty, host] + Split(t, '/')
  {
    SplitAtFirst(host, t, '/');
    SplitAtFirst(empty, host + ['/'] + t, '/');
    SplitAtFirst(scheme, empty + ['/'] + (host + ['/'] + t), '/');
    assert [scheme] + ([empty] + ([host] + Split(t, '/'))) == [scheme, empty, host] + Split(t, '/');
  }

  /** The first `/`-piece of `org + rest` is `org` when `rest` is empty or starts a new piece. */
  lemma FirstPiece(org: string, rest: string)
    requires '/' !in org
    requires rest == "" || rest[0] == '/'
    ensures Split(org + rest, '/')[0] == org
  {
    SplitConcat(org, rest, '/');
    if rest == "" {
      assert Split(rest, '/') == [""];
    } else {
      assert rest == "" + ['/'] + rest[1..];
      SplitAtFirst("", rest[1..], '/');
    }
  }

  /** HTTP form with fewer than three `/`: no organisation. */
  lemma HttpTooFewSegments(url: string)
    requires StartsWith(url, "http") && multiset(url)['/'] < 3
    ensures GetGithubOrg(Some(url)).None?
  {
    assert !StartsWith(url, "git@") by {
      assert url[0] == 'h';
    }
    SplitCount(url, '/');
  }

  /** A URL of neither form, and a missing URL, have no organisation. */
  lemma OtherUrls(url: Option<string>)
    requires url.Some? ==> !StartsWith(url.value, "git@") && !StartsWith(url.value, "http")
    ensures GetGithubOrg(url).None?
  {
  }

  /** `get_github_org("git@github.com:acme/repo.git")` is `"acme"`. */
  lemma SshExample()
    ensures GetGithubOrg(Some("git@github.com:acme/repo.git")) == Some("acme")
  {
    assert "git@github.com" + ":" + "acme" + "/repo.git" == "git@github.com:acme/repo.git";
    SshOrganization("git@github.com:acme/repo.git", "git@github.com", "acme", "/repo.git");
  }

  lemma HttpPieces()
    ensures "https:" + "/" + "" + "/" + "github.com" + "/" + "acme" + "/repo" == "https://github.com/acme/repo"
  {
  }

  /** `get_github_org("https://github.com/acme/repo")` is `"acme"`. */
  lemma HttpExample()
    ensures GetGithubOrg(Some("https://github.com/acme/repo")) == Some("acme")
  {
    HttpPieces();
    HttpOrganization("https://github.com/acme/repo", "https:", "", "github.com", "acme", "/repo");
  }

  /** The organisation may be the empty string: `git@host:/repo` yields `""`. */
  lemma EmptyOrganizationExample()
    ensures GetGithubOrg(Some("git@host:/repo")) == Some("")
  {
    assert "git@host" + ":" + "" + "/repo" == "git@host:/repo";
    SshOrganization("git@host:/repo", "git@host", "", "/repo");
  }
}
