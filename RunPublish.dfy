/** Publish preparation: the PR tag, the pre-release version derived from
    the existing version, the rewrite of every package manifest, the
    manifest writes and the argument list of the publish command. Writing a
    manifest is recorded as the path and the manifest value written; the
    publish command is recorded as the command and arguments it would be run
    with. */
module RunPublish {
  import opened Text

  /** A package manifest: its name, its version and all other fields. */
  datatype PackageJson = PackageJson(name: string, version: string, otherFields: map<string, string>)

  /** A workspace package: where it lives and its manifest. */
  datatype Package = Package(dir: string, relativeDir: string, packageJson: PackageJson)

  /** One manifest file written. */
  datatype ManifestWrite = ManifestWrite(path: string, manifest: PackageJson)

  /** What a run of `runPublish` does and returns. */
  datatype PublishRun = PublishRun(writes: seq<ManifestWrite>, command: string, args: seq<string>, tag: string)

  // ---------------------------------------------------------------------------
  // Tag and version
  // ---------------------------------------------------------------------------

  /** `getTag`: "pr" followed by the PR number in decimal. */
  function GetTag(prNumber: int): (tag: string)
    ensures |tag| > 2 && tag[..2] == "pr" && tag[2..] == IntToDecimal(prNumber)
    ensures '-' in tag <==> prNumber < 0
  {
    var digits := IntToDecimal(prNumber);
    var tag := "pr" + digits;
    assert forall k :: 0 <= k < |tag| ==> (tag[k] == '-' <==> k == 2 && prNumber < 0);
    tag
  }

  /** Distinct PR numbers give distinct tags: the number can be read back. */
  lemma TagInjective(m: int, n: int)
    requires GetTag(m) == GetTag(n)
    ensures m == n
  {
    assert GetTag(m)[2..] == IntToDecimal(m);
    assert GetTag(n)[2..] == IntToDecimal(n);
    IntToDecimalInjective(m, n);
  }

  /** `version.split("-")[0]`: the version before its first `-`. */
  function BaseVersion(version: string): (base: string)
    ensures '-' !in base
    ensures base <= version
    ensures base == version || version[|base|] == '-'
  {
    SplitOnFirst(version, '-');
    SplitOn(version, '-')[0]
  }

  /** The first seven characters of the commit SHA, or all of a shorter one. */
  function ShortSha(commitSha: string): (short: string)
    ensures short <= commitSha
    ensures |short| == if |commitSha| < 7 then |commitSha| else 7
  {
    if |commitSha| < 7 then commitSha else commitSha[..7]
  }

  /** `getVersion`: `<version>-<tag>.<short sha>`. */
  function GetVersion(version: string, tag: string, commitSha: string): (v: string)
    ensures |v| > |version| && v[..|version|] == version && v[|version|] == '-'
    ensures v[|version| + 1..] == tag + "." + ShortSha(commitSha)
  {
    version + "-" + tag + "." + ShortSha(commitSha)
  }

  /** The version a package gets: its base version tagged with the PR. */
  function RewriteVersion(version: string, tag: string, commitSha: string): (v: string)
    ensures var base := BaseVersion(version);
      && BaseVersion(v) == base
      && |v| > |base| && v[..|base|] == base && v[|base|] == '-'
      && v[|base| + 1..] == tag + "." + ShortSha(commitSha)
  {
    BaseOfTaggedVersion(BaseVersion(version), tag, commitSha);
    GetVersion(BaseVersion(version), tag, commitSha)
  }

  /** The tagged version keeps the base it was made from. */
  lemma BaseOfTaggedVersion(base: string, tag: string, commitSha: string)
    requires '-' !in base
    ensures BaseVersion(GetVersion(base, tag, commitSha)) == base
  {
    var v := GetVersion(base, tag, commitSha);
    assert v == base + ['-'] + (tag + "." + ShortSha(commitSha));
    IndexOfPastPrefix(base, '-', tag + "." + ShortSha(commitSha));
    assert v[..|base|] == base;
  }

  /** Rewriting a version twice with the same tag and SHA gives the same
      version as rewriting it once. */
  lemma RewriteVersionIdempotent(version: string, tag: string, commitSha: string)
    ensures RewriteVersion(RewriteVersion(version, tag, commitSha), tag, commitSha)
         == RewriteVersion(version, tag, commitSha)
  {
    BaseOfTaggedVersion(BaseVersion(version), tag, commitSha);
  }

  // ---------------------------------------------------------------------------
  // Manifests
  // ---------------------------------------------------------------------------

  /** `prPackages`: every package with only its manifest's version rewritten. */
  function PrPackages(packages: seq<Package>, tag: string, commitSha: string): (r: seq<Package>)
    ensures |r| == |packages|
  {
    seq(|packages|, i requires 0 <= i < |packages| =>
      packages[i].(packageJson := packages[i].packageJson.(
        version := RewriteVersion(packages[i].packageJson.version, tag, commitSha))))
  }

  /** Only the version changes: directory, name and every other manifest
      field are kept, the packages keep their order, and each new version is
      the old base version tagged with the PR and the short SHA. */
  lemma PrPackagesOnlyChangeVersion(packages: seq<Package>, tag: string, commitSha: string, i: nat)
    requires i < |packages|
    ensures var p, q := packages[i], PrPackages(packages, tag, commitSha)[i];
      && q.dir == p.dir && q.relativeDir == p.relativeDir
      && q.packageJson.name == p.packageJson.name
      && q.packageJson.otherFields == p.packageJson.otherFields
      && BaseVersion(q.packageJson.version) == BaseVersion(p.packageJson.version)
      && q.packageJson.version == BaseVersion(p.packageJson.version) + "-" + tag + "." + ShortSha(commitSha)
  {
    BaseOfTaggedVersion(BaseVersion(packages[i].packageJson.version), tag, commitSha);
  }

  /** Preparing already prepared packages for the same PR and commit changes
      nothing. */
  lemma PrPackagesIdempotent(packages: seq<Package>, tag: string, commitSha: string)
    ensures PrPackages(PrPackages(packages, tag, commitSha), tag, commitSha)
         == PrPackages(packages, tag, commitSha)
  {
    var once := PrPackages(packages, tag, commitSha);
    var twice := PrPackages(once, tag, commitSha);
    forall i | 0 <= i < |packages| ensures twice[i] == once[i] {
      RewriteVersionIdempotent(packages[i].packageJson.version, tag, commitSha);
    }
  }

  /** `path.join(dir, "package.json")`. */
  function ManifestPath(dir: string): (path: string)
    ensures |path| >= |"package.json"| && path[|path| - |"package.json"|..] == "package.json"
    ensures dir <= path
    ensures dir != [] && dir[|dir| - 1] != '/' ==> path == dir + "/package.json"
    ensures dir == [] || dir[|dir| - 1] == '/' ==> path == dir + "package.json"
  {
    if dir == [] then "package.json"
    else if dir[|dir| - 1] == '/' then dir + "package.json"
    else dir + "/package.json"
  }

  /** The manifest file of a package, written with its (rewritten) manifest. */
  function ManifestWriteOf(pkg: Package): ManifestWrite {
    ManifestWrite(ManifestPath(pkg.dir), pkg.packageJson)
  }

  // ---------------------------------------------------------------------------
  // The publish command
  // ---------------------------------------------------------------------------

  /** The flags appended to the user's arguments. */
  function FixedFlags(tag: string): seq<string> {
    ["--no-git-checks", "--tag", tag]
  }

  /** The loop writing the manifests: one write per package, in order. */
  method WriteManifests(prPackages: seq<Package>) returns (writes: seq<ManifestWrite>)
    ensures |writes| == |prPackages|
    ensures forall k :: 0 <= k < |prPackages| ==> writes[k] == ManifestWriteOf(prPackages[k])
  {
    writes := [];
    for i := 0 to |prPackages|
      invariant |writes| == i
      invariant forall k :: 0 <= k < i ==> writes[k] == ManifestWriteOf(prPackages[k])
    {
      writes := writes + [ManifestWriteOf(prPackages[i])];
    }
  }

  /** `runPublish`: derives the tag, writes each rewritten manifest once, in
      package order, and builds the publish command from the script split on
      whitespace followed by the fixed flags. */
  method RunPublish(publishScript: string, packages: seq<Package>, prNumber: int, commitSha: string)
    returns (run: PublishRun)
    ensures run.tag == GetTag(prNumber)
    ensures |run.writes| == |packages|
    ensures forall i :: 0 <= i < |packages| ==>
      run.writes[i] == ManifestWriteOf(PrPackages(packages, run.tag, commitSha)[i])
    ensures var fields := SplitWhitespace(publishScript);
      run.command == fields[0] && run.args == fields[1..] + FixedFlags(run.tag)
  {
    var tag := GetTag(prNumber);
    var prPackages := PrPackages(packages, tag, commitSha);
    var writes := WriteManifests(prPackages);
    var fields := SplitWhitespace(publishScript);
    var publishCommand, publishArgs := fields[0], fields[1..];
    publishArgs := publishArgs + ["--no-git-checks"];
    publishArgs := publishArgs + ["--tag", tag];
    run := PublishRun(writes, publishCommand, publishArgs, tag);
  }

  /** A script that is a command and its arguments separated by single spaces
      runs that command with those arguments and then the fixed flags. */
  lemma PublishArgsOfPlainScript(command: string, userArgs: seq<string>, tag: string)
    requires NoSpace(command)
    requires forall k :: 0 <= k < |userArgs| ==> NoSpace(userArgs[k]) && userArgs[k] != []
    ensures var fields := SplitWhitespace(Join([command] + userArgs, " "));
      fields[0] == command && fields[1..] + FixedFlags(tag) == userArgs + ["--no-git-checks", "--tag", tag]
  {
    var parts := [command] + userArgs;
    assert WellFormedFields(parts) by {
      forall k | 0 <= k < |parts| ensures NoSpace(parts[k]) && (k > 0 ==> parts[k] != []) {
        if k > 0 {
          assert parts[k] == userArgs[k - 1];
        }
      }
    }
    SplitJoinRoundTrip(parts);
    assert parts[0] == command && parts[1..] == userArgs;
  }

  // ---------------------------------------------------------------------------
  // Worked examples
  // ---------------------------------------------------------------------------

  lemma TagExample()
    ensures GetTag(42) == "pr42" && GetTag(7) == "pr7"
  {
    assert NatToDecimal(4) == "4" && NatToDecimal(7) == "7";
    assert NatToDecimal(42) == NatToDecimal(4) + [DigitChar(2)];
  }

  /** The version for base `1.0.0`, PR 42 and SHA `abcdef1234567`. */
  lemma VersionExample()
    ensures GetVersion("1.0.0", GetTag(42), "abcdef1234567") == "1.0.0-pr42.abcdef1"
  {
    TagExample();
    assert ShortSha("abcdef1234567") == "abcdef1";
  }

  /** An existing pre-release part is dropped before tagging. */
  lemma BaseVersionExample()
    ensures BaseVersion("1.2.3-beta.1") == "1.2.3"
  {
    IndexOfPastPrefix("1.2.3", '-', "beta.1");
    assert "1.2.3" + ['-'] + "beta.1" == "1.2.3-beta.1";
  }

  /** A version without a pre-release part is its own base. */
  lemma BaseOfPlainVersion(version: string)
    requires '-' !in version
    ensures BaseVersion(version) == version
  {
  }

  /** Version `1.0.0`, PR 7 and SHA `0123456789abcdef` give `1.0.0-pr7.0123456`. */
  lemma RewriteExample()
    ensures RewriteVersion("1.0.0", GetTag(7), "0123456789abcdef") == "1.0.0-pr7.0123456"
  {
    TagExample();
    RewriteWithTagExample();
  }

  /** The same, with the tag `pr7` given as text. */
  lemma RewriteWithTagExample()
    ensures RewriteVersion("1.0.0", "pr7", "0123456789abcdef") == "1.0.0-pr7.0123456"
  {
    var v := "1.0.0";
    assert '-' !in v by {
      assert forall k :: 0 <= k < |v| ==> v[k] != '-';
    }
    BaseOfPlainVersion(v);
    PlainVersionExample();
  }

  /** `getVersion` on `1.0.0`, `pr7` and SHA `0123456789abcdef`. */
  lemma PlainVersionExample()
    ensures GetVersion("1.0.0", "pr7", "0123456789abcdef") == "1.0.0-pr7.0123456"
  {
    assert ShortSha("0123456789abcdef") == "0123456";
  }

  /** Two packages at `1.0.0`, PR 7 and SHA `0123456789abcdef`: both are
      published as `1.0.0-pr7.0123456`. */
  lemma PackagesExample(a: Package, b: Package)
    requires a.packageJson.version == "1.0.0" && b.packageJson.version == "1.0.0"
    ensures var r := PrPackages([a, b], GetTag(7), "0123456789abcdef");
      r[0].packageJson.version == "1.0.0-pr7.0123456" && r[1].packageJson.version == "1.0.0-pr7.0123456"
  {
    RewriteExample();
  }
}
