/** The text of the PR comment: a fixed heading, the commit, and the install
    commands for npm, yarn and pnpm, each naming every package at the PR
    tag. */
module CommentBody {
  import opened Text
  import opened RunPublish

  const Heading := "### :rocket: Embark on a PR Voyage!"
  const Intro := "**Prepare to embark on an adventurous voyage with the PR Voyager! New packages have been published for testing as part of this pull request.**"
  const Summary := "<details><summary>How to test the changes locally</summary>"
  const Instructions := "You can set sail on this exciting journey and test the changes in this pull request by installing the updated packages using the following commands:"
  const Fence := "```"

  /** How many leading characters of a fresh body serve to find the comment
      posted by an earlier run. */
  const FingerprintLength := 10

  /** `name@tag` for every package, in package order. */
  function InstallTargets(packages: seq<Package>, tag: string): (targets: seq<string>)
    ensures |targets| == |packages|
    ensures forall i :: 0 <= i < |packages| ==>
      targets[i] == packages[i].packageJson.name + "@" + tag
  {
    seq(|packages|, i requires 0 <= i < |packages| => packages[i].packageJson.name + "@" + tag)
  }

  /** `installPackagesText`: the install targets joined by single spaces. */
  function InstallPackagesText(packages: seq<Package>, tag: string): (text: string)
    ensures packages == [] ==> text == ""
    ensures |packages| == 1 ==> text == packages[0].packageJson.name + "@" + tag
  {
    Join(InstallTargets(packages, tag), " ")
  }

  /** The end of one fenced block and the start of the next one. */
  function Between(manager: string): string {
    "\n" + Fence + "\n\n#### Using " + manager + "\n\n" + Fence + "\n"
  }

  /** The pieces of the comment, in order: the template literal with its
      three substitutions. */
  function BodyParts(packages: seq<Package>, tag: string, commitSha: string): (parts: seq<string>)
    ensures |parts| == 10 && parts[0] == Heading
    ensures parts[2] == "Latest commit: " + commitSha
    ensures parts[4] == "npm install " + InstallPackagesText(packages, tag)
    ensures parts[6] == "yarn add " + InstallPackagesText(packages, tag)
    ensures parts[8] == "pnpm add " + InstallPackagesText(packages, tag)
  {
    var text := InstallPackagesText(packages, tag);
    [ Heading,
      "\n\n",
      "Latest commit: " + commitSha,
      "\n\n" + Intro + "\n\n" + Summary + "\n\n" + Instructions + "\n\n#### Using npm\n\n" + Fence + "\n",
      "npm install " + text,
      Between("yarn"),
      "yarn add " + text,
      Between("pnpm"),
      "pnpm add " + text,
      "\n" + Fence + "\n\n</details>\n" ]
  }

  /** `getCommentBody`: the pieces written one after another. */
  function GetCommentBody(packages: seq<Package>, tag: string, commitSha: string): (body: string)
    ensures |body| >= |Heading| && body[..|Heading|] == Heading
  {
    var parts := BodyParts(packages, tag, commitSha);
    assert Join(parts, "") == Heading + "" + Join(parts[1..], "");
    Join(parts, "")
  }

  /** The fingerprint, the first ten characters of the body, is the same for
      every input: it comes from the fixed heading. */
  lemma FingerprintIsConstant(packages: seq<Package>, tag: string, commitSha: string)
    ensures GetCommentBody(packages, tag, commitSha)[..FingerprintLength] == Heading[..FingerprintLength]
    ensures Heading[..FingerprintLength] == "### :rocke"
  {
    var body := GetCommentBody(packages, tag, commitSha);
    assert body[..FingerprintLength] == body[..|Heading|][..FingerprintLength];
  }

  /** The body names the commit and gives the three install commands for the
      joined install targets. */
  lemma BodyContents(packages: seq<Package>, tag: string, commitSha: string)
    ensures var body, text := GetCommentBody(packages, tag, commitSha), InstallPackagesText(packages, tag);
      && Includes(body, "Latest commit: " + commitSha)
      && Includes(body, "npm install " + text)
      && Includes(body, "yarn add " + text)
      && Includes(body, "pnpm add " + text)
  {
    var parts := BodyParts(packages, tag, commitSha);
    JoinIncludesEach(parts, "", 2);
    JoinIncludesEach(parts, "", 4);
    JoinIncludesEach(parts, "", 6);
    JoinIncludesEach(parts, "", 8);
  }

  /** Every `name@tag` target occurs in the install text. */
  lemma {:induction false} InstallTextNamesEveryPackage(packages: seq<Package>, tag: string, i: nat)
    requires i < |packages|
    ensures Includes(InstallPackagesText(packages, tag), packages[i].packageJson.name + "@" + tag)
  {
    JoinIncludesEach(InstallTargets(packages, tag), " ", i);
  }

  lemma {:induction false} JoinIncludesEach(parts: seq<string>, sep: string, i: nat)
    requires i < |parts|
    ensures Includes(Join(parts, sep), parts[i])
  {
    if |parts| == 1 {
      IncludesMiddle([], parts[0], []);
      assert [] + parts[0] + [] == parts[0];
    } else if i == 0 {
      IncludesMiddle([], parts[0], sep + Join(parts[1..], sep));
      assert [] + parts[0] + (sep + Join(parts[1..], sep)) == Join(parts, sep);
    } else {
      JoinIncludesEach(parts[1..], sep, i - 1);
      IncludesWithin(parts[0] + sep, Join(parts[1..], sep), [], parts[i]);
      assert parts[0] + sep + Join(parts[1..], sep) + [] == Join(parts, sep);
    }
  }

  /** When names and tag hold no whitespace, splitting the install text on
      whitespace gives back the `name@tag` targets, so the install commands
      name exactly the published packages; with no package the text is
      empty. */
  lemma InstallTextRoundTrip(packages: seq<Package>, tag: string)
    requires NoSpace(tag)
    requires forall i :: 0 <= i < |packages| ==> NoSpace(packages[i].packageJson.name)
    ensures packages == [] ==> InstallPackagesText(packages, tag) == ""
    ensures packages != [] ==> SplitWhitespace(InstallPackagesText(packages, tag)) == InstallTargets(packages, tag)
  {
    var targets := InstallTargets(packages, tag);
    if packages != [] {
      forall k | 0 <= k < |targets| ensures NoSpace(targets[k]) && targets[k] != [] {
        var t := targets[k];
        var name := packages[k].packageJson.name;
        assert t == name + "@" + tag;
        assert t[|name|] == '@';
        forall j | 0 <= j < |t| ensures !IsSpace(t[j]) {
          if j < |name| {
            assert t[j] == name[j];
          } else if j > |name| {
            assert t[j] == tag[j - |name| - 1];
          }
        }
      }
      assert WellFormedFields(targets);
      SplitJoinRoundTrip(targets);
    }
  }

  /** Packages `a` and `b` at tag `pr7` are installed as `a@pr7 b@pr7`. */
  lemma InstallTextExample(a: Package, b: Package)
    requires a.packageJson.name == "a" && b.packageJson.name == "b"
    ensures InstallPackagesText([a, b], "pr7") == "a@pr7 b@pr7"
  {
    var targets := InstallTargets([a, b], "pr7");
    assert targets[0] == "a" + "@" + "pr7" == "a@pr7";
    assert targets[1] == "b" + "@" + "pr7" == "b@pr7";
    assert targets[1..] == ["b@pr7"];
    assert Join(targets, " ") == "a@pr7" + " " + "b@pr7";
  }
}
