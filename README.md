# pr-voyager, modelled in Dafny

pr-voyager is a GitHub Action for pull requests. For each package of a
monorepo it publishes a preview build to npm, under a dist-tag named after the
pull request (`pr<number>`) and a version `<base>-pr<number>.<short sha>`. It then
posts a single comment on the pull request, or updates the one it posted
before, saying how to install the previews with npm, yarn and pnpm. Before
publishing it makes sure an `.npmrc` holds an auth token for the npm registry.

This project models the five core files of the action and proves properties
about them:

- `Text.dfy` holds the JavaScript string behaviour the core relies on. It
  covers `split(/\s+/)`, `split("\n")`, `join`, `includes` and the decimal
  rendering of integers in template literals. It also covers truthiness and
  the ASCII case folding of a `/i` regular expression.
- `FindComment.dfy` models `findComment.ts`: option defaults, the filter on
  author, substring and regular expression, and the `direction`/`nth`
  selection. It also models `stringToRegex`, whose lazy pattern
  `^(.)(.*?)\1([gimsuy]*)$` is written out as the shortest delimited split.
  The in-place `comments.reverse()` becomes a method on an `array`.
- `RunPublish.dfy` models `runPublish.ts`: the tag, the version rewrite, the
  manifest writes and the publish command line.
- `CommentBody.dfy` models `getCommentBody.ts`: the comment text and its
  ten-character fingerprint.
- `CreateOrUpdateComment.dfy` models `createOrUpdateComment.ts` against a
  `CommentHost` class. That class stands in for the GitHub issue-comment
  endpoints and keeps the comments in a map it updates.
- `Npmrc.dfy` models `createOrUpdateNpmrc.ts` against a `FileSystem` class
  that keeps the files in a map.
- `Relocate.dfy` joins `getCommentBody`, `truncateBody` and `findComment` as
  `index.ts` does. It shows that a comment an earlier run posted passes a
  later run's search, and that the search then returns the first passing
  comment in list order.
- `Wrappers.dfy` holds `Option` and `Result`.

Things the model makes explicit:

- `stringToRegex("test")` yields the pattern `es`. The first character of
  any string acts as a delimiter when it comes back later in the string
  followed only by flag letters (`gimsuy`); `abcb` stays a plain pattern.
- A comment with an empty or absent body passes the substring and regex
  filters. So does a comment with no user, for the author filter. JavaScript
  treats all of these as falsy, so the filter is skipped.
- `updateComment` with an empty body sends nothing and still returns the id.
- Cutting the body to 65536 characters never touches the fingerprint. The
  fingerprint is the first ten characters of a fixed heading, `### :rocke`,
  so a truncated comment still passes the next run's search.

## Model

| member | source | states |
|---|---|---|
| `Text.SplitWhitespace` | src/runPublish.ts:32 | the fields of `split(/\s+/)`: at least one, none but the first and last empty, none holding whitespace, and the first is the text before the first whitespace |
| `Text.SplitJoinRoundTrip` | src/runPublish.ts:32 | splitting the space-join of non-empty, whitespace-free fields gives back those fields |
| `Text.Separators` | src/runPublish.ts:32 | the whitespace runs the split drops: one fewer than the fields, each non-empty and all whitespace |
| `Text.SplitWhitespaceRebuilds` | src/runPublish.ts:32 | putting the dropped whitespace runs back between the fields gives the text again, for any text |
| `Text.SplitOn` | src/createOrUpdateNpmrc.ts:20 | `split("\n")` always yields at least one line |
| `Text.SplitOnFirst` | src/createOrUpdateNpmrc.ts:20 | the first line is the text before the first separator, and it holds no separator |
| `Text.SplitOnExcludesSep` | src/createOrUpdateNpmrc.ts:20 | no line produced by `split` contains the separator |
| `Text.SplitOnJoin` | src/createOrUpdateNpmrc.ts:20 | joining the parts with the separator gives back the original text |
| `Text.SplitOnConcat` | src/createOrUpdateNpmrc.ts:20 | splitting `a + sep + b` gives the parts of `a` followed by the parts of `b` |
| `Text.Includes` | src/findComment.ts:78 | `includes` holds exactly when the needle occurs at some position of the text |
| `Text.NatToDecimal` | src/runPublish.ts:43 | a natural number renders as a non-empty run of digits, with no leading zero |
| `Text.DecimalRoundTrip` | src/runPublish.ts:43 | reading back the rendered digits gives the number |
| `Text.IntToDecimal` | src/runPublish.ts:43 | an integer renders as digits with no leading zero, starting with `-` exactly when it is negative; the digits read back as the number, or as its negation after the `-` |
| `Text.IntToDecimalInjective` | src/runPublish.ts:43 | distinct integers render differently |
| `FindComment.WithDefaults` | src/findComment.ts:26-35 | `direction` defaults to `"first"` and `nth` to 0, and the filters are kept as given |
| `FindComment.StringToRegex` | src/findComment.ts:86-90 | a string `d p d f`, with `f` only flag letters, becomes pattern `p` and flags `f`, and `p` is the shortest such middle; any other string is the pattern itself with no flags |
| `FindComment.DelimitedExample` | src/findComment.ts:86-90 | `/foo/i` gives pattern `foo` with flag `i` |
| `FindComment.AnyDelimiterExample` | src/findComment.ts:86-90 | `test` gives pattern `es`, because `t` acts as the delimiter |
| `FindComment.UndelimitedIsPlain` | src/findComment.ts:86-90 | a string whose first character never comes back is used as the pattern unchanged, with no flags |
| `FindComment.Matching` | src/findComment.ts:59-61 | the filter keeps at most the comments it is given |
| `FindComment.MatchingMembers` | src/findComment.ts:59-61 | a comment is kept exactly when it is in the list and passes the predicate |
| `FindComment.MatchingConcat` | src/findComment.ts:59-61 | filtering distributes over concatenation |
| `FindComment.CommentMatches` | src/findComment.ts:69-84 | a comment passes exactly when it meets every filter that is set and that it can be checked against: the author's login, the substring, the regex; with no filter set, or with no user and no body, a comment passes |
| `FindComment.Reversed` | src/findComment.ts:56-58 | the reversal has the same length as the list |
| `FindComment.ReversedAt` | src/findComment.ts:56-58 | element `i` of the reversal is element `n-1-i` of the original |
| `FindComment.ReversedMembers` | src/findComment.ts:56-58 | reversal keeps exactly the same members |
| `FindComment.MatchingReversed` | src/findComment.ts:56-61 | filtering the reversed list gives the reversal of the filtered list |
| `FindComment.ScanOrder` | src/findComment.ts:56-58 | the list in scan order: reversed for `"last"`, unchanged otherwise |
| `FindComment.Located` | src/findComment.ts:52-67 | a found comment is in the list and passes the filters; nothing is found exactly when `nth` is outside the matches |
| `FindComment.LocatedByDirection` | src/findComment.ts:56-62 | `"last"` counts from the end of the matches and anything else from the start |
| `FindComment.LocatedIsNthMatch` | src/findComment.ts:59-65 | the found comment passes the filters and exactly `nth` passing comments come before it in scan order |
| `FindComment.MatchingIndex` | src/findComment.ts:59-62 | the k-th match sits at a position of the list preceded by exactly k matches |
| `FindComment.MatchingAt` | src/findComment.ts:59-62 | a passing comment at position i appears among the matches, after the matches of the earlier positions |
| `FindComment.NoFiltersSelectsNth` | src/findComment.ts:62-84 | with no filters given, the `nth` comment of the scan order is returned |
| `FindComment.MatchingAll` | src/findComment.ts:69-84 | with no filter given, every comment passes and the filter keeps the whole list |
| `FindComment.SubstringFilter` | src/findComment.ts:77-79 | with only `bodyIncludes` set, a comment with a body passes exactly when the body contains the substring |
| `FindComment.ReverseInPlace` | src/findComment.ts:57 | the array afterwards holds the reversal of its old contents |
| `FindComment.FindMatchingComment` | src/findComment.ts:52-67 | the comment array is reversed exactly when the direction is `"last"`, and the result is the `nth` match in that order |
| `FindComment.FindCommentIn` | src/findComment.ts:26-38 | the defaults are applied and the result is the selection from the given comments |
| `FindComment.DirectionExample` | src/findComment.ts:56-65 | with no filters and nth 0, `first` gives the oldest of three comments and `last` the newest |
| `FindComment.NoMatchNotFound` | src/findComment.ts:59-66 | when no comment passes, nothing is found for any nth |
| `RunPublish.GetTag` | src/runPublish.ts:42-44 | the tag is `pr` followed by the decimal rendering of the number, and contains `-` exactly for a negative number |
| `RunPublish.TagInjective` | src/runPublish.ts:42-44 | different pull request numbers get different tags |
| `RunPublish.BaseVersion` | src/runPublish.ts:19 | `split("-")[0]` is the longest prefix without `-`: the whole version, or the text before its first `-` |
| `RunPublish.ShortSha` | src/runPublish.ts:47 | `slice(0, 7)` is a prefix of the sha, of length 7 or the whole sha when shorter |
| `RunPublish.GetVersion` | src/runPublish.ts:46-48 | the version is the base, then `-`, then the tag, `.` and the short sha |
| `RunPublish.RewriteVersion` | src/runPublish.ts:18-22 | the new version keeps the old base, followed by `-`, the tag, `.` and the short sha |
| `RunPublish.BaseOfTaggedVersion` | src/runPublish.ts:14-24 | the base of a tagged version is the base it was built from |
| `RunPublish.RewriteVersionIdempotent` | src/runPublish.ts:18-22 | rewriting an already rewritten version gives it unchanged, so a re-run publishes the same version |
| `RunPublish.PrPackages` | src/runPublish.ts:14-24 | one package out per package in |
| `RunPublish.PrPackagesOnlyChangeVersion` | src/runPublish.ts:14-24 | each package keeps its directories, its name and its other manifest fields, and its version keeps its base |
| `RunPublish.PrPackagesIdempotent` | src/runPublish.ts:14-24 | applying the rewrite twice equals applying it once |
| `RunPublish.ManifestPath` | src/runPublish.ts:27 | the manifest path is the package directory, one `/` unless the directory is empty or already ends in `/`, then `package.json` |
| `RunPublish.WriteManifests` | src/runPublish.ts:25-30 | one write per package, in order, of its rewritten manifest to its manifest path |
| `RunPublish.RunPublish` | src/runPublish.ts:6-40 | returns the tag; writes every rewritten manifest in package order; runs the first field of the script with the remaining fields, `--no-git-checks`, `--tag` and the tag |
| `RunPublish.PublishArgsOfPlainScript` | src/runPublish.ts:32-34 | a script of whitespace-free words runs its first word with the other words as arguments, then the fixed flags |
| `RunPublish.TagExample` | src/runPublish.ts:42-44 | pull request 42 gets tag `pr42` |
| `RunPublish.VersionExample` | src/runPublish.ts:46-48 | `1.0.0` with tag `pr42` and sha `abcdef1234567` becomes `1.0.0-pr42.abcdef1` |
| `RunPublish.BaseVersionExample` | src/runPublish.ts:19 | the base of `1.2.3-beta.1` is `1.2.3` |
| `RunPublish.BaseOfPlainVersion` | src/runPublish.ts:19 | every version without `-` is its own base |
| `RunPublish.RewriteExample` | src/runPublish.ts:14-24 | `1.0.0` becomes `1.0.0-pr7.0123456` |
| `RunPublish.PackagesExample` | src/runPublish.ts:14-24 | two packages both get the same preview version |
| `CommentBody.InstallTargets` | src/getCommentBody.ts:8-9 | one `name@tag` target per package, in order |
| `CommentBody.InstallPackagesText` | src/getCommentBody.ts:8-10 | no packages give the empty text and one package gives its `name@tag` alone |
| `CommentBody.BodyParts` | src/getCommentBody.ts:11-40 | the heading comes first, and the commit line and the npm, yarn and pnpm command lines each come in their place |
| `CommentBody.GetCommentBody` | src/getCommentBody.ts:3-41 | the body starts with the heading |
| `CommentBody.FingerprintIsConstant` | src/getCommentBody.ts:11 | the first ten characters of every body are `### :rocke`, whatever the packages, tag and commit |
| `CommentBody.BodyContents` | src/getCommentBody.ts:11-40 | the body contains the commit sha and the `npm install`, `yarn add` and `pnpm add` commands with the install text |
| `CommentBody.InstallTextNamesEveryPackage` | src/getCommentBody.ts:8-10 | the install text contains `name@tag` for every package |
| `CommentBody.JoinIncludesEach` | src/getCommentBody.ts:8-10 | a join contains each of its parts |
| `CommentBody.InstallTextRoundTrip` | src/getCommentBody.ts:8-10 | splitting the install text on whitespace gives back exactly the targets, one per package, when names and tag hold no whitespace |
| `CommentBody.InstallTextExample` | src/getCommentBody.ts:8-10 | packages `a` and `b` with tag `pr7` give `a@pr7 b@pr7` |
| `CreateOrUpdateComment.TruncateBody` | src/createOrUpdateComment.ts:73-80 | the sent body is a prefix of the body, of its full length up to 65536 characters and of 65536 beyond |
| `CreateOrUpdateComment.TruncateBodyIdempotent` | src/createOrUpdateComment.ts:73-80 | truncating twice equals truncating once |
| `CreateOrUpdateComment.TruncateKeepsPrefix` | src/createOrUpdateComment.ts:73-80 | the first n characters survive for any n up to the limit |
| `CreateOrUpdateComment.TruncateExample` | src/createOrUpdateComment.ts:75-77 | a 70000-character body is sent as its first 65536 characters |
| `CreateOrUpdateComment.CommentHost.Create` | src/createOrUpdateComment.ts:44-49 | the endpoint stores the comment under a fresh id, and rejects an over-long body without changing anything |
| `CreateOrUpdateComment.CommentHost.Update` | src/createOrUpdateComment.ts:62-67 | the endpoint replaces the body of a known comment; an unknown id or an over-long body changes nothing and fails |
| `CreateOrUpdateComment.CreateComment` | src/createOrUpdateComment.ts:37-52 | exactly one new comment appears, under a fresh id, on the issue, holding the truncated body |
| `CreateOrUpdateComment.UpdateComment` | src/createOrUpdateComment.ts:54-71 | an empty body changes nothing and returns the id; otherwise the comment's body becomes the truncated body, or the host's not-found error comes back |
| `CreateOrUpdateComment.CreateOrUpdate` | src/createOrUpdateComment.ts:11-35 | a comment id means update, else an issue number means create, else nothing changes and there is no id |
| `Npmrc.FindAuthLine` | src/createOrUpdateNpmrc.ts:20-23 | a found line is an auth line of the file, and none is found exactly when no line is one |
| `Npmrc.IsAuthLine` | src/createOrUpdateNpmrc.ts:20-23 | a line is an auth line exactly when some leading whitespace is followed by `//registry.npmjs.org/:`, `_` or `-`, and `authToken=`, ignoring ASCII case |
| `Npmrc.HasAuthLine` | src/createOrUpdateNpmrc.ts:20-24 | the content has an auth line exactly when one of its `\n`-separated lines is an auth line |
| `Npmrc.CreatedContent` | src/createOrUpdateNpmrc.ts:57 | the written file is the auth-line prefix, the token, and a newline |
| `Npmrc.UpdatedContent` | src/createOrUpdateNpmrc.ts:18-45 | content that has an auth line, or a missing token, is left as is; otherwise a newline, the auth line and a newline are appended |
| `Npmrc.WrittenPrefixIsAuthLine` | src/createOrUpdateNpmrc.ts:41-44 | a line that starts with the written prefix is recognised as an auth line |
| `Npmrc.FirstLineIsAuthLine` | src/createOrUpdateNpmrc.ts:55-58 | a file written as prefix + token has an auth line first |
| `Npmrc.CreatedHasAuthLine` | src/createOrUpdateNpmrc.ts:47-59 | a created `.npmrc` has an auth line |
| `Npmrc.AppendedHasAuthLine` | src/createOrUpdateNpmrc.ts:41-44 | after the append, the file has an auth line, whatever it held before |
| `Npmrc.UserNpmrcPath` | src/createOrUpdateNpmrc.ts:5 | the user file is `.npmrc` under `HOME`, or under `undefined` when `HOME` is unset |
| `Npmrc.ProjectNpmrcPath` | src/createOrUpdateNpmrc.ts:6 | the project file is `.npmrc` under the working directory |
| `Npmrc.NpmrcPathsDiffer` | src/createOrUpdateNpmrc.ts:5-6 | the user and project files differ whenever the home directory is not the working directory |
| `Npmrc.ChosenPath` | src/createOrUpdateNpmrc.ts:7-15 | the user file if it exists, else the project file if it exists, else the user file; the chosen file exists exactly when one of the two does |
| `Npmrc.Provisioned` | src/createOrUpdateNpmrc.ts:4-16 | no file is removed and only the chosen file can be added; an existing chosen file gets its updated content; when neither file exists, the user file is created with the auth line if there is a token, and otherwise nothing changes |
| `Npmrc.OnlyChosenFileChanges` | src/createOrUpdateNpmrc.ts:4-16 | no file other than the chosen `.npmrc` changes |
| `Npmrc.NothingToDo` | src/createOrUpdateNpmrc.ts:4-45 | an existing chosen file with an auth line, or no token, leaves the files unchanged |
| `Npmrc.TokenEndsUpInChosenFile` | src/createOrUpdateNpmrc.ts:4-59 | with a token, the chosen file exists afterwards and has an auth line |
| `Npmrc.ProvisionIdempotent` | src/createOrUpdateNpmrc.ts:4-59 | running the provisioning twice equals running it once |
| `Npmrc.FileSystem.Exists` | src/createOrUpdateNpmrc.ts:7 | a path exists exactly when it is in the file map |
| `Npmrc.FileSystem.ReadFile` | src/createOrUpdateNpmrc.ts:19 | reading returns the stored content |
| `Npmrc.FileSystem.AppendFile` | src/createOrUpdateNpmrc.ts:41-44 | appending extends the file, or creates it, and changes no other file |
| `Npmrc.FileSystem.WriteFile` | src/createOrUpdateNpmrc.ts:55-58 | writing replaces the file's content and changes no other file |
| `Npmrc.UpdateNpmrc` | src/createOrUpdateNpmrc.ts:18-45 | the file's content becomes its updated content and nothing else changes |
| `Npmrc.CreateNpmrc` | src/createOrUpdateNpmrc.ts:47-59 | with a token the file is written with the auth line; without one nothing changes |
| `Npmrc.CreateOrUpdateNpmrc` | src/createOrUpdateNpmrc.ts:4-16 | the user `.npmrc` is updated if it exists, else the project one if it exists, else the user one is created; the result is the provisioning function of the old files |
| `Relocate.FingerprintOptions` | src/index.ts:53-58 | the search sets only `bodyIncludes`, to the body's first ten characters, with the default direction and nth |
| `Relocate.PostedCommentMatchesLaterSearch` | src/index.ts:52-58 | a comment posted by any earlier run, truncated or not, passes the search of any later run |
| `Relocate.EarlierCommentIsFound` | src/index.ts:52-63 | if the pull request holds such a comment, the search finds a comment: the first passing one in list order |
| `Relocate.FingerprintRoundTrip` | src/index.ts:52-58 | building a body, posting it and searching a list of just that comment for its fingerprint returns that comment |

## Left out

- Fetching the comments (`fetchComments`, `src/findComment.ts:40-50`) and its
  pagination: the comment list is a parameter.
- Splitting `repository` into owner and repo (`src/findComment.ts:41`,
  `src/createOrUpdateComment.ts:12`): the host model holds a single repository.
- Logging (`core.info`, `core.warning`) and `core.setOutput`: they produce no
  state the core reads back.
- Regular expression matching: the engine is the parameter
  `matches: (Regex, string) -> bool`. `new RegExp` raising an error on an
  invalid pattern or on repeated flags is not modelled.
- `FindComment.StringToRegex`: strings are sequences of characters, not of
  UTF-16 code units. `.` in the source pattern does not match a line
  terminator, and the model keeps that rule.
- `CreateOrUpdateComment.TruncateBody`: the 65536 limit counts characters,
  not UTF-16 code units, so a surrogate pair cut in half is not modelled.
- `RunPublish.RunPublish`: the manifest is recorded as a value. Its
  `JSON.stringify` layout is not modelled, nor is running `exec`, its working
  directory or its exit code. A failed write or publish part way through the
  loop is not modelled either: nothing is rolled back, and the model has no
  failure path.
- `RunPublish.PrPackages`: every manifest is taken to have a `version`. In
  the source, `split` on a missing version throws (`src/runPublish.ts:19`)
  and the run stops before any manifest is written; that error path is not
  modelled.
- `RunPublish.ManifestPath`: `path.join` normalisation is reduced to adding
  one `/` when the directory does not end with one. `..` and repeated slashes
  are not resolved.
- `Npmrc.FileSystem`: reads and writes always succeed. A `readFile` failure
  (`src/createOrUpdateNpmrc.ts:19`), an `appendFileSync` throw (line 41) and
  a `writeFile` failure (line 55) are not modelled.
- `RunPublish.GetTag`: the pull request number is an integer. JavaScript's
  rendering of fractions, of `-0` and of numbers from 1e21 up, in exponent
  form, is not modelled.
- `FindComment.Located`: `nth` is an integer. A fractional or `NaN` index,
  which finds nothing in the source, is not modelled.
- `CreateOrUpdateComment.CreateComment`: the host is assumed to accept a
  truncated body. Network and permission failures of the GitHub API are not
  modelled, only an unknown comment id and an over-long body.
- `Npmrc.CreateOrUpdateNpmrc`: the call to `createNpmrc` at
  `src/createOrUpdateNpmrc.ts:15` is not awaited, and the append at line 41
  is synchronous. The model runs each step to completion in order. `HOME`
  being unset is modelled: it gives the path `undefined/.npmrc`.
- `Relocate.EarlierCommentIsFound`: the comment list is not tied to the
  host's store, so the model does not state that the run then updates the
  found comment rather than creating a new one.
- The rest of `index.ts` (reading inputs, `getPackages`, `setFailed`) is not
  part of this model. `Relocate` models only the search for the earlier
  comment at `src/index.ts:52-67`.
- `scripts/bump.js` is not part of this model.
