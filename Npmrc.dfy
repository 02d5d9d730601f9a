/** Registry credentials: make sure the `.npmrc` the publish command reads
    holds an auth-token line for the npm registry, without replacing one
    that is already there. The file system is a class holding a map from
    path to file content; the environment (`HOME`, the working directory,
    `NPM_TOKEN`) is passed in. */
module Npmrc {
  import opened Wrappers
  import opened Text

  /** The line written for a token, before the token itself. */
  const AuthLinePrefix := "//registry.npmjs.org/:_authToken="

  /** `s` starts with `//registry.npmjs.org/:`, then `_` or `-`, then
      `authToken=`, ignoring the case of ASCII letters. */
  predicate StartsWithAuthPrefix(s: string) {
    && |s| >= 33
    && EqualIgnoringAsciiCase(s[..22], "//registry.npmjs.org/:")
    && (s[22] == '_' || s[22] == '-')
    && EqualIgnoringAsciiCase(s[23..33], "authToken=")
  }

  /** The prefix starts with a `/`, which is not whitespace. */
  lemma AuthPrefixStartsWithSlash(s: string)
    requires StartsWithAuthPrefix(s)
    ensures s[0] == '/'
  {
    assert AsciiLower(s[..22][0]) == AsciiLower('/');
  }

  /** A run of whitespace from the start of the line that stops at a
      non-whitespace character is the run `EndOfSpaces` finds. */
  lemma LeadingSpacesEndAt(line: string, k: nat)
    requires k < |line| && !IsSpace(line[k])
    requires forall j :: 0 <= j < k ==> IsSpace(line[j])
    ensures EndOfSpaces(line, 0) == k
  {
  }

  /** The greedy `\s*` loses nothing: the prefix right after all the leading
      whitespace is there exactly when it follows some all-whitespace start
      of the line. */
  lemma GreedyLeadingSpaces(line: string)
    ensures StartsWithAuthPrefix(line[EndOfSpaces(line, 0)..]) <==>
      exists k :: 0 <= k <= |line| && (forall j :: 0 <= j < k ==> IsSpace(line[j]))
                  && StartsWithAuthPrefix(line[k..])
  {
    if exists k :: 0 <= k <= |line| && (forall j :: 0 <= j < k ==> IsSpace(line[j]))
                   && StartsWithAuthPrefix(line[k..]) {
      var k :| 0 <= k <= |line| && (forall j :: 0 <= j < k ==> IsSpace(line[j]))
               && StartsWithAuthPrefix(line[k..]);
      AuthPrefixStartsWithSlash(line[k..]);
      LeadingSpacesEndAt(line, k);
    }
  }

  /** The test `/^\s*\/\/registry\.npmjs\.org\/:[_-]authToken=/i` on one
      line: some leading whitespace, then the prefix. */
  function IsAuthLine(line: string): (b: bool)
    ensures b <==> exists k :: 0 <= k <= |line| && (forall j :: 0 <= j < k ==> IsSpace(line[j]))
                              && StartsWithAuthPrefix(line[k..])
  {
    GreedyLeadingSpaces(line);
    StartsWithAuthPrefix(line[EndOfSpaces(line, 0)..])
  }

  /** `lines.find(test)`: the first auth line, if any. */
  function FindAuthLine(lines: seq<string>): (r: Option<string>)
    ensures r.Some? ==> r.value in lines && IsAuthLine(r.value) && r.value != []
    ensures r.None? <==> forall line :: line in lines ==> !IsAuthLine(line)
  {
    if lines == [] then None
    else if IsAuthLine(lines[0]) then Some(lines[0])
    else FindAuthLine(lines[1..])
  }

  /** The content has a line, between newlines, that is an auth line. */
  function HasAuthLine(content: string): (b: bool)
    ensures b <==> exists line :: line in SplitOn(content, '\n') && IsAuthLine(line)
  {
    FindAuthLine(SplitOn(content, '\n')).Some?
  }

  /** The token line `createNpmrc` writes. */
  function CreatedContent(token: string): (r: string)
    ensures |r| == |AuthLinePrefix| + |token| + 1
    ensures r[..|AuthLinePrefix|] == AuthLinePrefix && r[|AuthLinePrefix|..|r| - 1] == token && r[|r| - 1] == '\n'
  {
    AuthLinePrefix + token + "\n"
  }

  /** `updateNpmrc` as a function of the content: unchanged when it holds an
      auth line or there is no token, otherwise the token line appended on
      a line of its own. */
  function UpdatedContent(content: string, npmToken: Option<string>): (r: string)
    ensures HasAuthLine(content) || !Truthy(npmToken) ==> r == content
    ensures !HasAuthLine(content) && Truthy(npmToken) ==>
      r == content + "\n" + AuthLinePrefix + npmToken.value + "\n"
  {
    if HasAuthLine(content) || !Truthy(npmToken) then content
    else content + "\n" + AuthLinePrefix + npmToken.value + "\n"
  }

  /** A string that starts with the written prefix starts an auth line. */
  lemma WrittenPrefixIsAuthLine(s: string)
    requires |s| >= |AuthLinePrefix| && s[..|AuthLinePrefix|] == AuthLinePrefix
    ensures IsAuthLine(s)
  {
    assert s[0] == '/';
    assert EndOfSpaces(s, 0) == 0;
    assert s[..22] == AuthLinePrefix[..22] == "//registry.npmjs.org/:";
    assert s[22] == AuthLinePrefix[22] == '_';
    assert s[23..33] == AuthLinePrefix[23..33] == "authToken=";
  }

  /** The first line of `AuthLinePrefix + rest` is an auth line. */
  lemma FirstLineIsAuthLine(rest: string)
    ensures IsAuthLine(SplitOn(AuthLinePrefix + rest, '\n')[0])
  {
    var s := AuthLinePrefix + rest;
    var i := IndexOf(s, '\n');
    SplitOnFirst(s, '\n');
    assert '\n' !in AuthLinePrefix;
    assert forall j :: 0 <= j < |AuthLinePrefix| ==> s[j] == AuthLinePrefix[j];
    assert i >= |AuthLinePrefix|;
    assert s[..i][..|AuthLinePrefix|] == AuthLinePrefix;
    WrittenPrefixIsAuthLine(s[..i]);
  }

  /** A created file holds an auth line. */
  lemma CreatedHasAuthLine(token: string)
    ensures HasAuthLine(CreatedContent(token))
  {
    assert CreatedContent(token) == AuthLinePrefix + (token + "\n");
    FirstLineIsAuthLine(token + "\n");
    var lines := SplitOn(CreatedContent(token), '\n');
    assert lines[0] in lines;
  }

  /** After the append the content holds an auth line. */
  lemma AppendedHasAuthLine(content: string, token: string)
    ensures HasAuthLine(content + "\n" + AuthLinePrefix + token + "\n")
  {
    var tail := AuthLinePrefix + (token + "\n");
    assert content + "\n" + AuthLinePrefix + token + "\n" == content + ['\n'] + tail;
    SplitOnConcat(content, '\n', tail);
    FirstLineIsAuthLine(token + "\n");
    var head := SplitOn(content, '\n');
    var lines := SplitOn(content + ['\n'] + tail, '\n');
    assert lines[|head|] == SplitOn(tail, '\n')[0];
    assert lines[|head|] in lines;
  }

  // ---------------------------------------------------------------------------
  // Paths and the whole provisioning step
  // ---------------------------------------------------------------------------

  /** `${process.env.HOME}/.npmrc`: an unset `HOME` reads as "undefined". */
  function UserNpmrcPath(home: Option<string>): (path: string)
    ensures var dir := home.GetOr("undefined");
      |path| == |dir| + 7 && path[..|dir|] == dir && path[|dir|..] == "/.npmrc"
  {
    home.GetOr("undefined") + "/.npmrc"
  }

  /** `${process.cwd()}/.npmrc`. */
  function ProjectNpmrcPath(cwd: string): (path: string)
    ensures |path| == |cwd| + 7 && path[..|cwd|] == cwd && path[|cwd|..] == "/.npmrc"
  {
    cwd + "/.npmrc"
  }

  /** The user and project files are two different files unless the home
      directory is the working directory. */
  lemma NpmrcPathsDiffer(home: string, cwd: string)
    requires home != cwd
    ensures UserNpmrcPath(Some(home)) != ProjectNpmrcPath(cwd)
  {
  }

  /** The file `createOrUpdateNpmrc` works on: the user file if it exists,
      else the project file if it exists, else the user file to create. */
  function ChosenPath(files: map<string, string>, userPath: string, projectPath: string): (p: string)
    ensures p == userPath || p == projectPath
    ensures userPath in files ==> p == userPath
    ensures p in files <==> userPath in files || projectPath in files
    ensures userPath !in files && projectPath !in files ==> p == userPath
  {
    if userPath in files then userPath
    else if projectPath in files then projectPath
    else userPath
  }

  /** The files after `createOrUpdateNpmrc`. */
  function Provisioned(files: map<string, string>, userPath: string, projectPath: string, npmToken: Option<string>)
    : (r: map<string, string>)
    ensures files.Keys <= r.Keys <= files.Keys + {ChosenPath(files, userPath, projectPath)}
    ensures var chosen := ChosenPath(files, userPath, projectPath);
      chosen in files ==> r[chosen] == UpdatedContent(files[chosen], npmToken)
    ensures userPath !in files && projectPath !in files ==>
      r == if Truthy(npmToken) then files[userPath := CreatedContent(npmToken.value)] else files
  {
    if userPath in files then files[userPath := UpdatedContent(files[userPath], npmToken)]
    else if projectPath in files then files[projectPath := UpdatedContent(files[projectPath], npmToken)]
    else if Truthy(npmToken) then files[userPath := CreatedContent(npmToken.value)]
    else files
  }

  /** Only the chosen file can change; every other file, the project file
      included when the user file exists, is left as it was. */
  lemma OnlyChosenFileChanges(files: map<string, string>, userPath: string, projectPath: string,
                              npmToken: Option<string>, p: string)
    requires p != ChosenPath(files, userPath, projectPath)
    ensures var after := Provisioned(files, userPath, projectPath, npmToken);
      (p in after <==> p in files) && (p in files ==> after[p] == files[p])
  {
  }

  /** A chosen file that already holds an auth line, or a missing token,
      leaves every file as it was. */
  lemma NothingToDo(files: map<string, string>, userPath: string, projectPath: string, npmToken: Option<string>)
    requires var chosen := ChosenPath(files, userPath, projectPath);
      !Truthy(npmToken) || (chosen in files && HasAuthLine(files[chosen]))
    ensures Provisioned(files, userPath, projectPath, npmToken) == files
  {
    var chosen := ChosenPath(files, userPath, projectPath);
    if chosen in files {
      assert files[chosen := files[chosen]] == files;
    }
  }

  /** With a token, the chosen file ends up holding an auth line. */
  lemma TokenEndsUpInChosenFile(files: map<string, string>, userPath: string, projectPath: string, npmToken: Option<string>)
    requires Truthy(npmToken)
    ensures var chosen, after := ChosenPath(files, userPath, projectPath), Provisioned(files, userPath, projectPath, npmToken);
      chosen in after && HasAuthLine(after[chosen])
  {
    var chosen := ChosenPath(files, userPath, projectPath);
    if chosen in files {
      if !HasAuthLine(files[chosen]) {
        AppendedHasAuthLine(files[chosen], npmToken.value);
      }
    } else {
      CreatedHasAuthLine(npmToken.value);
    }
  }

  /** Provisioning twice is provisioning once: the second run finds the
      auth line the first one wrote, or has no token either. */
  lemma ProvisionIdempotent(files: map<string, string>, userPath: string, projectPath: string, npmToken: Option<string>)
    ensures var once := Provisioned(files, userPath, projectPath, npmToken);
      Provisioned(once, userPath, projectPath, npmToken) == once
  {
    var once := Provisioned(files, userPath, projectPath, npmToken);
    assert ChosenPath(once, userPath, projectPath) == ChosenPath(files, userPath, projectPath)
        || (userPath !in files && projectPath !in files);
    if Truthy(npmToken) {
      TokenEndsUpInChosenFile(files, userPath, projectPath, npmToken);
      assert ChosenPath(once, userPath, projectPath) == ChosenPath(files, userPath, projectPath);
      NothingToDo(once, userPath, projectPath, npmToken);
    } else {
      NothingToDo(once, userPath, projectPath, npmToken);
    }
  }

  // ---------------------------------------------------------------------------
  // The file system and the operations
  // ---------------------------------------------------------------------------

  class FileSystem {
    var files: map<string, string>

    constructor (files: map<string, string>)
      ensures this.files == files
    {
      this.files := files;
    }

    method Exists(path: string) returns (b: bool)
      ensures b <==> path in files
    {
      b := path in files;
    }

    method ReadFile(path: string) returns (content: string)
      requires path in files
      ensures content == files[path]
    {
      content := files[path];
    }

    /** Appends to the file, creating it when missing. */
    method AppendFile(path: string, data: string)
      modifies this
      ensures files == old(files)[path := (if path in old(files) then old(files)[path] else "") + data]
    {
      files := files[path := (if path in files then files[path] else "") + data];
    }

    /** Writes the file, replacing any content. */
    method WriteFile(path: string, data: string)
      modifies this
      ensures files == old(files)[path := data]
    {
      files := files[path := data];
    }
  }

  /** `updateNpmrc`: reads the file, stops if a line is an auth line or no
      token is set, and otherwise appends the token line. */
  method UpdateNpmrc(fs: FileSystem, path: string, npmToken: Option<string>)
    requires path in fs.files
    modifies fs
    ensures fs.files == old(fs.files)[path := UpdatedContent(old(fs.files)[path], npmToken)]
  {
    var content := fs.ReadFile(path);
    var authLine := FindAuthLine(SplitOn(content, '\n'));
    if authLine.Some? {
      assert fs.files[path := content] == fs.files;
      return;
    }
    if !Truthy(npmToken) {
      assert fs.files[path := content] == fs.files;
      return;
    }
    fs.AppendFile(path, "\n" + AuthLinePrefix + npmToken.value + "\n");
    assert content + ("\n" + AuthLinePrefix + npmToken.value + "\n")
        == content + "\n" + AuthLinePrefix + npmToken.value + "\n";
  }

  /** `createNpmrc`: writes the token line when a token is set. */
  method CreateNpmrc(fs: FileSystem, path: string, npmToken: Option<string>)
    modifies fs
    ensures fs.files == if Truthy(npmToken) then old(fs.files)[path := CreatedContent(npmToken.value)]
                        else old(fs.files)
  {
    if !Truthy(npmToken) {
      return;
    }
    fs.WriteFile(path, CreatedContent(npmToken.value));
  }

  /** `createOrUpdateNpmrc`: the user file if it exists, else the project
      file if it exists, else a new user file. */
  method CreateOrUpdateNpmrc(fs: FileSystem, home: Option<string>, cwd: string, npmToken: Option<string>)
    modifies fs
    ensures fs.files == Provisioned(old(fs.files), UserNpmrcPath(home), ProjectNpmrcPath(cwd), npmToken)
  {
    var userNpmrcPath := UserNpmrcPath(home);
    var projectNpmrcPath := ProjectNpmrcPath(cwd);
    var userExists := fs.Exists(userNpmrcPath);
    if userExists {
      UpdateNpmrc(fs, userNpmrcPath, npmToken);
      return;
    }
    var projectExists := fs.Exists(projectNpmrcPath);
    if projectExists {
      UpdateNpmrc(fs, projectNpmrcPath, npmToken);
      return;
    }
    CreateNpmrc(fs, userNpmrcPath, npmToken);
  }
}
