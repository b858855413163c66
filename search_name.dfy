/** The optional value of Python's `None`-or-value returns. */
module Options {
  datatype Option<+T> = None | Some(value: T)
}

/** The search alias of an application: its display name, extended by the name
    of the program its launch command runs, unless that would be redundant. */
module SearchNames {
  import opened Text
  import opened Options

  /** The field codes of the "Exec" key of the Freedesktop Desktop Entry
      Specification (section "The Exec key"): `%` followed by one of
      f F u U d D n N i c k v m. The launcher substitutes them at run time. */
  predicate IsFieldCode(token: string) {
    |token| == 2 && token[0] == '%' && token[1] in "fFuUdDnNickvm"
  }

  /** A command-line option such as `--backup` or `--app-id=...`. */
  predicate IsFlag(token: string) {
    token != [] && token[0] == '-'
  }

  /** A token that may name the program: neither a field code nor a flag. */
  predicate IsProgramToken(token: string) {
    !IsFieldCode(token) && !IsFlag(token)
  }

  /** The base name of the first program token of `tokens`, or "" when every
      token is a field code or a flag. */
  function FirstProgram(tokens: seq<string>): (name: string)
    ensures '/' !in name
  {
    if tokens == [] then ""
    else if IsProgramToken(tokens[0]) then Basename(tokens[0])
    else FirstProgram(tokens[1..])
  }

  /** The program a launch command runs, reduced to its base name; "" when the
      command holds only field codes and flags, or nothing at all. */
  function CommandName(exec: string): (name: string)
    ensures '/' !in name
  {
    FirstProgram(Split(exec))
  }

  /** `FirstProgram` is the base name of the first program token, and "" when
      there is none. */
  lemma {:induction false} FirstProgramIsFirst(tokens: seq<string>, k: nat)
    requires k <= |tokens|
    requires forall j :: 0 <= j < k ==> !IsProgramToken(tokens[j])
    ensures k == |tokens| ==> FirstProgram(tokens) == ""
    ensures k < |tokens| && IsProgramToken(tokens[k]) ==> FirstProgram(tokens) == Basename(tokens[k])
  {
    if k > 0 {
      FirstProgramIsFirst(tokens[1..], k - 1);
    }
  }

  /** The command name holds no separator: it is part of a single word of the
      command. */
  lemma CommandNameIsOneWord(exec: string)
    ensures forall i :: 0 <= i < |CommandName(exec)| ==> !IsSpace(CommandName(exec)[i])
  {
    var tokens := Split(exec);
    SplitGivesWords(exec);
    var k := 0;
    while k < |tokens| && !IsProgramToken(tokens[k])
      invariant k <= |tokens|
      invariant forall j :: 0 <= j < k ==> !IsProgramToken(tokens[j])
    {
      k := k + 1;
    }
    FirstProgramIsFirst(tokens, k);
    if k < |tokens| {
      var b := Basename(tokens[k]);
      BasenameIsLastComponent(tokens[k]);
      forall i | 0 <= i < |b| ensures !IsSpace(b[i]) {
        assert b[i] == tokens[k][|tokens[k]| - |b| + i];
      }
    }
  }

  /** The program name adds nothing to the display name when the display name,
      lower-cased and with its spaces turned into dashes, already occurs in it
      ("Calendar" in `gnome-calendar`, "Content Hub Clipboard" in
      `content-hub-clipboard`). */
  predicate Redundant(displayName: string, program: string) {
    Contains(Lower(program), Lower(Dashed(displayName)))
  }

  /** `search_name(display_name, exec)`: the alias used for matching. With no
      command (`None` or empty), or a command naming no program, or a program
      name that is redundant, it is the display name; otherwise the display
      name, a space, and the program's base name. */
  function SearchName(displayName: string, exec: Option<string>): (alias: string)
    ensures displayName <= alias
    ensures alias == displayName <==>
      (exec == None || CommandName(exec.value) == "" || Redundant(displayName, CommandName(exec.value)))
    ensures alias != displayName ==>
      alias == displayName + " " + CommandName(exec.value) && CommandName(exec.value) != ""
  {
    match exec
    case None => displayName
    case Some(command) =>
      var program := CommandName(command);
      if program == "" || Redundant(displayName, program) then displayName
      else displayName + " " + program
  }

  /** A program name that is not redundant is appended after one space. */
  lemma Appended(displayName: string, exec: string, program: string)
    requires CommandName(exec) == program && program != ""
    requires !Redundant(displayName, program)
    ensures SearchName(displayName, Some(exec)) == displayName + " " + program
  {
  }

  /** A field code or a flag in front of the command is skipped. */
  lemma {:induction false} CommandNameSkips(token: string, rest: string)
    requires IsWord(token) && !IsProgramToken(token)
    requires rest == [] || IsSpace(rest[0])
    ensures CommandName(token + rest) == CommandName(rest)
  {
    SplitWord(token, rest);
    assert ([token] + Split(rest))[1..] == Split(rest);
  }

  /** The first program token decides: whatever follows it (arguments, flags,
      field codes) is ignored, and only its base name is kept. */
  lemma {:induction false} CommandNameTakes(token: string, rest: string)
    requires IsWord(token) && IsProgramToken(token)
    requires rest == [] || IsSpace(rest[0])
    ensures CommandName(token + rest) == Basename(token)
  {
    SplitWord(token, rest);
  }

  /** A plain program name in first position is the command name. */
  lemma ProgramFirst(program: string, rest: string)
    requires IsWord(program) && IsProgramToken(program) && '/' !in program
    requires rest == [] || IsSpace(rest[0])
    ensures CommandName(program + rest) == program
  {
    CommandNameTakes(program, rest);
  }

  /** Only the base name of a program given by path is kept. */
  lemma AbsolutePathCommand(dir: string, program: string, rest: string)
    requires IsWord(dir + "/" + program) && !IsFlag(dir + "/" + program)
    requires '/' !in program
    requires rest == [] || IsSpace(rest[0])
    ensures CommandName(dir + "/" + program + rest) == program
  {
    var token := dir + "/" + program;
    assert !IsFieldCode(token) by {
      if |token| == 2 {
        assert token[1] == '/' || token[0] == '/';
      }
    }
    CommandNameTakes(token, rest);
    BasenameAfterSlash(dir, program);
  }

}

/** The seven launch commands of the launcher's test table
    (tests/search/apps/test_AppDb.py) and the aliases they must produce. Each
    row is proved from three facts: where the command splits, which program it
    names, and whether that name is redundant. */
module SearchNameVectors {
  import opened Text
  import opened Options
  import opened SearchNames

  // GNU Image Manipulation Program, `gimp-2.8 %U`

  lemma GimpCommand()
    ensures CommandName("gimp-2.8 %U") == "gimp-2.8"
  {
    assert "gimp-2.8 %U" == "gimp-2.8" + " %U";
    ProgramFirst("gimp-2.8", " %U");
  }

  lemma GimpNotRedundant()
    ensures !Redundant("GNU Image Manipulation Program", "gimp-2.8")
  {
    var name := "GNU Image Manipulation Program";
    assert Lower(Dashed(name))[2] == 'u';
    assert 'u' !in Lower("gimp-2.8");
    MissingCharNotContained(Lower("gimp-2.8"), Lower(Dashed(name)), 'u');
  }

  /** The `%U` field code is dropped and the program name appended. */
  lemma GimpVector()
    ensures SearchName("GNU Image Manipulation Program", Some("gimp-2.8 %U"))
         == "GNU Image Manipulation Program gimp-2.8"
  {
    assert "GNU Image Manipulation Program" + " " + "gimp-2.8" == "GNU Image Manipulation Program gimp-2.8";
    GimpCommand();
    GimpNotRedundant();
    Appended("GNU Image Manipulation Program", "gimp-2.8 %U", "gimp-2.8");
  }

  // Content Hub Clipboard, `content-hub-clipboard %U`

  lemma ContentHubCommand()
    ensures CommandName("content-hub-clipboard %U") == "content-hub-clipboard"
  {
    assert "content-hub-clipboard %U" == "content-hub-clipboard" + " %U";
    ProgramFirst("content-hub-clipboard", " %U");
  }

  lemma ContentHubRedundant()
    ensures Redundant("Content Hub Clipboard", "content-hub-clipboard")
  {
    var hay, needle := Lower("content-hub-clipboard"), Lower(Dashed("Content Hub Clipboard"));
    assert hay == "content-hub-clipboard";
    assert needle == "content-hub-clipboard";
    ContainsAt(hay, needle, 0);
  }

  /** The display name, dashed, is the program name: nothing is appended. */
  lemma ContentHubVector()
    ensures SearchName("Content Hub Clipboard", Some("content-hub-clipboard %U"))
         == "Content Hub Clipboard"
  {
    ContentHubCommand();
    ContentHubRedundant();
  }

  // Scopes, `/usr/bin/unity8-dash`

  lemma ScopesCommand()
    ensures CommandName("/usr/bin/unity8-dash") == "unity8-dash"
  {
    assert "/usr/bin/unity8-dash" == "/usr/bin" + "/" + "unity8-dash" + "";
    AbsolutePathCommand("/usr/bin", "unity8-dash", "");
  }

  lemma ScopesNotRedundant()
    ensures !Redundant("Scopes", "unity8-dash")
  {
    assert Lower(Dashed("Scopes"))[1] == 'c';
    assert 'c' !in Lower("unity8-dash");
    MissingCharNotContained(Lower("unity8-dash"), Lower(Dashed("Scopes")), 'c');
  }

  /** An absolute path contributes only its base name. */
  lemma ScopesVector()
    ensures SearchName("Scopes", Some("/usr/bin/unity8-dash")) == "Scopes unity8-dash"
  {
    assert "Scopes" + " " + "unity8-dash" == "Scopes unity8-dash";
    ScopesCommand();
    ScopesNotRedundant();
    Appended("Scopes", "/usr/bin/unity8-dash", "unity8-dash");
  }

  // Mouse & Touchpad, `unity-control-center mouse`

  lemma MouseCommand()
    ensures CommandName("unity-control-center mouse") == "unity-control-center"
  {
    assert "unity-control-center mouse" == "unity-control-center" + " mouse";
    ProgramFirst("unity-control-center", " mouse");
  }

  lemma MouseNotRedundant()
    ensures !Redundant("Mouse & Touchpad", "unity-control-center")
  {
    assert Lower(Dashed("Mouse & Touchpad"))[6] == '&';
    assert '&' !in Lower("unity-control-center");
    MissingCharNotContained(Lower("unity-control-center"), Lower(Dashed("Mouse & Touchpad")), '&');
  }

  /** A later plain argument (`mouse`) is ignored. */
  lemma MouseVector()
    ensures SearchName("Mouse & Touchpad", Some("unity-control-center mouse"))
         == "Mouse & Touchpad unity-control-center"
  {
    assert "Mouse & Touchpad" + " " + "unity-control-center" == "Mouse & Touchpad unity-control-center";
    MouseCommand();
    MouseNotRedundant();
    Appended("Mouse & Touchpad", "unity-control-center mouse", "unity-control-center");
  }

  // Back Up, `deja-dup --backup`

  lemma BackUpCommand()
    ensures CommandName("deja-dup --backup") == "deja-dup"
  {
    assert "deja-dup --backup" == "deja-dup" + " --backup";
    ProgramFirst("deja-dup", " --backup");
  }

  lemma BackUpNotRedundant()
    ensures !Redundant("Back Up", "deja-dup")
  {
    assert Lower(Dashed("Back Up"))[0] == 'b';
    assert 'b' !in Lower("deja-dup");
    MissingCharNotContained(Lower("deja-dup"), Lower(Dashed("Back Up")), 'b');
  }

  /** A trailing flag is ignored. */
  lemma BackUpVector()
    ensures SearchName("Back Up", Some("deja-dup --backup")) == "Back Up deja-dup"
  {
    assert "Back Up" + " " + "deja-dup" == "Back Up deja-dup";
    BackUpCommand();
    BackUpNotRedundant();
    Appended("Back Up", "deja-dup --backup", "deja-dup");
  }

  // Calendar, `gnome-calendar`

  lemma CalendarCommand()
    ensures CommandName("gnome-calendar") == "gnome-calendar"
  {
    assert "gnome-calendar" == "gnome-calendar" + "";
    ProgramFirst("gnome-calendar", "");
  }

  lemma CalendarRedundant()
    ensures Redundant("Calendar", "gnome-calendar")
  {
    var hay, needle := Lower("gnome-calendar"), Lower(Dashed("Calendar"));
    assert hay == "gnome-calendar";
    assert needle == "calendar";
    assert hay[6..6 + |needle|] == needle;
    ContainsAt(hay, needle, 6);
  }

  /** The display name occurs inside the program name: nothing is appended. */
  lemma CalendarVector()
    ensures SearchName("Calendar", Some("gnome-calendar")) == "Calendar"
  {
    CalendarCommand();
    CalendarRedundant();
  }

  // Amazon, `unity-webapps-runner --amazon --app-id=ubuntu-amazon-default`

  lemma AmazonCommand()
    ensures CommandName("unity-webapps-runner" + " --amazon --app-id=ubuntu-amazon-default")
         == "unity-webapps-runner"
  {
    ProgramFirst("unity-webapps-runner", " --amazon --app-id=ubuntu-amazon-default");
  }

  lemma AmazonNotRedundant()
    ensures !Redundant("Amazon", "unity-webapps-runner")
  {
    assert Lower(Dashed("Amazon"))[1] == 'm';
    assert 'm' !in Lower("unity-webapps-runner");
    MissingCharNotContained(Lower("unity-webapps-runner"), Lower(Dashed("Amazon")), 'm');
  }

  /** Flags, including `--app-id=...`, are ignored. The command is written
      as its program word followed by its flags. */
  lemma AmazonVector()
    ensures SearchName("Amazon", Some("unity-webapps-runner" + " --amazon --app-id=ubuntu-amazon-default"))
         == "Amazon unity-webapps-runner"
  {
    assert "Amazon" + " " + "unity-webapps-runner" == "Amazon unity-webapps-runner";
    AmazonCommand();
    AmazonNotRedundant();
    Appended("Amazon", "unity-webapps-runner" + " --amazon --app-id=ubuntu-amazon-default", "unity-webapps-runner");
  }
}
