/** The create command of main.go, the single-file revision of the package:
    `create` takes the primary directory as a parameter and always writes
    ".gitignore", and `main` runs it only for a non-blank argument. */
module MainGo {
  import opened GoStrings
  import opened Files
  import Assembly

  const OUTPUT: Str := ".gitignore"
  /** The mode create writes with: 0777 octal. */
  const CREATE_MODE: Perm := 511
  /** The primary directory main passes to create. main.go is a separate
      revision of the program and hard-codes it itself, as Commands does. */
  const DATA_DIR: Str := "./gitignorer_data/gitignores/"

  /** create(filepath, languages): the assembler over `filepath`, always
      writing ".gitignore" with mode 0777. */
  method Create(fs: Tree, filepath: Str, languages: Str) returns (outcome: Assembly.CreateOutcome)
    ensures outcome == Assembly.Created(fs, filepath, languages, OUTPUT, CREATE_MODE)
    ensures outcome.Saved? ==> OthersUnchanged(fs, outcome.tree, OUTPUT)
  {
    outcome := Assembly.Create(fs, filepath, languages, OUTPUT, CREATE_MODE);
    Assembly.CreatedWrites(fs, filepath, languages, OUTPUT, CREATE_MODE);
  }

  datatype Command = ShowHelpAndExit | Ran(outcome: Assembly.CreateOutcome)

  /** The "create" case of main: create runs on os.Args[2], untrimmed, when
      that argument exists and is not blank; otherwise the help is shown and
      the process exits. */
  method CreateCommand(fs: Tree, args: seq<Str>) returns (c: Command)
    requires |args| >= 2 && args[1] == "create"
    ensures c.ShowHelpAndExit? <==> |args| <= 2 || IsBlank(args[2])
    ensures c.Ran? ==> c.outcome == Assembly.Created(fs, DATA_DIR, args[2], OUTPUT, CREATE_MODE)
  {
    if |args| > 2 && TrimSpace(args[2]) != "" {
      TrimSpaceEmpty(args[2]);
      var outcome := Create(fs, DATA_DIR, args[2]);
      c := Ran(outcome);
    } else {
      if |args| > 2 {
        TrimSpaceEmpty(args[2]);
      }
      c := ShowHelpAndExit;
    }
  }
}
