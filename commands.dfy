/** The commands of commands.go that touch templates and fragments: Create,
    the assembler over the fixed data directory and an explicit output path,
    and UseTemplate, which copies a stored template verbatim. */
module Commands {
  import opened GoStrings
  import opened Files
  import Assembly

  /** The primary tier; the global tier is its Global/ subdirectory. */
  const DATA_DIR: Str := "./gitignorer_data/gitignores/"
  const TEMPLATES_DIR: Str := "./gitignorer_data/Templates/"
  const TEMPLATE_EXTENSION: Str := ".Template.gitignore"

  /** The mode Create writes with: 0755 octal. */
  const CREATE_MODE: Perm := 493
  /** The mode UseTemplate writes with: 077 octal, as written in the source. */
  const TEMPLATE_MODE: Perm := 63

  /** Create(languages, outputPath): the assembler over DATA_DIR, writing to
      `outputPath` with mode 0755. */
  method Create(fs: Tree, languages: Str, outputPath: Str) returns (outcome: Assembly.CreateOutcome)
    ensures outcome == Assembly.Created(fs, DATA_DIR, languages, outputPath, CREATE_MODE)
    ensures outcome.Saved? ==> OthersUnchanged(fs, outcome.tree, outputPath)
  {
    outcome := Assembly.Create(fs, DATA_DIR, languages, outputPath, CREATE_MODE);
    Assembly.CreatedWrites(fs, DATA_DIR, languages, outputPath, CREATE_MODE);
  }

  /** The global tier of Create is "./gitignorer_data/gitignores/Global/". */
  lemma CreateGlobalTier(name: Str)
    ensures Assembly.GlobalPath(DATA_DIR, name) ==
      "./gitignorer_data/gitignores/Global/" + name + ".gitignore"
  {
  }

  function TemplatePath(templateName: Str): Str {
    TEMPLATES_DIR + templateName + TEMPLATE_EXTENSION
  }

  /** UseTemplate(templateName, outputPath): read the stored template; on a
      read error return it and write nothing; otherwise write its bytes
      unchanged to `outputPath` and return the write's error, if any. */
  method UseTemplate(fs: Tree, templateName: Str, outputPath: Str)
    returns (err: Option<Error>, tree: Tree)
    ensures !IsFileExist(fs, TemplatePath(templateName)) ==>
      err == Some(NotExist(TemplatePath(templateName))) && tree == fs
    ensures err.Some? ==> tree == fs
    ensures err.None? <==>
      ReadFile(fs, TemplatePath(templateName)).Ok? && !(IsFileExist(fs, outputPath) && fs[outputPath].Dir?)
    ensures err.None? ==>
      ReadFile(tree, outputPath) == ReadFile(fs, TemplatePath(templateName)) &&
      OthersUnchanged(fs, tree, outputPath)
  {
    var template := ReadFile(fs, TemplatePath(templateName));
    if template.Err? {
      return Some(template.error), fs;
    }
    var written := WriteFile(fs, outputPath, template.value, TEMPLATE_MODE);
    if written.Err? {
      return Some(written.error), fs;
    }
    return None, written.value;
  }
}
