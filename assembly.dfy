/** The fragment assembler shared by both revisions of the create command
    (commands.go `Create`, main.go `create`): split the list of names on
    commas, resolve each name against the primary tier `<dir><name>.gitignore`
    and the global tier `<dir>Global/<name>.gitignore`, append a header and the
    fragment for every name found, and write the buffer to one destination.

    `Assemble` is the specification of the loop, `Create` the loop itself,
    `Render` an independent description of the assembled output. */
module Assembly {
  import opened GoStrings
  import opened Files

  const EXTENSION: Str := ".gitignore"
  const GLOBAL_DIR: Str := "Global/"

  /** The path of a name in the primary tier. */
  function PrimaryPath(primary: Str, name: Str): Str {
    primary + name + EXTENSION
  }

  /** The path of a name in the global tier. */
  function GlobalPath(primary: Str, name: Str): Str {
    primary + GLOBAL_DIR + name + EXTENSION
  }

  datatype Resolution = Missing | Found(path: Str)

  /** Where a name is read from: the primary tier if the path exists there,
      otherwise the global tier if it exists there, otherwise nowhere. */
  function Resolve(fs: Tree, primary: Str, name: Str): (r: Resolution)
    ensures r == Found(PrimaryPath(primary, name)) <==> IsFileExist(fs, PrimaryPath(primary, name))
    ensures r == Found(GlobalPath(primary, name)) <==>
      !IsFileExist(fs, PrimaryPath(primary, name)) && IsFileExist(fs, GlobalPath(primary, name))
    ensures r == Missing <==>
      !IsFileExist(fs, PrimaryPath(primary, name)) && !IsFileExist(fs, GlobalPath(primary, name))
  {
    assert |GlobalPath(primary, name)| == |PrimaryPath(primary, name)| + |GLOBAL_DIR|;
    if !IsFileExist(fs, PrimaryPath(primary, name)) && !IsFileExist(fs, GlobalPath(primary, name)) then Missing
    else if IsFileExist(fs, PrimaryPath(primary, name)) then Found(PrimaryPath(primary, name))
    else Found(GlobalPath(primary, name))
  }

  /** The banner in front of each fragment: "\n##### <name> #####\n\n". */
  function Header(name: Str): (h: Str)
    ensures |h| == |name| + 15
    ensures h[..7] == "\n##### "
    ensures h[7..7 + |name|] == name
    ensures h[7 + |name|..] == " #####\n\n"
  {
    "\n##### " + name + " #####\n\n"
  }

  // ---------------------------------------------------------------------
  // The loop, as a function

  /** The state of the loop: the buffer, the names skipped so far (each one a
      printed notice), and the read error that ends the process, if any. */
  datatype Progress = Progress(output: Str, skipped: seq<Str>, failure: Option<Error>)

  const START := Progress([], [], None)

  /** One iteration for `name`. */
  function Step(fs: Tree, primary: Str, acc: Progress, name: Str): Progress
    requires acc.failure.None?
  {
    match Resolve(fs, primary, name)
    case Missing => acc.(skipped := acc.skipped + [name])
    case Found(path) =>
      match ReadFile(fs, path)
      case Err(e) => acc.(failure := Some(e))
      case Ok(data) => acc.(output := acc.output + Header(name) + data)
  }

  /** The names processed in order from `acc`; a read error stops the loop. */
  function AssembleFrom(fs: Tree, primary: Str, acc: Progress, names: seq<Str>): Progress
    decreases |names|
  {
    if names == [] then acc
    else
      var before := AssembleFrom(fs, primary, acc, names[..|names| - 1]);
      if before.failure.Some? then before else Step(fs, primary, before, names[|names| - 1])
  }

  function Assemble(fs: Tree, primary: Str, names: seq<Str>): Progress {
    AssembleFrom(fs, primary, START, names)
  }

  /** What a run of create leaves behind: either the (possibly rewritten) tree
      and the skip notices, or the exit on a read error, with nothing written. */
  datatype CreateOutcome = Saved(tree: Tree, skipped: seq<Str>) | Exited(skipped: seq<Str>, error: Error)

  /** The outcome of create. The error of the final write is ignored, as in the
      source: a failed write leaves the tree as it was. */
  function Created(fs: Tree, primary: Str, languages: Str, outputPath: Str, perm: Perm): CreateOutcome {
    var p := Assemble(fs, primary, Split(languages, COMMA));
    if p.failure.Some? then Exited(p.skipped, p.failure.value)
    else match WriteFile(fs, outputPath, p.output, perm)
      case Ok(t) => Saved(t, p.skipped)
      case Err(_) => Saved(fs, p.skipped)
  }

  // ---------------------------------------------------------------------
  // The loop

  /** The create command over the primary directory `primary`, writing to
      `outputPath` with mode `perm`. */
  method Create(fs: Tree, primary: Str, languages: Str, outputPath: Str, perm: Perm)
    returns (outcome: CreateOutcome)
    ensures outcome == Created(fs, primary, languages, outputPath, perm)
  {
    var globalPath := primary + GLOBAL_DIR;
    var languageSlice := Split(languages, COMMA);
    var outData: Str := [];
    var skipped: seq<Str> := [];  // the printed skip notices
    for i := 0 to |languageSlice|
      invariant AssembleFrom(fs, primary, START, languageSlice[..i]) == Progress(outData, skipped, None)
    {
      assert languageSlice[..i + 1][..i] == languageSlice[..i];
      var v := languageSlice[i];
      var fullName := v + EXTENSION;
      assert primary + fullName == PrimaryPath(primary, v);
      assert globalPath + fullName == GlobalPath(primary, v);
      if !IsFileExist(fs, primary + fullName) && !IsFileExist(fs, globalPath + fullName) {
        skipped := skipped + [v];
        continue;
      } else if IsFileExist(fs, primary + fullName) {
        fullName := primary + fullName;
      } else {
        fullName := globalPath + fullName;
      }
      var gitignoreData := ReadFile(fs, fullName);
      if gitignoreData.Err? {
        AssembleStopsAt(fs, primary, languageSlice, i);
        return Exited(skipped, gitignoreData.error);
      }
      outData := outData + Header(v) + gitignoreData.value;
    }
    assert languageSlice[..|languageSlice|] == languageSlice;
    var written := WriteFile(fs, outputPath, outData, perm);
    if written.Ok? {
      outcome := Saved(written.value, skipped);
    } else {
      outcome := Saved(fs, skipped);
    }
  }

  lemma AssembleStopsAt(fs: Tree, primary: Str, names: seq<Str>, i: nat)
    requires i < |names|
    requires AssembleFrom(fs, primary, START, names[..i + 1]).failure.Some?
    ensures Assemble(fs, primary, names) == AssembleFrom(fs, primary, START, names[..i + 1])
  {
    AssembleFromAppend(fs, primary, START, names[..i + 1], names[i + 1..]);
    AssembleFromFailed(fs, primary, AssembleFrom(fs, primary, START, names[..i + 1]), names[i + 1..]);
    assert names[..i + 1] + names[i + 1..] == names;
  }

  // ---------------------------------------------------------------------
  // Order: every name is processed once, in input order

  lemma {:induction false} AssembleFromAppend(fs: Tree, primary: Str, acc: Progress, a: seq<Str>, b: seq<Str>)
    ensures AssembleFrom(fs, primary, acc, a + b) ==
            AssembleFrom(fs, primary, AssembleFrom(fs, primary, acc, a), b)
    decreases |b|
  {
    if b == [] {
      assert a + b == a;
    } else {
      assert (a + b)[..|a + b| - 1] == a + b[..|b| - 1];
      AssembleFromAppend(fs, primary, acc, a, b[..|b| - 1]);
    }
  }

  lemma {:induction false} AssembleFromFailed(fs: Tree, primary: Str, acc: Progress, names: seq<Str>)
    requires acc.failure.Some?
    ensures AssembleFrom(fs, primary, acc, names) == acc
    decreases |names|
  {
    if names != [] {
      AssembleFromFailed(fs, primary, acc, names[..|names| - 1]);
    }
  }

  /** Starting from a buffer and a list of notices only prefixes them. */
  lemma {:induction false} AssembleFromShift(fs: Tree, primary: Str, acc: Progress, names: seq<Str>)
    requires acc.failure.None?
    ensures var r := Assemble(fs, primary, names);
      AssembleFrom(fs, primary, acc, names) == Progress(acc.output + r.output, acc.skipped + r.skipped, r.failure)
    decreases |names|
  {
    if names == [] {
      assert acc.output + [] == acc.output && acc.skipped + [] == acc.skipped;
    } else {
      var init := names[..|names| - 1];
      AssembleFromShift(fs, primary, acc, init);
      var r := Assemble(fs, primary, init);
      if r.failure.None? {
        var name := names[|names| - 1];
        match Resolve(fs, primary, name)
        case Missing =>
          assert acc.skipped + r.skipped + [name] == acc.skipped + (r.skipped + [name]);
        case Found(path) =>
          if ReadFile(fs, path).Ok? {
            var data := ReadFile(fs, path).value;
            assert acc.output + r.output + Header(name) + data == acc.output + (r.output + Header(name) + data);
          }
      }
    }
  }

  /** Assembling a concatenated list is assembling the first part and then the
      second: the outputs and the notices follow the input order. If the first
      part hits a read error, nothing after it is processed. */
  lemma AssembleConcat(fs: Tree, primary: Str, a: seq<Str>, b: seq<Str>)
    ensures var ra, rb := Assemble(fs, primary, a), Assemble(fs, primary, b);
      Assemble(fs, primary, a + b) ==
        if ra.failure.Some? then ra
        else Progress(ra.output + rb.output, ra.skipped + rb.skipped, rb.failure)
  {
    AssembleFromAppend(fs, primary, START, a, b);
    var ra := Assemble(fs, primary, a);
    if ra.failure.Some? {
      AssembleFromFailed(fs, primary, ra, b);
    } else {
      AssembleFromShift(fs, primary, ra, b);
    }
  }

  /** A list given twice is processed twice: no deduplication. */
  lemma DuplicatesRepeat(fs: Tree, primary: Str, names: seq<Str>)
    requires Assemble(fs, primary, names).failure.None?
    ensures var r := Assemble(fs, primary, names);
      Assemble(fs, primary, names + names) == Progress(r.output + r.output, r.skipped + r.skipped, None)
  {
    AssembleConcat(fs, primary, names, names);
  }

  /** One name on its own: skipped with a notice, or its header and fragment,
      or the read error. */
  lemma AssembleOne(fs: Tree, primary: Str, name: Str)
    ensures var r := Assemble(fs, primary, [name]);
      match Resolve(fs, primary, name)
      case Missing => r == Progress([], [name], None)
      case Found(path) =>
        match ReadFile(fs, path)
        case Ok(data) => r == Progress(Header(name) + data, [], None)
        case Err(e) => r == Progress([], [], Some(e))
  {
    assert [name][..0] == [];
    assert AssembleFrom(fs, primary, START, [name][..0]) == START;
    assert START.failure.None?;
  }

  /** A name found in neither tier contributes no header and no bytes: removing
      it from the list changes neither the output nor the outcome. */
  lemma MissingNameContributesNothing(fs: Tree, primary: Str, a: seq<Str>, name: Str, b: seq<Str>)
    requires Resolve(fs, primary, name) == Missing
    ensures Assemble(fs, primary, a + [name] + b).output == Assemble(fs, primary, a + b).output
    ensures Assemble(fs, primary, a + [name] + b).failure == Assemble(fs, primary, a + b).failure
  {
    AssembleOne(fs, primary, name);
    AssembleConcat(fs, primary, a, [name]);
    AssembleConcat(fs, primary, a + [name], b);
    AssembleConcat(fs, primary, a, b);
    assert Assemble(fs, primary, a).output + [] == Assemble(fs, primary, a).output;
  }

  // ---------------------------------------------------------------------
  // The assembled output, described independently

  /** A found name and the fragment read for it. */
  datatype Section = Section(name: Str, data: Str)

  /** The assembled output of a list of sections: each header followed by its
      fragment, in order. */
  function Render(sections: seq<Section>): Str {
    if sections == [] then []
    else Render(sections[..|sections| - 1]) + Header(sections[|sections| - 1].name) + sections[|sections| - 1].data
  }

  /** The sum of the header length and the fragment length over the sections. */
  function TotalLength(sections: seq<Section>): nat {
    if sections == [] then 0
    else TotalLength(sections[1..]) + |sections[0].name| + 15 + |sections[0].data|
  }

  /** The sections of the names that resolve to a readable fragment, in order. */
  function Fragments(fs: Tree, primary: Str, names: seq<Str>): seq<Section> {
    if names == [] then []
    else Fragments(fs, primary, names[..|names| - 1]) + FragmentOf(fs, primary, names[|names| - 1])
  }

  function FragmentOf(fs: Tree, primary: Str, name: Str): seq<Section> {
    match Resolve(fs, primary, name)
    case Missing => []
    case Found(path) => if ReadFile(fs, path).Ok? then [Section(name, ReadFile(fs, path).value)] else []
  }

  /** The names found in neither tier, in order, duplicates included. */
  function MissingNames(fs: Tree, primary: Str, names: seq<Str>): seq<Str> {
    if names == [] then []
    else
      var name := names[|names| - 1];
      MissingNames(fs, primary, names[..|names| - 1]) + (if Resolve(fs, primary, name) == Missing then [name] else [])
  }

  /** The name is missing, or the path it resolves to can be read. */
  predicate Readable(fs: Tree, primary: Str, name: Str) {
    Resolve(fs, primary, name).Found? ==> ReadFile(fs, Resolve(fs, primary, name).path).Ok?
  }

  ghost predicate AllReadable(fs: Tree, primary: Str, names: seq<Str>) {
    forall i :: 0 <= i < |names| ==> Readable(fs, primary, names[i])
  }

  /** The loop ends without a read error exactly when every resolved fragment
      is readable. */
  lemma {:induction false} AssembleSucceeds(fs: Tree, primary: Str, names: seq<Str>)
    ensures Assemble(fs, primary, names).failure.None? <==> AllReadable(fs, primary, names)
    decreases |names|
  {
    if names != [] {
      var init := names[..|names| - 1];
      AssembleSucceeds(fs, primary, init);
      assert forall i :: 0 <= i < |init| ==> init[i] == names[i];
      if Assemble(fs, primary, init).failure.Some? {
        assert !AllReadable(fs, primary, init);
      }
    }
  }

  /** Without a read error, the buffer is the rendering of the found fragments
      in input order, and the notices are the missing names in input order. */
  lemma {:induction false} AssembleRenders(fs: Tree, primary: Str, names: seq<Str>)
    requires Assemble(fs, primary, names).failure.None?
    ensures Assemble(fs, primary, names).output == Render(Fragments(fs, primary, names))
    ensures Assemble(fs, primary, names).skipped == MissingNames(fs, primary, names)
    decreases |names|
  {
    if names != [] {
      var init := names[..|names| - 1];
      var name := names[|names| - 1];
      assert Assemble(fs, primary, init).failure.None?;
      AssembleRenders(fs, primary, init);
      var here := FragmentOf(fs, primary, name);
      RenderAppend(Fragments(fs, primary, init), here);
      if here != [] {
        RenderOne(here[0]);
      }
    }
  }

  lemma RenderOne(s: Section)
    ensures Render([s]) == Header(s.name) + s.data
  {
  }

  lemma {:induction false} RenderAppend(a: seq<Section>, b: seq<Section>)
    ensures Render(a + b) == Render(a) + Render(b)
    decreases |b|
  {
    if b == [] {
      assert a + b == a;
    } else {
      var init, last := b[..|b| - 1], b[|b| - 1];
      assert (a + b)[..|a + b| - 1] == a + init;
      assert (a + b)[|a + b| - 1] == last;
      RenderAppend(a, init);
      calc {
        Render(a + b);
        Render(a + init) + Header(last.name) + last.data;
        Render(a) + Render(init) + Header(last.name) + last.data;
        Render(a) + (Render(init) + Header(last.name) + last.data);
      }
    }
  }

  /** The length of the assembled output is the sum, over the found fragments,
      of the header length (the name plus fifteen bytes) and the fragment
      length. */
  lemma {:induction false} RenderLength(sections: seq<Section>)
    ensures |Render(sections)| == TotalLength(sections)
    decreases |sections|
  {
    if sections != [] {
      RenderAppend([sections[0]], sections[1..]);
      assert [sections[0]] + sections[1..] == sections;
      assert [sections[0]][..0] == [];
      RenderLength(sections[1..]);
    }
  }

  /** If no name resolves, nothing is appended and every name is skipped. */
  lemma {:induction false} AllMissingIsEmpty(fs: Tree, primary: Str, names: seq<Str>)
    requires forall i :: 0 <= i < |names| ==> Resolve(fs, primary, names[i]) == Missing
    ensures Assemble(fs, primary, names) == Progress([], names, None)
    decreases |names|
  {
    if names != [] {
      var init := names[..|names| - 1];
      AllMissingIsEmpty(fs, primary, init);
      assert init + [names[|names| - 1]] == names;
    }
  }

  // ---------------------------------------------------------------------
  // The write

  /** A run of create that does not exit writes exactly one path, the output
      path, and stores the assembled buffer there (unless that path is a
      directory, when the ignored write error leaves everything as it was). An
      exit leaves the tree untouched. */
  lemma CreatedWrites(fs: Tree, primary: Str, languages: Str, outputPath: Str, perm: Perm)
    ensures var p := Assemble(fs, primary, Split(languages, COMMA));
      match Created(fs, primary, languages, outputPath, perm)
      case Exited(skipped, e) => p.failure == Some(e) && skipped == p.skipped
      case Saved(t, skipped) =>
        && p.failure.None? && skipped == p.skipped
        && OthersUnchanged(fs, t, outputPath)
        && (IsFileExist(fs, outputPath) && fs[outputPath].Dir? ==> t == fs)
        && (!(IsFileExist(fs, outputPath) && fs[outputPath].Dir?) ==> ReadFile(t, outputPath) == Ok(p.output))
  {
  }

  /** If every name is missing, the written content is empty. */
  lemma CreatedAllMissing(fs: Tree, primary: Str, languages: Str, outputPath: Str, perm: Perm)
    requires forall v :: v in Split(languages, COMMA) ==> Resolve(fs, primary, v) == Missing
    requires !(IsFileExist(fs, outputPath) && fs[outputPath].Dir?)
    ensures Created(fs, primary, languages, outputPath, perm).Saved?
    ensures ReadFile(Created(fs, primary, languages, outputPath, perm).tree, outputPath) == Ok([])
    ensures Created(fs, primary, languages, outputPath, perm).skipped == Split(languages, COMMA)
  {
    AllMissingIsEmpty(fs, primary, Split(languages, COMMA));
  }

  // ---------------------------------------------------------------------
  // A worked example

  /** gitignores/Python.gitignore is "__pycache__/" and
      gitignores/Global/Emacs.gitignore is "*~"; "Python,Emacs,Foo" gives the
      two sections in order and one notice for Foo. */
  lemma Example(fs: Tree, dir: Str)
    requires dir == "./gitignorer_data/gitignores/"
    requires fs == map[dir + "Python.gitignore" := File("__pycache__/", 420),
                       dir + "Global/Emacs.gitignore" := File("*~", 420)]
    ensures Assemble(fs, dir, Split("Python,Emacs,Foo", COMMA)) ==
      Progress("\n##### Python #####\n\n__pycache__/" + "\n##### Emacs #####\n\n*~", ["Foo"], None)
  {
    ExampleSplit();
    ExampleResolves(fs, dir);
    AssembleOne(fs, dir, "Python");
    AssembleOne(fs, dir, "Emacs");
    AssembleOne(fs, dir, "Foo");
    AssembleConcat(fs, dir, ["Python"], ["Emacs"]);
    AssembleConcat(fs, dir, ["Python"] + ["Emacs"], ["Foo"]);
    ExampleText();
  }

  lemma ExampleResolves(fs: Tree, dir: Str)
    requires dir == "./gitignorer_data/gitignores/"
    requires fs == map[dir + "Python.gitignore" := File("__pycache__/", 420),
                       dir + "Global/Emacs.gitignore" := File("*~", 420)]
    ensures Resolve(fs, dir, "Python") == Found(dir + "Python.gitignore")
    ensures ReadFile(fs, dir + "Python.gitignore") == Ok("__pycache__/")
    ensures Resolve(fs, dir, "Emacs") == Found(dir + "Global/Emacs.gitignore")
    ensures ReadFile(fs, dir + "Global/Emacs.gitignore") == Ok("*~")
    ensures Resolve(fs, dir, "Foo") == Missing
  {
    ExamplePaths(dir);
    assert |PrimaryPath(dir, "Emacs")| == |dir| + 15;
    assert |PrimaryPath(dir, "Foo")| == |dir| + 13 && |GlobalPath(dir, "Foo")| == |dir| + 20;
  }

  lemma ExampleSplit()
    ensures Split("Python,Emacs,Foo", COMMA) == ["Python"] + ["Emacs"] + ["Foo"]
  {
    assert ["Python"] + ["Emacs"] + ["Foo"] == ["Python", "Emacs", "Foo"];
    SplitJoin(["Python", "Emacs", "Foo"], COMMA);
    assert Join(["Python", "Emacs", "Foo"], COMMA) == "Python,Emacs,Foo";
  }

  lemma ExamplePaths(dir: Str)
    ensures PrimaryPath(dir, "Python") == dir + "Python.gitignore"
    ensures GlobalPath(dir, "Emacs") == dir + "Global/Emacs.gitignore"
  {
  }

  lemma ExampleText()
    ensures Header("Python") + "__pycache__/" + (Header("Emacs") + "*~") + [] ==
      "\n##### Python #####\n\n__pycache__/" + "\n##### Emacs #####\n\n*~"
  {
    ExampleSection("Python", "__pycache__/", "\n##### Python #####\n\n__pycache__/");
    ExampleSection("Emacs", "*~", "\n##### Emacs #####\n\n*~");
  }

  lemma ExampleSection(name: Str, data: Str, text: Str)
    requires text == "\n##### " + name + " #####\n\n" + data
    ensures Header(name) + data == text
  {
  }
}
