/** The file helpers of files.go over an abstract file tree.

    The disk is a value: a map from a path to the node stored there. A path
    that is a key exists (os.Stat succeeds); a `Dir` node exists but cannot be
    read as a file. Operations that write take the tree and return the new one. */
module Files {
  import opened GoStrings

  /** A permission mode, kept as an opaque number (0755 octal is 493). */
  type Perm = nat

  datatype Node = File(data: Str, perm: Perm) | Dir

  type Tree = map<Str, Node>

  datatype Error =
    | NotExist(path: Str)     // no such file or directory
    | IsDirectory(path: Str)  // a file operation on a directory
    | IllegalPath(path: Str)  // an archive entry outside the destination
    | Io(path: Str)           // any other failure the system or a library reports

  datatype Result<T> = Ok(value: T) | Err(error: Error)

  datatype Option<T> = None | Some(value: T)

  /** Every path except `path` is bound to the same node in both trees. */
  ghost predicate OthersUnchanged(before: Tree, after: Tree, path: Str) {
    forall p :: p != path ==> (p in after <==> p in before) && (p in before ==> after[p] == before[p])
  }

  /** IsFileExist: true for every node, a directory included. */
  predicate IsFileExist(fs: Tree, path: Str) {
    path in fs
  }

  /** A path exists exactly when reading it either succeeds or fails only
      because it is a directory: IsFileExist and ReadFile agree on every path. */
  lemma IsFileExistReads(fs: Tree, path: Str)
    ensures IsFileExist(fs, path) <==> ReadFile(fs, path).Ok? || ReadFile(fs, path) == Err(IsDirectory(path))
    ensures !IsFileExist(fs, path) <==> ReadFile(fs, path) == Err(NotExist(path))
  {
  }

  /** ReadFile: the stored bytes, or the error ioutil.ReadFile reports. */
  function ReadFile(fs: Tree, path: Str): (r: Result<Str>)
    ensures r.Ok? <==> IsFileExist(fs, path) && fs[path].File?
    ensures r.Ok? ==> r.value == fs[path].data
    ensures !IsFileExist(fs, path) ==> r == Err(NotExist(path))
  {
    if path !in fs then Err(NotExist(path))
    else if fs[path].Dir? then Err(IsDirectory(path))
    else Ok(fs[path].data)
  }

  /** ioutil.WriteFile: create or truncate `path` and store `data`. A new file
      gets `perm`; a truncated one keeps its mode; a directory cannot be
      opened for writing. */
  function WriteFile(fs: Tree, path: Str, data: Str, perm: Perm): (r: Result<Tree>)
    ensures r.Ok? <==> !(IsFileExist(fs, path) && fs[path].Dir?)
    ensures r.Err? ==> r.error == IsDirectory(path)
    ensures r.Ok? ==> ReadFile(r.value, path) == Ok(data)
    ensures r.Ok? ==> OthersUnchanged(fs, r.value, path)
    ensures r.Ok? && !IsFileExist(fs, path) ==> r.value[path].perm == perm
    ensures r.Ok? && IsFileExist(fs, path) ==> r.value[path].perm == fs[path].perm
  {
    if path in fs && fs[path].Dir? then Err(IsDirectory(path))
    else Ok(fs[path := File(data, if path in fs then fs[path].perm else perm)])
  }

  // ---------------------------------------------------------------------
  // FilesNamesDir

  /** The entries ending with `ext`, in listing order, with `ext` removed. */
  function NamesWithSuffix(entries: seq<Str>, ext: Str): seq<Str>
    decreases |entries|
  {
    if entries == [] then []
    else
      var last := entries[|entries| - 1];
      var init := NamesWithSuffix(entries[..|entries| - 1], ext);
      if HasSuffix(last, ext) then init + [last[..|last| - |ext|]] else init
  }

  /** FilesNamesDir over the result of ioutil.ReadDir, which is an input here:
      the listing error is passed on, otherwise the suffix-stripped names of the
      matching entries are returned. */
  method FilesNamesDir(listing: Result<seq<Str>>, extension: Str) returns (r: Result<seq<Str>>)
    ensures listing.Err? ==> r == Err(listing.error)
    ensures listing.Ok? ==> r == Ok(NamesWithSuffix(listing.value, extension))
  {
    var files: seq<Str> := [];
    if listing.Err? {
      return Err(listing.error);
    }
    var data := listing.value;
    for i := 0 to |data|
      invariant files == NamesWithSuffix(data[..i], extension)
    {
      assert data[..i + 1][..i] == data[..i];
      var fileName := data[i];
      if HasSuffix(fileName, extension) {
        var file := fileName[..|fileName| - |extension|];
        files := files + [file];
      }
    }
    assert data[..|data|] == data;
    return Ok(files);
  }

  /** A name is returned exactly when that name followed by the extension is
      an entry of the listing; so every result restores to its entry. */
  lemma {:induction false} NamesWithSuffixMembers(entries: seq<Str>, ext: Str, x: Str)
    ensures x in NamesWithSuffix(entries, ext) <==> x + ext in entries
    decreases |entries|
  {
    if entries != [] {
      var last := entries[|entries| - 1];
      var init := entries[..|entries| - 1];
      NamesWithSuffixMembers(init, ext, x);
      assert entries == init + [last];
      if HasSuffix(last, ext) {
        assert last[..|last| - |ext|] + ext == last;
        if x + ext == last {
          assert x == last[..|last| - |ext|];
        }
      } else {
        assert x + ext != last by {
          assert (x + ext)[|x + ext| - |ext|..] == ext;
        }
      }
    }
  }

  /** The result of a listing made of two parts is the results of the parts,
      in the same order: listing order is kept. */
  lemma {:induction false} NamesWithSuffixAppend(a: seq<Str>, b: seq<Str>, ext: Str)
    ensures NamesWithSuffix(a + b, ext) == NamesWithSuffix(a, ext) + NamesWithSuffix(b, ext)
    decreases |b|
  {
    if b == [] {
      assert a + b == a;
    } else {
      var init := b[..|b| - 1];
      assert (a + b)[..|a + b| - 1] == a + init;
      NamesWithSuffixAppend(a, init, ext);
    }
  }

  /** There are never more results than entries. */
  lemma {:induction false} NamesWithSuffixLength(entries: seq<Str>, ext: Str)
    ensures |NamesWithSuffix(entries, ext)| <= |entries|
    decreases |entries|
  {
    if entries != [] {
      NamesWithSuffixLength(entries[..|entries| - 1], ext);
    }
  }

  // ---------------------------------------------------------------------
  // UnzipFile

  /** The path separator of the platform modelled (os.PathSeparator, '/'). */
  const SEPARATOR: char := '/'

  /** One archive entry as UnzipFile sees it: `joined` is filepath.Join(dest,
      f.Name), computed by the library, and taken to be a cleaned path, which
      is what makes the prefix test sound; `opens` says whether f.Open succeeds. */
  datatype ZipEntry = ZipEntry(joined: Str, isDir: bool, opens: bool, data: Str, mode: Perm)

  /** What UnzipFile has produced: the accepted paths, the error that stopped
      it (if any), and the tree. */
  datatype Extraction = Extraction(filenames: seq<Str>, failure: Option<Error>, tree: Tree)

  /** os.MkdirAll of one directory; its error is ignored by UnzipFile, so an
      existing node is left as it is. */
  function MakeDir(fs: Tree, path: Str): (r: Tree)
    ensures IsFileExist(r, path)
    ensures IsFileExist(fs, path) ==> r == fs
    ensures !IsFileExist(fs, path) ==> r[path].Dir?
    ensures OthersUnchanged(fs, r, path)
  {
    if path in fs then fs else fs[path := Dir]
  }

  /** One iteration of the loop: open, check the prefix, record, then create
      the directory or write the file. */
  function ExtractEntry(x: Extraction, root: Str, e: ZipEntry): Extraction
    requires x.failure.None?
  {
    if !e.opens then x.(failure := Some(Io(e.joined)))
    else if !HasPrefix(e.joined, root) then x.(failure := Some(IllegalPath(e.joined)))
    else
      var filenames := x.filenames + [e.joined];
      if e.isDir then Extraction(filenames, None, MakeDir(x.tree, e.joined))
      else match WriteFile(x.tree, e.joined, e.data, e.mode)
        case Err(err) => Extraction(filenames, Some(err), x.tree)
        case Ok(t) => Extraction(filenames, None, t)
  }

  /** The entries processed in archive order from `x`; the first error stops
      the loop. */
  function ExtractFrom(x: Extraction, root: Str, entries: seq<ZipEntry>): Extraction
    decreases |entries|
  {
    if entries == [] then x
    else
      var before := ExtractFrom(x, root, entries[..|entries| - 1]);
      if before.failure.Some? then before else ExtractEntry(before, root, entries[|entries| - 1])
  }

  /** The accepted prefix: Clean(dest) followed by the separator. */
  function Root(cleanDest: Str): Str {
    cleanDest + [SEPARATOR]
  }

  function Extract(fs: Tree, cleanDest: Str, entries: seq<ZipEntry>): Extraction {
    ExtractFrom(Extraction([], None, fs), Root(cleanDest), entries)
  }

  /** UnzipFile over an archive already opened by zip.OpenReader (its failure is
      the `Err` case) and the cleaned destination `cleanDest`. */
  method UnzipFile(fs: Tree, archive: Result<seq<ZipEntry>>, cleanDest: Str)
    returns (filenames: seq<Str>, err: Option<Error>, tree: Tree)
    ensures archive.Err? ==> filenames == [] && err == Some(archive.error) && tree == fs
    ensures archive.Ok? ==> Extraction(filenames, err, tree) == Extract(fs, cleanDest, archive.value)
  {
    filenames, tree := [], fs;
    if archive.Err? {
      return filenames, Some(archive.error), tree;
    }
    var files := archive.value;
    var root := cleanDest + [SEPARATOR];
    for i := 0 to |files|
      invariant Extraction(filenames, None, tree) == ExtractFrom(Extraction([], None, fs), root, files[..i])
    {
      assert files[..i + 1][..i] == files[..i];
      var f := files[i];
      if !f.opens {
        ExtractStopsAt(fs, root, files, i);
        return filenames, Some(Io(f.joined)), tree;
      }
      var fpath := f.joined;
      if !HasPrefix(fpath, root) {
        ExtractStopsAt(fs, root, files, i);
        return filenames, Some(IllegalPath(fpath)), tree;
      }
      filenames := filenames + [fpath];
      if f.isDir {
        tree := MakeDir(tree, fpath);
      } else {
        var written := WriteFile(tree, fpath, f.data, f.mode);
        if written.Err? {
          ExtractStopsAt(fs, root, files, i);
          return filenames, Some(written.error), tree;
        }
        tree := written.value;
      }
    }
    assert files[..|files|] == files;
    err := None;
  }

  lemma ExtractStopsAt(fs: Tree, root: Str, entries: seq<ZipEntry>, i: nat)
    requires i < |entries|
    requires ExtractFrom(Extraction([], None, fs), root, entries[..i + 1]).failure.Some?
    ensures ExtractFrom(Extraction([], None, fs), root, entries) ==
            ExtractFrom(Extraction([], None, fs), root, entries[..i + 1])
  {
    ExtractFromStops(Extraction([], None, fs), root, entries[..i + 1], entries[i + 1..]);
    assert entries[..i + 1] + entries[i + 1..] == entries;
  }

  lemma ExtractFromStops(x: Extraction, root: Str, a: seq<ZipEntry>, b: seq<ZipEntry>)
    requires ExtractFrom(x, root, a).failure.Some?
    ensures ExtractFrom(x, root, a + b) == ExtractFrom(x, root, a)
  {
    ExtractFromAppend(x, root, a, b);
    ExtractFromFailed(ExtractFrom(x, root, a), root, b);
  }

  /** Processing two runs of entries one after the other is processing their
      concatenation. */
  lemma {:induction false} ExtractFromAppend(x: Extraction, root: Str, a: seq<ZipEntry>, b: seq<ZipEntry>)
    ensures ExtractFrom(x, root, a + b) == ExtractFrom(ExtractFrom(x, root, a), root, b)
    decreases |b|
  {
    if b == [] {
      assert a + b == a;
    } else {
      assert (a + b)[..|a + b| - 1] == a + b[..|b| - 1];
      ExtractFromAppend(x, root, a, b[..|b| - 1]);
    }
  }

  lemma {:induction false} ExtractFromFailed(x: Extraction, root: Str, entries: seq<ZipEntry>)
    requires x.failure.Some?
    ensures ExtractFrom(x, root, entries) == x
    decreases |entries|
  {
    if entries != [] {
      ExtractFromFailed(x, root, entries[..|entries| - 1]);
    }
  }

  /** After the first error, later entries are not processed. */
  lemma ExtractStops(fs: Tree, cleanDest: Str, a: seq<ZipEntry>, b: seq<ZipEntry>)
    requires Extract(fs, cleanDest, a).failure.Some?
    ensures Extract(fs, cleanDest, a + b) == Extract(fs, cleanDest, a)
  {
    ExtractFromStops(Extraction([], None, fs), Root(cleanDest), a, b);
  }

  /** An entry that opens but lies outside the destination stops the
      extraction with "illegal file path", recording nothing and writing
      nothing. */
  lemma ExtractRejects(fs: Tree, cleanDest: Str, a: seq<ZipEntry>, e: ZipEntry)
    requires Extract(fs, cleanDest, a).failure.None?
    requires e.opens && !HasPrefix(e.joined, Root(cleanDest))
    ensures Extract(fs, cleanDest, a + [e]) ==
            Extract(fs, cleanDest, a).(failure := Some(IllegalPath(e.joined)))
  {
  }

  /** The returned file names are the joined paths of the first entries, in
      archive order, each inside the destination; all of them when no error
      occurred. */
  lemma {:induction false} ExtractFilenames(fs: Tree, cleanDest: Str, entries: seq<ZipEntry>)
    ensures var r := Extract(fs, cleanDest, entries);
      && |r.filenames| <= |entries|
      && (r.failure.None? ==> |r.filenames| == |entries|)
      && (forall i :: 0 <= i < |r.filenames| ==> r.filenames[i] == entries[i].joined)
      && (forall i :: 0 <= i < |r.filenames| ==> HasPrefix(r.filenames[i], Root(cleanDest)))
    decreases |entries|
  {
    if entries != [] {
      ExtractFilenames(fs, cleanDest, entries[..|entries| - 1]);
    }
  }

  /** Nothing outside the destination changes: no path without the prefix
      Clean(dest) + separator is created, removed or rewritten. */
  ghost predicate Confined(before: Tree, after: Tree, root: Str) {
    forall p :: !HasPrefix(p, root) ==>
      (p in after <==> p in before) && (p in before ==> after[p] == before[p])
  }

  lemma {:induction false} ExtractFromConfined(x: Extraction, root: Str, entries: seq<ZipEntry>)
    ensures Confined(x.tree, ExtractFrom(x, root, entries).tree, root)
    decreases |entries|
  {
    if entries != [] {
      var before := ExtractFrom(x, root, entries[..|entries| - 1]);
      ExtractFromConfined(x, root, entries[..|entries| - 1]);
      if before.failure.None? {
        var after := ExtractEntry(before, root, entries[|entries| - 1]);
        assert Confined(before.tree, after.tree, root);
      }
    }
  }

  lemma ExtractConfined(fs: Tree, cleanDest: Str, entries: seq<ZipEntry>)
    ensures Confined(fs, Extract(fs, cleanDest, entries).tree, Root(cleanDest))
  {
    ExtractFromConfined(Extraction([], None, fs), Root(cleanDest), entries);
  }

  /** An entry named "../../evil" extracted into "./gitignorer_data" is joined
      to "../evil"; it is rejected and the tree is left as it was. */
  lemma TraversalRejected(fs: Tree, dest: Str, e: ZipEntry)
    requires dest == "gitignorer_data"
    requires e == ZipEntry("../evil", false, true, "x", 420)
    ensures Extract(fs, dest, [e]) == Extraction([], Some(IllegalPath(e.joined)), fs)
  {
    assert !HasPrefix(e.joined, Root(dest)) by {
      assert e.joined[0] != Root(dest)[0];
    }
    ExtractRejects(fs, dest, [], e);
    assert [] + [e] == [e];
  }
}
