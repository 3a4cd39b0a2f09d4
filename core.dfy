/** The Node package (packages/core/src/index.ts): `convert` turns one `.svg`
    file into a component, `batch` converts every `.svg` file of a folder and
    optionally writes a barrel module re-exporting them. The filesystem is
    plain data here: what a path holds is an input, and the files written
    are returned as a list of writes in the order they happen. */
module Core {
  import opened Wrappers
  import opened Sequences
  import opened Text
  import opened Externals
  import opened Generator
  import opened Api

  datatype BatchOptions = BatchOptions(typescript: Option<bool>, barrelFile: Option<bool>, outDir: Option<string>)

  /** The errors thrown, each naming the path it is about. */
  datatype Failure =
    | FileNotFound(path: string)
    | InvalidFileType(path: string)
    | EmptyFile(path: string)
    | FolderNotFound(path: string)
    | NoSvgFiles(path: string)

  /** One entry of a folder listing, with the text the file holds. */
  datatype DirEntry = DirEntry(name: string, content: string)

  /** One `writeFileSync(path, text)`. */
  datatype FileWrite = FileWrite(path: string, text: string)

  // ---------------------------------------------------------------------
  // Paths
  // ---------------------------------------------------------------------

  /** The part of a path after its last `/`. */
  function AfterLastSlash(p: string): (r: string)
    ensures EndsWith(p, r)
    ensures forall i :: 0 <= i < |r| ==> r[i] != '/'
    ensures |r| < |p| ==> p[|p| - |r| - 1] == '/'
  {
    if p == [] then []
    else if p[|p| - 1] == '/' then []
    else
      var init := p[..|p| - 1];
      var rest := AfterLastSlash(init);
      var r := rest + [p[|p| - 1]];
      assert p[|p| - |r|..] == init[|init| - |rest|..] + [p[|p| - 1]];
      assert forall i :: 0 <= i < |rest| ==> r[i] == rest[i];
      assert |r| < |p| ==> p[|p| - |r| - 1] == init[|init| - |rest| - 1];
      r
  }

  /** `path.basename(p, ".svg")` for a path without a trailing separator:
      the last segment, with a lower-case `.svg` suffix removed unless the
      suffix is the whole segment; a path that is exactly `.svg` gives the
      empty name. */
  function Basename(p: string): (r: string)
    ensures forall i :: 0 <= i < |r| ==> r[i] != '/'
    ensures p != ".svg" && !EndsWith(p, ".svg") ==> r == AfterLastSlash(p)
    ensures p != ".svg" ==> StartsWith(AfterLastSlash(p), r)
    ensures p != ".svg" && EndsWith(AfterLastSlash(p), ".svg") && AfterLastSlash(p) != ".svg" ==>
      r + ".svg" == AfterLastSlash(p)
  {
    if p == ".svg" then ""
    else
      var segment := AfterLastSlash(p);
      assert EndsWith(segment, ".svg") ==> EndsWith(p, ".svg") by {
        if EndsWith(segment, ".svg") {
          SuffixOfSuffix(p, segment, ".svg");
        }
      }
      WithoutSvgSuffix(segment)
  }

  /** A segment without its lower-case `.svg` suffix, unless the suffix is
      the whole segment. */
  function WithoutSvgSuffix(segment: string): (r: string)
    ensures StartsWith(segment, r)
    ensures forall i :: 0 <= i < |r| ==> r[i] == segment[i]
    ensures !EndsWith(segment, ".svg") ==> r == segment
    ensures EndsWith(segment, ".svg") && segment != ".svg" ==> r + ".svg" == segment
  {
    if EndsWith(segment, ".svg") && segment != ".svg" then segment[..|segment| - 4] else segment
  }

  /** `path.join(dir, name)`, without normalisation of `.` and `..`: a
      separator goes between the two unless `dir` is empty or already ends
      with one. */
  function Join(dir: string, name: string): (r: string)
    ensures StartsWith(r, dir) && EndsWith(r, name)
    ensures |r| == |dir| + |name| || (|r| == |dir| + 1 + |name| && r[|dir|] == '/')
  {
    PrefixOfConcat(dir, Separator(dir) + name);
    SuffixOfConcat(dir + Separator(dir), name);
    assert dir + Separator(dir) + name == dir + (Separator(dir) + name);
    dir + Separator(dir) + name
  }

  function Separator(dir: string): string {
    if dir == [] || dir[|dir| - 1] == '/' then "" else "/"
  }

  /** A character other than `/` extends the last segment. */
  lemma AfterLastSlashSnoc(q: string, c: char)
    requires c != '/'
    ensures AfterLastSlash(q + [c]) == AfterLastSlash(q) + [c]
  {
    assert (q + [c])[..|q|] == q;
  }

  /** Whatever precedes a slash-free name up to a separator is cut off. */
  lemma {:induction false} AfterLastSlashOfPrefixed(prefix: string, name: string)
    requires prefix == [] || prefix[|prefix| - 1] == '/'
    requires forall i :: 0 <= i < |name| ==> name[i] != '/'
    ensures AfterLastSlash(prefix + name) == name
  {
    if name == [] {
      assert prefix + name == prefix;
    } else {
      var init := name[..|name| - 1];
      var last := name[|name| - 1];
      assert prefix + name == (prefix + init) + [last];
      AfterLastSlashSnoc(prefix + init, last);
      AfterLastSlashOfPrefixed(prefix, init);
      assert name == init + [last];
    }
  }

  lemma AfterLastSlashOfJoin(dir: string, name: string)
    requires forall i :: 0 <= i < |name| ==> name[i] != '/'
    ensures AfterLastSlash(Join(dir, name)) == name
  {
    var prefix := dir + Separator(dir);
    assert Join(dir, name) == prefix + name;
    if Separator(dir) != "" {
      assert prefix[|prefix| - 1] == '/';
    }
    AfterLastSlashOfPrefixed(prefix, name);
  }

  /** The name `convert` derives for a listed file is the file name without
      its `.svg` suffix: the folder part of the joined path plays no part. */
  lemma BasenameOfJoin(dir: string, stem: string)
    requires stem != [] && forall i :: 0 <= i < |stem| ==> stem[i] != '/'
    ensures Basename(Join(dir, stem + ".svg")) == stem
  {
    var name := stem + ".svg";
    assert forall i :: 0 <= i < |name| ==> name[i] != '/' by {
      forall i | 0 <= i < |name| ensures name[i] != '/' {
        if i >= |stem| { assert name[i] == ".svg"[i - |stem|]; }
      }
    }
    AfterLastSlashOfJoin(dir, name);
    SuffixOfConcat(stem, ".svg");
    assert name[..|name| - 4] == stem;
  }

  // ---------------------------------------------------------------------
  // convert
  // ---------------------------------------------------------------------

  /** `convert(filePath, options)`, where `file` is what the path holds
      (`None` when it does not exist). */
  function Convert(lib: Library, filePath: string, file: Option<string>, options: ConvertOptions): (r: Result<ConversionResult, Failure>)
    ensures r == Err(FileNotFound(filePath)) <==> file.None?
    ensures r == Err(InvalidFileType(filePath)) <==> file.Some? && !HasSvgExtension(filePath)
    ensures r == Err(EmptyFile(filePath)) <==> file.Some? && HasSvgExtension(filePath) && IsBlank(file.value)
    ensures r.Ok? <==> file.Some? && HasSvgExtension(filePath) && !IsBlank(file.value)
    ensures r.Ok? ==> r.value.componentName == options.componentName.GetOr(lib.toPascalCase(Basename(filePath)))
  {
    if file.None? then Err(FileNotFound(filePath))
    else if !HasSvgExtension(filePath) then Err(InvalidFileType(filePath))
    else if IsBlank(file.value) then Err(EmptyFile(filePath))
    else
      var transformedMarkup := lib.TransformedMarkup(file.value);
      var componentName := options.componentName.GetOr(lib.toPascalCase(Basename(filePath)));
      Ok(ConversionResult(componentName, GenerateReactComponent(transformedMarkup, componentName, options.typescript)))
  }

  /** The module `convert` returns exports the component under the returned
      name (for a name that is a plain identifier), typed unless `typescript`
      is false, around the transformed markup. */
  lemma ConvertedModuleExportsName(lib: Library, filePath: string, file: Option<string>, options: ConvertOptions)
    requires Convert(lib, filePath, file, options).Ok?
    requires forall i :: 0 <= i < |Convert(lib, filePath, file, options).value.componentName| ==>
      !EndsName(Convert(lib, filePath, file, options).value.componentName[i])
    ensures var c := Convert(lib, filePath, file, options).value;
      ParseComponent(c.code) == Some(Component(c.componentName, options.typescript.GetOr(true), lib.TransformedMarkup(file.value)))
  {
    var c := Convert(lib, filePath, file, options).value;
    GeneratedComponentParses(lib.TransformedMarkup(file.value), c.componentName, options.typescript);
  }

  // ---------------------------------------------------------------------
  // batch
  // ---------------------------------------------------------------------

  predicate IsListedSvg(e: DirEntry) {
    EndsWith(e.name, ".svg")
  }

  /** The entries `batch` processes: names ending in `.svg`, case-sensitively,
      in listing order. */
  function SvgFiles(listing: seq<DirEntry>): (files: seq<DirEntry>)
    ensures forall e :: e in files <==> e in listing && EndsWith(e.name, ".svg")
  {
    Filter(listing, IsListedSvg)
  }

  /** The `convert` call `batch` makes for one entry: the path exists and
      holds the listed text, and no explicit component name is passed. */
  function FileResult(lib: Library, folderPath: string, e: DirEntry, typescript: Option<bool>): Result<ConversionResult, Failure> {
    Convert(lib, Join(folderPath, e.name), Some(e.content), ConvertOptions(typescript, None))
  }

  /** The result of a conversion for each file, in order. */
  function Results(convert: DirEntry -> Result<ConversionResult, Failure>, files: seq<DirEntry>): (results: seq<Result<ConversionResult, Failure>>)
    ensures |results| == |files|
    ensures forall i :: 0 <= i < |files| ==> results[i] == convert(files[i])
  {
    seq(|files|, i requires 0 <= i < |files| => convert(files[i]))
  }

  lemma ResultsAgree(f: DirEntry -> Result<ConversionResult, Failure>, g: DirEntry -> Result<ConversionResult, Failure>, files: seq<DirEntry>)
    requires forall i :: 0 <= i < |files| ==> f(files[i]) == g(files[i])
    ensures Results(f, files) == Results(g, files)
  {
  }

  /** What `convert` gives for each processed entry, in processing order. */
  function FileResults(lib: Library, folderPath: string, files: seq<DirEntry>, typescript: Option<bool>): seq<Result<ConversionResult, Failure>> {
    Results(e => FileResult(lib, folderPath, e, typescript), files)
  }

  /** The results of the files converted before the first failure. */
  function Converted(lib: Library, folderPath: string, files: seq<DirEntry>, typescript: Option<bool>): seq<ConversionResult> {
    OkPrefix(FileResults(lib, folderPath, files, typescript))
  }

  function Extension(ts: bool, component: bool): string {
    if ts then (if component then "tsx" else "ts") else (if component then "jsx" else "js")
  }

  /** The module written for one converted file. */
  function ComponentWrite(outDir: string, ts: bool, c: ConversionResult): FileWrite {
    FileWrite(Join(outDir, c.componentName + "." + Extension(ts, true)), c.code)
  }

  function ComponentWrites(outDir: string, ts: bool, rs: seq<ConversionResult>): (ws: seq<FileWrite>)
    ensures |ws| == |rs|
  {
    seq(|rs|, i requires 0 <= i < |rs| => ComponentWrite(outDir, ts, rs[i]))
  }

  lemma ComponentWritesAppend(outDir: string, ts: bool, rs: seq<ConversionResult>, c: ConversionResult)
    ensures ComponentWrites(outDir, ts, rs + [c]) == ComponentWrites(outDir, ts, rs) + [ComponentWrite(outDir, ts, c)]
  {
    assert forall i :: 0 <= i < |rs| ==> (rs + [c])[i] == rs[i];
  }

  function BarrelLine(componentName: string): string {
    "export * from \"./" + componentName + "\";"
  }

  function BarrelLines(rs: seq<ConversionResult>): (lines: seq<string>)
    ensures |lines| == |rs|
  {
    seq(|rs|, i requires 0 <= i < |rs| => BarrelLine(rs[i].componentName))
  }

  lemma BarrelLinesAppend(rs: seq<ConversionResult>, c: ConversionResult)
    ensures BarrelLines(rs + [c]) == BarrelLines(rs) + [BarrelLine(c.componentName)]
  {
    assert forall i :: 0 <= i < |rs| ==> (rs + [c])[i] == rs[i];
  }

  /** The barrel module written after every file converted. */
  function BarrelWrite(outDir: string, ts: bool, rs: seq<ConversionResult>): FileWrite {
    FileWrite(Join(outDir, "index." + Extension(ts, false)), JoinWith(BarrelLines(rs), "\n") + "\n")
  }

  /** Every file `batch` writes lies in the output folder: a component's
      module is named after the component, with the extension of the
      chosen language, and holds its code; the barrel is `index.ts` or
      `index.js`. */
  lemma WritesInOutDir(outDir: string, ts: bool, c: ConversionResult, rs: seq<ConversionResult>)
    ensures var w := ComponentWrite(outDir, ts, c);
      w.text == c.code && StartsWith(w.path, outDir) && EndsWith(w.path, c.componentName + "." + Extension(ts, true))
    ensures var w := BarrelWrite(outDir, ts, rs);
      StartsWith(w.path, outDir) && EndsWith(w.path, "index." + Extension(ts, false))
  {
  }

  /** The `for` loop of `batch`: converts the files in order, writing each
      component and collecting its barrel line, and stops at the first
      failure. `convert` is the conversion of one listed file. */
  method ConvertAll(convert: DirEntry -> Result<ConversionResult, Failure>, files: seq<DirEntry>, outDir: string, ts: bool)
    returns (writes: seq<FileWrite>, barrelExports: seq<string>, failure: Option<Failure>)
    ensures var rs := OkPrefix(Results(convert, files));
      && writes == ComponentWrites(outDir, ts, rs)
      && barrelExports == BarrelLines(rs)
      && failure == (if |rs| < |files| then Some(convert(files[|rs|]).error) else None)
  {
    ghost var results := Results(convert, files);
    ghost var rs := OkPrefix(results);
    writes, barrelExports := [], [];
    var i := 0;
    while i < |files|
      invariant 0 <= i <= |rs|
      invariant writes == ComponentWrites(outDir, ts, rs[..i])
      invariant barrelExports == BarrelLines(rs[..i])
    {
      var r := convert(files[i]);
      OkPrefixStep(results, i);
      if r.Err? {
        assert rs[..i] == rs;
        return writes, barrelExports, Some(r.error);
      }
      TakeOneMore(rs, i);
      ComponentWritesAppend(outDir, ts, rs[..i], r.value);
      BarrelLinesAppend(rs[..i], r.value);
      writes := writes + [ComponentWrite(outDir, ts, r.value)];
      barrelExports := barrelExports + [BarrelLine(r.value.componentName)];
      i := i + 1;
    }
    assert rs[..i] == rs;
    failure := None;
  }

  /** `batch(folderPath, options)`. `folderExists` and `listing` stand for
      the filesystem; the writes are returned in the order they are made,
      and `failure` is the error thrown, if any. A failure leaves the writes
      already made in place and writes no barrel. */
  method Batch(lib: Library, folderPath: string, folderExists: bool, listing: seq<DirEntry>, options: BatchOptions)
    returns (writes: seq<FileWrite>, failure: Option<Failure>)
    ensures !folderExists ==> writes == [] && failure == Some(FolderNotFound(folderPath))
    ensures folderExists && SvgFiles(listing) == [] ==> writes == [] && failure == Some(NoSvgFiles(folderPath))
    ensures folderExists && SvgFiles(listing) != [] ==>
      var files := SvgFiles(listing);
      var ts := options.typescript.GetOr(true);
      var outDir := options.outDir.GetOr(folderPath);
      var results := FileResults(lib, folderPath, files, options.typescript);
      var rs := OkPrefix(results);
      && failure == (if |rs| < |files| then Some(results[|rs|].error) else None)
      && writes == ComponentWrites(outDir, ts, rs) +
                   (if failure.None? && options.barrelFile == Some(true) then [BarrelWrite(outDir, ts, rs)] else [])
  {
    if !folderExists {
      return [], Some(FolderNotFound(folderPath));
    }
    var ts := options.typescript.GetOr(true);
    var outDir := options.outDir.GetOr(folderPath);
    var files := SvgFiles(listing);
    if |files| == 0 {
      return [], Some(NoSvgFiles(folderPath));
    }
    var convert := (file: DirEntry) => FileResult(lib, folderPath, file, options.typescript);
    ResultsAgree(convert, e => FileResult(lib, folderPath, e, options.typescript), files);
    var barrelExports;
    writes, barrelExports, failure := ConvertAll(convert, files, outDir, ts);
    if failure.None? && options.barrelFile == Some(true) {
      writes := writes + [FileWrite(Join(outDir, "index." + Extension(ts, false)), JoinWith(barrelExports, "\n") + "\n")];
    }
  }

  // ---------------------------------------------------------------------
  // What batch promises
  // ---------------------------------------------------------------------

  /** Every entry `batch` processes passes `convert`'s existence and
      extension checks, so the only way one fails is blank content. */
  lemma ListedFileFailsOnlyWhenBlank(lib: Library, folderPath: string, e: DirEntry, typescript: Option<bool>)
    requires IsListedSvg(e)
    ensures FileResult(lib, folderPath, e, typescript).Err? <==> IsBlank(e.content)
    ensures FileResult(lib, folderPath, e, typescript).Err? ==>
      FileResult(lib, folderPath, e, typescript).error == EmptyFile(Join(folderPath, e.name))
  {
    var p := Join(folderPath, e.name);
    assert p[|p| - 4..] == e.name[|e.name| - 4..];
    LowerSuffixHasSvgExtension(p);
  }

  /** The batch stops exactly at the first processed entry with blank
      content, and converts every entry before it. */
  lemma {:induction false} ConvertedStopsAtFirstBlank(lib: Library, folderPath: string, files: seq<DirEntry>, typescript: Option<bool>)
    requires forall i :: 0 <= i < |files| ==> IsListedSvg(files[i])
    ensures var n := |Converted(lib, folderPath, files, typescript)|;
      && (forall i :: 0 <= i < n ==> !IsBlank(files[i].content))
      && (n < |files| ==> IsBlank(files[n].content))
  {
    var n := |Converted(lib, folderPath, files, typescript)|;
    forall i | 0 <= i < n ensures !IsBlank(files[i].content) {
      ListedFileFailsOnlyWhenBlank(lib, folderPath, files[i], typescript);
    }
    if n < |files| {
      ListedFileFailsOnlyWhenBlank(lib, folderPath, files[n], typescript);
    }
  }

  /** A converted listed file `<stem>.svg` becomes the component
      `toPascalCase(<stem>)`, written as `<outDir>/<Name>.tsx` (or `.jsx`). */
  lemma ComponentNameFromFileName(lib: Library, folderPath: string, stem: string, content: string, typescript: Option<bool>)
    requires stem != [] && forall i :: 0 <= i < |stem| ==> stem[i] != '/'
    requires !IsBlank(content)
    ensures var r := FileResult(lib, folderPath, DirEntry(stem + ".svg", content), typescript);
      r.Ok? && r.value.componentName == lib.toPascalCase(stem)
  {
    var e := DirEntry(stem + ".svg", content);
    SuffixOfConcat(stem, ".svg");
    ListedFileFailsOnlyWhenBlank(lib, folderPath, e, typescript);
    BasenameOfJoin(folderPath, stem);
  }

  /** The barrel holds one `export * from "./<Name>";` line per converted
      file, in processing order, each ended by a line feed. */
  lemma BarrelExportsEveryComponent(outDir: string, ts: bool, rs: seq<ConversionResult>)
    requires rs != []
    ensures BarrelWrite(outDir, ts, rs).text == Terminated(BarrelLines(rs))
  {
    JoinedLinesTerminated(BarrelLines(rs));
  }

  /** The selection keeps the order of the listing: selecting from two
      listings one after the other selects from their concatenation. */
  lemma SvgFilesAreTheListedSvgEntries(listing: seq<DirEntry>, more: seq<DirEntry>)
    ensures SvgFiles(listing + more) == SvgFiles(listing) + SvgFiles(more)
  {
    FilterAppend(listing, more, IsListedSvg);
  }
}
