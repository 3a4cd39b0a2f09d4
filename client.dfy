/** The browser package (packages/client/src/index.ts): the same pipeline on
    SVG text instead of files, with helpers for several inputs, for file
    inputs and for dropped files. A thrown error and a rejected promise are
    both an `Err` here. */
module Client {
  import opened Wrappers
  import opened Sequences
  import opened Text
  import opened Externals
  import opened Transformer
  import opened Generator
  import opened Api

  datatype ClientError = EmptyContent | NoFilesInDrop | NoSvgFilesInDrop

  /** The name used when no component name is given. */
  const DefaultName := "SvgComponent"

  /** `convertSvg(svgContent, options)`. */
  function ConvertSvg(lib: Library, svgContent: string, options: ConvertOptions): (r: Result<ConversionResult, ClientError>)
    ensures r.Ok? <==> !IsBlank(svgContent)
    ensures r.Err? ==> r.error == EmptyContent
    ensures r.Ok? ==> r.value.componentName == options.componentName.GetOr(DefaultName)
  {
    if IsBlank(svgContent) then Err(EmptyContent)
    else
      var transformedMarkup := lib.TransformedMarkup(svgContent);
      var componentName := options.componentName.GetOr(DefaultName);
      Ok(ConversionResult(componentName, GenerateReactComponent(transformedMarkup, componentName, options.typescript)))
  }

  /** The returned name is the one the module exports (for a name that is a
      plain identifier), and the module is typed unless `typescript` is
      false. */
  lemma ConvertSvgExportsName(lib: Library, svgContent: string, options: ConvertOptions)
    requires !IsBlank(svgContent)
    requires forall i :: 0 <= i < |options.componentName.GetOr(DefaultName)| ==> !EndsName(options.componentName.GetOr(DefaultName)[i])
    ensures var c := ConvertSvg(lib, svgContent, options).value;
      ParseComponent(c.code) == Some(Component(c.componentName, options.typescript.GetOr(true), lib.TransformedMarkup(svgContent)))
  {
    GeneratedComponentParses(lib.TransformedMarkup(svgContent), options.componentName.GetOr(DefaultName), options.typescript);
  }

  // ---------------------------------------------------------------------
  // Several inputs
  // ---------------------------------------------------------------------

  /** One input of `convertMultiple`: `{ content, name? }`. */
  datatype Item = Item(content: string, name: Option<string>)

  /** `if (name)`: present and not the empty string. */
  predicate Truthy(name: Option<string>) {
    name.Some? && name.value != ""
  }

  /** The options for one input: a copy of the caller's options, with the
      input's PascalCased name when it has one. */
  function ItemOptions(lib: Library, options: ConvertOptions, name: Option<string>): (r: ConvertOptions)
    ensures r.typescript == options.typescript
    ensures !Truthy(name) ==> r == options
    ensures Truthy(name) ==> r.componentName == Some(lib.toPascalCase(name.value))
  {
    if Truthy(name) then options.(componentName := Some(lib.toPascalCase(name.value))) else options
  }

  /** `convertMultiple(svgContents, options)`: one result per input, in
      input order; the first blank input makes the whole call fail. */
  function ConvertMultiple(lib: Library, items: seq<Item>, options: ConvertOptions): (r: Result<seq<ConversionResult>, ClientError>)
    ensures r.Ok? <==> forall i :: 0 <= i < |items| ==> !IsBlank(items[i].content)
    ensures r.Err? ==> r.error == EmptyContent
    ensures r.Ok? ==> |r.value| == |items|
    ensures r.Ok? ==> forall i :: 0 <= i < |items| ==> ConvertSvg(lib, items[i].content, ItemOptions(lib, options, items[i].name)) == Ok(r.value[i])
  {
    if items == [] then Ok([])
    else match ConvertSvg(lib, items[0].content, ItemOptions(lib, options, items[0].name))
      case Err(e) => Err(e)
      case Ok(c) =>
        match ConvertMultiple(lib, items[1..], options)
        case Err(e) => Err(e)
        case Ok(cs) =>
          var converts := (item: Item, v: ConversionResult) => ConvertSvg(lib, item.content, ItemOptions(lib, options, item.name)) == Ok(v);
          PairwiseCons(converts, items, c, cs);
          Ok([c] + cs)
  }

  /** The name of each component: the input's own name PascalCased when it
      has a non-empty one, else the caller's `componentName`, else the
      default; the caller's `typescript` choice applies to every input. */
  lemma ConvertMultipleNames(lib: Library, items: seq<Item>, options: ConvertOptions, i: nat)
    requires ConvertMultiple(lib, items, options).Ok? && i < |items|
    ensures ConvertMultiple(lib, items, options).value[i].componentName ==
      if Truthy(items[i].name) then lib.toPascalCase(items[i].name.value) else options.componentName.GetOr(DefaultName)
    ensures ItemOptions(lib, options, items[i].name).typescript == options.typescript
  {
  }

  /** `convertMultipleAsync(inputs, options)`: the inputs converted one after
      the other, each result appended in turn, stopping at the first
      failure. It gives what `convertMultiple` gives. */
  method ConvertMultipleAsync(lib: Library, items: seq<Item>, options: ConvertOptions) returns (r: Result<seq<ConversionResult>, ClientError>)
    ensures r == ConvertMultiple(lib, items, options)
  {
    var results: seq<ConversionResult> := [];
    var i := 0;
    while i < |items|
      invariant 0 <= i <= |items| && |results| == i
      invariant forall j :: 0 <= j < i ==> ConvertSvg(lib, items[j].content, ItemOptions(lib, options, items[j].name)) == Ok(results[j])
    {
      var componentOptions := options;
      if Truthy(items[i].name) {
        componentOptions := componentOptions.(componentName := Some(lib.toPascalCase(items[i].name.value)));
      }
      assert componentOptions == ItemOptions(lib, options, items[i].name);
      var result := ConvertSvg(lib, items[i].content, componentOptions);
      if result.Err? {
        ConvertMultipleFailsOnBlank(lib, items, options, i);
        return Err(result.error);
      }
      ConvertedOneMore(lib, items, options, results, result.value);
      results := results + [result.value];
      i := i + 1;
    }
    ConvertMultipleFromResults(lib, items, options, results);
    return Ok(results);
  }

  /** The results so far, extended by the next input's. */
  lemma ConvertedOneMore(lib: Library, items: seq<Item>, options: ConvertOptions, results: seq<ConversionResult>, c: ConversionResult)
    requires |results| < |items|
    requires forall j :: 0 <= j < |results| ==> ConvertSvg(lib, items[j].content, ItemOptions(lib, options, items[j].name)) == Ok(results[j])
    requires ConvertSvg(lib, items[|results|].content, ItemOptions(lib, options, items[|results|].name)) == Ok(c)
    ensures forall j :: 0 <= j < |results| + 1 ==>
      ConvertSvg(lib, items[j].content, ItemOptions(lib, options, items[j].name)) == Ok((results + [c])[j])
  {
  }

  /** One blank input makes the whole call fail. */
  lemma ConvertMultipleFailsOnBlank(lib: Library, items: seq<Item>, options: ConvertOptions, i: nat)
    requires i < |items| && IsBlank(items[i].content)
    ensures ConvertMultiple(lib, items, options) == Err(EmptyContent)
  {
  }

  /** Per-input results of the right conversions, in order, are what
      `convertMultiple` returns. */
  lemma ConvertMultipleFromResults(lib: Library, items: seq<Item>, options: ConvertOptions, results: seq<ConversionResult>)
    requires |results| == |items|
    requires forall j :: 0 <= j < |items| ==> ConvertSvg(lib, items[j].content, ItemOptions(lib, options, items[j].name)) == Ok(results[j])
    ensures ConvertMultiple(lib, items, options) == Ok(results)
  {
    assert forall j :: 0 <= j < |items| ==> !IsBlank(items[j].content);
    var expected := ConvertMultiple(lib, items, options);
    assert forall j :: 0 <= j < |items| ==> expected.value[j] == results[j];
    assert expected.value == results;
  }

  // ---------------------------------------------------------------------
  // Code or markup only
  // ---------------------------------------------------------------------

  /** `convertToCode(svgContent, componentName?, typescript = true)`: the
      module text only. */
  function ConvertToCode(lib: Library, svgContent: string, componentName: Option<string>, typescript: Option<bool>): (r: Result<string, ClientError>)
    ensures r.Ok? <==> !IsBlank(svgContent)
    ensures r.Err? ==> r.error == EmptyContent
  {
    var options := ConvertOptions(Some(typescript.GetOr(true)),
      if Truthy(componentName) then Some(lib.toPascalCase(componentName.value)) else None);
    match ConvertSvg(lib, svgContent, options)
    case Err(e) => Err(e)
    case Ok(result) => Ok(result.code)
  }

  /** The module exports the PascalCased name when one is given and
      `SvgComponent` otherwise, and is typed unless `typescript` is false. */
  lemma ConvertToCodeExports(lib: Library, svgContent: string, componentName: Option<string>, typescript: Option<bool>)
    requires !IsBlank(svgContent)
    requires var name := if Truthy(componentName) then lib.toPascalCase(componentName.value) else DefaultName;
      forall i :: 0 <= i < |name| ==> !EndsName(name[i])
    ensures ParseComponent(ConvertToCode(lib, svgContent, componentName, typescript).value) ==
      Some(Component(if Truthy(componentName) then lib.toPascalCase(componentName.value) else DefaultName,
                     typescript.GetOr(true), lib.TransformedMarkup(svgContent)))
  {
    var options := ConvertOptions(Some(typescript.GetOr(true)),
      if Truthy(componentName) then Some(lib.toPascalCase(componentName.value)) else None);
    assert options.componentName.GetOr(DefaultName) ==
      if Truthy(componentName) then lib.toPascalCase(componentName.value) else DefaultName;
    ConvertSvgExportsName(lib, svgContent, options);
  }

  /** `convertToMarkup(svgContent)`: the transformed markup only. */
  function ConvertToMarkup(lib: Library, svgContent: string): (r: Result<string, ClientError>)
    ensures r.Ok? <==> !IsBlank(svgContent)
    ensures r.Err? ==> r.error == EmptyContent
    ensures r.Ok? ==> r.value == lib.serialise(TransformTree(lib.camelCase, lib.parse(svgContent)))
  {
    if IsBlank(svgContent) then Err(EmptyContent) else Ok(lib.TransformedMarkup(svgContent))
  }

  /** Markup and code agree: the module `convertSvg` returns wraps exactly
      the markup `convertToMarkup` returns (the two reject the same inputs,
      by their contracts). */
  lemma CodeWrapsMarkup(lib: Library, svgContent: string, options: ConvertOptions)
    requires !IsBlank(svgContent)
    requires forall i :: 0 <= i < |options.componentName.GetOr(DefaultName)| ==> !EndsName(options.componentName.GetOr(DefaultName)[i])
    ensures var parsed := ParseComponent(ConvertSvg(lib, svgContent, options).value.code);
      parsed.Some? && parsed.value.markup == ConvertToMarkup(lib, svgContent).value
  {
    ConvertSvgExportsName(lib, svgContent, options);
  }

  // ---------------------------------------------------------------------
  // Files
  // ---------------------------------------------------------------------

  /** A browser `File`: its name, its MIME type and its text. */
  datatype File = File(name: string, mimeType: string, content: string)

  /** `name.replace(/\.svg$/i, '')`: a trailing `.svg`, in any case, removed. */
  function StripSvgSuffix(name: string): (r: string)
    ensures HasSvgExtension(name) ==> |r| == |name| - 4 && name == r + name[|r|..]
    ensures !HasSvgExtension(name) ==> r == name
  {
    if HasSvgExtension(name) then name[..|name| - 4] else name
  }

  /** The suffix is removed whatever its case, and only it. */
  lemma StripSvgSuffixOfExtension(stem: string, ext: string)
    requires |ext| == 4 && HasSvgExtension(ext)
    ensures StripSvgSuffix(stem + ext) == stem
  {
    var s := stem + ext;
    HasSvgExtensionCases(ext);
    assert s[|s| - 4..] == ext;
    HasSvgExtensionCases(s);
    assert s[..|s| - 4] == stem;
  }

  /** The inputs `handleFileInput` builds: each file's text, named after the
      file without its `.svg` suffix. */
  function FileItems(files: seq<File>): (items: seq<Item>)
    ensures |items| == |files|
    ensures forall i :: 0 <= i < |files| ==> items[i] == Item(files[i].content, Some(StripSvgSuffix(files[i].name)))
  {
    seq(|files|, i requires 0 <= i < |files| => Item(files[i].content, Some(StripSvgSuffix(files[i].name))))
  }

  /** `handleFileInput(files, options)`. */
  method HandleFileInput(lib: Library, files: seq<File>, options: ConvertOptions) returns (r: Result<seq<ConversionResult>, ClientError>)
    ensures r == ConvertMultiple(lib, FileItems(files), options)
  {
    r := ConvertMultipleAsync(lib, FileItems(files), options);
  }

  /** A file is named after its file name without `.svg`, PascalCased; a file
      named just `.svg` (or with an empty name) falls back to the caller's
      name, or the default. */
  lemma FileInputNames(lib: Library, files: seq<File>, options: ConvertOptions, i: nat)
    requires ConvertMultiple(lib, FileItems(files), options).Ok? && i < |files|
    ensures ConvertMultiple(lib, FileItems(files), options).value[i].componentName ==
      if StripSvgSuffix(files[i].name) != "" then lib.toPascalCase(StripSvgSuffix(files[i].name))
      else options.componentName.GetOr(DefaultName)
  {
    ConvertMultipleNames(lib, FileItems(files), options, i);
  }

  /** The files a drop keeps: SVG by MIME type or by file name. */
  predicate IsSvgFile(f: File)
    ensures IsSvgFile(f) <==>
      || f.mimeType == "image/svg+xml"
      || (|f.name| >= 4 && f.name[|f.name| - 4] == '.' && f.name[|f.name| - 3] in {'s', 'S'} &&
          f.name[|f.name| - 2] in {'v', 'V'} && f.name[|f.name| - 1] in {'g', 'G'})
  {
    f.mimeType == "image/svg+xml" || HasSvgExtension(f.name)
  }

  /** `handleDropEvent(event, options)`, where `files` is
      `event.dataTransfer?.files`. */
  method HandleDropEvent(lib: Library, files: Option<seq<File>>, options: ConvertOptions) returns (r: Result<seq<ConversionResult>, ClientError>)
    ensures files.None? ==> r == Err(NoFilesInDrop)
    ensures files.Some? && (forall i :: 0 <= i < |files.value| ==> !IsSvgFile(files.value[i])) ==> r == Err(NoSvgFilesInDrop)
    ensures files.Some? && (exists i :: 0 <= i < |files.value| && IsSvgFile(files.value[i])) ==>
      r == ConvertMultiple(lib, FileItems(Filter(files.value, IsSvgFile)), options)
  {
    if files.None? {
      return Err(NoFilesInDrop);
    }
    var svgFiles := Filter(files.value, IsSvgFile);
    if |svgFiles| == 0 {
      assert forall i :: 0 <= i < |files.value| ==> files.value[i] !in svgFiles;
      return Err(NoSvgFilesInDrop);
    }
    assert svgFiles[0] in files.value;
    r := HandleFileInput(lib, svgFiles, options);
  }
}
