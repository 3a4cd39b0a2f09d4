/** The third-party code the pipeline calls but whose text is not part of this
    model, passed in as functions so that every property below holds for any
    behaviour of them. */
module Externals {
  import opened Transformer

  /** `toPascalCase` and `camelCase` (the `camelcase` package, the first
      with `pascalCase` and `preserveConsecutiveUppercase`), and cheerio on
      both sides of the rewrite: `parse` is `parseSvg` followed by the reload
      at the start of `transformSvg`, `serialise` is `$("svg").toString()`. */
  datatype Library = Library(
    toPascalCase: string -> string,
    camelCase: string -> string,
    parse: string -> DomTree,
    serialise: Tree -> string)
  {
    /** The markup stage of a conversion: parse, transformSvg, serialise. */
    function TransformedMarkup(svgContent: string): string {
      serialise(TransformTree(camelCase, parse(svgContent)))
    }
  }
}
