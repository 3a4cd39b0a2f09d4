/** The option and result records both packages declare, field for field
    the same (packages/core/src/index.ts and packages/client/src/index.ts). */
module Api {
  import opened Wrappers

  /** `{ typescript?, componentName? }`: an absent field is `None`. */
  datatype ConvertOptions = ConvertOptions(typescript: Option<bool>, componentName: Option<string>)

  /** `{ componentName, code }`: the exported name and the module text. */
  datatype ConversionResult = ConversionResult(componentName: string, code: string)
}
