/** `generateReactComponent` (packages/client/src/generator.ts): the
    transformed markup, with the props spread put into its first `<svg` tag,
    wrapped in a typed or untyped React component module. */
module Generator {
  import opened Wrappers
  import opened Text

  const Prelude := "import * as React from \"react\";\n\n"
  const ExportConst := "export const "
  const TypeAnnotation := ": React.FC<React.SVGProps<SVGSVGElement>>"
  const UntypedSignature := " = (props) => (\n  "
  const TypedSignature := TypeAnnotation + UntypedSignature
  const Closing := "\n);\n"

  const SvgOpen := "<svg"
  const SvgOpenWithProps := "<svg {...props}"

  predicate OccursAt(s: string, pattern: string, i: int) {
    0 <= i && i + |pattern| <= |s| && s[i..i + |pattern|] == pattern
  }

  lemma OccursShift(s: string, pattern: string, j: int)
    requires 1 <= j && s != []
    ensures OccursAt(s, pattern, j) <==> OccursAt(s[1..], pattern, j - 1)
  {
    if j + |pattern| <= |s| {
      assert s[1..][j - 1..j - 1 + |pattern|] == s[j..j + |pattern|];
    }
  }

  /** `s.indexOf(pattern)`: the first position where `pattern` occurs. */
  function IndexOf(s: string, pattern: string): (r: Option<nat>)
    ensures r.Some? ==> OccursAt(s, pattern, r.value)
    ensures r.Some? ==> forall j :: 0 <= j < r.value ==> !OccursAt(s, pattern, j)
    ensures r.None? ==> forall j :: !OccursAt(s, pattern, j)
    decreases |s|
  {
    if |s| < |pattern| then None
    else if s[..|pattern|] == pattern then Some(0)
    else
      assert forall j :: 1 <= j ==> (OccursAt(s, pattern, j) <==> OccursAt(s[1..], pattern, j - 1)) by {
        forall j | 1 <= j ensures OccursAt(s, pattern, j) <==> OccursAt(s[1..], pattern, j - 1) {
          OccursShift(s, pattern, j);
        }
      }
      assert !OccursAt(s, pattern, 0);
      match IndexOf(s[1..], pattern)
      case None => None
      case Some(k) => Some(k + 1)
  }

  /** `s.replace(pattern, replacement)` with a string pattern: only the first
      occurrence is replaced. (The replacement used here has no `$`, so
      JavaScript's replacement patterns play no part.) */
  function ReplaceFirst(s: string, pattern: string, replacement: string): (r: string)
    ensures (forall j :: !OccursAt(s, pattern, j)) ==> r == s
    ensures (exists j :: OccursAt(s, pattern, j)) ==> |r| == |s| - |pattern| + |replacement|
    ensures forall i :: OccursAt(s, pattern, i) && (forall j :: 0 <= j < i ==> !OccursAt(s, pattern, j)) ==>
      r == s[..i] + replacement + s[i + |pattern|..]
  {
    match IndexOf(s, pattern)
    case None => s
    case Some(i) => s[..i] + replacement + s[i + |pattern|..]
  }

  /** The props spread inserted after the first `<svg`: the markup changes
      exactly when it contains `<svg`. */
  function SpreadProps(markup: string): (r: string)
    ensures r == markup <==> forall j :: !OccursAt(markup, SvgOpen, j)
  {
    var k := IndexOf(markup, SvgOpen);
    assert k.Some? ==> |ReplaceFirst(markup, SvgOpen, SvgOpenWithProps)| > |markup|;
    ReplaceFirst(markup, SvgOpen, SvgOpenWithProps)
  }

  /** The inverse edit: the spread removed from its first occurrence. */
  function UnspreadProps(markup: string): string {
    ReplaceFirst(markup, SvgOpenWithProps, SvgOpen)
  }

  /** Only the first `<svg` gets the spread; everything before it and after
      it is kept. */
  lemma SpreadPropsAtFirstSvg(markup: string, i: nat)
    requires OccursAt(markup, SvgOpen, i)
    requires forall j :: 0 <= j < i ==> !OccursAt(markup, SvgOpen, j)
    ensures SpreadProps(markup) == markup[..i] + SvgOpenWithProps + markup[i + |SvgOpen|..]
  {
    var k := IndexOf(markup, SvgOpen);
    assert k.Some? && !(k.value < i) && !(i < k.value);
  }

  /** Markup without `<svg` passes through unchanged. */
  lemma SpreadPropsWithoutSvg(markup: string)
    requires forall j :: !OccursAt(markup, SvgOpen, j)
    ensures SpreadProps(markup) == markup
  {
    assert IndexOf(markup, SvgOpen).None?;
  }

  /** `<` occurs in the spread tag only at its start. */
  lemma OnlyOneOpeningBracket()
    ensures forall j :: 0 < j < |SvgOpenWithProps| ==> SvgOpenWithProps[j] != '<'
  {
  }

  /** A spread tag begins with `<svg`. */
  lemma WithPropsStartsWithOpen(s: string, j: int)
    ensures OccursAt(s, SvgOpenWithProps, j) ==> OccursAt(s, SvgOpen, j)
  {
    if OccursAt(s, SvgOpenWithProps, j) {
      assert s[j..j + |SvgOpen|] == s[j..j + |SvgOpenWithProps|][..|SvgOpen|];
    }
  }

  /** Before the insertion point the spread markup is the markup. */
  lemma SpreadKeepsPrefix(markup: string, i: nat, j: nat)
    requires i + |SvgOpen| <= |markup| && j + |SvgOpen| <= i
    ensures var spread := markup[..i] + SvgOpenWithProps + markup[i + |SvgOpen|..];
      OccursAt(spread, SvgOpen, j) <==> OccursAt(markup, SvgOpen, j)
  {
    var spread := markup[..i] + SvgOpenWithProps + markup[i + |SvgOpen|..];
    assert spread[j..j + |SvgOpen|] == markup[j..j + |SvgOpen|];
  }

  /** A spread tag starting less than its own length before a `<` that is
      not its first character cannot be there. */
  lemma NoSpreadAcrossBracket(s: string, i: nat, j: nat)
    requires j < i < |s| && s[i] == '<'
    ensures i < j + |SvgOpenWithProps| ==> !OccursAt(s, SvgOpenWithProps, j)
  {
    OnlyOneOpeningBracket();
    if i < j + |SvgOpenWithProps| && j + |SvgOpenWithProps| <= |s| {
      assert s[j..j + |SvgOpenWithProps|][i - j] == s[i];
    }
  }

  /** No spread tag starts before the first `<svg` of the spread markup. */
  lemma NoEarlierSpread(markup: string, i: nat, j: nat)
    requires OccursAt(markup, SvgOpen, i)
    requires forall k :: 0 <= k < i ==> !OccursAt(markup, SvgOpen, k)
    requires j < i
    ensures !OccursAt(markup[..i] + SvgOpenWithProps + markup[i + |SvgOpen|..], SvgOpenWithProps, j)
  {
    var spread := markup[..i] + SvgOpenWithProps + markup[i + |SvgOpen|..];
    WithPropsStartsWithOpen(spread, j);
    if j + |SvgOpen| <= i {
      SpreadKeepsPrefix(markup, i, j);
    } else {
      assert spread[i] == '<';
      NoSpreadAcrossBracket(spread, i, j);
    }
  }

  /** Removing the spread at the first `<svg` gives back the markup. */
  lemma UnspreadAtFirstSvg(markup: string, i: nat)
    requires OccursAt(markup, SvgOpen, i)
    requires forall j :: 0 <= j < i ==> !OccursAt(markup, SvgOpen, j)
    ensures UnspreadProps(markup[..i] + SvgOpenWithProps + markup[i + |SvgOpen|..]) == markup
  {
    var spread := markup[..i] + SvgOpenWithProps + markup[i + |SvgOpen|..];
    assert OccursAt(spread, SvgOpenWithProps, i) by {
      assert spread[i..i + |SvgOpenWithProps|] == SvgOpenWithProps;
    }
    forall j | 0 <= j < i ensures !OccursAt(spread, SvgOpenWithProps, j) {
      NoEarlierSpread(markup, i, j);
    }
    assert UnspreadProps(spread) == spread[..i] + SvgOpen + spread[i + |SvgOpenWithProps|..];
    assert spread[..i] == markup[..i];
    assert spread[i + |SvgOpenWithProps|..] == markup[i + |SvgOpen|..];
    Reassemble(markup, SvgOpen, i);
  }

  /** A string is what comes before an occurrence, the occurrence, and what
      comes after it. */
  lemma Reassemble(s: string, pattern: string, i: nat)
    requires OccursAt(s, pattern, i)
    ensures s[..i] + pattern + s[i + |pattern|..] == s
  {
    assert s == s[..i] + s[i..i + |pattern|] + s[i + |pattern|..];
  }

  /** Removing the spread again gives back the markup: the edit loses
      nothing. */
  lemma SpreadPropsRoundTrip(markup: string)
    ensures UnspreadProps(SpreadProps(markup)) == markup
  {
    var k := IndexOf(markup, SvgOpen);
    if k.None? {
      forall j | 0 <= j ensures !OccursAt(markup, SvgOpenWithProps, j) {
        WithPropsStartsWithOpen(markup, j);
      }
      SpreadPropsWithoutSvg(markup);
    } else {
      SpreadPropsAtFirstSvg(markup, k.value);
      UnspreadAtFirstSvg(markup, k.value);
    }
  }

  /** The declaration that follows the exported name: typed with the React
      function-component annotation, or untyped. */
  function Signature(typescript: bool): string {
    if typescript then TypedSignature else UntypedSignature
  }

  /** The shape of `lead + (name + sig + body) + closing`, over any parts:
      the head and the tail are where they belong, and the signature is
      recognised by its first character. */
  lemma {:induction false} ShapeOfParts(lead: string, name: string, sig: string, body: string, closing: string, mark: string)
    requires sig != [] && mark != []
    ensures var code := lead + (name + sig + body) + closing;
      && StartsWith(code, lead + name)
      && EndsWith(code, body + closing)
      && (StartsWith(sig, mark) ==> StartsWith(code, lead + name + mark))
      && (sig[0] != mark[0] ==> !StartsWith(code, lead + name + mark))
  {
    var head := lead + name;
    var tail := body + closing;
    var code := lead + (name + sig + body) + closing;
    assert name + sig + body == name + (sig + body);
    assert lead + (name + (sig + body)) == head + (sig + body);
    assert head + (sig + body) + closing == head + (sig + tail);
    PrefixOfConcat(head, sig + tail);
    SuffixOfConcat(head + sig, tail);
    if StartsWith(sig, mark) {
      assert code[..|head + mark|] == head + sig[..|mark|];
    }
    if sig[0] != mark[0] && |head + mark| <= |code| {
      assert code[|head|] == sig[0];
      assert (head + mark)[|head|] == mark[0];
      assert code[..|head + mark|][|head|] == code[|head|];
    }
  }

  /** generateReactComponent: `typescript` defaults to true. The module
      imports React, exports a constant under the given name, is typed
      exactly when `typescript` is absent or true, and closes with the spread
      markup as the returned JSX. */
  function GenerateReactComponent(svgMarkup: string, componentName: string, typescript: Option<bool>): (code: string)
    ensures StartsWith(code, Prelude + ExportConst + componentName)
    ensures EndsWith(code, SpreadProps(svgMarkup) + Closing)
    ensures typescript.GetOr(true) <==> StartsWith(code, Prelude + ExportConst + componentName + TypeAnnotation)
  {
    var signature := Signature(typescript.GetOr(true));
    assert TypedSignature == TypeAnnotation + UntypedSignature;
    PrefixOfConcat(TypeAnnotation, UntypedSignature);
    assert TypeAnnotation[0] == ':' && UntypedSignature[0] == ' ';
    ShapeOfParts(Prelude + ExportConst, componentName, signature, SpreadProps(svgMarkup), Closing, TypeAnnotation);
    Prelude + ExportConst + (componentName + signature + SpreadProps(svgMarkup)) + Closing
  }

  // ---------------------------------------------------------------------
  // Reading a generated module back
  // ---------------------------------------------------------------------

  /** What a generated module declares. */
  datatype Component = Component(name: string, typed: bool, markup: string)

  predicate EndsName(c: char) {
    c == ':' || c == ' '
  }

  /** Where the exported name stops: the first `:` or space. */
  function NameLength(s: string): (n: nat)
    ensures n <= |s|
    ensures forall i :: 0 <= i < n ==> !EndsName(s[i])
    ensures n < |s| ==> EndsName(s[n])
  {
    if s == [] || EndsName(s[0]) then 0 else 1 + NameLength(s[1..])
  }

  lemma {:induction false} NameLengthOfConcat(name: string, rest: string)
    requires forall i :: 0 <= i < |name| ==> !EndsName(name[i])
    requires rest != [] && EndsName(rest[0])
    ensures NameLength(name + rest) == |name|
  {
    if name != [] {
      assert (name + rest)[1..] == name[1..] + rest;
      NameLengthOfConcat(name[1..], rest);
    }
  }

  /** Reads the exported name, the variant and the markup back from a module
      of the shape GenerateReactComponent produces. */
  function ParseComponent(code: string): Option<Component> {
    var head := Prelude + ExportConst;
    if !(StartsWith(code, head) && |head| + |Closing| <= |code| && EndsWith(code, Closing)) then None
    else
      var rest := code[|head|..|code| - |Closing|];
      var n := NameLength(rest);
      var tail := rest[n..];
      if StartsWith(tail, TypedSignature) then
        Some(Component(rest[..n], true, UnspreadProps(tail[|TypedSignature|..])))
      else if StartsWith(tail, UntypedSignature) then
        Some(Component(rest[..n], false, UnspreadProps(tail[|UntypedSignature|..])))
      else None
  }

  /** Cutting a known head and closing off `head + rest + closing` leaves
      `rest`. */
  lemma Unframe(head: string, rest: string, closing: string)
    ensures var code := head + rest + closing;
      StartsWith(code, head) && |head| + |closing| <= |code| && EndsWith(code, closing) &&
      code[|head|..|code| - |closing|] == rest
  {
    var code := head + rest + closing;
    assert code[..|head|] == head;
    assert code[|code| - |closing|..] == closing;
    assert code[|head|..|code| - |closing|] == rest;
  }

  /** The name ends where the signature starts, and the signature is
      followed by the body. */
  lemma SplitNamed(name: string, signature: string, body: string)
    requires forall i :: 0 <= i < |name| ==> !EndsName(name[i])
    requires signature != [] && EndsName(signature[0])
    ensures var rest := name + signature + body;
      NameLength(rest) == |name| && rest[..|name|] == name &&
      StartsWith(rest[|name|..], signature) && rest[|name|..][|signature|..] == body
  {
    var rest := name + signature + body;
    assert rest == name + (signature + body);
    NameLengthOfConcat(name, signature + body);
    assert rest[..|name|] == name;
    assert rest[|name|..] == signature + body;
    assert (signature + body)[..|signature|] == signature;
    assert (signature + body)[|signature|..] == body;
  }

  /** The parts a module of the generated shape is read back into. */
  lemma ParseComponentShape(name: string, signature: string, body: string)
    requires forall i :: 0 <= i < |name| ==> !EndsName(name[i])
    requires signature == TypedSignature || signature == UntypedSignature
    ensures ParseComponent(Prelude + ExportConst + (name + signature + body) + Closing) ==
      Some(Component(name, signature == TypedSignature, UnspreadProps(body)))
  {
    assert TypedSignature[0] == TypeAnnotation[0] == ':' && UntypedSignature[0] == ' ';
    Unframe(Prelude + ExportConst, name + signature + body, Closing);
    SplitNamed(name, signature, body);
    var tail := (name + signature + body)[|name|..];
    if signature == UntypedSignature {
      assert tail[0] == ' ' != TypedSignature[0];
      assert !StartsWith(tail, TypedSignature);
    }
  }

  /** A generated module exports exactly the given name, in the chosen
      variant, with the given markup as its body: nothing is lost. */
  lemma GeneratedComponentParses(svgMarkup: string, componentName: string, typescript: Option<bool>)
    requires forall i :: 0 <= i < |componentName| ==> !EndsName(componentName[i])
    ensures ParseComponent(GenerateReactComponent(svgMarkup, componentName, typescript)) ==
      Some(Component(componentName, typescript.GetOr(true), svgMarkup))
  {
    var signature := Signature(typescript.GetOr(true));
    var spread := SpreadProps(svgMarkup);
    ParseComponentShape(componentName, signature, spread);
    SpreadPropsRoundTrip(svgMarkup);
  }
}
