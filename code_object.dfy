/**
 * `createCodeObject` (src/types/code.ts): the record behind every usage
 * snippet of the gallery, with the `jsrepo` command that installs the
 * component.
 */
module CodeObjects {
  import opened Wrappers
  import opened JsStrings

  /** `CodeObjectInput`: the optional snippets a component file supplies. */
  datatype CodeObjectInput = CodeObjectInput(
    utility: Option<string>,
    code: Option<string>,
    usage: Option<string>,
    installation: Option<string>)

  /** `CodeObject`: every key optional, as declared; `None` is an absent key. */
  datatype CodeObject = CodeObject(
    cli: Option<string>,
    utility: Option<string>,
    code: Option<string>,
    usage: Option<string>,
    installation: Option<string>)

  const CliPrefix: string := "npx jsrepo add https://vue-bits.dev/ui/"

  /** How a template literal renders an array element that is missing. */
  const Undefined: string := "undefined"

  /** `...(field && { key: field })`: the key is present only for a non-empty string. */
  function IfTruthy(field: Option<string>): (r: Option<string>)
    ensures r.Some? <==> field.Some? && field.value != ""
    ensures r.Some? ==> r == field
  {
    if field.Some? && field.value != "" then field else None
  }

  /** Element `k` of a destructured array, as a template literal shows it. */
  function Element(ws: seq<string>, k: nat): (r: string)
    ensures k < |ws| ==> r == ws[k]
    ensures k >= |ws| ==> r == Undefined
    ensures r in ws || r == Undefined
  {
    if k < |ws| then ws[k] else Undefined
  }

  /** `createCodeObject(code, path, data)`. */
  function CreateCodeObject(code: string, path: string, data: CodeObjectInput): (r: CodeObject)
    ensures r.code == Some(code)
    ensures r.cli.Some?
    ensures r.installation.Some? <==> data.installation.Some? && data.installation.value != ""
    ensures r.usage.Some? <==> data.usage.Some? && data.usage.value != ""
    ensures r.utility.Some? <==> data.utility.Some? && data.utility.value != ""
    ensures r.installation.Some? ==> r.installation == data.installation
    ensures r.usage.Some? ==> r.usage == data.usage
    ensures r.utility.Some? ==> r.utility == data.utility
  {
    var segments := Split(path, IsSlash);
    var category, componentName := Element(segments, 0), Element(segments, 1);
    CodeObject(
      cli := Some(CliPrefix + category + "/" + componentName),
      utility := IfTruthy(data.utility),
      code := Some(code),
      usage := IfTruthy(data.usage),
      installation := IfTruthy(data.installation))
  }

  /** For a `Category/Name` path the command ends with the path itself. */
  lemma CliOfTwoSegmentPath(code: string, category: string, name: string, data: CodeObjectInput)
    requires '/' !in category && '/' !in name
    ensures CreateCodeObject(code, category + "/" + name, data).cli == Some(CliPrefix + category + "/" + name)
  {
    SplitAtSeparator(category, '/', name, IsSlash);
    SplitNoSeparator(name, IsSlash);
    assert category + "/" + name == category + ['/'] + name;
  }

  /** Path segments after the second do not reach the command. */
  lemma CliIgnoresExtraSegments(code: string, category: string, name: string, rest: string, data: CodeObjectInput)
    requires '/' !in category && '/' !in name
    ensures CreateCodeObject(code, category + "/" + name + "/" + rest, data).cli
         == Some(CliPrefix + category + "/" + name)
  {
    var path := category + "/" + name + "/" + rest;
    assert path == category + ['/'] + (name + ['/'] + rest);
    SplitAtSeparator(category, '/', name + ['/'] + rest, IsSlash);
    SplitAtSeparator(name, '/', rest, IsSlash);
  }

  /** A path without a slash names no component, and the command ends in "/undefined". */
  lemma CliOfPathWithoutSlash(code: string, path: string, data: CodeObjectInput)
    requires '/' !in path
    ensures CreateCodeObject(code, path, data).cli == Some(CliPrefix + path + "/" + Undefined)
  {
    SplitNoSeparator(path, IsSlash);
  }

  /** The `code` field of the input is never read: the `code` argument wins. */
  lemma InputCodeIgnored(code: string, path: string, data: CodeObjectInput, other: Option<string>)
    ensures CreateCodeObject(code, path, data) == CreateCodeObject(code, path, data.(code := other))
  {
  }
}
