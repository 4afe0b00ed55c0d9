/**
 * Two small environment probes of the core: the document base the console
 * is served under, and the browser flags derived from a user-agent match.
 */
module HawtioEnvironment {
  import opened Wrappers

  // ---------------------------------------------------------------------
  // Document base
  // ---------------------------------------------------------------------

  /** A `base` element found in the document head, with its `href`
      attribute when it has one. */
  datatype BaseTag = BaseTag(href: Option<string>)

  datatype Warning = MissingBaseTag

  /** The base href (undefined when the first base element has no `href`)
      and the warnings logged while finding it. */
  datatype BaseResult = BaseResult(base: Option<string>, warnings: seq<Warning>)

  const DefaultBase: string := "/"

  /** `documentBase`, given the head's base elements in document order. */
  function DocumentBase(bases: seq<BaseTag>): (r: BaseResult)
    ensures |bases| > 0 ==> r == BaseResult(bases[0].href, [])
    ensures |bases| == 0 ==> r == BaseResult(Some(DefaultBase), [MissingBaseTag])
    ensures r.base.None? ==> |bases| > 0 && bases[0].href.None?
  {
    if |bases| > 0 then BaseResult(bases[0].href, [])
    else BaseResult(Some(DefaultBase), [MissingBaseTag])
  }

  // ---------------------------------------------------------------------
  // Browser flags
  // ---------------------------------------------------------------------

  /** A property value of the flags object. */
  datatype JsVal = Bool(b: bool) | Str(s: string)

  /** JavaScript truthiness of a property read; a missing property is falsy. */
  predicate Truthy(o: map<string, JsVal>, key: string) {
    key in o && match o[key]
      case Bool(b) => b
      case Str(s) => s != ""
  }

  /** The result of the user-agent match: a browser name, empty when nothing
      matched, and a version string. */
  datatype UaMatch = UaMatch(browser: string, version: string)

  /** The flags object built from a match: the browser's flag and its
      version, then the engine flags it implies. */
  function DeriveFlags(m: UaMatch): (r: map<string, JsVal>)
    ensures m.browser == "" ==> r == map[]
    ensures m.browser != "" ==> "version" in r && r["version"] == Str(m.version)
    ensures m.browser != "" && m.browser != "version" ==> m.browser in r && r[m.browser] == Bool(true)
    ensures r.Keys <= {m.browser, "version", "webkit", "safari"}
    ensures Truthy(r, "chrome") ==> "webkit" in r && r["webkit"] == Bool(true)
    ensures Truthy(r, "webkit") && !Truthy(r, "chrome") ==> "safari" in r && r["safari"] == Bool(true)
    ensures "webkit" in r <==> m.browser == "chrome" || m.browser == "webkit"
    ensures "safari" in r <==> m.browser == "webkit" || m.browser == "safari"
  {
    var found: map<string, JsVal> :=
      if m.browser != "" then map[m.browser := Bool(true)]["version" := Str(m.version)] else map[];
    if Truthy(found, "chrome") then found["webkit" := Bool(true)]
    else if Truthy(found, "webkit") then found["safari" := Bool(true)]
    else found
  }

  /** The browser flags after start-up: an existing flags object is kept as
      it is; otherwise the object derived from the match is installed. */
  function BrowserFlags(existing: Option<map<string, JsVal>>, m: UaMatch): (r: map<string, JsVal>)
    ensures existing.Some? ==> r == existing.value
    ensures existing.None? ==> r == DeriveFlags(m)
  {
    match existing
    case Some(flags) => flags
    case None => DeriveFlags(m)
  }
}
