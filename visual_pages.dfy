/** Helpers of the visual regression suite: the viewport and browser names taken
    from a test project's name, and the file-name form of a page path that the
    screenshot names are built from. */
module VisualPages {
  import JsBuiltins

  /** The viewport part of a screenshot name; `mobile` wins over `tablet`. */
  function ViewportName(projectName: string): (r: string)
    ensures r == "mobile" <==> JsBuiltins.Includes(projectName, "mobile")
    ensures r == "tablet" <==>
              !JsBuiltins.Includes(projectName, "mobile") && JsBuiltins.Includes(projectName, "tablet")
    ensures r == "desktop" <==>
              !JsBuiltins.Includes(projectName, "mobile") && !JsBuiltins.Includes(projectName, "tablet")
  {
    if JsBuiltins.Includes(projectName, "mobile") then "mobile"
    else if JsBuiltins.Includes(projectName, "tablet") then "tablet"
    else "desktop"
  }

  /** The browser part of a screenshot name; `webkit` wins over `firefox`. */
  function BrowserName(projectName: string): (r: string)
    ensures r == "webkit" <==> JsBuiltins.Includes(projectName, "webkit")
    ensures r == "firefox" <==>
              !JsBuiltins.Includes(projectName, "webkit") && JsBuiltins.Includes(projectName, "firefox")
    ensures r == "chromium" <==>
              !JsBuiltins.Includes(projectName, "webkit") && !JsBuiltins.Includes(projectName, "firefox")
  {
    if JsBuiltins.Includes(projectName, "webkit") then "webkit"
    else if JsBuiltins.Includes(projectName, "firefox") then "firefox"
    else "chromium"
  }

  /** `.replace(/^\//, '')`: one leading slash removed. */
  function StripLeadingSlash(s: string): string {
    if s != [] && s[0] == '/' then s[1..] else s
  }

  /** `.replace(/\/$/, '')`: one trailing slash removed. */
  function StripTrailingSlash(s: string): string {
    if s != [] && s[|s| - 1] == '/' then s[..|s| - 1] else s
  }

  /** `.replace(/\//g, '-')`: every slash becomes a dash, everything else stays put. */
  function ReplaceSlashes(s: string): (r: string)
    ensures |r| == |s|
    ensures forall i :: 0 <= i < |s| ==> r[i] == if s[i] == '/' then '-' else s[i]
    decreases |s|
  {
    if s == [] then []
    else [if s[0] == '/' then '-' else s[0]] + ReplaceSlashes(s[1..])
  }

  /** The file-name form of a page path, `index` when nothing is left of it. */
  function SafeName(path: string): string {
    var core := StripTrailingSlash(StripLeadingSlash(path));
    var replaced := ReplaceSlashes(core);
    if replaced == "" then "index" else replaced
  }

  /** A safe name is never empty and holds no slash; apart from `index` it is the
      path with at most one slash cut at each end and the other slashes turned
      into dashes, character for character. */
  lemma SafeNameShape(path: string)
    ensures SafeName(path) != "" && '/' !in SafeName(path)
    ensures var core := StripTrailingSlash(StripLeadingSlash(path));
            && |path| - 2 <= |core| <= |path|
            && (core == "" <==> SafeName(path) == "index" && path in {"", "/", "//"})
            && (core != "" ==>
                  && |SafeName(path)| == |core|
                  && forall i :: 0 <= i < |core| ==>
                       SafeName(path)[i] == if core[i] == '/' then '-' else core[i])
  {
    var core := StripTrailingSlash(StripLeadingSlash(path));
    if core == "" {
      assert |path| <= 2;
      if |path| == 1 { assert path == [path[0]]; }
      if |path| == 2 { assert path == [path[0], path[1]]; }
    }
  }

  /** A page nested one level deep, `/a/b/`, becomes `a-b`. */
  lemma SafeNameOfNestedPage(a: string, b: string)
    requires a != "" && b != ""
    requires '/' !in a && '/' !in b
    ensures SafeName("/" + a + "/" + b + "/") == a + "-" + b
  {
    var core := StripTrailingSlash(StripLeadingSlash("/" + a + "/" + b + "/"));
    assert core == a + "/" + b;
    var r := ReplaceSlashes(core);
    forall i | 0 <= i < |r| ensures r[i] == (a + "-" + b)[i] {
      if i < |a| {
        assert core[i] == a[i];
      } else if i > |a| {
        assert core[i] == b[i - |a| - 1];
      }
    }
  }

  /** The root page is `index`; the site's writing post becomes its two segments
      joined by a dash. */
  lemma SafeNameExamples()
    ensures SafeName("/") == "index"
    ensures var a, b := "writing", "marks-on-blank-pages";
            SafeName("/" + a + "/" + b + "/") == a + "-" + b
  {
    SafeNameOfNestedPage("writing", "marks-on-blank-pages");
  }
}
