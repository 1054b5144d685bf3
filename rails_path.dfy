/**
 * Bootinq::RailsPath (lib/bootinq/rails_path.rb): turns a Rails config path
 * into its component-scoped variant by splitting off the extension and
 * filling a format template with `base`, `component` and `ext`.
 */
module RailsPaths {
  import opened Wrappers
  import Text

  /** The three named directives of the templates. */
  const BaseDirective: string := "%<base>s"
  const ComponentDirective: string := "%<component>s"
  const ExtDirective: string := "%<ext>s"

  /** RailsPath::TEMPLATES[:default], `%<base>s.%<component>s%<ext>s` */
  const DefaultTemplate: string := BaseDirective + "." + ComponentDirective + ExtDirective
  /** RailsPath::TEMPLATES[:subdir], `%<base>s/%<component>s%<ext>s` */
  const SubdirTemplate: string := BaseDirective + "/" + ComponentDirective + ExtDirective

  /** A directive other than the four the templates use. */
  datatype FormatError = Unsupported

  /** Prepends `s` to a successful result. */
  function Prepend(s: string, r: Result<string, FormatError>): Result<string, FormatError> {
    match r
    case Success(t) => Success(s + t)
    case Failure(e) => Failure(e)
  }

  /**
   * `template % { base:, component:, ext: }` for the directives the templates
   * use: `%<base>s`, `%<component>s`, `%<ext>s` and `%%`; every other
   * character is copied. Any other directive is reported as Unsupported.
   */
  function Format(template: string, base: string, component: string, ext: string): (r: Result<string, FormatError>)
    ensures r.Failure? ==> '%' in template
    decreases |template|
  {
    if template == [] then Success([])
    else if template[0] != '%' then Prepend(template[..1], Format(template[1..], base, component, ext))
    else if "%%" <= template then Prepend("%", Format(template[2..], base, component, ext))
    else if BaseDirective <= template then Prepend(base, Format(template[|BaseDirective|..], base, component, ext))
    else if ComponentDirective <= template then Prepend(component, Format(template[|ComponentDirective|..], base, component, ext))
    else if ExtDirective <= template then Prepend(ext, Format(template[|ExtDirective|..], base, component, ext))
    else Failure(Unsupported)
  }

  /** A template without directives formats to itself. */
  lemma {:induction false} FormatLiteral(template: string, base: string, component: string, ext: string)
    requires '%' !in template
    ensures Format(template, base, component, ext) == Success(template)
  {
    if template != [] {
      FormatLiteral(template[1..], base, component, ext);
      assert template[..1] + template[1..] == template;
    }
  }

  lemma FormatChar(c: char, rest: string, base: string, component: string, ext: string)
    requires c != '%'
    ensures Format([c] + rest, base, component, ext) == Prepend([c], Format(rest, base, component, ext))
  {
    var t := [c] + rest;
    assert t[..1] == [c] && t[1..] == rest;
  }

  lemma FormatBase(rest: string, base: string, component: string, ext: string)
    ensures Format(BaseDirective + rest, base, component, ext) == Prepend(base, Format(rest, base, component, ext))
  {
    var t := BaseDirective + rest;
    assert t[0] == '%' && t[1] == '<';
    assert t[..8] == BaseDirective && t[8..] == rest;
  }

  lemma FormatComponent(rest: string, base: string, component: string, ext: string)
    ensures Format(ComponentDirective + rest, base, component, ext) == Prepend(component, Format(rest, base, component, ext))
  {
    var t := ComponentDirective + rest;
    assert t[0] == '%' && t[1] == '<' && t[2] == 'c';
    assert t[..13] == ComponentDirective && t[13..] == rest;
  }

  lemma FormatExt(rest: string, base: string, component: string, ext: string)
    ensures Format(ExtDirective + rest, base, component, ext) == Prepend(ext, Format(rest, base, component, ext))
  {
    var t := ExtDirective + rest;
    assert t[0] == '%' && t[1] == '<' && t[2] == 'e';
    assert t[..7] == ExtDirective && t[7..] == rest;
  }

  /** The template `%<base>s<sep>%<component>s%<ext>s` for a one-character separator. */
  lemma FormatSeparated(sep: char, base: string, component: string, ext: string)
    requires sep != '%'
    ensures Format(BaseDirective + [sep] + ComponentDirective + ExtDirective, base, component, ext)
         == Success(base + [sep] + component + ext)
  {
    var tC := ComponentDirective + ExtDirective;
    var tS := [sep] + tC;
    assert ExtDirective + [] == ExtDirective;
    FormatExt([], base, component, ext);
    FormatComponent(ExtDirective, base, component, ext);
    FormatChar(sep, tC, base, component, ext);
    FormatBase(tS, base, component, ext);
    Text.ConcatAssoc(BaseDirective + [sep], ComponentDirective, ExtDirective);
    Text.ConcatAssoc(BaseDirective, [sep], tC);
    assert ext + [] == ext;
    Text.ConcatAssoc(base + [sep], component, ext);
    Text.ConcatAssoc(base, [sep], component + ext);
  }

  /** The default template puts the component before the extension, after a dot. */
  lemma FormatDefault(base: string, component: string, ext: string)
    ensures Format(DefaultTemplate, base, component, ext) == Success(base + "." + component + ext)
  {
    FormatSeparated('.', base, component, ext);
  }

  /** The subdir template makes the component a file inside a directory named after the base. */
  lemma FormatSubdir(base: string, component: string, ext: string)
    ensures Format(SubdirTemplate, base, component, ext) == Success(base + "/" + component + ext)
  {
    FormatSeparated('/', base, component, ext);
  }

  /** The last segment of a path: the text after its last '/'. */
  function LastSegment(path: string): (r: string)
    ensures Text.EndsWith(path, r)
    ensures '/' !in r
    ensures |r| < |path| ==> path[|path| - |r| - 1] == '/'
  {
    if path == [] || path[|path| - 1] == '/' then []
    else
      var r := LastSegment(path[..|path| - 1]) + [path[|path| - 1]];
      assert path[..|path| - 1] + [path[|path| - 1]] == path;
      r
  }

  /** `s` without its leading dots: a dotfile's leading dot does not start an extension. */
  function SkipLeadingDots(s: string): (r: string)
    ensures Text.EndsWith(s, r)
    ensures r == [] || r[0] != '.'
  {
    if s != [] && s[0] == '.' then SkipLeadingDots(s[1..]) else s
  }

  /** The suffix of `s` from its last '.', or "" when it has none. */
  function FromLastDot(s: string): (r: string)
    ensures Text.EndsWith(s, r)
    ensures r == [] || (r[0] == '.' && '.' !in r[1..])
    ensures r == [] ==> '.' !in s
  {
    if s == [] then []
    else if s[|s| - 1] == '.' then "."
    else
      var t := FromLastDot(s[..|s| - 1]);
      if t == [] then
        assert s == s[..|s| - 1] + [s[|s| - 1]];
        []
      else
        assert s == s[..|s| - 1] + [s[|s| - 1]];
        assert (t + [s[|s| - 1]])[1..] == t[1..] + [s[|s| - 1]];
        t + [s[|s| - 1]]
  }

  lemma SuffixOfSuffix(a: string, b: string, c: string)
    requires Text.EndsWith(a, b) && Text.EndsWith(b, c)
    ensures Text.EndsWith(a, c)
  {
    assert a[|a| - |c|..] == b[|b| - |c|..];
  }

  /** A suffix has no character its string lacks. */
  lemma SuffixAvoids(s: string, suffix: string, c: char)
    requires Text.EndsWith(s, suffix) && c !in s
    ensures c !in suffix
  {
    forall i | 0 <= i < |suffix|
      ensures suffix[i] != c
    {
      assert suffix[i] == s[|s| - |suffix| + i];
    }
  }

  /**
   * `File.extname(path)`: from the last '.' of the last segment, not
   * counting leading dots; "" when there is none.
   */
  function ExtName(path: string): (ext: string)
    ensures Text.EndsWith(path, ext)
    ensures ext == [] || (ext[0] == '.' && '/' !in ext && '.' !in ext[1..])
  {
    var segment := LastSegment(path);
    var stem := SkipLeadingDots(segment);
    var ext := FromLastDot(stem);
    SuffixOfSuffix(segment, stem, ext);
    SuffixOfSuffix(path, segment, ext);
    SuffixAvoids(segment, ext, '/');
    ext
  }

  /** `path.delete_suffix(File.extname(path))` */
  function Base(path: string): (base: string)
    ensures base + ExtName(path) == path
  {
    Text.DeleteSuffix(path, ExtName(path))
  }

  /** `apply(base:, ext:, component:)`: the template filled for one path and component. */
  function Render(template: string, path: string, component: string): (r: Result<string, FormatError>)
    ensures r.Failure? ==> '%' in template
    ensures '%' !in template ==> r == Success(template)
  {
    if '%' !in template then
      FormatLiteral(template, Base(path), component, ExtName(path));
      Format(template, Base(path), component, ExtName(path))
    else
      Format(template, Base(path), component, ExtName(path))
  }

  /** What `call` returns: a formatted path, or the curried proc over `base` and `ext`. */
  datatype CallResult = Formatted(path: Result<string, FormatError>) | Curried(base: string, ext: string)

  class RailsPath {
    /** `@template`, readable and writable through `template` / `template=`. */
    var template: string

    constructor (template: string := DefaultTemplate)
      ensures this.template == template
    {
      this.template := template;
    }

    /** `template=`: replaces the template and nothing else. */
    method SetTemplate(t: string)
      modifies this
      ensures template == t
    {
      template := t;
    }

    /** `call(path, component = nil)` (alias `[]`). */
    function Call(path: string, component: Option<string>): (r: CallResult)
      reads this
      ensures component.None? ==> r == Curried(Base(path), ExtName(path))
      ensures component.Some? ==> r == Formatted(Render(template, path, component.value))
    {
      var ext := ExtName(path);
      var base := Text.DeleteSuffix(path, ext);
      match component
      case None => Curried(base, ext)
      case Some(c) => Formatted(Format(template, base, c, ext))
    }

    /** Calling the curried proc: `apply` reads `@template` when the proc runs, not when it was made. */
    function Invoke(proc: CallResult, component: string): (r: CallResult)
      reads this
      requires proc.Curried?
      ensures r.Formatted?
    {
      Formatted(Format(template, proc.base, component, proc.ext))
    }
  }

  /** The curried form applied to a component equals the two-argument call. */
  lemma CurriedAgrees(rp: RailsPath, path: string, component: string)
    ensures rp.Invoke(rp.Call(path, None), component) == rp.Call(path, Some(component))
  {
  }

  /** A path splits into base and extension that concatenate back to the path. */
  lemma SplitRoundTrip(path: string)
    ensures Base(path) + ExtName(path) == path
    ensures ExtName(path) == [] || (ExtName(path)[0] == '.' && '/' !in ExtName(path))
  {
  }

  /** A file `stem.ext` in `dir`: the extension runs from the last dot of the file name. */
  lemma ExtNameOfFile(dir: string, stem: string, ext: string)
    requires '/' !in stem && '/' !in ext && '.' !in ext
    requires stem != [] && stem[0] != '.'
    ensures ExtName(dir + "/" + stem + "." + ext) == "." + ext
    ensures Base(dir + "/" + stem + "." + ext) == dir + "/" + stem
  {
    var name := stem + "." + ext;
    var path := dir + "/" + name;
    Text.ConcatAssoc(dir + "/" + stem, ".", ext);
    Text.ConcatAssoc(dir + "/", stem, "." + ext);
    Text.ConcatAssoc(dir, "/", stem + "." + ext);
    Text.ConcatAssoc(stem, ".", ext);
    assert path == dir + "/" + stem + "." + ext;
    LastSegmentAfterSlash(dir, name);
    assert name[0] == stem[0];
    assert SkipLeadingDots(name) == name;
    FromLastDotAfterDot(stem, ext);
    var base := Base(path);
    assert base + ("." + ext) == (dir + "/" + stem) + ("." + ext);
    assert base == (base + ("." + ext))[..|base|];
  }

  /** A last segment without dots has no extension, so the base is the whole path. */
  lemma ExtNameOfDotless(dir: string, name: string)
    requires '/' !in name && '.' !in name
    ensures ExtName(dir + "/" + name) == [] && Base(dir + "/" + name) == dir + "/" + name
  {
    LastSegmentAfterSlash(dir, name);
    assert name == [] || name[0] != '.';
    assert SkipLeadingDots(name) == name;
    NoDotNoExtension(name);
  }

  /** A file `dir/stem.ext` renders to `dir/stem.component.ext` and `dir/stem/component.ext`. */
  lemma RenderFile(dir: string, stem: string, ext: string, component: string)
    requires '/' !in stem && '/' !in ext && '.' !in ext
    requires stem != [] && stem[0] != '.'
    ensures Render(DefaultTemplate, dir + "/" + stem + "." + ext, component) == Success(dir + "/" + stem + "." + component + "." + ext)
    ensures Render(SubdirTemplate, dir + "/" + stem + "." + ext, component) == Success(dir + "/" + stem + "/" + component + "." + ext)
  {
    ExtNameOfFile(dir, stem, ext);
    FormatDefault(dir + "/" + stem, component, "." + ext);
    FormatSubdir(dir + "/" + stem, component, "." + ext);
    Text.ConcatAssoc(dir + "/" + stem + "." + component, ".", ext);
    Text.ConcatAssoc(dir + "/" + stem + "/" + component, ".", ext);
  }

  /** A dotless `dir/name` renders to `dir/name.component` and `dir/name/component`. */
  lemma RenderDotless(dir: string, name: string, component: string)
    requires '/' !in name && '.' !in name
    ensures Render(DefaultTemplate, dir + "/" + name, component) == Success(dir + "/" + name + "." + component)
    ensures Render(SubdirTemplate, dir + "/" + name, component) == Success(dir + "/" + name + "/" + component)
  {
    ExtNameOfDotless(dir, name);
    FormatDefault(dir + "/" + name, component, []);
    FormatSubdir(dir + "/" + name, component, []);
    assert dir + "/" + name + "." + component + [] == dir + "/" + name + "." + component;
    assert dir + "/" + name + "/" + component + [] == dir + "/" + name + "/" + component;
  }

  /** The last segment is everything after a final '/'. */
  lemma {:induction false} LastSegmentAfterSlash(dir: string, name: string)
    requires '/' !in name
    ensures LastSegment(dir + "/" + name) == name
  {
    var p := dir + "/" + name;
    if name != [] {
      var init := name[..|name| - 1];
      assert p[..|p| - 1] == dir + "/" + init;
      LastSegmentAfterSlash(dir, init);
      assert init + [name[|name| - 1]] == name;
    }
  }

  /** The extension runs from a dot that is followed by no further dot. */
  lemma {:induction false} FromLastDotAfterDot(stem: string, ext: string)
    requires '.' !in ext
    ensures FromLastDot(stem + "." + ext) == "." + ext
  {
    var s := stem + "." + ext;
    if ext != [] {
      var init := ext[..|ext| - 1];
      assert s[..|s| - 1] == stem + "." + init;
      FromLastDotAfterDot(stem, init);
      assert "." + init + [ext[|ext| - 1]] == "." + ext;
    }
  }

  lemma NoDotNoExtension(s: string)
    requires '.' !in s
    ensures FromLastDot(s) == []
  {
  }
}
