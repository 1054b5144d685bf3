/**
 * Bootinq::Mixins (lib/bootinq/mixins.rb): per-component modules named after
 * the component (`api_part` gives `ApiPartEnabledMixin`), whose generated
 * `on_<name>` / `not_<name>` methods yield or do nothing, built once and kept
 * as constants of Bootinq.
 */
module Mixins {
  import opened Wrappers
  import Text

  /** `Enabled.@name_suffix` */
  const EnabledSuffix: string := "EnabledMixin"
  /** `Disabled.@name_suffix` */
  const DisabledSuffix: string := "DisabledMixin"
  /** ComputeNameMethod::DASH */
  const Dash: char := '_'

  // ---------------------------------------------------------------------------
  // compute_name
  // ---------------------------------------------------------------------------

  /** Joins `words` with the dash between them (the inverse of Fields). */
  function JoinDash(words: seq<string>): string
    requires |words| >= 1
  {
    if |words| == 1 then words[0] else words[0] + [Dash] + JoinDash(words[1..])
  }

  /** Every field of `s` between dashes, empty ones included. */
  function Fields(s: string): (r: seq<string>)
    ensures |r| >= 1
    ensures forall i :: 0 <= i < |r| ==> Dash !in r[i]
    ensures JoinDash(r) == s
  {
    if s == [] then [""]
    else
      var rest := Fields(s[1..]);
      if s[0] == Dash then
        JoinDashEmptyFirst(rest);
        [""] + rest
      else
        assert rest == [rest[0]] + rest[1..];
        JoinDashExtendFirst(s[0], rest[0], rest[1..]);
        [[s[0]] + rest[0]] + rest[1..]
  }

  lemma JoinDashEmptyFirst(words: seq<string>)
    requires |words| >= 1
    ensures JoinDash([""] + words) == [Dash] + JoinDash(words)
  {
    assert ([""] + words)[1..] == words;
  }

  lemma JoinDashExtendFirst(c: char, first: string, rest: seq<string>)
    ensures JoinDash([[c] + first] + rest) == [c] + JoinDash([first] + rest)
  {
    if rest != [] {
      assert ([[c] + first] + rest)[1..] == rest;
      assert ([first] + rest)[1..] == rest;
      var tail := [Dash] + JoinDash(rest);
      Text.ConcatAssoc([c], first, tail);
    }
  }

  /** Drops the empty strings at the end of `words`. */
  function DropTrailingEmpty(words: seq<string>): (r: seq<string>)
    ensures r <= words
    ensures r == [] || r[|r| - 1] != ""
    ensures forall i :: |r| <= i < |words| ==> words[i] == ""
  {
    if words == [] then []
    else if words[|words| - 1] == "" then DropTrailingEmpty(words[..|words| - 1])
    else words
  }

  /** String#split with a one-character separator and no limit: trailing empty fields are dropped. */
  function Split(s: string): (r: seq<string>)
    ensures r <= Fields(s)
    ensures forall i :: |r| <= i < |Fields(s)| ==> Fields(s)[i] == ""
    ensures forall i :: 0 <= i < |r| ==> Dash !in r[i]
    ensures r == [] || r[|r| - 1] != ""
  {
    DropTrailingEmpty(Fields(s))
  }

  /** `each(&:capitalize!).join` */
  function JoinCapitalized(words: seq<string>): (r: string)
    ensures |r| == Sum(words)
  {
    if words == [] then "" else Text.Capitalize(words[0]) + JoinCapitalized(words[1..])
  }

  /** The total length of `words`. */
  function Sum(words: seq<string>): nat {
    if words == [] then 0 else |words[0]| + Sum(words[1..])
  }

  /** ComputeNameMethod#compute_name, with the class's `@name_suffix`. */
  function ComputeName(componentName: string, suffix: string): (r: string)
    ensures Text.EndsWith(r, suffix)
    ensures r[..|r| - |suffix|] == JoinCapitalized(Split(componentName))
  {
    var r := JoinCapitalized(Split(componentName)) + suffix;
    assert r[|r| - |suffix|..] == suffix;
    r
  }

  /**
   * An independent reading of compute_name, one character at a time: a dash
   * is dropped and starts a new word; a word's first character is upper-cased
   * and its others lower-cased.
   */
  function CamelFrom(s: string, wordStart: bool): (r: string)
    ensures Dash !in r
  {
    if s == [] then ""
    else if s[0] == Dash then CamelFrom(s[1..], true)
    else [if wordStart then Text.UpperChar(s[0]) else Text.LowerChar(s[0])] + CamelFrom(s[1..], false)
  }

  /** Empty words add nothing to the joined name. */
  lemma {:induction false} JoinCapitalizedTrailingEmpty(words: seq<string>)
    ensures JoinCapitalized(DropTrailingEmpty(words)) == JoinCapitalized(words)
    decreases |words|
  {
    if words != [] && words[|words| - 1] == "" {
      var init := words[..|words| - 1];
      JoinCapitalizedTrailingEmpty(init);
      assert words == init + [""];
      JoinCapitalizedAppend(init, [""]);
    }
  }

  lemma {:induction false} JoinCapitalizedAppend(a: seq<string>, b: seq<string>)
    ensures JoinCapitalized(a + b) == JoinCapitalized(a) + JoinCapitalized(b)
    decreases |a|
  {
    if a != [] {
      var head := Text.Capitalize(a[0]);
      assert (a + b)[0] == a[0];
      assert (a + b)[1..] == a[1..] + b;
      JoinCapitalizedAppend(a[1..], b);
      calc {
        JoinCapitalized(a + b);
        head + JoinCapitalized(a[1..] + b);
        head + (JoinCapitalized(a[1..]) + JoinCapitalized(b));
        { Text.ConcatAssoc(head, JoinCapitalized(a[1..]), JoinCapitalized(b)); }
        JoinCapitalized(a) + JoinCapitalized(b);
      }
    } else {
      assert a + b == b;
    }
  }

  /**
   * The fields of `s` read as CamelFrom does: the first field capitalised (at a
   * word start) or lower-cased (inside a word), then the other fields capitalised.
   */
  lemma {:induction false} FieldsAreCamel(s: string)
    ensures Text.Capitalize(Fields(s)[0]) + JoinCapitalized(Fields(s)[1..]) == CamelFrom(s, true)
    ensures Text.Downcase(Fields(s)[0]) + JoinCapitalized(Fields(s)[1..]) == CamelFrom(s, false)
  {
    if s != [] {
      var rest := Fields(s[1..]);
      FieldsAreCamel(s[1..]);
      if s[0] == Dash {
        assert Fields(s) == [""] + rest;
        assert Fields(s)[1..] == rest;
        assert JoinCapitalized(rest) == Text.Capitalize(rest[0]) + JoinCapitalized(rest[1..]);
      } else {
        var w := [s[0]] + rest[0];
        assert Fields(s) == [w] + rest[1..];
        assert Fields(s)[1..] == rest[1..];
        assert Text.Capitalize(w) == [Text.UpperChar(s[0])] + Text.Downcase(rest[0]);
        Text.DowncaseAppend([s[0]], rest[0]);
        assert Text.Downcase(w) == [Text.LowerChar(s[0])] + Text.Downcase(rest[0]);
      }
    }
  }

  /** compute_name agrees with the character-by-character reading. */
  lemma ComputeNameIsCamel(componentName: string, suffix: string)
    ensures ComputeName(componentName, suffix) == CamelFrom(componentName, true) + suffix
  {
    var f := Fields(componentName);
    JoinCapitalizedTrailingEmpty(f);
    FieldsAreCamel(componentName);
    assert f == [f[0]] + f[1..];
    assert JoinCapitalized(f) == Text.Capitalize(f[0]) + JoinCapitalized(f[1..]);
  }

  /** The name part of a computed constant name never holds a dash. */
  lemma ComputeNameHasNoDash(componentName: string, suffix: string)
    ensures Dash !in ComputeName(componentName, suffix)[..|ComputeName(componentName, suffix)| - |suffix|]
  {
    ComputeNameIsCamel(componentName, suffix);
    var r := ComputeName(componentName, suffix);
    assert r[..|r| - |suffix|] == CamelFrom(componentName, true);
  }

  /** A name without a dash is just capitalised. */
  lemma {:induction false} CamelOfWord(s: string)
    requires Dash !in s
    ensures CamelFrom(s, true) == Text.Capitalize(s)
    ensures CamelFrom(s, false) == Text.Downcase(s)
  {
    if s != [] {
      assert s == [s[0]] + s[1..];
      CamelOfWord(s[1..]);
    }
  }

  /** A dash ends the word before it: the reading splits there. */
  lemma {:induction false} CamelJoin(w: string, rest: string, wordStart: bool)
    requires Dash !in w
    ensures CamelFrom(w + [Dash] + rest, wordStart) == CamelFrom(w, wordStart) + CamelFrom(rest, true)
  {
    if w == [] {
      assert w + [Dash] + rest == [Dash] + rest;
    } else {
      assert (w + [Dash] + rest)[1..] == w[1..] + [Dash] + rest;
      CamelJoin(w[1..], rest, false);
    }
  }

  /** Two dash-free words joined by a dash read as both words capitalised. */
  lemma TwoWords(w1: string, w2: string, camel: string)
    requires Dash !in w1 && Dash !in w2
    requires Text.Capitalize(w1) + Text.Capitalize(w2) == camel
    ensures CamelFrom(w1 + [Dash] + w2, true) == camel
  {
    CamelJoin(w1, w2, true);
    CamelOfWord(w1);
    CamelOfWord(w2);
  }

  /** A doubled dash between two words reads like a single one. */
  lemma TwoWordsDoubleDash(w1: string, w2: string, camel: string)
    requires Dash !in w1 && Dash !in w2
    requires Text.Capitalize(w1) + Text.Capitalize(w2) == camel
    ensures CamelFrom(w1 + [Dash] + ([Dash] + w2), true) == camel
  {
    CamelJoin(w1, [Dash] + w2, true);
    assert ([Dash] + w2)[1..] == w2;
    CamelOfWord(w1);
    CamelOfWord(w2);
  }

  /** The capitalised words of the examples. */
  lemma CapitalizedWords()
    ensures Text.Capitalize("api") + Text.Capitalize("part") == "ApiPart"
    ensures Text.Capitalize("API") + Text.Capitalize("PART") == "ApiPart"
    ensures "ApiPart" + EnabledSuffix == "ApiPartEnabledMixin"
  {
    CapitalizeApi();
    CapitalizePart();
    CapitalizeUpperApi();
    CapitalizeUpperPart();
    ApiPartLiterals();
  }

  // The example words, one evaluation per lemma so that each stays small.
  lemma CapitalizeApi() ensures Text.Capitalize("api") == "Api" { }
  lemma CapitalizePart() ensures Text.Capitalize("part") == "Part" { }
  lemma CapitalizeUpperApi() ensures Text.Capitalize("API") == "Api" { }
  lemma CapitalizeUpperPart() ensures Text.Capitalize("PART") == "Part" { }

  lemma ApiPartLiterals()
    ensures "Api" + "Part" == "ApiPart"
    ensures "ApiPart" + EnabledSuffix == "ApiPartEnabledMixin"
  {
  }

  // The three examples below take the name as a parameter pinned by `requires`
  // instead of writing the literal in the ensures, so that the solver does not
  // unfold ComputeName on the literal while proving the other steps.

  /** `api_part` with the enabled suffix is `ApiPartEnabledMixin`. */
  lemma ApiPartExample(name: string)
    requires name == "api_part"
    ensures ComputeName(name, EnabledSuffix) == "ApiPartEnabledMixin"
  {
    CapitalizedWords();
    assert name == "api" + [Dash] + "part";
    TwoWords("api", "part", "ApiPart");
    ComputeNameIsCamel(name, EnabledSuffix);
  }

  /** A doubled dash gives the same name as a single one. */
  lemma DoubleDashExample(name: string)
    requires name == "api__part"
    ensures ComputeName(name, EnabledSuffix) == "ApiPartEnabledMixin"
  {
    CapitalizedWords();
    assert name == "api" + [Dash] + ([Dash] + "part");
    TwoWordsDoubleDash("api", "part", "ApiPart");
    ComputeNameIsCamel(name, EnabledSuffix);
  }

  /** Upper-case input gives the same name as lower-case input. */
  lemma UpperCaseExample(name: string)
    requires name == "API_PART"
    ensures ComputeName(name, EnabledSuffix) == "ApiPartEnabledMixin"
  {
    CapitalizedWords();
    assert name == "API" + [Dash] + "PART";
    TwoWords("API", "PART", "ApiPart");
    ComputeNameIsCamel(name, EnabledSuffix);
  }

  /**
   * Different component names can share one computed name: dashes are
   * dropped and case is normalised, so `api_part`, `api__part` and
   * `API_PART` all give `ApiPartEnabledMixin`.
   */
  lemma NamesCollide()
    ensures ComputeName("api__part", EnabledSuffix) == ComputeName("api_part", EnabledSuffix)
    ensures ComputeName("API_PART", EnabledSuffix) == ComputeName("api_part", EnabledSuffix)
  {
    ApiPartExample("api_part");
    DoubleDashExample("api__part");
    UpperCaseExample("API_PART");
  }

  /** No name ends in both suffixes, so an enabled and a disabled mixin never share a constant. */
  lemma SuffixesExclusive(s: string)
    ensures !(Text.EndsWith(s, EnabledSuffix) && Text.EndsWith(s, DisabledSuffix))
  {
    if Text.EndsWith(s, EnabledSuffix) && |s| >= |DisabledSuffix| {
      assert s[|s| - 12] == EnabledSuffix[0] == 'E';
      assert DisabledSuffix[1] == 'i';
    }
  }

  // ---------------------------------------------------------------------------
  // Enabled / Disabled
  // ---------------------------------------------------------------------------

  datatype Kind = Enabled | Disabled

  function SuffixOf(kind: Kind): string {
    match kind
    case Enabled => EnabledSuffix
    case Disabled => DisabledSuffix
  }

  /** `Enabled.new(module_name, component_name)` or `Disabled.new(...)`. */
  datatype Mixin = Mixin(kind: Kind, moduleName: string, componentName: string)

  /**
   * What a generated method does: yield the block, return nil, or return the
   * receiver (the disabled mixin's `name` is defined from `Kernel#itself`, so
   * it answers the object the mixin extends, not the module name).
   */
  datatype Reply = Yield | Nothing | Receiver

  function OnMethod(componentName: string): string { "on_" + componentName }
  function NotMethod(componentName: string): string { "not_" + componentName }

  /**
   * Calling `selector` on a module extended with `m`: `on_<name>` yields when
   * enabled, `not_<name>` yields when disabled, the disabled mixin also
   * answers `name` with the receiver; anything else is not defined (None).
   */
  function Respond(m: Mixin, selector: string): (r: Option<Reply>)
    ensures selector == OnMethod(m.componentName) ==> r == Some(if m.kind == Enabled then Yield else Nothing)
    ensures selector == NotMethod(m.componentName) ==> r == Some(if m.kind == Enabled then Nothing else Yield)
    ensures r == Some(Yield) ==> selector == OnMethod(m.componentName) || selector == NotMethod(m.componentName)
    ensures r.Some? <==>
      selector == OnMethod(m.componentName) || selector == NotMethod(m.componentName) ||
      (m.kind == Disabled && selector == "name")
    ensures m.kind == Disabled && selector == "name" ==> r == Some(Receiver)
  {
    OnNotDistinct(m.componentName);
    if selector == OnMethod(m.componentName) then
      Some(if m.kind == Enabled then Yield else Nothing)
    else if selector == NotMethod(m.componentName) then
      Some(if m.kind == Enabled then Nothing else Yield)
    else if m.kind == Disabled && selector == "name" then
      Some(Receiver)
    else
      None
  }

  /** `on_X`, `not_X` and `name` are three different method names. */
  lemma OnNotDistinct(c: string)
    ensures OnMethod(c) != NotMethod(c)
    ensures OnMethod(c) != "name" && NotMethod(c) != "name"
  {
    assert OnMethod(c)[1] == 'n' && NotMethod(c)[1] == 'o';
    assert OnMethod(c)[0] == 'o' && NotMethod(c)[0] == 'n' && "name"[0] == 'n' && "name"[1] == 'a';
  }

  /** For either kind exactly one of `on_X` and `not_X` yields; `on_X` yields iff the mixin is enabled. */
  lemma ExactlyOneYields(m: Mixin)
    ensures (Respond(m, OnMethod(m.componentName)) == Some(Yield)) != (Respond(m, NotMethod(m.componentName)) == Some(Yield))
    ensures Respond(m, OnMethod(m.componentName)) == Some(Yield) <==> m.kind == Enabled
  {
  }

  // ---------------------------------------------------------------------------
  // Builder
  // ---------------------------------------------------------------------------

  /** Every bound mixin sits under its own module name, which carries its kind's suffix. */
  ghost predicate WellFormed(table: map<string, Mixin>) {
    forall k :: k in table ==> table[k].moduleName == k && Text.EndsWith(k, SuffixOf(table[k].kind))
  }

  /** A letter, digit or underscore: the characters of a Ruby identifier (ASCII only). */
  predicate IdentifierChar(c: char) {
    'a' <= c <= 'z' || 'A' <= c <= 'Z' || '0' <= c <= '9' || c == Dash
  }

  /** A name `const_defined?` accepts: an upper-case letter, then identifier characters. */
  predicate ConstantName(s: string) {
    |s| > 0 && 'A' <= s[0] <= 'Z' && forall i :: 0 <= i < |s| ==> IdentifierChar(s[i])
  }

  /** `const_defined?` raises NameError ("wrong constant name") for a name it does not accept. */
  datatype BuildError = NameError(name: string)

  /**
   * Builder[component_name, enabled] on the constant table `table`: the mixin
   * bound under the computed name, and the table afterwards; NameError when
   * the computed name is not a constant name.
   */
  function Build(table: map<string, Mixin>, componentName: string, enabled: bool)
    : (r: Result<(Mixin, map<string, Mixin>), BuildError>)
    ensures var name := ComputeName(componentName, SuffixOf(if enabled then Enabled else Disabled));
      && (r.Failure? <==> !ConstantName(name))
      && (r.Failure? ==> r.error == NameError(name))
      && (r.Success? ==>
            && r.value.1.Keys == table.Keys + {name}
            && r.value.1[name] == r.value.0
            && (forall k :: k in table ==> r.value.1[k] == table[k])
            && (name !in table ==> r.value.0 == Mixin(if enabled then Enabled else Disabled, name, componentName)))
  {
    var kind := if enabled then Enabled else Disabled;
    var name := ComputeName(componentName, SuffixOf(kind));
    if !ConstantName(name) then Failure(NameError(name))
    else if name in table then Success((table[name], table))
    else
      var m := Mixin(kind, name, componentName);
      Success((m, table[name := m]))
  }

  /** Calling Builder twice with the same arguments returns the same mixin and changes nothing more. */
  lemma BuildIdempotent(table: map<string, Mixin>, componentName: string, enabled: bool)
    ensures var r := Build(table, componentName, enabled);
      r.Success? ==> Build(r.value.1, componentName, enabled) == r
  {
  }

  /** Building keeps the table well formed. */
  lemma BuildPreservesWellFormed(table: map<string, Mixin>, componentName: string, enabled: bool)
    requires WellFormed(table)
    ensures Build(table, componentName, enabled).Success? ==> WellFormed(Build(table, componentName, enabled).value.1)
  {
    var kind := if enabled then Enabled else Disabled;
    var name := ComputeName(componentName, SuffixOf(kind));
    var r := Build(table, componentName, enabled);
    if r.Success? {
      var t := r.value.1;
      forall k | k in t
        ensures t[k].moduleName == k && Text.EndsWith(k, SuffixOf(t[k].kind))
      {
        if k !in table {
          assert k == name && t[k] == Mixin(kind, name, componentName);
        }
      }
    }
  }

  /**
   * On a well-formed table the mixin returned has the kind that `enabled`
   * asks for and sits under the computed name: `Enabled` exactly when
   * `enabled` is true.
   */
  lemma BuildKind(table: map<string, Mixin>, componentName: string, enabled: bool)
    requires WellFormed(table)
    ensures var r := Build(table, componentName, enabled);
      r.Success? ==>
        && r.value.0.kind == (if enabled then Enabled else Disabled)
        && r.value.0.moduleName == ComputeName(componentName, SuffixOf(if enabled then Enabled else Disabled))
  {
    var kind := if enabled then Enabled else Disabled;
    var name := ComputeName(componentName, SuffixOf(kind));
    if name in table {
      SuffixesExclusive(name);
    }
  }

  /** A component name starting with a digit computes a name that is no constant name. */
  lemma LeadingDigitRejected(table: map<string, Mixin>, componentName: string, enabled: bool)
    requires componentName != [] && '0' <= componentName[0] <= '9'
    ensures Build(table, componentName, enabled).Failure?
  {
    var suffix := SuffixOf(if enabled then Enabled else Disabled);
    ComputeNameIsCamel(componentName, suffix);
    assert CamelFrom(componentName, true)[0] == componentName[0];
    assert ComputeName(componentName, suffix)[0] == componentName[0];
  }

  /** A character that no identifier holds (a hyphen, a space, a dot) survives into the computed name. */
  lemma ForeignCharRejected(table: map<string, Mixin>, componentName: string, enabled: bool, i: nat)
    requires i < |componentName| && !IdentifierChar(componentName[i])
    ensures Build(table, componentName, enabled).Failure?
  {
    var suffix := SuffixOf(if enabled then Enabled else Disabled);
    ComputeNameIsCamel(componentName, suffix);
    CamelKeeps(componentName, true, i);
    var j :| 0 <= j < |CamelFrom(componentName, true)| && CamelFrom(componentName, true)[j] == componentName[i];
    assert ComputeName(componentName, suffix)[j] == componentName[i];
  }

  /** The reading keeps every character that is neither a dash nor a letter. */
  lemma {:induction false} CamelKeeps(s: string, wordStart: bool, i: nat)
    requires i < |s| && s[i] != Dash && !('a' <= s[i] <= 'z') && !('A' <= s[i] <= 'Z')
    ensures s[i] in CamelFrom(s, wordStart)
  {
    if i > 0 {
      var next := if s[0] == Dash then true else false;
      CamelKeeps(s[1..], next, i - 1);
      assert s[1..][i - 1] == s[i];
    }
  }

  /** The example's computed name is a constant name. */
  lemma ApiPartIsConstantName(name: string)
    requires name == "ApiPartEnabledMixin"
    ensures ConstantName(name)
  {
  }

  /**
   * A second component whose name computes to the same constant gets the
   * first one's mixin, whose methods are named after the first component.
   */
  lemma BuildSharesCollidingNames(table: map<string, Mixin>)
    requires ComputeName("api_part", EnabledSuffix) !in table
    ensures var r1 := Build(table, "api_part", true);
      && r1.Success?
      && var r2 := Build(r1.value.1, "api__part", true);
      && r2 == r1
      && r2.value.0.componentName == "api_part"
  {
    NamesCollide();
    ApiPartExample("api_part");
    ApiPartIsConstantName(ComputeName("api_part", EnabledSuffix));
  }

  /** Bootinq's constant table, as far as the mixins use it. */
  class ConstantTable {
    var constants: map<string, Mixin>

    ghost predicate Valid()
      reads this
    {
      WellFormed(constants)
    }

    constructor ()
      ensures constants == map[] && Valid()
    {
      constants := map[];
    }

    /**
     * Mixins::Builder: NameError for a computed name that is no constant
     * name; otherwise `const_get` when the name is bound, else `const_set` a
     * new mixin.
     */
    method Builder(componentName: string, enabled: bool) returns (r: Result<Mixin, BuildError>)
      requires Valid()
      modifies this
      ensures var b := Build(old(constants), componentName, enabled);
        && (b.Success? ==> r == Success(b.value.0) && constants == b.value.1)
        && (b.Failure? ==> r == Failure(b.error) && constants == old(constants))
      ensures Valid()
      ensures r.Success? ==> r.value.kind == (if enabled then Enabled else Disabled)
    {
      BuildPreservesWellFormed(constants, componentName, enabled);
      BuildKind(constants, componentName, enabled);
      var kind := if enabled then Enabled else Disabled;
      var name := ComputeName(componentName, SuffixOf(kind));
      if !ConstantName(name) {
        r := Failure(NameError(name));
      } else if name in constants {
        r := Success(constants[name]);
      } else {
        var m := Mixin(kind, name, componentName);
        constants := constants[name := m];
        r := Success(m);
      }
    }
  }
}
