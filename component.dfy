/**
 * Bootinq::Component and Bootinq::Mountable (lib/bootinq/component.rb).
 *
 * A component is frozen as soon as it is built, so every field is a `const`.
 * It is a class rather than a datatype because `==` against another
 * component falls back to object identity, which a reference models directly.
 * Mountable differs from Component only in `mountable?` (and `engine`), so
 * both are one class with a `mountable` flag.
 */
module Components {
  import opened Wrappers
  import Text

  /** The suffix that turns a component name into its Bundler group. */
  const GroupSuffix: string := "_boot"

  /**
   * The Ruby objects a component is compared with: a String, a Symbol,
   * another component, nil, false, or any other object (a number, an array, ...).
   */
  datatype Operand = Str(text: string) | Sym(text: string) | Comp(component: Component) | Nil | False | Other

  /** The Mountable#engine lookup `<ModuleName>::Engine`, kept symbolic. */
  datatype EngineRef = NoEngine | EngineOf(componentName: string)

  class Component {
    /** `@id2name` (alias `name`, `to_s`, `gem_name`); `@intern` is the Symbol with the same text. */
    const name: string
    /** `@group`, the Symbol `:"<name>_boot"`. */
    const group: string := name + GroupSuffix
    /** true for a Bootinq::Mountable, false for a plain Bootinq::Component. */
    const mountable: bool

    constructor (name: string, mountable: bool)
      ensures this.name == name && this.mountable == mountable
      ensures group == name + GroupSuffix
    {
      this.name := name;
      this.mountable := mountable;
    }

    /** Component#==: by name against a String or a Symbol, otherwise object identity. */
    predicate Equals(other: Operand) {
      match other
      case Str(s) => s == name
      case Sym(s) => s == name
      case Comp(c) => c == this
      case _ => false
    }

    /**
     * Component#===: String#=== and Symbol#=== are plain equality, and the
     * fallback Object#=== is identity or `==`, which is Component#== again.
     */
    predicate CaseEquals(other: Operand)
      ensures CaseEquals(other) == Equals(other)
    {
      match other
      case Str(s) => s == name
      case Sym(s) => s == name
      case _ => Comp(this) == other || Equals(other)
    }

    /**
     * `case other when self.class`: `other` is an instance of the receiver's
     * class; a Mountable receiver therefore rejects a plain Component.
     */
    predicate SameClassAs(other: Component) {
      mountable ==> other.mountable
    }

    /** Component#casecmp; None stands for nil. */
    function CaseCmp(other: Operand): (r: Option<int>)
      ensures r.Some? <==> other.Str? || other.Sym? || (other.Comp? && SameClassAs(other.component))
      ensures r.Some? ==> -1 <= r.value <= 1
      ensures r == Some(0) <==> CaseCmpP(other) == Some(true)
      ensures other.Str? || other.Sym? ==> r == Some(Text.CaseCompare(name, other.text))
      ensures other.Comp? && SameClassAs(other.component) ==> r == Some(Text.CaseCompare(name, other.component.name))
      decreases if other.Comp? then 1 else 0
    {
      match other
      case Str(s) => Some(Text.CaseCompare(name, s))
      case Sym(s) => Some(Text.CaseCompare(name, s))
      case Comp(c) => if SameClassAs(c) then CaseCmp(Str(c.name)) else None
      case _ => None
    }

    /** Component#casecmp?; None stands for nil. */
    function CaseCmpP(other: Operand): (r: Option<bool>)
      ensures r.Some? <==> other.Str? || other.Sym? || (other.Comp? && SameClassAs(other.component))
      ensures other.Str? || other.Sym? ==> r == Some(Text.Downcase(name) == Text.Downcase(other.text))
      ensures other.Comp? && SameClassAs(other.component) ==> r == Some(Text.Downcase(name) == Text.Downcase(other.component.name))
      decreases if other.Comp? then 1 else 0
    {
      match other
      case Str(s) => Some(Text.Downcase(name) == Text.Downcase(s))
      case Sym(s) => Some(Text.Downcase(name) == Text.Downcase(s))
      case Comp(c) => if SameClassAs(c) then CaseCmpP(Str(c.name)) else None
      case _ => None
    }

    /** Component#length (alias `size`), delegated to the name. */
    function Length(): (n: nat)
      ensures n == |name|
    {
      |name|
    }

    /** Component#empty?, delegated to the name. */
    predicate IsEmpty()
      ensures IsEmpty() <==> Length() == 0
    {
      name == ""
    }

    /** Component#mountable? (false) and Mountable#mountable? (true). */
    predicate IsMountable()
      ensures IsMountable() == mountable
    {
      mountable
    }

    /** Component#engine is nil; Mountable#engine looks a constant up by this name. */
    function Engine(): (e: EngineRef)
      ensures e == NoEngine <==> !mountable
      ensures e != NoEngine ==> e.componentName == name
    {
      if mountable then EngineOf(name) else NoEngine
    }

    /** Component#upcase: a new component of the same class; the receiver is frozen and unchanged. */
    method Upcase() returns (c: Component)
      ensures fresh(c) && c.name == Text.Upcase(name) && c.mountable == mountable
    {
      c := new Component(Text.Upcase(name), mountable);
    }

    /** Component#downcase */
    method Downcase() returns (c: Component)
      ensures fresh(c) && c.name == Text.Downcase(name) && c.mountable == mountable
    {
      c := new Component(Text.Downcase(name), mountable);
    }

    /** Component#capitalize */
    method Capitalize() returns (c: Component)
      ensures fresh(c) && c.name == Text.Capitalize(name) && c.mountable == mountable
    {
      c := new Component(Text.Capitalize(name), mountable);
    }

    /** Component#swapcase */
    method Swapcase() returns (c: Component)
      ensures fresh(c) && c.name == Text.Swapcase(name) && c.mountable == mountable
    {
      c := new Component(Text.Swapcase(name), mountable);
    }
  }

  /** A component equals both the String and the Symbol form of its name. */
  lemma EqualsNameForms(c: Component)
    ensures c.Equals(Str(c.name)) && c.Equals(Sym(c.name))
    ensures forall s :: c.Equals(Str(s)) <==> s == c.name
  {
  }

  /** Two distinct component objects are never `==`, even with the same name. */
  lemma DistinctComponentsDiffer(a: Component, b: Component)
    requires a != b
    ensures !a.Equals(Comp(b)) && !b.Equals(Comp(a))
    ensures a.Equals(Comp(a))
  {
  }

  /** nil, false and every other object are never equal to a component. */
  lemma OthersNeverEqual(c: Component)
    ensures !c.Equals(Nil) && !c.Equals(False) && !c.Equals(Other)
  {
  }

  /** The group determines the name: `<name>_boot` is injective. */
  lemma {:induction false} GroupDeterminesName(a: Component, b: Component)
    requires a.group == b.group
    ensures a.name == b.name
  {
    assert a.name == a.group[..|a.group| - |GroupSuffix|];
    assert b.name == b.group[..|b.group| - |GroupSuffix|];
  }

  /** casecmp is antisymmetric between two components of the same class. */
  lemma CaseCmpAntisymmetric(a: Component, b: Component)
    requires a.mountable == b.mountable
    ensures a.CaseCmp(Comp(b)).Some? && b.CaseCmp(Comp(a)).Some?
    ensures a.CaseCmp(Comp(b)).value == -b.CaseCmp(Comp(a)).value
  {
    Text.CompareAntisymmetric(Text.Downcase(a.name), Text.Downcase(b.name));
  }

  /**
   * `when self.class` makes casecmp? one-sided across the two classes:
   * a plain component compares with a Mountable, but a Mountable answers nil
   * for a plain component of the very same name.
   */
  lemma CaseCmpPOneSided(m: Component, c: Component)
    requires m.mountable && !c.mountable && m.name == c.name
    ensures c.CaseCmpP(Comp(m)) == Some(true)
    ensures m.CaseCmpP(Comp(c)) == None
  {
  }

  /** The case transforms keep the name's case-insensitive identity. */
  lemma TransformsKeepCaseIdentity(c: Component, d: Component)
    requires d.name == Text.Upcase(c.name) || d.name == Text.Downcase(c.name)
          || d.name == Text.Capitalize(c.name) || d.name == Text.Swapcase(c.name)
    ensures c.CaseCmpP(Str(d.name)) == Some(true)
  {
    Text.TransformsFoldAlike(c.name);
  }
}
