/**
 * The activation resolver and its query layer (lib/bootinq.rb).
 *
 * The configuration arrives already deserialized and the environment as a map
 * from variable names to values; reading the YAML file and ENV is not modelled.
 * `Resolve` is the specification of what the constructor's two loops build.
 */
module Resolution {
  import opened Wrappers
  import opened Text
  import opened Components

  /** One `flag: name` line of the `parts` or `mount` section. */
  datatype Entry = Entry(flag: string, name: string)

  /** A deserialized configuration value: nil, a string, or an ordered mapping of entries. */
  datatype Value = Null | Scalar(text: string) | Table(entries: seq<Entry>)

  /** One activated component: the flag that activated it, its name and its class. */
  datatype Activation = Activation(flag: string, name: string, mountable: bool)

  /** The exceptions the queries raise. */
  datatype Error =
    | ArgumentError(message: string)
    | TypeError(message: string)
    | LocalJumpError(message: string)
    | FrozenError

  const NoArgumentMessage: string := "wrong arguments (given 0, expected 1)"
  const ConflictMessage: string := "expected single argument or one of keywords: `all' or `any'"

  /** Bootinq::DEFAULT */
  const DEFAULT: map<string, Value> := map[
    "env_key" := Scalar("BOOTINQ"),
    "default" := Scalar(""),
    "parts" := Table([]),
    "mount" := Table([])
  ]

  /** The block of `config.merge!(DEFAULT) { |_, l, r| l.nil? ? r : l }`. */
  function KeepUnlessNil(l: Value, r: Value): Value {
    if l.Null? then r else l
  }

  /** `config.merge!(DEFAULT) { ... }`: a missing or nil key takes its default, every other key is kept. */
  function MergeDefaults(config: map<string, Value>): (merged: map<string, Value>)
    ensures merged.Keys == config.Keys + DEFAULT.Keys
    ensures forall k :: k in DEFAULT ==> merged[k] == (if k in config && !config[k].Null? then config[k] else DEFAULT[k])
    ensures forall k :: k in config && k !in DEFAULT ==> merged[k] == config[k]
  {
    map k | k in config.Keys + DEFAULT.Keys ::
      if k !in DEFAULT then config[k]
      else if k !in config then DEFAULT[k]
      else KeepUnlessNil(config[k], DEFAULT[k])
  }

  /** Merging twice changes nothing, and no default key is left nil. */
  lemma MergeDefaultsIdempotent(config: map<string, Value>)
    ensures MergeDefaults(MergeDefaults(config)) == MergeDefaults(config)
    ensures forall k :: k in DEFAULT ==> !MergeDefaults(config)[k].Null?
  {
  }

  /**
   * What `initialize` needs of the merged configuration to run without
   * raising: `env_key` a string, `default` a string whenever the variable is
   * unset (it is read only then), and both sections mappings.
   */
  predicate Loadable(config: map<string, Value>, env: map<string, string>) {
    var merged := MergeDefaults(config);
    && merged["env_key"].Scalar?
    && (merged["env_key"].text in env || merged["default"].Scalar?)
    && merged["parts"].Table?
    && merged["mount"].Table?
  }

  /** `ENV.fetch(config['env_key']) { config['default'] }` */
  function FlagValue(config: map<string, Value>, env: map<string, string>): (value: string)
    requires Loadable(config, env)
    ensures var key := MergeDefaults(config)["env_key"].text;
      value == if key in env then env[key] else MergeDefaults(config)["default"].text
  {
    var merged := MergeDefaults(config);
    var key := merged["env_key"].text;
    if key in env then env[key] else merged["default"].text
  }

  function Parts(config: map<string, Value>, env: map<string, string>): seq<Entry>
    requires Loadable(config, env)
  {
    MergeDefaults(config)["parts"].entries
  }

  function Mount(config: map<string, Value>, env: map<string, string>): seq<Entry>
    requires Loadable(config, env)
  {
    MergeDefaults(config)["mount"].entries
  }

  /** `@_value.start_with?(?-, ?^)` */
  function Negated(value: string): (r: bool)
    ensures r <==> |value| > 0 && (value[0] == '-' || value[0] == '^')
  {
    "-" <= value || "^" <= value
  }

  /**
   * The test of `enable_component`: `@_neg ^ @_value.include?(flag)`.
   * The search runs on the raw value, negation marker included.
   */
  predicate Selected(value: string, flag: string) {
    Negated(value) != Includes(value, flag)
  }

  function ActivationOf(e: Entry, mountable: bool): Activation {
    Activation(e.flag, e.name, mountable)
  }

  /** What `enable_component` contributes for one entry: its activation, or nothing. */
  function Step(e: Entry, mountable: bool, value: string): (r: seq<Activation>)
    ensures |r| <= 1
    ensures r != [] <==> Selected(value, e.flag)
    ensures r != [] ==> r[0] == ActivationOf(e, mountable)
  {
    if Selected(value, e.flag) then [ActivationOf(e, mountable)] else []
  }

  /** The entries of one section that `enable_component` accepts, in declaration order. */
  function Activate(entries: seq<Entry>, mountable: bool, value: string): (r: seq<Activation>)
    ensures |r| <= |entries|
    ensures forall a :: a in r ==> a.mountable == mountable
  {
    if entries == [] then [] else Step(entries[0], mountable, value) + Activate(entries[1..], mountable, value)
  }

  /** What `initialize` activates: all of `parts`, then all of `mount`. */
  function Resolve(parts: seq<Entry>, mount: seq<Entry>, value: string): seq<Activation> {
    Activate(parts, false, value) + Activate(mount, true, value)
  }

  /** Activation is a filter: it distributes over concatenation, so declaration order is kept. */
  lemma {:induction false} ActivateAppend(xs: seq<Entry>, ys: seq<Entry>, mountable: bool, value: string)
    ensures Activate(xs + ys, mountable, value) == Activate(xs, mountable, value) + Activate(ys, mountable, value)
  {
    if xs == [] {
      assert xs + ys == ys;
    } else {
      var zs := xs + ys;
      assert zs[0] == xs[0] && zs[1..] == xs[1..] + ys;
      ActivateAppend(xs[1..], ys, mountable, value);
      calc {
        Activate(zs, mountable, value);
        Step(xs[0], mountable, value) + Activate(xs[1..] + ys, mountable, value);
        Step(xs[0], mountable, value) + (Activate(xs[1..], mountable, value) + Activate(ys, mountable, value));
        Activate(xs, mountable, value) + Activate(ys, mountable, value);
      }
    }
  }

  /** An entry is activated exactly when `negated XOR value.include?(flag)`. */
  lemma {:induction false} ActivateMembers(entries: seq<Entry>, mountable: bool, value: string, a: Activation)
    ensures a in Activate(entries, mountable, value) <==>
      exists i :: 0 <= i < |entries| && Selected(value, entries[i].flag) && a == ActivationOf(entries[i], mountable)
  {
    if entries != [] {
      ActivateMembers(entries[1..], mountable, value, a);
      if a in Activate(entries[1..], mountable, value) {
        var i :| 0 <= i < |entries[1..]| && Selected(value, entries[1..][i].flag) && a == ActivationOf(entries[1..][i], mountable);
        assert entries[i + 1] == entries[1..][i];
      }
      if exists i :: 0 <= i < |entries| && Selected(value, entries[i].flag) && a == ActivationOf(entries[i], mountable) {
        var i :| 0 <= i < |entries| && Selected(value, entries[i].flag) && a == ActivationOf(entries[i], mountable);
        if i > 0 {
          assert entries[1..][i - 1] == entries[i];
        }
      }
    }
  }

  /** One more entry of a section adds that entry's step at the end. */
  lemma ActivatePrefixStep(entries: seq<Entry>, i: nat, mountable: bool, value: string)
    requires i < |entries|
    ensures Activate(entries[..i + 1], mountable, value) == Activate(entries[..i], mountable, value) + Step(entries[i], mountable, value)
  {
    assert entries[..i + 1] == entries[..i] + [entries[i]];
    ActivateAppend(entries[..i], [entries[i]], mountable, value);
    assert [entries[i]][1..] == [];
  }

  /** All `parts` activations come first and are plain; all `mount` activations follow and are mountable. */
  lemma ResolveSections(parts: seq<Entry>, mount: seq<Entry>, value: string)
    ensures var r := Resolve(parts, mount, value);
      forall i :: 0 <= i < |r| ==> (r[i].mountable <==> i >= |Activate(parts, false, value)|)
  {
    var r := Resolve(parts, mount, value);
    var n := |Activate(parts, false, value)|;
    forall i | 0 <= i < |r| ensures r[i].mountable <==> i >= n {
      if i < n {
        assert r[i] in Activate(parts, false, value);
      } else {
        assert r[i] == Activate(mount, true, value)[i - n];
      }
    }
  }

  /** An empty positive value activates nothing, provided no flag is the empty string. */
  lemma {:induction false} EmptyValueActivatesNothing(entries: seq<Entry>, mountable: bool)
    requires forall i :: 0 <= i < |entries| ==> entries[i].flag != ""
    ensures Activate(entries, mountable, "") == []
  {
    if entries != [] {
      assert !Includes("", entries[0].flag) by {
        assert forall j: nat :: !OccursAt("", entries[0].flag, j);
      }
      EmptyValueActivatesNothing(entries[1..], mountable);
    }
  }

  /** A bare "-" activates every entry whose flag does not occur in "-". */
  lemma {:induction false} BareDashActivatesAll(entries: seq<Entry>, mountable: bool)
    requires forall i :: 0 <= i < |entries| ==> entries[i].flag != "" && entries[i].flag != "-"
    ensures |Activate(entries, mountable, "-")| == |entries|
    ensures forall i :: 0 <= i < |entries| ==> Activate(entries, mountable, "-")[i] == ActivationOf(entries[i], mountable)
  {
    if entries != [] {
      var f := entries[0].flag;
      assert !Includes("-", f) by {
        assert forall j: nat :: !OccursAt("-", f, j);
      }
      BareDashActivatesAll(entries[1..], mountable);
      var r := Activate(entries, mountable, "-");
      forall i | 1 <= i < |entries| ensures r[i] == ActivationOf(entries[i], mountable) {
        assert entries[1..][i - 1] == entries[i];
      }
    }
  }

  /**
   * The negation marker is not stripped: under a negative value, a flag equal
   * to the marker is always found in the value and so never activated.
   */
  lemma MarkerIsNeverActivated(value: string)
    requires Negated(value)
    ensures !Selected(value, value[..1])
  {
    assert OccursAt(value, value[..1], 0);
  }

  /**
   * Negation is a pointwise complement for one-character flags other than '-':
   * prefixing a positive value with "-" flips exactly which entries are activated.
   */
  lemma NegationComplements(value: string, c: char)
    requires !Negated(value) && c != '-'
    ensures Selected("-" + value, [c]) <==> !Selected(value, [c])
  {
    assert ("-" + value)[0] == '-';
    assert ("-" + value)[1..] == value;
  }

  /** The flag-level law lifted to whole sections. */
  lemma {:induction false} NegationComplementsSection(entries: seq<Entry>, mountable: bool, value: string, i: nat)
    requires !Negated(value)
    requires i < |entries| && |entries[i].flag| == 1 && entries[i].flag != "-"
    ensures ActivationOf(entries[i], mountable) in Activate(entries, mountable, "-" + value)
        <==> ActivationOf(entries[i], mountable) !in Activate(entries, mountable, value)
  {
    var e := entries[i];
    var a := ActivationOf(e, mountable);
    assert e.flag == [e.flag[0]];
    NegationComplements(value, e.flag[0]);
    ActivateMembers(entries, mountable, "-" + value, a);
    ActivateMembers(entries, mountable, value, a);
  }

  /** `parts: {s: shared}`, `mount: {a: api}` with the value "sa": both are activated. */
  lemma PositiveScenario()
    ensures Resolve([Entry("s", "shared")], [Entry("a", "api")], "sa")
         == [Activation("s", "shared", false), Activation("a", "api", true)]
  {
    assert Includes("sa", "s") by { assert OccursAt("sa", "s", 0); }
    assert Includes("sa", "a") by { assert OccursAt("sa", "a", 1); }
  }

  /** The same configuration with "-a": only `shared` is activated. */
  lemma NegativeScenario()
    ensures Resolve([Entry("s", "shared")], [Entry("a", "api")], "-a")
         == [Activation("s", "shared", false)]
  {
    assert Includes("-a", "a") by { assert OccursAt("-a", "a", 1); }
    assert !Includes("-a", "s") by {
      assert forall j: nat :: !OccursAt("-a", "s", j);
    }
  }

  /**
   * The configuration of the library's own test suite under its default
   * value "s2" (the integer key 2 written as the string "2"): `shared` and
   * `api2` are activated; `api_part` is not, since its flag "A" is not in
   * the value.
   */
  lemma SuiteScenario()
    ensures Resolve(
        [Entry("A", "api_part"), Entry("F", "frontend_part"), Entry("s", "shared")],
        [Entry("a", "api"), Entry("2", "api2"), Entry("f", "frontend")], "s2")
      == [Activation("s", "shared", false), Activation("2", "api2", true)]
  {
    assert Includes("s2", "s") by { assert OccursAt("s2", "s", 0); }
    assert Includes("s2", "2") by { assert OccursAt("s2", "2", 1); }
    assert !Includes("s2", "A") by { assert forall j: nat :: !OccursAt("s2", "A", j); }
    assert !Includes("s2", "F") by { assert forall j: nat :: !OccursAt("s2", "F", j); }
    assert !Includes("s2", "a") by { assert forall j: nat :: !OccursAt("s2", "a", j); }
    assert !Includes("s2", "f") by { assert forall j: nat :: !OccursAt("s2", "f", j); }
  }

  /** Pairs the two parallel lists of an instance into activation records. */
  function Describe(flags: seq<string>, components: seq<Component>): (r: seq<Activation>)
    requires |flags| == |components|
    ensures |r| == |components|
    ensures forall i :: 0 <= i < |r| ==> r[i] == Activation(flags[i], components[i].name, components[i].mountable)
  {
    seq(|components|, i requires 0 <= i < |components| => Activation(flags[i], components[i].name, components[i].mountable))
  }

  /** The components of `cs` for which `mountable?` holds, in order (`select(&:mountable?)`). */
  function SelectMountable(cs: seq<Component>): (r: seq<Component>)
    ensures |r| <= |cs|
    ensures forall i :: 0 <= i < |r| ==> r[i] in cs && r[i].mountable
    ensures forall i :: 0 <= i < |cs| && cs[i].mountable ==> cs[i] in r
  {
    if cs == [] then []
    else (if cs[0].mountable then [cs[0]] else []) + SelectMountable(cs[1..])
  }

  lemma {:induction false} SelectMountableAppend(xs: seq<Component>, ys: seq<Component>)
    ensures SelectMountable(xs + ys) == SelectMountable(xs) + SelectMountable(ys)
  {
    if xs == [] {
      assert xs + ys == ys;
    } else {
      assert (xs + ys)[1..] == xs[1..] + ys;
      SelectMountableAppend(xs[1..], ys);
    }
  }

  /** The index `Array#index` finds: the first element that is `==` to `name`. */
  function IndexOf(cs: seq<Component>, name: Operand): (r: Option<nat>)
    ensures r.Some? <==> exists i :: 0 <= i < |cs| && cs[i].Equals(name)
    ensures r.Some? ==> r.value < |cs| && cs[r.value].Equals(name)
    ensures r.Some? ==> forall j :: 0 <= j < r.value ==> !cs[j].Equals(name)
  {
    if cs == [] then None
    else if cs[0].Equals(name) then Some(0)
    else
      match IndexOf(cs[1..], name)
      case None =>
        assert forall i :: 1 <= i < |cs| ==> cs[i] == cs[1..][i - 1];
        None
      case Some(k) =>
        assert forall j :: 1 <= j < k + 1 ==> cs[j] == cs[1..][j - 1];
        Some(k + 1)
  }

  /** The result of one query call: whether it matched, and how often it ran the block. */
  datatype Call = Call(matched: bool, blockRuns: nat)

  /** A keyword argument of `on`: omitted (nil), `false`, or a list of names. */
  datatype Keyword = Missing | FalseKeyword | Names(names: seq<Operand>)

  /** Ruby truthiness: everything but nil and false. */
  predicate Truthy(name: Operand) {
    !name.Nil? && !name.False?
  }

  /** Neither ArgumentError of `on` applies. */
  predicate ArgumentsAccepted(name: Operand, any: Keyword, all: Keyword) {
    !(name.Nil? && any.Missing? && all.Missing?)
    && !((any.Names? && all.Names?) || (Truthy(name) && (any.Names? || all.Names?)))
  }

  /** The process-wide activation state (the Bootinq singleton instance). */
  class Bootinq {
    /** `@_value`: the raw flag string. */
    const value: string
    /** `@_neg` */
    const negated: bool
    /** `@flags`: the flags that activated a component, in activation order. */
    var flags: seq<string>
    /** `@components`: the activated components, parallel to `flags`. */
    var components: seq<Component>
    /** Set once `Bootinq.new` has frozen the instance. */
    var frozen: bool

    ghost predicate Valid()
      reads this
    {
      |flags| == |components| && negated == Negated(value)
    }

    /** flags[i] together with the component it activated. */
    ghost function Activations(): seq<Activation>
      reads this
      requires Valid()
    {
      Describe(flags, components)
    }

    /** `Bootinq.new`: `initialize` followed by `freeze`. */
    constructor (config: map<string, Value>, env: map<string, string>)
      requires Loadable(config, env)
      ensures Valid() && frozen
      ensures value == FlagValue(config, env)
      ensures Activations() == Resolve(Parts(config, env), Mount(config, env), value)
    {
      var v := FlagValue(config, env);
      var parts := Parts(config, env);
      var mount := Mount(config, env);
      value := v;
      negated := Negated(v);
      flags := [];
      components := [];
      frozen := false;
      new;
      assert Activations() == [];
      EnableEach(parts, false);
      assert Activations() == Activate(parts, false, v);
      EnableEach(mount, true);
      assert Activations() == Resolve(parts, mount, v);
      frozen := true;
    }

    /** `config[section].each { |flag, name| enable_component(name, flag: flag, as: ...) }` */
    method EnableEach(entries: seq<Entry>, mountable: bool)
      requires Valid() && !frozen
      modifies this
      ensures Valid() && !frozen
      ensures Activations() == old(Activations()) + Activate(entries, mountable, value)
      ensures old(components) <= components
    {
      ghost var before := Activations();
      ghost var accepted: seq<Activation> := [];
      var i := 0;
      while i < |entries|
        invariant 0 <= i <= |entries|
        invariant Valid() && !frozen
        invariant accepted == Activate(entries[..i], mountable, value)
        invariant Activations() == before + accepted
        invariant old(components) <= components
      {
        var e := entries[i];
        ActivatePrefixStep(entries, i, mountable, value);
        assert Entry(e.flag, e.name) == e;
        var status := EnableComponent(e.name, e.flag, mountable);
        Text.ConcatAssoc(before, accepted, Step(e, mountable, value));
        accepted := accepted + Step(e, mountable, value);
        i := i + 1;
      }
      assert entries[..i] == entries;
    }

    /**
     * `enable_component(name, flag:, as:)`: appends the flag and a new component
     * exactly when `@_neg ^ @_value.include?(flag)`; on a frozen instance that
     * append raises FrozenError instead.
     */
    method EnableComponent(name: string, flag: string, mountable: bool) returns (status: Option<Error>)
      requires Valid()
      modifies this
      ensures Valid() && frozen == old(frozen)
      ensures status == if Selected(value, flag) && frozen then Some(FrozenError) else None
      ensures Selected(value, flag) && !frozen ==>
        && Activations() == old(Activations()) + [Activation(flag, name, mountable)]
        && components[..|components| - 1] == old(components)
        && fresh(components[|components| - 1])
      ensures !(Selected(value, flag) && !frozen) ==> flags == old(flags) && components == old(components)
      ensures old(components) <= components
      ensures Activations() == old(Activations()) + if frozen then [] else Step(Entry(flag, name), mountable, value)
    {
      status := None;
      if negated != Includes(value, flag) {
        if frozen {
          status := Some(FrozenError);
        } else {
          var c := new Component(name, mountable);
          flags := flags + [flag];
          components := components + [c];
        }
      }
    }

    /** `enabled?(name)`: `components.include?(name)`, i.e. some component is `==` to name. */
    predicate Enabled(name: Operand)
      reads this
    {
      exists i :: 0 <= i < |components| && components[i].Equals(name)
    }

    /** `component(name)`: `components[components.index(name)]`; indexing by nil raises TypeError. */
    function Lookup(name: Operand): (r: Result<Component, Error>)
      reads this
      ensures r.Success? <==> Enabled(name)
      ensures r.Success? ==>
        exists i :: (0 <= i < |components| && r.value == components[i] && components[i].Equals(name)
                     && forall j :: 0 <= j < i ==> !components[j].Equals(name))
      ensures r.Failure? ==> r.error.TypeError?
    {
      match IndexOf(components, name)
      case Some(i) =>
        assert components[i].Equals(name) && forall j :: 0 <= j < i ==> !components[j].Equals(name);
        Success(components[i])
      case None => Failure(TypeError("no implicit conversion from nil to integer"))
    }

    /** `each_mountable`: the mountable components in order; the block runs once for each. */
    function EachMountable(): (r: seq<Component>)
      reads this
      ensures forall i :: 0 <= i < |r| ==> r[i] in components && r[i].mountable
      ensures forall i :: 0 <= i < |components| && components[i].mountable ==> components[i] in r
    {
      SelectMountable(components)
    }

    /** The argument list `groups` hands to Rails.groups: each component's group, then the extra groups. */
    function Groups(extra: seq<string>): (r: seq<string>)
      reads this
      ensures |r| == |components| + |extra|
      ensures forall i :: 0 <= i < |components| ==> r[i] == components[i].group
      ensures r[|components|..] == extra
    {
      seq(|components|, i requires 0 <= i < |components| reads this => components[i].group) + extra
    }

    /** `parts.all? { |p| enabled?(p) }` */
    predicate AllEnabled(names: seq<Operand>)
      reads this
      ensures AllEnabled(names) <==> forall i :: 0 <= i < |names| ==> Enabled(names[i])
    {
      names == [] || (Enabled(names[0]) && AllEnabled(names[1..]))
    }

    /** `parts.any? { |p| enabled?(p) }` */
    predicate AnyEnabled(names: seq<Operand>)
      reads this
      ensures AnyEnabled(names) <==> exists i :: 0 <= i < |names| && Enabled(names[i])
    {
      names != [] && (Enabled(names[0]) || AnyEnabled(names[1..]))
    }

    /** `on_all(*parts)`: blockRuns when every name is enabled and a block was given. */
    function OnAll(names: seq<Operand>, blockGiven: bool): (r: Call)
      reads this
      ensures r.matched <==> forall i :: 0 <= i < |names| ==> Enabled(names[i])
      ensures r.blockRuns == if r.matched && blockGiven then 1 else 0
    {
      var matched := AllEnabled(names);
      Call(matched, if matched && blockGiven then 1 else 0)
    }

    /** `on_any(*parts)`: blockRuns when some name is enabled and a block was given. */
    function OnAny(names: seq<Operand>, blockGiven: bool): (r: Call)
      reads this
      ensures r.matched <==> exists i :: 0 <= i < |names| && Enabled(names[i])
      ensures r.blockRuns == if r.matched && blockGiven then 1 else 0
    {
      var matched := AnyEnabled(names);
      Call(matched, if matched && blockGiven then 1 else 0)
    }

    /** The test `on` applies once its arguments are accepted: the name, else `any`, else `all`, else false. */
    ghost predicate Selects(name: Operand, any: Keyword, all: Keyword)
      reads this
    {
      if Truthy(name) then Enabled(name)
      else if any.Names? then exists i :: 0 <= i < |any.names| && Enabled(any.names[i])
      else if all.Names? then forall i :: 0 <= i < |all.names| ==> Enabled(all.names[i])
      else false
    }

    /**
     * `on(name = nil, any: nil, all: nil)`: exactly one of the three must be
     * given; the block is yielded (LocalJumpError without one) when the
     * selected test holds.
     */
    function On(name: Operand, any: Keyword, all: Keyword, blockGiven: bool): (r: Result<Call, Error>)
      reads this
      ensures r == Failure(ArgumentError(NoArgumentMessage)) <==> name.Nil? && any.Missing? && all.Missing?
      ensures r == Failure(ArgumentError(ConflictMessage)) <==>
        !(name.Nil? && any.Missing? && all.Missing?)
        && ((any.Names? && all.Names?) || (Truthy(name) && (any.Names? || all.Names?)))
      ensures ArgumentsAccepted(name, any, all) ==> (r.Success? <==> blockGiven || !Selects(name, any, all))
      ensures ArgumentsAccepted(name, any, all) && r.Failure? ==> r.error.LocalJumpError?
      ensures r.Success? ==> r.value.matched == Selects(name, any, all)
      ensures r.Success? ==> r.value.blockRuns == if r.value.matched then 1 else 0
    {
      if name.Nil? && any.Missing? && all.Missing? then
        Failure(ArgumentError(NoArgumentMessage))
      else if (any.Names? && all.Names?) || (Truthy(name) && (any.Names? || all.Names?)) then
        Failure(ArgumentError(ConflictMessage))
      else
        var matched :=
          if Truthy(name) then Enabled(name)
          else if any.Names? then OnAny(any.names, false).matched
          else if all.Names? then OnAll(all.names, false).matched
          else false;
        if matched && !blockGiven then Failure(LocalJumpError("no block given (yield)"))
        else Success(Call(matched, if matched then 1 else 0))
    }
  }

  /** `on_all` of no names is vacuously true; `on_any` of no names is false. */
  lemma EmptyQuantifiers(b: Bootinq)
    ensures b.OnAll([], true) == Call(true, 1)
    ensures b.OnAny([], true) == Call(false, 0)
  {
  }

  /** A name that names an activated component is enabled, whether given as a String or a Symbol. */
  lemma {:induction false} EnabledByName(b: Bootinq, n: string)
    requires b.Valid()
    ensures b.Enabled(Sym(n)) <==> exists a :: a in b.Activations() && a.name == n
    ensures b.Enabled(Str(n)) <==> b.Enabled(Sym(n))
  {
    var acts := b.Activations();
    if b.Enabled(Sym(n)) {
      var i :| 0 <= i < |b.components| && b.components[i].Equals(Sym(n));
      assert acts[i] in acts && acts[i].name == n;
    }
    if exists a :: a in acts && a.name == n {
      var a :| a in acts && a.name == n;
      var i :| 0 <= i < |acts| && acts[i] == a;
      assert b.components[i].Equals(Sym(n));
    }
  }

  /** A component object that is not one of the activated ones is never enabled (identity, not name). */
  lemma ForeignComponentNotEnabled(b: Bootinq, c: Component)
    requires c !in b.components
    ensures !b.Enabled(Comp(c))
  {
  }

  /** `each_mountable` keeps the order of `components`: it distributes over any split of the list. */
  lemma EachMountableOrder(b: Bootinq, k: nat)
    requires k <= |b.components|
    ensures b.EachMountable() == SelectMountable(b.components[..k]) + SelectMountable(b.components[k..])
  {
    assert b.components == b.components[..k] + b.components[k..];
    SelectMountableAppend(b.components[..k], b.components[k..]);
  }

  /** `on` without any argument, or with two of name/any/all, is rejected. */
  lemma OnRejectsBadArguments(b: Bootinq, name: Operand, names: seq<Operand>, others: seq<Operand>, blockGiven: bool)
    ensures b.On(Nil, Missing, Missing, blockGiven) == Failure(ArgumentError(NoArgumentMessage))
    ensures b.On(name, Names(names), Names(others), blockGiven) == Failure(ArgumentError(ConflictMessage))
    ensures Truthy(name) ==> b.On(name, Names(names), Missing, blockGiven) == Failure(ArgumentError(ConflictMessage))
    ensures Truthy(name) ==> b.On(name, Missing, Names(names), blockGiven) == Failure(ArgumentError(ConflictMessage))
  {
  }
}
