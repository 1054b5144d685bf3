# Bootinq, modelled in Dafny

Bootinq lets one Rails application boot as different "parts" depending on a
flag string read from the environment. A YAML file lists components under
`parts` (plain) and `mount` (mountable engines), each keyed by a flag. At
start-up the library compares the flag value with every key and records
which components are enabled. Later code asks `enabled?`, `on`, `on_any`,
`on_all`, the `Switch` object or the generated mixins to decide what to run.
The mixins are kept under names such as `ApiPartEnabledMixin`. A small path
helper, `RailsPath`, turns config paths into component-scoped ones
(`config/routes.rb` becomes `config/routes.api.rb`).

The model follows the Ruby code file by file:

- `text.dfy` (module `Text`) holds the parts of Ruby's String the library uses:
  ASCII case mapping, `casecmp`, `include?`, `end_with?` and `delete_suffix`.
- `component.dfy` (module `Components`) holds `Bootinq::Component` and
  `Bootinq::Mountable`. They are one class with a `mountable` flag. Its fields
  are `const`, because a component is frozen when it is built. It is a class
  because `==` between two components is object identity.
- `bootinq.dfy` (module `Resolution`) holds the activation rule and the query
  layer.
  - `Resolve` is a pure specification of what start-up enables.
  - The `Bootinq` class has `flags`, `components` and a `frozen` flag. Its
    constructor runs the two `each` loops through `EnableComponent`, and is
    proved to build exactly `Resolve`.
  - The negation marker (`-` or `^`) is not stripped before `include?`
    (lib/bootinq.rb:82), and the model keeps that: under a negative value a
    flag equal to the marker is never enabled (`MarkerIsNeverActivated`).
- `switch.dfy` (module `Switching`) holds `Switch#method_missing`.
- `rails_path.dfy` (module `RailsPaths`) holds:
  - the `%<name>s` format templates;
  - `File.extname`;
  - `RailsPath#call`, with its curried form.
- `mixins.dfy` (module `Mixins`) holds:
  - `compute_name`, proved equal to an independent character-by-character
    definition;
  - the `on_X`/`not_X` rule of the `Enabled` and `Disabled` mixins;
  - `Builder`, a get-or-insert into Bootinq's constant table. It is a pure
    `Build` function, and `ConstantTable.Builder` is a method proved against it.
- `wrappers.dfy` holds `Option` and `Result`. They stand for Ruby's nil and its
  raised exceptions.

Inputs the Ruby code reads from the outside are parameters:
- the YAML configuration is a map of already-deserialized values;
- `ENV` is a map of strings;
- whether a block was given is a boolean;
- the block's value is an optional value.

## Model

| member | source | states |
|---|---|---|
| `Resolution.MergeDefaults` | lib/bootinq.rb:67 | the merged keys are the given keys plus the four defaults; a default key that is missing or nil takes the default value, any other key keeps its own value |
| `Resolution.MergeDefaultsIdempotent` | lib/bootinq.rb:32-37 | merging twice equals merging once, and after the merge no default key is nil |
| `Resolution.FlagValue` | lib/bootinq.rb:69 | the value is the environment variable named by `env_key` when it is set, otherwise the configured `default` |
| `Resolution.Negated` | lib/bootinq.rb:70 | negation holds exactly when the value starts with `-` or `^` |
| `Resolution.Selected` | lib/bootinq.rb:82 | the test of `enable_component`: the negation flag XOR `include?` on the raw value (a definition; `ActivateMembers` and the scenarios state its consequences) |
| `Resolution.Step` | lib/bootinq.rb:82-85 | one entry yields its activation record exactly when `negated XOR value.include?(flag)`, and nothing otherwise |
| `Resolution.Activate` | lib/bootinq.rb:74-75 | a section never yields more activations than it has entries, and every activation carries the section's class (plain or mountable) |
| `Resolution.ActivateAppend` | lib/bootinq.rb:74-75 | activation is a filter that distributes over concatenation, so declaration order is kept |
| `Resolution.ActivateMembers` | lib/bootinq.rb:81-86 | a record is activated if and only if some entry's flag is selected and the record is built from that entry |
| `Resolution.Resolve` | lib/bootinq.rb:74-75 | what start-up enables: the `parts` activations followed by the `mount` activations (a definition; `ResolveSections` and the constructor state its properties) |
| `Resolution.ResolveSections` | lib/bootinq.rb:74-75 | all `parts` activations come first and are plain; all `mount` activations follow and are mountable |
| `Resolution.EmptyValueActivatesNothing` | lib/bootinq.rb:82 | an empty positive value enables no entry whose flag is non-empty |
| `Resolution.BareDashActivatesAll` | lib/bootinq.rb:82 | the value `-` enables every entry whose flag is neither empty nor `-`: the result holds each entry's activation, in declaration order |
| `Resolution.MarkerIsNeverActivated` | lib/bootinq.rb:70 | the negation marker stays in the searched value, so under a negative value a flag equal to the marker is never enabled |
| `Resolution.NegationComplements` | lib/bootinq.rb:82 | for a one-character flag other than `-`, prefixing a positive value with `-` flips whether that flag is selected |
| `Resolution.NegationComplementsSection` | lib/bootinq.rb:81-86 | the same complement law for a whole section: the entry is enabled under `-value` if and only if it is not enabled under `value` |
| `Resolution.PositiveScenario` | lib/bootinq.rb:19-27 | on part of the documented configuration (its `s: shared` and `a: api` entries, without `f: engine` and the default `-f`), the value `sa` enables `shared` and then `api` as mountable |
| `Resolution.NegativeScenario` | lib/bootinq.rb:19-27 | the same part of the documented configuration under `-a` enables only `shared` |
| `Resolution.SuiteScenario` | spec/bootinq_spec.rb:9-11 | the test configuration under its default `s2` enables `shared` and the mountable `api2`, and nothing else |
| `Resolution.Describe` | lib/bootinq.rb:62 | the instance's two parallel lists, paired index by index into activation records |
| `Resolution.Bootinq.constructor` | lib/bootinq.rb:64-76 | the instance is frozen, its value is `FlagValue`, and its recorded activations are exactly `Resolve` of the two sections |
| `Resolution.Bootinq.EnableEach` | lib/bootinq.rb:74-75 | the loop appends exactly the section's activations to those already recorded, and the earlier components stay a prefix |
| `Resolution.Bootinq.EnableComponent` | lib/bootinq.rb:81-86 | when the flag is selected, it appends the flag and one new component of the given class; otherwise nothing changes; on a frozen instance a selected flag raises FrozenError instead; in every case the recorded activations grow by exactly `Step` of the entry (nothing when frozen) |
| `Resolution.EnabledByName` | lib/bootinq.rb:93-95 | a name is enabled if and only if some activation carries it, and the String and Symbol forms agree |
| `Resolution.ForeignComponentNotEnabled` | lib/bootinq.rb:93-95 | a component object that is not one of the instance's components is never enabled, whatever its name |
| `Resolution.IndexOf` | lib/bootinq.rb:103 | the index exists exactly when some component is `==` to the name; it points at a matching component and no earlier one matches |
| `Resolution.Bootinq.Enabled` | lib/bootinq.rb:93-95 | `enabled?`: some component is `==` to the name (a definition; `EnabledByName` and `Lookup` state its meaning) |
| `Resolution.Bootinq.Lookup` | lib/bootinq.rb:102-104 | it succeeds exactly for enabled names and returns the first component `==` to the name, as `Array#index` finds it; otherwise it fails with TypeError |
| `Resolution.SelectMountable` | lib/bootinq.rb:118 | the result holds only mountable components of the list, and every mountable component of the list is in it |
| `Resolution.Bootinq.EachMountable` | lib/bootinq.rb:117-119 | it returns exactly the mountable components of the instance |
| `Resolution.EachMountableOrder` | lib/bootinq.rb:117-119 | the selection keeps the order of `components`: it splits along any split of the list |
| `Resolution.Bootinq.Groups` | lib/bootinq.rb:125-127 | the groups handed to Rails are each component's `<name>_boot` group in order, followed by the extra groups |
| `Resolution.Bootinq.AllEnabled` | lib/bootinq.rb:173 | `all?` holds exactly when every name is enabled |
| `Resolution.Bootinq.AnyEnabled` | lib/bootinq.rb:184 | `any?` holds exactly when some name is enabled |
| `Resolution.Bootinq.OnAll` | lib/bootinq.rb:172-176 | it matches exactly when all names are enabled, and runs the block once when it matches and a block was given |
| `Resolution.Bootinq.OnAny` | lib/bootinq.rb:183-187 | it matches exactly when some name is enabled, and runs the block once when it matches and a block was given |
| `Resolution.EmptyQuantifiers` | lib/bootinq.rb:172-187 | `on_all` of no names matches and runs the block; `on_any` of no names does not |
| `Resolution.Bootinq.On` | lib/bootinq.rb:152-165 | both ArgumentError cases, each stated as an if-and-only-if; with accepted arguments the call succeeds exactly when a block was given or the selected test fails, and otherwise raises LocalJumpError; the result is the selected test (`enabled?` for a truthy name, else `on_any`, else `on_all`, else false); the block runs once exactly when matched |
| `Resolution.OnRejectsBadArguments` | lib/bootinq.rb:153-156 | no argument, or two of name/any/all, raises the matching ArgumentError |
| `Components.Component.Equals` | lib/bootinq/component.rb:34-40 | `==`: by name against a String or Symbol, by identity against a component, false otherwise (a definition; `EqualsNameForms`, `DistinctComponentsDiffer` and `OthersNeverEqual` state its consequences) |
| `Components.Component.constructor` | lib/bootinq/component.rb:12-17 | the name and class are kept, and the group is `<name>_boot` |
| `Components.Component.CaseEquals` | lib/bootinq/component.rb:42-48 | `===` agrees with `==` on every operand |
| `Components.Component.CaseCmp` | lib/bootinq/component.rb:50-56 | it answers for a String or Symbol and for a component of the receiver's class, and is nil otherwise; the answer is `String#casecmp` of the name against the String's or Symbol's text or the other component's name, so -1 exactly when the downcased name sorts first, 0 exactly when `casecmp?` is true |
| `Components.Component.CaseCmpP` | lib/bootinq/component.rb:58-64 | it answers exactly where `casecmp` does; for a String or Symbol it is true exactly when the downcased texts are equal, and for a component of the receiver's class exactly when the downcased names are equal |
| `Components.Component.Length` | lib/bootinq/component.rb:69-70 | `length` (and `size`) is the length of the name |
| `Components.Component.IsEmpty` | lib/bootinq/component.rb:69-70 | `empty?` holds exactly when the length is 0 |
| `Components.Component.IsMountable` | lib/bootinq/component.rb:82-85 | `mountable?` is true for a Mountable and false for a plain Component |
| `Components.Component.Engine` | lib/bootinq/component.rb:87-89 | a plain component has no engine; a Mountable's engine is looked up under its own name |
| `Components.Component.Upcase` | lib/bootinq/component.rb:75-76 | a new component of the same class whose name is the upcased name |
| `Components.Component.Downcase` | lib/bootinq/component.rb:75-76 | a new component of the same class whose name is the downcased name |
| `Components.Component.Capitalize` | lib/bootinq/component.rb:75-76 | a new component of the same class whose name is the capitalized name |
| `Components.Component.Swapcase` | lib/bootinq/component.rb:75-76 | a new component of the same class whose name has its case swapped |
| `Components.EqualsNameForms` | lib/bootinq/component.rb:34-40 | a component is `==` to its name as a String and as a Symbol, and to no other String |
| `Components.DistinctComponentsDiffer` | lib/bootinq/component.rb:38 | two distinct component objects are never `==`, even with the same name |
| `Components.OthersNeverEqual` | lib/bootinq/component.rb:34-40 | nil, false and other objects are never `==` to a component |
| `Components.GroupDeterminesName` | lib/bootinq/component.rb:15 | equal groups mean equal names |
| `Components.CaseCmpAntisymmetric` | lib/bootinq/component.rb:50-56 | between two components of the same class, `casecmp` answers both ways with opposite signs |
| `Components.CaseCmpPOneSided` | lib/bootinq/component.rb:62 | a plain component compares equal to a Mountable of the same name, but the Mountable answers nil for the plain one |
| `Components.TransformsKeepCaseIdentity` | lib/bootinq/component.rb:75-76 | every case transform keeps the name equal under `casecmp?` |
| `Text.Includes` | lib/bootinq.rb:82 | `include?` holds exactly when the flag occurs in the value at some position |
| `Text.Compare` | lib/bootinq/component.rb:52 | the three-way comparison is -1, 0 or 1: 0 exactly for equal strings, -1 exactly when the first sorts before the second by `LexLess` (a proper prefix, or a smaller character at the first difference), 1 exactly when the second sorts first |
| `Text.CompareAntisymmetric` | lib/bootinq/component.rb:52 | swapping the arguments negates the comparison |
| `Text.CaseCompare` | lib/bootinq/component.rb:52 | `casecmp` is 0 exactly when the downcased strings are equal, and -1 exactly when the first downcased string sorts before the second |
| `Text.DeleteSuffix` | lib/bootinq/rails_path.rb:47 | when the string ends with the suffix the result plus the suffix is the string, otherwise the string is unchanged |
| `Switching.MethodMissing` | lib/bootinq/switch.rb:12-18 | an enabled name runs the block and returns its value; a name that is not enabled returns nil; an enabled name without a block raises LocalJumpError |
| `Switching.RunsIffEnabled` | lib/bootinq/switch.rb:13-17 | with a block, the call never raises and runs the block exactly when the name is enabled |
| `Switching.UnknownNameIsSilent` | lib/bootinq/switch.rb:16 | a name no component carries returns nil and does not raise, with or without a block |
| `Switching.AgreesWithOn` | lib/bootinq/switch.rb:13 | dispatching through the switch runs the block exactly when `on(name)` matches |
| `RailsPaths.Format` | lib/bootinq/rails_path.rb:61-63 | `template % {base:, component:, ext:}`; only a `%` directive can make it fail |
| `RailsPaths.Render` | lib/bootinq/rails_path.rb:61-63 | `apply`: the template filled with the path's base and extension; it fails only on a `%` directive, and a template without one renders to itself |
| `RailsPaths.FormatLiteral` | lib/bootinq/rails_path.rb:62 | a template without directives formats to itself |
| `RailsPaths.FormatSeparated` | lib/bootinq/rails_path.rb:14-17 | a template `%<base>s` + separator + `%<component>s%<ext>s` gives base, separator, component, extension |
| `RailsPaths.FormatDefault` | lib/bootinq/rails_path.rb:15 | the default template puts `.component` between base and extension |
| `RailsPaths.FormatSubdir` | lib/bootinq/rails_path.rb:16 | the subdir template puts `/component` between base and extension |
| `RailsPaths.ExtName` | lib/bootinq/rails_path.rb:46 | the extension is a suffix of the path; it is empty or a dot followed by neither a dot nor a slash |
| `RailsPaths.Base` | lib/bootinq/rails_path.rb:47 | base followed by extension is the path again |
| `RailsPaths.SplitRoundTrip` | lib/bootinq/rails_path.rb:46-48 | the split into base and extension round-trips, and the extension is empty or a dot followed by no slash |
| `RailsPaths.RailsPath.constructor` | lib/bootinq/rails_path.rb:27-29 | the template is the given one, the default template unless told otherwise |
| `RailsPaths.RailsPath.SetTemplate` | lib/bootinq/rails_path.rb:22 | `template=` replaces the template |
| `RailsPaths.RailsPath.Call` | lib/bootinq/rails_path.rb:45-54 | with a component the result is the template filled for the path's base and extension; without one it is the curried proc over the same base and extension |
| `RailsPaths.RailsPath.Invoke` | lib/bootinq/rails_path.rb:50 | calling the curried proc always yields a formatted path |
| `RailsPaths.CurriedAgrees` | lib/bootinq/rails_path.rb:49-53 | the curried proc applied to a component equals the two-argument call |
| `RailsPaths.ExtNameOfFile` | lib/bootinq/rails_path.rb:46-47 | for a file `dir/stem.ext` whose extension has no dot, the extension is `.ext` and the base is `dir/stem`, even when the stem holds dots |
| `RailsPaths.ExtNameOfDotless` | lib/bootinq/rails_path.rb:46-47 | a path whose last segment has no dot has an empty extension, and its base is the whole path |
| `RailsPaths.RenderFile` | spec/bootinq/rails_path_spec.rb:43-59 | a file path such as `config/routes.rb` renders to `config/routes.api.rb` on the default template and to `config/routes/api.rb` on the subdir template, for every directory, stem, extension and component |
| `RailsPaths.RenderDotless` | spec/bootinq/rails_path_spec.rb:38-54 | a directory path such as `config/initializers` renders to `config/initializers.api` on the default template and to `config/initializers/api` on the subdir template, for every directory, name and component |
| `Mixins.Fields` | lib/bootinq/mixins.rb:20 | the fields between dashes hold no dash, and joining them with dashes gives the name back |
| `Mixins.DropTrailingEmpty` | lib/bootinq/mixins.rb:20 | the result is a prefix of the words, its last word is non-empty, and every dropped word is empty |
| `Mixins.Split` | lib/bootinq/mixins.rb:20 | `split('_')` yields dash-free words with no empty word at the end: a prefix of all the fields between underscores, with only empty fields dropped after it |
| `Mixins.JoinCapitalized` | lib/bootinq/mixins.rb:21-22 | `each(&:capitalize!).join`: its length is the total length of the words |
| `Mixins.ComputeName` | lib/bootinq/mixins.rb:19-23 | the computed name ends with the class's suffix, and the part before it is the capitalised words joined |
| `Mixins.CamelFrom` | lib/bootinq/mixins.rb:19-23 | the character-by-character reading of compute_name never produces a dash |
| `Mixins.JoinCapitalizedTrailingEmpty` | lib/bootinq/mixins.rb:20-22 | the empty fields that `split` drops at the end would add nothing to the joined name |
| `Mixins.FieldsAreCamel` | lib/bootinq/mixins.rb:20-22 | capitalising and joining the fields equals the character-by-character reading, both at and inside a word |
| `Mixins.ComputeNameIsCamel` | lib/bootinq/mixins.rb:19-23 | compute_name equals the character-by-character reading followed by the suffix, for every component name |
| `Mixins.ComputeNameHasNoDash` | lib/bootinq/mixins.rb:19-23 | the part of a computed name before the suffix never holds a dash |
| `Mixins.CamelJoin` | lib/bootinq/mixins.rb:20-22 | a dash ends the word before it: the name reads as the first word followed by the rest read from a word start |
| `Mixins.TwoWords` | lib/bootinq/mixins.rb:20-22 | two dash-free words joined by one dash read as both words capitalised |
| `Mixins.TwoWordsDoubleDash` | lib/bootinq/mixins.rb:20-22 | a doubled dash between two words reads like a single dash |
| `Mixins.ApiPartExample` | lib/bootinq/mixins.rb:30 | `api_part` with the enabled suffix is `ApiPartEnabledMixin` |
| `Mixins.DoubleDashExample` | lib/bootinq/mixins.rb:19-23 | `api__part` with the enabled suffix is also `ApiPartEnabledMixin` |
| `Mixins.UpperCaseExample` | lib/bootinq/mixins.rb:19-23 | `API_PART` with the enabled suffix is also `ApiPartEnabledMixin` |
| `Mixins.NamesCollide` | lib/bootinq/mixins.rb:19-23 | `api_part`, `api__part` and `API_PART` compute the same constant name |
| `Mixins.SuffixesExclusive` | lib/bootinq/mixins.rb:30 | no name ends with both `EnabledMixin` and `DisabledMixin` |
| `Mixins.Respond` | lib/bootinq/mixins.rb:37-69 | `on_X` yields exactly in the enabled mixin, `not_X` yields exactly in the disabled one, and the disabled mixin also answers `name` with the receiver, since the method is defined from `Kernel#itself`; no other method is defined |
| `Mixins.ExactlyOneYields` | lib/bootinq/mixins.rb:62-69 | for either kind exactly one of `on_X` and `not_X` yields, and `on_X` yields exactly for the enabled kind |
| `Mixins.Build` | lib/bootinq/mixins.rb:76-85 | it fails with NameError exactly when the computed name is not a constant name; otherwise the name is bound afterwards to the returned mixin, every earlier binding is kept, and a new binding is a fresh mixin of the requested kind for this component |
| `Mixins.BuildIdempotent` | lib/bootinq/mixins.rb:80-84 | after a successful call, a second call with the same arguments returns the same mixin and leaves the table unchanged |
| `Mixins.BuildPreservesWellFormed` | lib/bootinq/mixins.rb:80-84 | every binding stays under its own module name with its kind's suffix |
| `Mixins.BuildKind` | lib/bootinq/mixins.rb:77-78 | on a well-formed table the returned mixin is `Enabled` exactly when `enabled` is true, and sits under the computed name |
| `Mixins.LeadingDigitRejected` | lib/bootinq/mixins.rb:80 | a component name starting with a digit (`2fa`) makes Builder raise NameError |
| `Mixins.ForeignCharRejected` | lib/bootinq/mixins.rb:80 | a component name holding a character no identifier holds (`admin-panel`) makes Builder raise NameError |
| `Mixins.CamelKeeps` | lib/bootinq/mixins.rb:20-22 | compute_name keeps every character that is neither a dash nor a letter |
| `Mixins.BuildSharesCollidingNames` | lib/bootinq/mixins.rb:80-81 | a component whose name collides with an earlier one receives the earlier mixin, whose methods carry the earlier name |
| `Mixins.ConstantTable.constructor` | lib/bootinq/mixins.rb:76 | the constant table starts empty and well formed |
| `Mixins.ConstantTable.Builder` | lib/bootinq/mixins.rb:76-85 | the result and the new table are those of `Build` on the old table (NameError leaves the table unchanged), the table stays well formed, and a returned mixin's kind matches `enabled` |

## Left out

- Reading the YAML file and `ENV` (lib/bootinq.rb:65-66). The parsed configuration and the environment are parameters. Keys are strings, and the values of a section are names.
- A configuration whose entries are not strings. The test configuration has an integer flag `2`. The code then raises TypeError from `String#include?`. The model has only string flags, so the test scenario writes it as `"2"`.
- Configurations that fail `Loadable`. The constructor requires `Loadable` instead of modelling them. The model takes only mappings as sections, while Ruby's `each` accepts other collections. An Array of pairs such as `[[s, shared]]` loads like a mapping. A list of bare flags such as `[s]` fails only when an entry is selected, because its name is then nil. A section that cannot be iterated raises NoMethodError. An `env_key` that is not a string raises TypeError in `ENV.fetch`.
- `Bootinq.require`, `setup` and its verbose `puts`, `instance_exec`, `Bundler.require` and the `Rails.groups` call (lib/bootinq.rb:42-59, 126). I/O and framework calls; `Groups` models the argument list handed to `Rails.groups`.
- The singleton, `def_delegators` and `freeze` of the instance variables (lib/bootinq.rb:29-30, 189-204). The model has one instance with a `frozen` flag.
- `Resolution.Bootinq.constructor` and `Resolution.Bootinq.EnableEach`: do not state that each component is freshly allocated. `EnableComponent` states it for the component it adds.
- Features the test suite expects but this code does not have: `deps`, `is_dependency?`, `deserialized_config`, `switch` and the wildcard values. The model follows the code. Under `s2` the test configuration therefore enables `shared` and `api2` but not `api_part`, which the suite reaches through `deps`. There is also no `disabled?`, `not`, `not_all` or `not_any`.
- Ruby's case mapping of non-ASCII letters. `Text` maps only `a`-`z` and `A`-`Z`.
- `Component#succ` and `#next` (lib/bootinq/component.rb:75). String successor arithmetic is not modelled.
- `Component#inspect`, `to_proc`, `__id__`, `hash`, `encoding`, `match`, `match?`, `=~`, `[]`/`slice`, `module_name` and `kind_of?` (lib/bootinq/component.rb:23-32, 66-73). They delegate to the Symbol or String, or to Rails' `camelcase`, and decide nothing in the core.
- `Components.Component.Engine`: returns a symbolic reference instead of the `::Engine` constant that `Mountable#engine` looks up.
- `Switch`'s own `raise` and the methods `BasicObject` keeps. Names such as `instance_eval` or `__send__` are not dispatched to `method_missing`. The model sends every name to `method_missing`.
- `RailsPaths.Format`: supports only `%<base>s`, `%<component>s`, `%<ext>s` and `%%`. Any other directive is reported as `Unsupported` instead of following Ruby's `format` rules.
- `RailsPaths.RenderFile` and `RailsPaths.RenderDotless`: state the rendering for every path of the two shapes the tests use. The test paths are the instances with directory `config`, stem `routes`, extension `rb` and name `initializers`; no lemma restates those literal paths.
- `RailsPaths.ExtName`: covers the last segment, its leading dots and its last dot. It leaves out `File.extname`'s platform rules for trailing dots and trailing slashes.
- The component passed to `call` is taken as its `to_s` string.
- `Module#module_eval`, `define_method`, `const_set`, `Bootinq.extend` and `prepend Mixins` (lib/bootinq/mixins.rb:34-45, 57-70, 83, 93-101). The generated methods are the `Respond` rule, and the constant table is a map. The prepended `enable_component` reaches `Builder` only from inside the block it passes to `super`. `Bootinq#enable_component` never yields that block, so the hook adds nothing to the base operation and has no separate member.
- `Mixins.Build`: takes a constant name to be ASCII: an upper-case `A`-`Z` letter followed by letters, digits and underscores. Ruby also accepts non-ASCII letters. The `module_eval` that defines `on_X` and `not_X` has no error path of its own. Every character of the component name other than `_` reaches the computed name, so an accepted name leaves only identifier characters in the component name, and `def on_X` is then valid. `ForeignCharRejected` states the contrapositive.
- `Mixins.ConstantTable.Builder`: `const_defined?` also searches Object and Bootinq's ancestors. The model looks only at the table of mixins, and none of Bootinq's other constants ends in `EnabledMixin` or `DisabledMixin`.
- Thread safety of the singleton's construction.
