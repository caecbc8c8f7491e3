# Potassium test helpers: the dummy-project command line

Potassium's spec support module creates a throw-away Rails application for its
feature tests. It does so by running `<bin> create dummy_app <flags>`. The flags come
from a fixed hash of default options, with the test's own options merged over it, and
the merged hash is turned into a string by `hash_to_arguments`:

- a `true` value becomes `--key`;
- a `false` value becomes `--no-key`;
- any other non-nil value becomes `--key=value`;
- a `nil` value becomes nothing.

The pieces are joined with single spaces, in hash order.

This project models that serialiser and the steps around it:

- `RubyHash` models Ruby's insertion-ordered `Hash`. A hash is a sequence of
  (key, value) pairs with distinct keys.
  - `Store` is `Hash#[]=`. It overwrites in place, or appends a new key.
  - `Merge` is `Hash#merge`, carried out the way Ruby does it: the argument's pairs are
    stored into a copy of the receiver, one by one.
  - `MergeIsOverlay` proves `Merge` equal to a declarative reference. In that reference
    the receiver's keys stay in position and take the argument's values, and the
    argument's new keys follow in its order.
- `Text` models `Array#join(" ")` as `Join`, and its inverse, splitting at single
  spaces, as `Split`. The two are proved inverse in both directions.
- `Arguments` models the keys, the values and `hash_to_arguments`.
  - A key is a string key or a symbol key, the two kinds of key the helpers and their
    callers use. Ruby treats `"db"` and `:db` as different hash keys, although both
    interpolate as `db`.
  - A value is `true`, `false`, nil, or anything else, represented by its `to_s`.
  - `Segments` is the mapped array. `HashToArguments` is that array joined.
- `FlagReader` reads one segment back into a (name, value) pair, as a long-option
  parser would. It is the partner of the per-value rules: every readable pair reads
  back as itself, and counterexample lemmas name the pairs whose segments cannot be
  told apart.
- `DummyProject` models `default_arguments`, the merge-then-serialise step of
  `create_dummy_project` and the command string. The path of the `potassium` executable
  is a parameter.

Whole-string facts about the defaults are stated through `Join` of the list of flags,
for example `Join(["--db=mysql", "--lang=es", ...])`, and not as one long literal.

## Model

| member | source | states |
|---|---|---|
| RubyHash.Store | spec/support/potassium_test_helpers.rb:15 | storing into a hash with distinct keys keeps the keys distinct |
| RubyHash.StoreLookup | spec/support/potassium_test_helpers.rb:15 | after `h[k] = v`, `k` finds `v` and every other key finds what it found before; the keys are the old keys plus `k` |
| RubyHash.Merge | spec/support/potassium_test_helpers.rb:15 | the merged hash has every key exactly once |
| RubyHash.MergeLookup | spec/support/potassium_test_helpers.rb:15 | in the merged hash a key finds the argument's value if the argument has it and the receiver's value otherwise; its keys are exactly the keys of both |
| RubyHash.MergeIsOverlay | spec/support/potassium_test_helpers.rb:15 | Ruby's store-each-pair merge equals the declarative reference: the receiver's entries in place, overlaid with the argument's values, then the argument's new entries in its order |
| RubyHash.MergeLayout | spec/support/potassium_test_helpers.rb:15 | the receiver's keys keep their positions; a position takes the argument's value exactly when the argument has that key; the entries after the receiver's are exactly the argument's entries with new keys |
| RubyHash.MergeIdempotent | spec/support/potassium_test_helpers.rb:15 | merging the same options a second time changes nothing |
| RubyHash.MergeIntoEmpty | spec/support/potassium_test_helpers.rb:15 | merging into an empty hash gives the argument unchanged, in its order |
| RubyHash.MergeFrom | spec/support/potassium_test_helpers.rb:15 | every entry of the merged hash comes from one of the two hashes |
| Text.Join | spec/support/potassium_test_helpers.rb:71 | joining n parts gives a string as long as the parts together plus n - 1 separators |
| Text.JoinConcat | spec/support/potassium_test_helpers.rb:71 | joining two nonempty lists one after the other is joining each with one space between |
| Text.JoinSize | spec/support/potassium_test_helpers.rb:71 | joining n parts adds exactly n - 1 spaces to the spaces the parts already have |
| Text.SplitJoin | spec/support/potassium_test_helpers.rb:71 | splitting the joined string gives back the parts, when no part has a space |
| Text.JoinSplit | spec/support/potassium_test_helpers.rb:71 | joining the split fields gives back the string |
| Arguments.Token | spec/support/potassium_test_helpers.rb:64-70 | a segment is empty exactly for a nil value (neither branch of the `if` applies, and `join` renders the nil as ""); every other segment starts with `--` |
| Arguments.TokenSpaces | spec/support/potassium_test_helpers.rb:64-69 | a segment has no space unless the key's name or the string value has one |
| Arguments.Segments | spec/support/potassium_test_helpers.rb:63-70 | one segment per entry, in hash order, empty exactly for the entries whose value is nil |
| Arguments.HashToArguments | spec/support/potassium_test_helpers.rb:62-72 | an empty hash gives the empty string; otherwise the result is as long as the segments together plus one separator between each two |
| Arguments.ArgumentFields | spec/support/potassium_test_helpers.rb:62-72 | the serialised hash has one field per entry, in hash order, each field being that entry's segment; the empty hash gives the empty string |
| Arguments.SeparatorCount | spec/support/potassium_test_helpers.rb:63-71 | a hash of n entries gets exactly n - 1 separator spaces, nil entries included, on top of the spaces inside the segments; a hash without spaces in its keys and values has exactly n - 1 spaces; the empty hash has none |
| Arguments.NilBetween | spec/support/potassium_test_helpers.rb:63-71 | a nil entry strictly inside the hash gives an empty field: two spaces in a row between the segments before it and those after it |
| Arguments.NilAtEnds | spec/support/potassium_test_helpers.rb:63-71 | a nil entry first in a hash of two or more entries gives a leading space, and a nil entry last gives a trailing space |
| Arguments.MergedSegments | spec/support/potassium_test_helpers.rb:15 | serialising a merged hash: each receiver key's segment stays in place, made from the argument's value when it has one; the new keys' segments follow |
| Arguments.OverrideOne | spec/support/potassium_test_helpers.rb:15 | merging one option for an existing key changes only that key's segment, in place |
| Arguments.AddOne | spec/support/potassium_test_helpers.rb:15 | merging one option for a new key appends its segment after all the others |
| FlagReader.ReadFlag | spec/support/potassium_test_helpers.rb:63-70 | the reference reader for segments: a segment is read as a flag exactly when it starts with `--`; a flag never reads as nil; a flag read with a string value has a name without `=`; a flag read as true or false has no `=` in it |
| FlagReader.ReadTokenInverts | spec/support/potassium_test_helpers.rb:63-70 | every non-nil pair whose segment is unambiguous reads back as the same name and value |
| FlagReader.ReadPlain | spec/support/potassium_test_helpers.rb:64-65 | `--name` reads as `name` set to true |
| FlagReader.ReadNegated | spec/support/potassium_test_helpers.rb:66-67 | `--no-name` reads as `name` set to false |
| FlagReader.ReadValued | spec/support/potassium_test_helpers.rb:68-69 | `--name=value` reads as `name` with that string value, even when the value has `=` in it |
| FlagReader.NilIsNotAFlag | spec/support/potassium_test_helpers.rb:63-70 | a nil value's segment is not read as any flag |
| FlagReader.TrueNoPrefixCollides | spec/support/potassium_test_helpers.rb:64-67 | `"no-x" => true` and `"x" => false` give the same segment |
| FlagReader.EqualsInNameMisreads | spec/support/potassium_test_helpers.rb:64-65 | `"a=b" => true` gives `--a=b`, which reads back as `a` with the value `b` |
| FlagReader.EmptyStringKeepsEquals | spec/support/potassium_test_helpers.rb:68-69 | an empty string is truthy: it gives `--key=` and reads back as the empty string, not as true |
| DummyProject.DefaultArguments | spec/support/potassium_test_helpers.rb:48-60 | nine default options, each under a string key and none nil |
| DummyProject.DefaultsDistinct | spec/support/potassium_test_helpers.rb:48-60 | the defaults are nine options with distinct keys |
| DummyProject.DefaultSegments | spec/support/potassium_test_helpers.rb:49-58 | the defaults' segments are `--db=mysql`, `--lang=es` and then `--no-` for heroku, admin, pundit, paperclip, devise, api and delayed-job, in that order |
| DummyProject.DefaultArgumentsSerialised | spec/support/potassium_test_helpers.rb:48-72 | with no options of its own a test passes the nine default flags joined by single spaces, and splitting gives them back |
| DummyProject.FullArguments | spec/support/potassium_test_helpers.rb:15 | the merged options have every key exactly once |
| DummyProject.UserOptionsOverDefaults | spec/support/potassium_test_helpers.rb:15 | a test's option for a default key replaces that default's flag in its position; the other defaults stay; the test's other options follow the nine defaults, in the test's order |
| DummyProject.FullArgumentsLookup | spec/support/potassium_test_helpers.rb:15 | each option is passed with the test's value when the test gives one and the default value otherwise; the keys are exactly those of the defaults and the test |
| DummyProject.CreateCommand | spec/support/potassium_test_helpers.rb:16 | the command is the bin path, then ` create dummy_app `, then the serialised merged options |
| DummyProject.CommandFields | spec/support/potassium_test_helpers.rb:16 | the command's fields are the bin path, `create`, `dummy_app`, then one field per merged option |
| DummyProject.CommandWithoutOptions | spec/support/potassium_test_helpers.rb:15-16 | with no options of its own a test runs `<bin> create dummy_app ` followed by the default flags |
| DummyProject.SwitchingFeatureOn | spec/support/potassium_test_helpers.rb:15 | `"paperclip" => true` turns the sixth flag into `--paperclip` and leaves the others unchanged |
| DummyProject.NilOptionLeavesGap | spec/support/potassium_test_helpers.rb:15 | `"api" => nil` leaves an empty eighth field and changes nothing else |
| DummyProject.SymbolKeyDoesNotOverride | spec/support/potassium_test_helpers.rb:15 | `db: "postgresql"` is a different key from `"db"`, so both flags are passed, the default first |

## Left out

- Removing and creating directories, changing directory, `Bundler.with_clean_env`,
  running the command with `system`, dropping the database and running RuboCop
  (spec/support/potassium_test_helpers.rb:4-36, 78-86). These are file-system and process
  effects with no logic of their own to model.
- The paths: `project_path`, `tmp_path`, `potassium_bin` and `root_path`
  (spec/support/potassium_test_helpers.rb:26-28, 40-46, 74-76). The bin path is a
  parameter of `CreateCommand`.
- The application recipes (lib/potassium/recipes/pry.rb,
  lib/potassium/templates/application/recipes/paperclip.rb). They only call the app
  builder's verbs, and those verbs are not part of this model.
- Values other than `true`, `false`, nil and strings are represented by their `to_s`
  text, as `Str`. Ruby's string conversion itself is not modelled.
- Arguments.ArgumentFields: stated only for hashes whose keys and string values have no
  spaces, because a space inside a value cannot be told apart from a separator. The
  serialiser itself takes any hash.
- DummyProject.CommandFields: stated only when the bin path and the options have no
  spaces, for the same reason.
- FlagReader.ReadTokenInverts: stated only for pairs that read back unambiguously. The
  other pairs are covered by TrueNoPrefixCollides, EqualsInNameMisreads and
  NilIsNotAFlag.
- DummyProject.DefaultArgumentsSerialised: the default string is stated as `Join` of the
  nine flags, not as one 108-character literal.
- Keys other than strings and symbols are not modelled. Ruby would interpolate any key,
  so `1 => true` would give `--1`, but the helpers and their callers only use string and
  symbol keys. The key's kind matters only for which keys the merge treats as equal.
