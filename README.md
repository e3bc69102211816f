# A verified model of the `Factory` record-type builder

`Factory.new(*arguments)` (in `lib/factory.rb`) builds a new record class
from a list of field names, in the manner of Ruby's `Struct`. A leading
String argument names the class and is not a field. Instances are built
positionally, read and written by Integer position or by field name, and
answer `size`/`length`, `members`, `to_a`, `each`, `each_pair`, `values_at`,
`select`, `dig` and a strict `==`.

Every accessor of an instance goes through Ruby's instance-variable table.
The model follows Ruby 3.2 and later, where that table lists only the
variables that have been set on the object, in the order the object first
set them. It follows that table for every field name except the few listed
under "## Left out":

- `outcomes.dfy` (module `Outcomes`): `Option`, the error kinds the
  operations raise (`ArgumentError`, `TypeError`, `NameError`, `RangeError`, and
  `ForeignLookup` for a lookup on a non-record value), and `Result`.
- `seqs.dfy` (module `Seqs`): distinctness, a left fold (a block visiting a
  collection is a state-passing visitor), an order-preserving filter, and
  the subsequence relation, with their lemmas.
- `ivars.dfy` (module `Ivars`): the instance-variable table as a sequence of
  `Slot(name, value)`; the legal-name rule; `Lookup`, `Assign` (overwrite in
  place or append) and `AssignAll` (a run of assignments), with their lemmas.
- `factory.dfy` (module `Factory`): the argument split and field check of
  `Factory.new`; the class `RecordType` (its object identity stands for the
  Ruby class's identity, so two calls of `New` give two different types);
  the class `Record`, holding its type and its `slots`, with `initialize` as
  `RecordType.Construct`, `[]=` as `Record.Set`, `dig` as `Record.Dig` (all
  methods with loops where the source loops), and the queries as functions.
  Record values are `Nil | Prim(int) | Rec(Record)`; a record held in a slot
  is a reference.
- `factory_props.dfy` (module `FactoryProps`): the properties below, and a
  client method `PointScenario` that uses a two-field type as callers do.

Where this class behaves differently from Ruby's `Struct`, the model follows
the code:

- Unsupplied trailing fields get no slot: `T.new(1)` for fields `x, y` has
  `to_a == [1]`, `size == 1`, `members == [:x]`, not a padded `[1, nil]`.
- `self[i]` past the assigned slots raises a TypeError (the variable named
  `nil` cannot be read), not an IndexError; `self[name]` for a legal name
  never assigned is nil, not a NameError.
- `self[i] = v` with an Integer always raises a NameError (`@0` is not a
  variable name); `self[name] = v` with an undeclared legal name appends a
  new slot instead of failing.
- Field names are not checked for repeats. With repeats, when both
  occurrences are supplied, `initialize` sets the same variable twice, and
  the record has fewer slots than values.
- The source has no `to_h`; the hash it builds inside `each_pair` is
  modelled as `Record.Pairs`.

As in `Array#[]`, an Integer index that does not fit in a 64-bit `long`
raises a RangeError, in `[]`, `values_at` and `dig` alike.

`members` returns Symbols; the model keeps each name as its text (a
`string`), so `[:x]` above is `["x"]` in the model.

`length` is the same member as `size` and `to_a` the same as
`instance_variables_values` (`Record.Size`, `Record.ToA`), as the source
aliases them.

## Model

| member | source | states |
|---|---|---|
| `FactoryProps.SplitRecombines` | lib/factory.rb:6 | exactly a leading String becomes the type name; the name put back before the fields gives every argument's text in order, so later Strings stay fields |
| `FactoryProps.DefinedFieldsAreKeys` | lib/factory.rb:9 | every field of a defined type is a legal name that `[]` reads without error and `[]=` accepts; a rejected definition has a field that `[]` rejects with NameError |
| `Factory.New` | lib/factory.rb:5-9 | fails with NameError exactly when the field check fails; otherwise a fresh type carrying the split name and fields |
| `Factory.RecordType.Construct` | lib/factory.rb:11-17 | ArgumentError iff more values than fields; otherwise a fresh valid record of this type whose table is value i assigned to field i, in order |
| `FactoryProps.AssignAllBounds` | lib/factory.rb:14-16 | a run of assignments adds at most one slot per assignment, and only names taken from the run |
| `FactoryProps.InitializedBounds` | lib/factory.rb:14-16 | constructing from k values leaves at most k slots, all named by the first k fields |
| `FactoryProps.ConstructedContents` | lib/factory.rb:12-16 | with k values and the first k fields distinct (later fields may repeat them), the table is exactly the first k fields zipped with the values |
| `FactoryProps.ConstructedRecord` | lib/factory.rb:37-49 | after construction from k values whose k fields are distinct, `to_a` is the values, `members` the first k fields and `size` is k |
| `FactoryProps.UnsuppliedField` | lib/factory.rb:24-31 | a declared field whose name is not among the supplied ones reads nil by name, and its position raises TypeError (RangeError if the position does not fit in a `long`) |
| `FactoryProps.MembersAlignWithValues` | lib/factory.rb:37-49 | `members`, `to_a` and `size` have one entry per slot and slot i is (members[i], to_a[i]) |
| `FactoryProps.GetByIndex` | lib/factory.rb:24-31 | an Integer that fits in a `long` and lies in [-size, size) reads `to_a` at that index, negative ones from the end; any other that fits raises TypeError; one that does not fit raises RangeError |
| `FactoryProps.GetByName` | lib/factory.rb:24-31 | looking up the i-th member's name returns `to_a[i]` |
| `FactoryProps.GetOtherName` | lib/factory.rb:24-31 | a legal unassigned name returns nil; an illegal name raises NameError |
| `Factory.Record.Put` | lib/factory.rb:34 | setting a legal variable keeps the table well formed and makes it `Assign` of the old table |
| `Factory.Record.Set` | lib/factory.rb:33-35 | succeeds iff the key is a legal name, updating the table by `Assign` and returning the value; an Integer or illegal key raises NameError and changes nothing |
| `Ivars.AssignFound` | lib/factory.rb:34 | setting a name that is already assigned overwrites its first slot in place |
| `Ivars.AssignMissing` | lib/factory.rb:34 | setting an unassigned name appends exactly one slot |
| `Ivars.NamesAssign` | lib/factory.rb:34 | setting never reorders or drops names; a new name goes last |
| `Ivars.AssignWellFormed` | lib/factory.rb:34 | setting a legal name keeps names distinct and legal |
| `Ivars.LookupAssign` | lib/factory.rb:30 | after setting n to v, n reads v and every other name reads as before |
| `Ivars.LookupAt` | lib/factory.rb:30 | with distinct names, a slot's name reads that slot's value |
| `Ivars.LookupMissing` | lib/factory.rb:30 | a name reads as unset iff no slot carries it |
| `Ivars.AssignAllDistinct` | lib/factory.rb:56 | assigning a list of distinct names from scratch yields that list |
| `FactoryProps.AssignExisting` | lib/factory.rb:33-35 | setting an existing member keeps size and members and changes that one value only |
| `FactoryProps.AssignNew` | lib/factory.rb:33-35 | setting a new name appends it to `members` and its value to `to_a` |
| `FactoryProps.GetAfterSet` | lib/factory.rb:24-35 | after `self[n] = v`, `self[n]` is v and other names read as before |
| `FactoryProps.EqualsNeedsSameType` | lib/factory.rb:20 | comparing with anything but a record of the same type raises TypeError |
| `FactoryProps.EqualsReflexive` | lib/factory.rb:19-22 | a record equals itself, whatever its slots hold |
| `FactoryProps.SameValuesEqual` | lib/factory.rb:19-22 | any two records of one type whose `to_a` arrays hold the same values are equal, whatever the slots hold and however they got there |
| `FactoryProps.ConstructedEqual` | lib/factory.rb:14-22 | two records of one type constructed from the same values are equal |
| `FactoryProps.ElementsEqSymmetric` | lib/factory.rb:21 | element-by-element comparison is true one way iff the other way, and two answers without an exception agree |
| `FactoryProps.EqualsSymmetric` | lib/factory.rb:19-22 | `a == b` is true iff `b == a` is; when neither raises, both answers agree |
| `FactoryProps.EqualsFlat` | lib/factory.rb:19-22 | for records of one type holding only nil and integers, `==` never raises, is symmetric, and is equality of `to_a` |
| `FactoryProps.EqualsAsymmetric` | lib/factory.rb:19-22 | nil facing a held record: `a == b` is false while `b == a` raises TypeError |
| `FactoryProps.EqualsRaisesWithinType` | lib/factory.rb:19-22 | an integer facing a held record makes `==` raise TypeError both ways, although the two records share a type |
| `FactoryProps.EqualsIndistinguishable` | lib/factory.rb:19-22 | equal records have the same size, the same Integer lookups succeed, and the values found are themselves `==` |
| `FactoryProps.EachVisitsValuesInOrder` | lib/factory.rb:51-53 | `each` hands the block the values of `to_a`, once each, in order |
| `FactoryProps.PairsAreSlots` | lib/factory.rb:55-57 | the hash built from `members.zip(to_a)` loses no slot and keeps their order |
| `FactoryProps.EachPairVisitsPairsInOrder` | lib/factory.rb:55-57 | `each_pair` hands the block exactly (members[i], to_a[i]) for each i, in order |
| `FactoryProps.ValuesAtAgreesWithGet` | lib/factory.rb:59-61 | raises RangeError iff `self[idx[k]]` raises RangeError for some k; otherwise one result per requested index, every element j being what `self[idx[j]]` returns, or nil where that raises TypeError |
| `FactoryProps.ValuesAtConcat` | lib/factory.rb:59-61 | results follow request order: asking for `a + b` is asking for `a` then `b`, and raises RangeError iff either does |
| `FactoryProps.SelectKeepsAccepted` | lib/factory.rb:63-65 | `select` is an order-preserving subsequence of `to_a` holding each accepted value as often as `to_a` does and no rejected value |
| `Factory.Record.Dig` | lib/factory.rb:67-74 | the loop with its early exit computes `DigFrom` of the record and the keys |
| `FactoryProps.DigFirstSteps` | lib/factory.rb:67-74 | `dig()` is the record itself and `dig(k)` is `self[k]` |
| `FactoryProps.DigNil` | lib/factory.rb:70 | from nil every remaining key is skipped and the result is nil |
| `FactoryProps.DigAppend` | lib/factory.rb:67-74 | digging through `ks1 + ks2` is digging through `ks1`, then through `ks2` from its result; an error on the way is the result |
| `FactoryProps.DigShortCircuits` | lib/factory.rb:67-74 | once a prefix of the keys leads to nil, the whole dig is nil |
| `FactoryProps.DigNested` | lib/factory.rb:67-74 | `dig(:inner, 0)` reaches a nested record's first value, and is nil without error when `inner` is unset |

## Left out

- Registering a named type as a constant (`const_set`, lib/factory.rb:81) is not modelled: `New` keeps the name in the type and defines nothing globally, so the NameError `const_set` raises for a name that is not a constant name is not modelled either.
- The `class_eval(&block)` extension hook (lib/factory.rb:78) runs arbitrary code and is not modelled.
- The generated `attr_accessor` readers and writers (lib/factory.rb:9) are not modelled as operations; for ordinary field names they read and write the same variables as `[]` and `[]=` by name. Only their name check is kept, in `Define`. A field named after a method the class body defines later — `initialize`, `instance_variables_values`, `size`, `members`, `each`, `each_pair`, `values_at`, `select`, `dig` (lines 11-74), `to_a` or `length` (lines 76-77) — loses its reader to that definition and keeps only its writer: for `Factory.new(:width, :length)`, `p.length` is the slot count, not `@length`. `[]`, `Record.Size` and the other modelled members are unaffected, so the model stays right for these names.
- Field names that shadow the methods the accessors call are not modelled: `Define` accepts them, and the model behaves as for any other name. In Ruby the generated reader replaces the inherited method: a field `instance_variable_set` makes `initialize` raise ArgumentError whenever at least one value is given (line 15 reaches the reader, which takes no argument), and makes every `[]=` raise ArgumentError in the same way (line 34); a field `raise` replaces `Kernel#raise` at lines 12 and 20, so `==` with a value of another class raises ArgumentError instead of TypeError (too many values still raise ArgumentError, now for the reader's arity); a field `instance_variable_get` breaks `[]` (line 30) and `instance_variables_values` (line 39), with everything built on the latter (`to_a`, `==`, `each`, `each_pair`, `values_at`, `select`) and `dig` through `[]`; a field `instance_variables` breaks `[]` with an Integer (line 26) and everything built on `instance_variables_values`, `size` or `members` (lines 38, 44, 48): `==`, `to_a`, `size`, `members`, `each`, `each_pair`, `values_at` and `select`, while `[]` and `dig` by name, `[]=` and `initialize` still work; a field `class` replaces the class tests of `==` and `dig` (lines 20, 70).
- `Class.new`, `define_method`, `alias_method` and the building of `@name` strings are replaced by the field list, the slot table and the `Key` datatype.
- Arguments of `Factory.new` other than Strings and Symbols, keys of `[]`/`[]=` other than Integers, Strings and Symbols, and non-Integer arguments of `values_at` (Ranges, Floats) are not modelled.
- Slot values are nil, integers and records only; other Ruby objects are not modelled.
- `dig` on a value that is neither nil nor a record calls that value's own `[]`; the model returns `ForeignLookup` instead.
- `Factory.Record.Equals`: two distinct records of one type held at the same position are compared by their `to_a` arrays with Dafny's equality, so records nested two levels down are compared by identity, where Ruby would go on calling their own `==`. Nil, integers and records one level down follow Ruby's `Array#==` and element `==`, exceptions included.
- FactoryProps.EqualsSymmetric: states symmetry only for a true answer and for two answers without an exception, because the source's `==` is not symmetric otherwise (`FactoryProps.EqualsAsymmetric`).
- Blocks are modelled as pure functions: a visitor passing a state for `each`/`each_pair`, a predicate for `select`. Blocks with other side effects, the Enumerators returned without a block and the values `each`/`each_pair` return are not modelled.
- The order of the instance-variable table in Ruby 3.1 and earlier is not modelled. There `instance_variables` follows a table shared by the whole class, so a name appears where any instance of the class first introduced it: after `u = T.new; u[:y] = 1; u[:x] = 2`, `T.new(1, 2).to_a` is `[2, 1]` and its `members` are `[:y, :x]`, which `FactoryProps.ConstructedRecord` and `FactoryProps.AssignNew` do not describe.
- `FitsLong` takes a C `long` to be 64 bits wide, as on the usual 64-bit platforms; on a platform with a 32-bit `long` the RangeError starts at smaller indexes.
- `ValidName` is a simplified form of Ruby's instance-variable name rule: every non-ASCII character counts as a letter.
- Exception classes are kept as distinct error kinds; their messages are not modelled.
