# SVD loader model

This project models the part of PyCortexMDebug that loads a CMSIS-SVD
description of a microcontroller (`cmdebug/svd.py`). The loader builds a
device whose peripherals hold registers and register clusters, and whose
registers hold bit fields with tables of enumerated values. All of these
are kept in `SmartDict`, a dictionary that finds a key by exact match, then
case-insensitively, then by name prefix and numeric suffix.

The model has these layers:

- `Text`: the string operations the loader relies on. These are `lower()`,
  the `^(.*?)([0-9]*)$` split of a key, `split(',')`, `strip()`, Python's
  `int(s)` and `int(s, 0)`, the `#` to `0x` rewrite, and `name % label`.
- `Nodes`: the XML elements the loader reads, as datatypes. A missing child
  is `None`.
- `SmartDicts`: the dictionary's state as a value (`Dict`) with pure
  operations, and a class `SmartDict` whose methods update that state in
  place. The methods are proved against the pure operations.
- `Fields`, `Registers`, `Clusters`, `Peripherals` and `Devices`: one pure
  constructor function per class of the loader, and the loops of the source
  as methods proved equal to those functions.
- `Dimensions`: the expansion of a dimensioned node (`dim`) that
  `add_register` and `add_cluster` share.

A Python exception is an `Err` of `Errors.Error`, and `SVDNonFatalError` is
`NonFatal`. The source catches it in three places: the device loop, and the
non-dimensioned branches of `add_register` and `add_cluster`. Only a
peripheral without a base address raises it, and a peripheral is never
built inside those two functions, so their handlers never run; the model
gives them no branch and lets the device loop catch it. A `pickle` copy is a value
copy, because every entity is a datatype.

## Model

| member | source | states |
|---|---|---|
| Text.Lower | cmdebug/svd.py:47 | `key.lower()` keeps the length and lowers each ASCII letter in place. |
| Text.LowerIdempotent | cmdebug/svd.py:72 | Lowering an already-lowered key changes nothing, so casemap keys are fixed points. |
| Text.SplitKey | cmdebug/svd.py:56 | The `(name, number)` split puts the two parts back together into the text the match spans, which is the key without a final newline. The number is all digits, and the name does not end in a digit. |
| Text.SplitKeyUnique | cmdebug/svd.py:56 | Exactly one split has those three properties, as the lazy `.*?` regular expression demands. |
| Text.SplitKeyFinalNewline | cmdebug/svd.py:56 | `$` matches before a final newline, so a key with a final newline splits as the key without it does: `"a1\n"` gives `("a", "1")`. |
| Text.Split | cmdebug/svd.py:164 | `split(',')` gives at least one part, and no part contains the separator. |
| Text.SplitNoSeparator | cmdebug/svd.py:164 | A text without a comma splits into itself alone. |
| Text.SplitAtSeparator | cmdebug/svd.py:164 | The first comma ends the first part. |
| Text.SplitJoin | cmdebug/svd.py:162-164 | Splitting the comma-joined default labels gives the labels back. |
| Text.ReplaceHash | cmdebug/svd.py:439 | After `replace("#", "0x")` no `#` is left, and a text without `#` is unchanged. |
| Text.Strip | cmdebug/svd.py:418 | Neither end of `strip()`'s result is a character `str.isspace()` accepts. |
| Text.StripPadded | cmdebug/svd.py:418 | `strip()` takes off exactly the whitespace around a text whose ends are not whitespace. |
| Text.NatToString | cmdebug/svd.py:162 | `str(i)` is a non-empty run of digits without a leading zero. |
| Text.ParseDecimal | cmdebug/svd.py:415-416 | `int(s)` succeeds only on a non-empty run of decimal digits. |
| Text.DigitsValueDecimal | cmdebug/svd.py:415-416 | A text has a decimal value exactly when it is all decimal digits. |
| Text.ParseAutoBase | cmdebug/svd.py:159 | `int(s, 0)` reads a text without a prefix and without a leading zero only when it is all decimal digits. The prefixed bases are tied to their values by `PrefixedRoundTrip`. |
| Text.DecimalRoundTrip | cmdebug/svd.py:162 | `int(str(n))` and `int(str(n), 0)` both give back `n`. |
| Text.DigitsOf | cmdebug/svd.py:159 | The digits of `n` in a base up to 16 are non-empty, have no leading zero, and are all digits of that base. |
| Text.DigitsRoundTrip | cmdebug/svd.py:159 | The digits of `n` in any base from 2 to 16, read back in that base, give `n`. |
| Text.PrefixedRoundTrip | cmdebug/svd.py:280 | `int(s, 0)` reads `0x`/`0X` with hexadecimal digits, `0o`/`0O` with octal digits and `0b`/`0B` with binary digits back as the number they spell. |
| Text.HashRoundTrip | cmdebug/svd.py:439-442 | `#` with hexadecimal digits becomes the `0x` literal of the same digits, and `int(s, 0)` reads it back as their number. |
| Text.ParseTemplate | cmdebug/svd.py:167 | A parsed template puts the text back together around its single `%s`, and neither side contains `%`. |
| Text.ParseTemplateComplete | cmdebug/svd.py:167 | Every text with one `%s` and no other `%` parses to the template it was written from. |
| Text.InstantiateInjective | cmdebug/svd.py:166-171 | Distinct labels give distinct names under one template. |
| Nodes.Required | cmdebug/svd.py:370 | `str(node.x)` succeeds exactly when the child exists; otherwise it is an AttributeError. |
| Nodes.IntOf | cmdebug/svd.py:415 | A parsed `int(text)` is non-negative and comes from an all-digit text. |
| Nodes.AutoIntOf | cmdebug/svd.py:343 | `int(text, 0)` succeeds exactly when the text parses with automatic base. |
| SmartDicts.Empty | cmdebug/svd.py:39-41 | A fresh dictionary is well formed and holds nothing. |
| SmartDicts.InsertWarning | cmdebug/svd.py:66-70 | `__setitem__` warns exactly when the key or its lowered form is already present. |
| SmartDicts.Without | cmdebug/svd.py:78 | Deleting a key from the order removes exactly that key and keeps the keys distinct. |
| SmartDicts.Fetch | cmdebug/svd.py:43-50 | `d[key]` fails with a KeyError exactly when the three-tier lookup finds nothing, and otherwise returns what it finds. |
| SmartDicts.Values | cmdebug/svd.py:95-96 | `values()` lists the entries in insertion order. |
| SmartDicts.MatchesInMembers | cmdebug/svd.py:55-59 | The prefix matches are exactly the casemap values of the folded keys that start with the name and end with the number. |
| SmartDicts.MatchesInFirst | cmdebug/svd.py:61-64 | The first match comes from the earliest matching folded key in insertion order. |
| SmartDicts.PrefixMatchesMembers | cmdebug/svd.py:55-59 | On a well-formed dictionary, a key matches exactly when it is the current original of its folded form and its folded form matches. |
| SmartDicts.PrefixMatchesStored | cmdebug/svd.py:50 | Every prefix match is a stored key, so `od[prefix_match(key)]` does not fail once a match exists. |
| SmartDicts.LookupTiers | cmdebug/svd.py:43-50 | The exact key wins, then the lowered key through the casemap, then the first prefix match. |
| SmartDicts.HasIffLookup | cmdebug/svd.py:80-81 | `key in d` holds only when `d[key]` finds an entry, and the converse holds for every key except `"\n"`. |
| SmartDicts.NewlineKeyExample | cmdebug/svd.py:80-81 | With only the empty key stored, `"\n" in d` is false while `d["\n"]` finds the empty key's value, because the pattern matches before the newline and the empty key is falsy. |
| SmartDicts.CaseVariantLookup | cmdebug/svd.py:47-48 | A key that differs only in case finds the entry the casemap records for its folded form. |
| SmartDicts.InsertWellFormed | cmdebug/svd.py:66-73 | `__setitem__` keeps the state well formed. |
| SmartDicts.InsertProperties | cmdebug/svd.py:66-73 | After `d[key] = v`, looking up `key` gives `v` and the casemap sends its folded form to `key`. Every other entry and folded form is unchanged, and the order grows only for a new key. |
| SmartDicts.RemoveWellFormed | cmdebug/svd.py:75-78 | `__delitem__` keeps the state well formed. |
| SmartDicts.RemoveProperties | cmdebug/svd.py:75-78 | `del d[key]` succeeds exactly when the key and its folded form are present. Afterwards the key is gone and every other entry is unchanged. |
| SmartDicts.RemoveCasemap | cmdebug/svd.py:76-77 | The folded form is dropped only when it still maps to the deleted key; every other folded form is unchanged. |
| SmartDicts.LenIsKeyCount | cmdebug/svd.py:86-87 | `len(d)` is the number of stored keys. |
| SmartDicts.MapValuesWellFormed | cmdebug/svd.py:95-96 | Updating every value in place keeps the dictionary well formed. |
| SmartDicts.MapValuesLookup | cmdebug/svd.py:43-50 | After updating every value, a lookup finds the updated value of what it found before, and membership is unchanged. |
| SmartDicts.InsertAllWellFormed | cmdebug/svd.py:66-73 | A run of `__setitem__` calls keeps the dictionary well formed. |
| SmartDicts.InsertAllKeys | cmdebug/svd.py:66-73 | A run of insertions adds exactly its keys. |
| SmartDicts.InsertAllKeep | cmdebug/svd.py:66-73 | A run of insertions leaves every key it does not name unchanged. |
| SmartDicts.InsertAllEntry | cmdebug/svd.py:66-73 | After a run of insertions, a key no later insertion repeats holds its value. |
| SmartDicts.InsertAllCount | cmdebug/svd.py:86-87 | Distinct new keys grow `len` by their number. |
| SmartDicts.TimersAmbiguous | cmdebug/svd.py:52-64 | With TIM1, TIM2 and TIM10 stored, "TIM" is ambiguous and finds TIM1, the first inserted. |
| SmartDicts.TimersExact | cmdebug/svd.py:43-48 | With the same entries, "TIM1" is found exactly and "tim2" through the casemap. |
| SmartDicts.PrefixExample | cmdebug/svd.py:43-64 | The two previous lemmas combined, on the dictionary that three `__setitem__` calls build. |
| SmartDicts.SmartDict.constructor | cmdebug/svd.py:39-41 | A new SmartDict is valid and empty. |
| SmartDicts.SmartDict.SetItem | cmdebug/svd.py:66-73 | The new state is the insertion, the warning is the one the old state calls for, and the state stays valid. |
| SmartDicts.SmartDict.DelItem | cmdebug/svd.py:75-78 | The new state is the removal, or the KeyError with the state unchanged. |
| SmartDicts.SmartDict.PrefixMatch | cmdebug/svd.py:55-64 | The loop over the casemap returns the first prefix match. |
| SmartDicts.SmartDict.GetItem | cmdebug/svd.py:43-50 | `__getitem__` returns the three-tier lookup. |
| SmartDicts.SmartDict.Contains | cmdebug/svd.py:80-81 | `__contains__` agrees with membership by any tier. |
| SmartDicts.SmartDict.IsAmbiguous | cmdebug/svd.py:52-53 | `is_ambiguous` holds when the key is neither stored nor a casemap key and more than one prefix match exists. |
| SmartDicts.SmartDict.Len | cmdebug/svd.py:86-87 | `__len__` is the size of `od`. |
| SmartDicts.SmartDict.Keys | cmdebug/svd.py:92-93 | `keys()` lists every stored key once. |
| Dimensions.Indices | cmdebug/svd.py:162 | The default labels are `str(0)` to `str(dim - 1)`. |
| Dimensions.DimLabels | cmdebug/svd.py:162-165 | The labels always number at least one. |
| Dimensions.DefaultDimLabels | cmdebug/svd.py:162-165 | Without `dimIndex` the labels are the indices below `dim`, or the one empty label when `dim` is 0. |
| Dimensions.TemplateOf | cmdebug/svd.py:167 | `name % label` is usable exactly when the name holds one `%s`; otherwise it is a TypeError. |
| Dimensions.DimensionOf | cmdebug/svd.py:158-165 | `dim` and `dimIncrement` are parsed with automatic base, and their errors come in source order. The template is the node's name. |
| Dimensions.Names | cmdebug/svd.py:166-167 | The j-th name is the template applied to the j-th label. |
| Dimensions.NamesDistinct | cmdebug/svd.py:166-167 | Distinct labels give distinct names, and a label no later label repeats gives a name no later name repeats. |
| Dimensions.ExpandInserts | cmdebug/svd.py:166-172 | The expansion is a run of insertions of the placed values, one per name. |
| Dimensions.ExpandEntry | cmdebug/svd.py:166-172 | The entry of the j-th name is built from the dictionary before step j and placed at `j * increment`. |
| Dimensions.ExpandAll | cmdebug/svd.py:166-172 | A property of every stored value that every built value has holds after the expansion too. |
| Dimensions.Expanded | cmdebug/svd.py:166-172 | The expansion keeps the dictionary well formed and adds exactly the names. Other entries are unchanged, and distinct new names grow the count by their number. |
| Dimensions.ExpandInPlace | cmdebug/svd.py:158-173 | The loop of `add_register`/`add_cluster` leaves the expansion of the old state, or stops with its error. |
| Fields.AccessModes | cmdebug/svd.py:448-452 | Which of the five SVD access modes are readable and writable; no other text is either. |
| Fields.IntsOf | cmdebug/svd.py:418 | `map(int, parts)` parses every part, or it is a ValueError. |
| Fields.RangeSpan | cmdebug/svd.py:418-420 | A bad `bitRange` is a ValueError or an IndexError. The text is stripped of whitespace before the brackets are dropped. |
| Fields.RangeOfDigits | cmdebug/svd.py:418-420 | `[a:b]` with decimal `a` and `b` and any whitespace around it has offset `b` and width `1 + a - b`. |
| Fields.SpanOf | cmdebug/svd.py:413-427 | The AssertionError occurs exactly when no encoding of the bit span is present. |
| Fields.SpanPriority | cmdebug/svd.py:414-421 | `bitOffset`/`bitWidth` win over the others, and `bitRange` wins over `lsb`/`msb`. |
| Fields.SpanFromOffsetWidth | cmdebug/svd.py:414-416 | The offset/width encoding of bits lo..hi gives offset lo and width hi - lo + 1. |
| Fields.SpanFromRange | cmdebug/svd.py:417-420 | `[hi:lo]`, with any whitespace around it, gives the same span. |
| Fields.PaddedRangeExample | cmdebug/svd.py:418 | `" [6:4]\n"` gives offset 4 and width 3. |
| Fields.SpanFromLsbMsb | cmdebug/svd.py:421-427 | `lsb`/`msb` gives the same span. |
| Fields.SpanExample | cmdebug/svd.py:413-427 | The three encodings of bits 4..6 agree. |
| Fields.EnumTableKeys | cmdebug/svd.py:432-446 | The enum loop fails exactly when a keyed entry has no name. Its keys are the old keys plus every value that parses. |
| Fields.EnumTableLastWins | cmdebug/svd.py:443 | A repeated enum value keeps the entry of its last occurrence. |
| Fields.EnumTableKeep | cmdebug/svd.py:432-446 | A key no entry repeats keeps its old row. |
| Fields.HashIsHexadecimal | cmdebug/svd.py:438-442 | A `#101` value is read as hexadecimal 0x101 = 257. |
| Fields.BinaryNeedsPrefix | cmdebug/svd.py:442 | `0b101` is read as binary 5. |
| Fields.EnumKeyHash | cmdebug/svd.py:438-442 | An enumerated value written `#` with hexadecimal digits has the number of those digits as its key. |
| Fields.EnumKeyPrefixed | cmdebug/svd.py:438-442 | An enumerated value written with a `0x`, `0o` or `0b` prefix has the number its digits spell as its key. |
| Fields.EnumKeyDecimal | cmdebug/svd.py:438-442 | An enumerated value written in decimal has its number as its key. |
| Fields.BuildEnumTable | cmdebug/svd.py:432-446 | The loop builds the enum table the fold describes. |
| Fields.FieldAccessDefault | cmdebug/svd.py:409-430 | A field without `access` takes its register's access, and its span is the one its encodings give. Without `enumeratedValues` its table is empty. |
| Fields.NewField | cmdebug/svd.py:409-446 | The constructor builds the field `FieldOf` describes. |
| Registers.RegisterContents | cmdebug/svd.py:341-379 | A built register points at the parent's base address, and its address is that base plus its parsed offset. Its description, access and size come with their defaults. A derived register takes its fields, and its name when it has none, from the sibling its `derivedFrom` finds. |
| Registers.DerivedRegisterSource | cmdebug/svd.py:344-366 | A derived register is built exactly when the lookup finds its source; otherwise it is a KeyError naming that source. |
| Registers.FieldsFromWellFormed | cmdebug/svd.py:374-379 | The field loop keeps the fields dictionary well formed. |
| Registers.FieldsFromKeys | cmdebug/svd.py:374-379 | The fields are stored under exactly the names of the `<field>` children. |
| Registers.FieldsFromLastWins | cmdebug/svd.py:379 | A repeated field name keeps its last field, whose access defaults to the register's. |
| Registers.FieldsFromKeep | cmdebug/svd.py:374-379 | A field name no child repeats keeps its old field. |
| Registers.DimensionedRegisters | cmdebug/svd.py:158-173 | A dimensioned register adds exactly the names `name % label`. Other registers are unchanged, and distinct new names grow the count by their number. |
| Registers.DimensionedRegister | cmdebug/svd.py:166-172 | The register of label j is named `name % label` and sits `j * dimIncrement` past the node's offset. |
| Registers.AddRegisterGuard | cmdebug/svd.py:174-183 | A plain register is stored only when `name in registers` fails by every tier, prefix included; otherwise the registers are unchanged. |
| Registers.AddRegisterWellFormed | cmdebug/svd.py:149-183 | `add_register` keeps the registers dictionary well formed. |
| Registers.AddRegisterAt | cmdebug/svd.py:149-183 | Every register `add_register` stores points at the parent's base address. |
| Registers.PrefixGuardExample | cmdebug/svd.py:177-178 | With CR1 stored, a new plain register CR is dropped, because "CR" prefix-matches CR1. |
| Registers.RebasedRegistersLookup | cmdebug/svd.py:381-385 | After `refactor_parent`, every lookup finds the same register at the new base address plus its unchanged offset. |
| Registers.NewRegister | cmdebug/svd.py:341-379 | The constructor's loops build the register `RegisterOf` describes. |
| Registers.AddRegister | cmdebug/svd.py:149-183 | `add_register` on a SmartDict leaves the state `AddRegisterTo` describes, or stops with its error. |
| Registers.RefactorRegisters | cmdebug/svd.py:317-319 | The loop over the values re-points every register at the new base address, as `SVDPeripheralRegister.refactor_parent` (lines 381-382) does, and the result equals the rebased dictionary. |
| Clusters.RegistersFromWellFormed | cmdebug/svd.py:243-246 | The cluster's register loop keeps the dictionary well formed. |
| Clusters.RegistersFromAt | cmdebug/svd.py:243-246 | Every register of a cluster is built against the cluster's base address. |
| Clusters.RegistersFromSkips | cmdebug/svd.py:243-246 | Children other than `<register>`, nested clusters included, have no effect. |
| Clusters.ClusterContents | cmdebug/svd.py:225-246 | A built cluster records its parent, and its base address is its parsed offset past the parent's. It has the node's name and description, and well-formed registers that point at its base address. |
| Clusters.AddClusterReplaces | cmdebug/svd.py:206-210 | A plain cluster is stored under its name with no membership check, replacing any entry of that name; other entries are unchanged. |
| Clusters.DimensionedClusters | cmdebug/svd.py:190-205 | A dimensioned cluster adds exactly the names `name % label`. Other clusters are unchanged, and distinct new names grow the count by their number. |
| Clusters.DimensionedCluster | cmdebug/svd.py:198-204 | The cluster of label j has its offset and base address shifted by `j * dimIncrement`. Its registers stay at the unshifted base. |
| Clusters.AddClusterIn | cmdebug/svd.py:186-210 | `add_cluster` keeps the dictionary well formed, and every cluster belongs to the peripheral and has well-formed registers. |
| Clusters.RebasedClusterLookup | cmdebug/svd.py:248-254 | After `refactor_parent`, the cluster sits at its offset past the new peripheral, and its registers are found at that base address plus their offsets. |
| Clusters.RebasedClustersIn | cmdebug/svd.py:248-254 | Rebasing makes every cluster one of the new peripheral, with its base address recomputed and its registers pointing at it. |
| Clusters.NewCluster | cmdebug/svd.py:225-246 | The constructor's loop builds the cluster `ClusterOf` describes. |
| Clusters.AddCluster | cmdebug/svd.py:186-210 | `add_cluster` on a SmartDict leaves the state `AddClusterTo` describes, or stops with its error. |
| Clusters.RefactorCluster | cmdebug/svd.py:248-254 | `refactor_parent` gives the rebased cluster. |
| Clusters.RefactorClusters | cmdebug/svd.py:321-322 | The loop over the clusters gives the rebased dictionary. |
| Peripherals.BlocksFromValid | cmdebug/svd.py:304-310 | The `<registers>` loop keeps both dictionaries well formed, every register at the peripheral's base address, and every cluster in the peripheral. |
| Peripherals.PeripheralValid | cmdebug/svd.py:265-310 | Every built peripheral, a derived one too, has well-formed dictionaries, registers at its base address, and clusters that belong to it. |
| Peripherals.DerivedPeripheral | cmdebug/svd.py:281-298 | A derived peripheral copies the source that its `derivedFrom` finds, under the same keys. Its own name and description win, and its registers and clusters are re-pointed at its base address. |
| Peripherals.DerivedIgnoresRegisters | cmdebug/svd.py:281-298 | A derived peripheral does not read its own `<registers>` block: without it the node builds the same peripheral or fails the same way. |
| Peripherals.OwnPeripheral | cmdebug/svd.py:299-310 | Any other peripheral holds what its `<registers>` block builds, with the description defaulting to empty. |
| Peripherals.RefactorPeripheral | cmdebug/svd.py:315-322 | `refactor_parent` gives the rebased peripheral. |
| Peripherals.NewPeripheral | cmdebug/svd.py:265-310 | The constructor's loop builds the peripheral `PeripheralOf` describes. |
| Devices.PeripheralsFromValid | cmdebug/svd.py:138-146 | The peripheral loop keeps the dictionary well formed and every stored peripheral valid. |
| Devices.DeviceValid | cmdebug/svd.py:126-146 | A loaded device has base address 0, and every peripheral in it is valid. |
| Devices.MissingBaseSkipped | cmdebug/svd.py:143-146 | A peripheral without a base address is skipped, and the load goes on. |
| Devices.PeripheralStored | cmdebug/svd.py:141 | A built peripheral is stored under its node's name, and every other peripheral, including a derived one's source, is unchanged. |
| Devices.DerivedWithoutName | cmdebug/svd.py:141 | A derived peripheral without its own name is built, but the load then fails on `str(p.name)`. |
| Devices.LoadDevice | cmdebug/svd.py:126-146 | The loader's loop gives the device `DeviceOf` describes. |

## Left out

- Reading the XML file, `lxml.objectify` and the file name are left out; the input is the element tree as datatypes from `Nodes`.
- Printing a non-fatal error, `warnings.warn` and the alternate-group message are left out. `SetItem` returns its warning as a value.
- `int()` is modelled without signs, whitespace or underscores, and `lower()` is modelled on ASCII letters only.
- Text.SplitKey: a key with a newline before its last character does not match `^(.*?)([0-9]*)$`, so `.groups()` raises AttributeError in the source. The model splits the text as if `.` matched a newline. Modelling the raise would turn every dictionary lookup and `in` test into a three-way result. The final-newline rule of `$` is modelled.
- Text.ParseTemplate: `name % label` is modelled only for a name with a single `%s` and no other `%`. Any other name is a TypeError.
- `SVDRegisterCluster.clusters` is not modelled, because the loader never stores anything in it.
- Object identity and aliasing are not modelled. A `pickle` copy is a value copy, and the source's `refactor_parent` updates the copy in place while the model computes the rebased value.
- Registers.AddRegister: when the expansion of a dimensioned register fails after some names are stored, the source keeps those names. The method reports only the error.
- SmartDicts.SmartDict.GetItem: a prefix miss raises `KeyError(None)` in the source. The model returns `None`, and `Fetch` reports the key asked for.
- The register `size` is the node's text or the integer 0x20 (`Size`); it is never parsed.
- Dimensions.ExpandInPlace: the builder is a function of the stored state, not a call into the register or cluster constructor.
- The `__str__`, `items` and `__iter__` methods, and `_main`, are left out.
- No lemma shows that the missing base address is the only non-fatal error; the model catches every `NonFatal`, as the source does.
