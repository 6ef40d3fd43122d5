# AoE2ScenarioParser: the field parser and the file-part object, in Dafny

AoE2ScenarioParser reads and writes Age of Empires II scenario files. A file
is a sequence of sections ("file parts"). Each section is an ordered list of
field descriptors called *retrievers*. A retriever has a name, a data type
(a type token such as `u32`, `str16`, `c4`, `struct:Player`, and a repeat
count), its current data, and optional dependency hooks (`on_construct`,
`on_commit`, `on_refresh`).

This project models the core of that machinery and proves properties of it:

- **Type tokens** (`TypeResolver`): `datatype_to_type_length`, including
  its error cases and the rule that widths of numeric types are bit widths,
  divided by 8.
- **Values** (`Values`): the data model, `listify`, `vorl` (the
  "variable or list" rule) and lookup of a retriever by name.
- **Dependencies** (`Dependencies`): the engine. It covers
  `handle_retriever_dependency`, `handle_dependency_target` and
  `handle_dependency_eval`.
  - The retriever lists it can reach are a `Store` value.
  - A function `Resolve` specifies the engine.
  - The methods `HandleRetrieverDependency` and `VisitTargets` are the
    source's loops. `VisitNext` and `VisitOne` are the body of the target
    loop. All four are proved to compute `Resolve` and its parts.
- **Reading** (`FieldDecoder`): `retrieve_value`, and the read half
  (`retrieve_bytes`) and decode half (`parse_bytes`) that the section object
  uses.
  - The byte generator is a `ByteStream` object: the file's bytes and a
    position.
  - The loops are methods over that stream, proved against functions on the
    byte sequence.
- **Writing** (`FieldEncoder`): `retriever_to_bytes`, including a struct
  member's fallback to its default when it has no data.
  - Proved round trips: bytes written then read back give the values, and
    bytes read then written back give the bytes.
  - Proved stability: a second encoding finds what the first left.
- **The section object** (`FilePart`): class `AoE2FilePart`, with
  `__init__`, `from_structure`, attribute get and set through the
  retrievers, `set_data` and `set_data_from_generator`. The last of these
  fills the fields one by one and clones struct templates for struct fields.
- **Integers** (`Bytes`): little-endian, two's-complement when signed, with
  round-trip lemmas.

Where the source's recursion is unbounded (REFRESH_SELF, REFRESH, nested
structs), a `fuel` parameter stands for Python's recursion limit. Running out
of it is `RecursionError`.

Where the documented design and the code disagree, the model follows the code:

- A token's number is a bit width for every category except `c` and `data`,
  so `f4` resolves to width 0, not 4 (`AoE2ScenarioParser/helper/parser.py:227-228`).
- Whether `vorl` forces list form depends on the hooks of the field itself,
  not on hooks elsewhere that target it
  (`AoE2ScenarioParser/helper/parser.py:25-32`).

One exception goes the other way. For the end-of-file field the code is
evidently wrong (see "## Findings"). The model states both versions, and
`retrieve_value` in the model uses the corrected one.

## Model

| member | source | states |
|---|---|---|
| Bytes.FromLEToLE | AoE2ScenarioParser/helper/parser.py:261-262 | Writing an unsigned value in n little-endian bytes and reading it back gives the value. |
| Bytes.ToLEFromLE | AoE2ScenarioParser/helper/parser.py:65-66 | Reading n bytes as an unsigned value and writing it back in n bytes gives the same bytes. |
| Bytes.DecodeEncodeInt | AoE2ScenarioParser/helper/parser.py:261-262 | An integer that fits the width and signedness encodes, and decodes back to itself. |
| Bytes.EncodeDecodeInt | AoE2ScenarioParser/helper/parser.py:65-66 | Any byte string decodes (signed or not) to an integer that encodes back to exactly those bytes. |
| Bytes.EncodeInt | AoE2ScenarioParser/helper/parser.py:261-262 | Encoding succeeds exactly when the value is in range for the width and signedness, and then yields that many bytes. |
| TypeResolver.TypeToLengthOfToken | AoE2ScenarioParser/helper/parser.py:211-230 | A known type code followed by a number resolves to its category, with the number divided by 8 except for `c` and `data`. |
| TypeResolver.TypeToLengthTokenOf | AoE2ScenarioParser/helper/parser.py:211-230 | Rendering a category and width as a token and resolving it gives back that category and width. |
| TypeResolver.StructTokenResolves | AoE2ScenarioParser/helper/parser.py:213-214 | Any token starting with `struct:` resolves to (struct, 0), and the struct name is the rest of the token. |
| TypeResolver.UnknownCodeFails | AoE2ScenarioParser/helper/parser.py:220-224 | A token whose letters are no known type code fails with the unknown-type ValueError. |
| TypeResolver.MissingNumberFails | AoE2ScenarioParser/helper/parser.py:217 | A non-struct token without digits fails: `int('')` raises ValueError. |
| TypeResolver.ParseNatToString | AoE2ScenarioParser/helper/parser.py:217 | Reading back the decimal digits of n gives n. |
| TypeResolver.DigitsAppend | AoE2ScenarioParser/helper/parser.py:217-218 | Filtering digits and filtering letters both distribute over concatenation. |
| TypeResolver.ResolvesU16 | AoE2ScenarioParser/helper/parser.py:211-230 | `u16` gives (unsigned, 2 bytes). |
| TypeResolver.ResolvesF64 | AoE2ScenarioParser/helper/parser.py:211-230 | `f64` gives (float, 8 bytes). |
| TypeResolver.ResolvesStr32 | AoE2ScenarioParser/helper/parser.py:211-230 | `str32` gives (str, a 4-byte prefix). |
| TypeResolver.ResolvesC4 | AoE2ScenarioParser/helper/parser.py:211-230 | `c4` gives (chars, 4): the width of `c` is not divided. |
| TypeResolver.ResolvesBareNumber | AoE2ScenarioParser/helper/parser.py:220-221 | A token of digits only is `data` of that many bytes. |
| Values.Listify | AoE2ScenarioParser/helper/parser.py:39-44 | The result is always a list. |
| Values.ForcedFromIff | AoE2ScenarioParser/helper/parser.py:26-32 | The loop over hook attributes forces a list exactly when some attribute is present and either the repeat is not 1 or a SET_REPEAT hook is among the hooks of the attributes seen. |
| Values.ForcesListIff | AoE2ScenarioParser/helper/parser.py:23-32 | `vorl` forces list form exactly when the retriever may be a list, has a hook attribute, and either its repeat is not 1 or one of its hook lists holds a SET_REPEAT. |
| Values.ListifyVorl | AoE2ScenarioParser/helper/parser.py:23-44 | `vorl` loses nothing: listifying its result gives back the list of values. It unwraps a one-element list exactly when list form is not forced, and otherwise returns the list. |
| Values.HasSetRepeatAppend | AoE2ScenarioParser/helper/parser.py:29-31 | The accumulated hook list holds a SET_REPEAT exactly when one of its parts does. |
| Values.FindRetriever | AoE2ScenarioParser/helper/parser.py:174 | The first retriever with the name, or none when no retriever has it. |
| Dependencies.HandleDependencyTarget | AoE2ScenarioParser/helper/parser.py:189-197 | The list a caller gets is the current list for `"self"` and the named piece's list otherwise. It fails, with KeyError, exactly when the name is neither `"self"` nor a registered piece. |
| Dependencies.BindWholeValue | AoE2ScenarioParser/helper/parser.py:204-207 | Without positional names, the target's whole value is bound to `x` and every other constant is kept. |
| Dependencies.BindPositional | AoE2ScenarioParser/helper/parser.py:204-205 | With positional names over a list value, the i-th name (if not repeated later) is bound to the i-th item. |
| Dependencies.BindPositionalBytes | AoE2ScenarioParser/helper/parser.py:204-205 | With positional names over a `bytes` value, the i-th name (if not repeated later) is bound to the i-th byte, as an integer. |
| Dependencies.BindPositionalText | AoE2ScenarioParser/helper/parser.py:204-205 | With positional names over a `str` value, the i-th name (if not repeated later) is bound to the i-th character. |
| Dependencies.BindPositionalNeedsIterable | AoE2ScenarioParser/helper/parser.py:204-205 | Positional names give TypeError exactly when the value cannot be iterated: None, a number or a struct instance. |
| Dependencies.ZipLocalsAt | AoE2ScenarioParser/helper/parser.py:205 | In the zipped dictionary, a name not repeated later maps to the item at its position. |
| Dependencies.ZipLocalsKeys | AoE2ScenarioParser/helper/parser.py:205 | Every key of the zipped dictionary is one of the names, at a position both sequences have. |
| Dependencies.EvalTwiceX | AoE2ScenarioParser/helper/parser.py:200-208 | The expression `x * 2` applied to an integer n gives 2n. |
| Dependencies.HandleRetrieverDependency | AoE2ScenarioParser/helper/parser.py:153-186 | The method computes `Resolve`: pick the phase's hook list and run the hooks in order, stopping at the first error. |
| Dependencies.VisitTargets | AoE2ScenarioParser/helper/parser.py:170-186 | The inner target loop of one hook computes `RunTargets`. |
| Dependencies.VisitOne | AoE2ScenarioParser/helper/parser.py:173-186 | One target computes `VisitTarget`: find the list, the name and the retriever, then refresh it, or evaluate and store the value. |
| Dependencies.VisitNext | AoE2ScenarioParser/helper/parser.py:172-186 | One pass of the target loop: an error stops the hook with that error; otherwise the run goes on from the next target with the new store, whose shape is unchanged. |
| Dependencies.RunTargetsAssign | AoE2ScenarioParser/helper/parser.py:176-186 | For SET_VALUE and SET_REPEAT, the targets never recurse into the engine; their result does not depend on the recursion budget. |
| Dependencies.UnknownStateFails | AoE2ScenarioParser/helper/parser.py:154-161 | A state other than construct, commit or refresh raises ValueError. |
| Dependencies.MissingPhaseFails | AoE2ScenarioParser/helper/parser.py:155-159 | A retriever without the attribute for the state raises AttributeError. |
| Dependencies.RefreshSelfLoops | AoE2ScenarioParser/helper/parser.py:167-168 | A REFRESH_SELF first among a retriever's own refresh hooks recurses without end, so the result is RecursionError whatever the budget. |
| Dependencies.RunHooksAppend | AoE2ScenarioParser/helper/parser.py:163-168 | Running two hook lists one after the other is running the first, then, on success, the second. |
| Dependencies.SetLastTargetWins | AoE2ScenarioParser/helper/parser.py:176-186 | A SET_VALUE or SET_REPEAT hook whose targets are other retrievers and evaluate (to integers, for SET_REPEAT) changes only the retriever's data, or only its repeat count, and the value from the last target wins. |
| Dependencies.TwiceOtherField | AoE2ScenarioParser/helper/parser.py:176-208 | A field with hook "set my value to other field B times 2" resolves to B's value doubled, and nothing else changes. |
| Dependencies.PutKeepsShape | AoE2ScenarioParser/helper/parser.py:184-186 | Storing a retriever that differs only in data or repeat keeps every name, type token, hook and list length. |
| FieldDecoder.ByteStream.constructor | AoE2ScenarioParser/helper/parser.py:47 | A fresh generator over the bytes, at the start. |
| FieldDecoder.Take | AoE2ScenarioParser/helper/parser.py:66 | `repeat_generator`: the next n bytes when that many remain (none when n <= 0), otherwise StopIteration with the stream exhausted. |
| FieldDecoder.TakeFrom | AoE2ScenarioParser/helper/parser.py:66 | The stream method advances exactly as `Take` says. |
| FieldDecoder.ReadElementFrom | AoE2ScenarioParser/helper/parser.py:65-84 | One value's bytes: the fixed width, or for `str` the prefix and then as many bytes as the prefix says. |
| FieldDecoder.ReadElementWhole | AoE2ScenarioParser/helper/parser.py:79-84 | A value read in full is exactly one whole element of its category. |
| FieldDecoder.ReadChunksFrom | AoE2ScenarioParser/helper/parser.py:56-92 | The value loop's read half computes `ReadChunks`: `repeat` chunks one after the other, or StopIteration. |
| FieldDecoder.ReadChunksCover | AoE2ScenarioParser/helper/parser.py:56-92 | The chunks read are exactly the bytes passed over, one whole element each. |
| FieldDecoder.RetrieveBytes | AoE2ScenarioParser/pieces/aoe2_file_part.py:89 | `retrieve_bytes`: one chunk per repeat, together exactly the bytes consumed. |
| FieldDecoder.ParseBytes | AoE2ScenarioParser/pieces/aoe2_file_part.py:90 | `parse_bytes`: the decoded values in order, passed through `vorl`. |
| FieldDecoder.LengthAccounting | AoE2ScenarioParser/helper/parser.py:57-84 | The reported length never exceeds the bytes consumed. It equals them exactly when no `str` prefix is negative, and is repeat × width for other categories. |
| FieldDecoder.Drain | AoE2ScenarioParser/helper/parser.py:127-133 | Draining takes every remaining byte and leaves the stream exhausted. |
| FieldDecoder.RetrieveValue | AoE2ScenarioParser/helper/parser.py:47-150 | The method computes `ValueRetrieval`: resolve the type, run construct hooks, read and decode, with the version special case. The end-of-file field follows the corrected rule of the Findings row, not the code as written. |
| FieldDecoder.RetrieveField | AoE2ScenarioParser/helper/parser.py:55-150 | The part after the hooks computes `FieldRetrieval`, with the corrected end-of-file rule of the Findings row. |
| FieldDecoder.ReadChunksFixed | AoE2ScenarioParser/helper/parser.py:56-92 | The values of a fixed-width type can all be read exactly when repeat × width bytes remain, and then exactly those are consumed. |
| FieldDecoder.RetrieveAfterHooks | AoE2ScenarioParser/helper/parser.py:47-55 | `retrieve_value` runs the construct hooks when the field has them: a hook error is raised before anything is read, and otherwise the read runs on the store the hooks left, whose shape is unchanged. |
| FieldDecoder.RetrieveStopIteration | AoE2ScenarioParser/helper/parser.py:93-98 | After any construct hooks, with the repeat they left, an ordinary field raises StopIteration, exhausting the stream, exactly when the bytes run out before its last value is complete: at any value, or inside a `str` payload. For fixed-width types, that is when fewer than repeat × width bytes remain. |
| FieldDecoder.RetrieveEndOfFile | AoE2ScenarioParser/helper/parser.py:127-148 | By the corrected rule of the Findings row, and after any construct hooks, the end-of-file field with nothing left reports a clean end (repeat 0); otherwise it reports every remaining byte (repeat 1). |
| FieldDecoder.RetrieveVersion | AoE2ScenarioParser/helper/parser.py:103-126 | A `version` field of type `c4` whose value `vorl` returns as a scalar (repeat 1 after any construct hooks, list form not forced) succeeds exactly when its four bytes are "1.40", and otherwise raises the unsupported-version ValueError. |
| FieldDecoder.RetrieveVersionList | AoE2ScenarioParser/helper/parser.py:103-126 | A `version` field of type `c4` whose value stays a list (a repeat other than 1, or list form forced) always fails: StopIteration if its bytes run out, and otherwise the unsupported-version ValueError. |
| FieldDecoder.RetrieveDecodedLength | AoE2ScenarioParser/helper/parser.py:56-92 | A successful ordinary field holds `repeat` values, and its length is at most the bytes consumed (exactly repeat × width unless `str`). |
| FieldDecoder.SentinelDrains | AoE2ScenarioParser/helper/parser.py:127-148 | The corrected end-of-file rule reports a clean end exactly when no bytes remain, and otherwise all of them. |
| FieldDecoder.SentinelAsWrittenLosesBytes | AoE2ScenarioParser/helper/parser.py:56-131 | As written, an end-of-file field with a positive width and repeat never reports the remaining bytes correctly when there are some. |
| FieldDecoder.SentinelAsWrittenExample | AoE2ScenarioParser/helper/parser.py:56-131 | With one byte per value and five bytes left, the code as written reports four bytes and the corrected rule reports five. |
| FieldEncoder.RetrieverToBytes | AoE2ScenarioParser/helper/parser.py:233-289 | The method computes `Encode`: reset the repeat to the list's length, then encode each value, with None for missing data and struct members falling back to their defaults. |
| FieldEncoder.MemberToBytes | AoE2ScenarioParser/helper/parser.py:251-260 | One struct member computes `EncodeMember`: its bytes, or the bytes of its default when it encodes to None. |
| FieldEncoder.MembersToBytes | AoE2ScenarioParser/helper/parser.py:250-260 | A struct's member loop computes `EncodeMembers`. |
| FieldEncoder.ElementDecodes | AoE2ScenarioParser/helper/parser.py:261-275 | What is written for a value that fits its width is one whole element, and decodes to the value. |
| FieldEncoder.ElementRoundTrip | AoE2ScenarioParser/helper/parser.py:261-275 | Those bytes, found in a stream, are read back as exactly that element. |
| FieldEncoder.FitsEncodes | AoE2ScenarioParser/helper/parser.py:261-275 | A value that fits its width always encodes. |
| FieldEncoder.ElementDecodeEncode | AoE2ScenarioParser/helper/parser.py:261-275 | A read element, decoded and encoded again, gives back the same bytes exactly when it is not a `str` with a negative prefix. |
| FieldEncoder.EncodeField | AoE2ScenarioParser/helper/parser.py:237-275 | A non-struct field whose values encode to chunks is their concatenation, and the retriever keeps its data. |
| FieldEncoder.DataPassthrough | AoE2ScenarioParser/helper/parser.py:270-271 | A `data` field writes its byte strings unchanged. |
| FieldEncoder.MissingValueGivesNone | AoE2ScenarioParser/helper/parser.py:245-247 | A missing value (None) makes the whole field encode to None. |
| FieldEncoder.EncodeThenRead | AoE2ScenarioParser/helper/parser.py:233-275 | Writing a field whose values fit, then reading it back with the repeat set by the writer, gives the values, whatever follows in the stream. |
| FieldEncoder.ReadThenEncode | AoE2ScenarioParser/helper/parser.py:233-275 | Reading a field and writing it back gives the same bytes, provided no `str` prefix was negative. |
| FieldEncoder.EncodeStable | AoE2ScenarioParser/helper/parser.py:237-239 | A second encoding of a non-struct field finds the retriever as the first left it, and gives the same result. |
| FieldEncoder.MemberStable | AoE2ScenarioParser/helper/parser.py:251-260 | A member keeps its data when it encodes and takes its default when it does not; encoding it again gives the same bytes. |
| FieldEncoder.StructDefaultsFilled | AoE2ScenarioParser/helper/parser.py:249-260 | Over a struct's non-struct members, each member that encoded to None ends with its default and the others keep their data. Encoding the updated members again gives the same bytes. |
| FieldEncoder.MembersStable | AoE2ScenarioParser/helper/parser.py:250-260 | Encoding the members as the loop left them gives the same bytes and members again. |
| FilePart.AoE2FilePart.constructor | AoE2ScenarioParser/pieces/aoe2_file_part.py:14-23 | `__init__`: the class's dependencies are attached to the retrievers of those names, no length yet, no struct templates. |
| FilePart.Attach | AoE2ScenarioParser/pieces/aoe2_file_part.py:20-23 | Each listed hook attribute is set on the retriever, replacing any it had; every other field and hook is kept. |
| FilePart.BuildRetrievers | AoE2ScenarioParser/pieces/aoe2_file_part.py:27-33 | One retriever per entry, in order, with the entry's name and type and repeat 1 unless given. |
| FilePart.AoE2FilePart.FromStructure | AoE2ScenarioParser/pieces/aoe2_file_part.py:25-34 | `from_structure`: a new section with, in order, one retriever per entry with the class dependencies attached. |
| FilePart.GetAfterSet | AoE2ScenarioParser/pieces/aoe2_file_part.py:42-62 | After setting an attribute, reading it gives the value set. |
| FilePart.SetLeavesOthers | AoE2ScenarioParser/pieces/aoe2_file_part.py:42-62 | Setting one attribute leaves every other attribute reading as before. |
| FilePart.AoE2FilePart.SetAttr | AoE2ScenarioParser/pieces/aoe2_file_part.py:53-62 | `__setattr__` stores into the first retriever of that name, or else on the instance. The value reads back and every other attribute is unchanged. |
| FilePart.SetDataSpec | AoE2ScenarioParser/pieces/aoe2_file_part.py:96-109 | A data list of the wrong length raises ValueError; a successful run keeps every name, type and hook. |
| FilePart.SetDataAssigns | AoE2ScenarioParser/pieces/aoe2_file_part.py:96-102 | Without construct hooks, `set_data` gives each retriever the value at its position and changes nothing else. |
| FilePart.AoE2FilePart.SetData | AoE2ScenarioParser/pieces/aoe2_file_part.py:96-109 | The method computes `SetDataSpec` on the section and the registered pieces, and changes nothing on a size mismatch. |
| FilePart.AoE2FilePart.SetDataFromGenerator | AoE2ScenarioParser/pieces/aoe2_file_part.py:64-94 | The method computes `DecodeFrom`: every field in order, with the total bytes consumed stored as `byte_length`. |
| FilePart.AoE2FilePart.FillField | AoE2ScenarioParser/pieces/aoe2_file_part.py:76-92 | One field computes `DecodeField`. The construct hooks run first, and are required. Then either struct clones are read or the bytes are retrieved and parsed. |
| FilePart.AoE2FilePart.ReadStructs | AoE2ScenarioParser/pieces/aoe2_file_part.py:80-87 | The struct loop computes `DecodeStructs`: `repeat` clones of the template, each filled in turn. |
| FilePart.AoE2FilePart.FillClone | AoE2ScenarioParser/pieces/aoe2_file_part.py:83-87 | One clone of the template is filled from the stream as a section of its own. |
| FilePart.DecodeField | AoE2ScenarioParser/pieces/aoe2_file_part.py:76-92 | A field is only read when it has construct hooks: without them `set_data_from_generator` raises AttributeError. The bytes counted are the bytes consumed. |
| FilePart.DecodeFieldFills | AoE2ScenarioParser/pieces/aoe2_file_part.py:76-92 | After a field is read, a struct field holds `repeat` clones of its template, and any other field holds `repeat` values. |
| FilePart.FieldAgreesWithRetrieveValue | AoE2ScenarioParser/pieces/aoe2_file_part.py:89-92 | For an ordinary field with construct hooks, the section's retrieve-and-parse agrees with `retrieve_value` on position, error and data. The length agrees too, except for `str`. |

## Left out

- Printing, `time.sleep`, logging (`log_value`), and the textual dumps
  (`get_byte_structure_as_string`, `__str__`) carry no state the model needs.
- Floats are kept as their raw bytes, and text as its bytes without
  character decoding. `bytes_to_float`, `bytes_to_str`, `str_to_bytes` and
  `fixed_chars_to_bytes` are not part of this model. `c` and `str` values
  are kept as their bytes.
- `eval` runs arbitrary Python. Here the hook code is a closed expression
  language (`Expr`): constants, names, `+`, `-`, `*` and `len`. A `pieces`
  string evaluated by `handle_dependency_target` is a dictionary lookup.
- `repeat_generator`, `Retriever`, `DataType`, `get_retriever_by_name`,
  `retrieve_bytes`, `parse_bytes`, `clone_as_struct` and the struct classes
  are not part of this model. Each is modelled from how the core uses it.
- `from_data` builds and fills a section, then returns the class rather than
  the section. That slip has no effect on callers inside the core, so it is
  not modelled.
- FilePart.AoE2FilePart.constructor: `__init__` assigns its fields through
  `__setattr__`. `name` and `retrievers` are assigned before `retrievers`
  exists, so they are plain attributes. `byte_length` and `struct_models` are
  assigned after it, so a retriever named `byte_length` or `struct_models`
  would receive −1 or `{}` as its data, and the section field would not be set.
  The model assumes no retriever has either name.
- FilePart.AoE2FilePart.SetAttr, FilePart.AoE2FilePart.GetAttr: a key that
  names no retriever goes into the `attributes` map. That includes `name`,
  `byte_length`, `retrievers` and `struct_models`, which in Python would
  rewrite the section's own field of that name. Through these two members,
  those four fields are neither read nor written.
- Aliasing: a retriever list reached both as "self" and through `pieces`,
  or a hook on one retriever writing through an object shared with another,
  is not modelled. Nested struct instances are owned by their field.
- The state left behind by an operation that raises midway is not stated.
  Each method's contract says what it returns, and that every name, type and
  hook is kept.
- `possibly_list` defaults to true for retrievers built from a structure.
  The `Retriever` class that sets the default is not part of this model.
- Resolve, Encode, DecodeFrom: recursion is bounded by `fuel`. A run that
  would exceed Python's recursion limit at a depth other than `fuel` is not
  distinguished.
- `struct_models` is populated outside the core. `SetDataFromGenerator`
  reads it as it is.
- `vorl` tests `Retriever is not None`, which is always true. A `None`
  retriever would then raise AttributeError; the model always passes one.
- Values.Listify: states only that the result is a list; what it holds is
  stated by Values.ListifyVorl.
- Dependencies.ApplyValue: a SET_REPEAT value that is not an integer fails
  at once with TypeError. Python stores it as the repeat count. Where that
  count is used next, `retrieve_value` runs `range(repeat)` inside its
  `try … except Exception` and returns the TypeError in its result
  (parser.py:55-56, 99-100). `retriever_to_bytes` resets the count from a list
  value's length first (parser.py:237-239).
- Dependencies.Bind: a struct instance is taken to be not iterable, since the
  struct classes are not part of this model. A `str` is iterated byte by byte,
  because text is kept as its bytes.
- FieldDecoder.RetrieveValue, FieldDecoder.RetrieveField: the end-of-file
  field follows the corrected rule `Sentinel` of the Findings row. The code as
  written, which `SentinelAsWritten` models, first reads the field's values
  and reports only the bytes after them; that behaviour is not what these
  methods compute.
- FieldDecoder.RetrieveEndOfFile: states the corrected rule. What the code as
  written does is stated by `SentinelAsWrittenLosesBytes` and
  `SentinelAsWrittenExample` instead.
- TypeResolver.IsDigit, TypeResolver.IsLetter: the digits `0`–`9` and the
  ASCII letters. Python's `str.isnumeric` and `str.isalpha` are true of
  Unicode numerals and letters as well; no type token here uses them.
- TypeResolver.TypeToLength: divides the bit width by 8 exactly. The source's
  `int(var_len / 8)` is float division. It agrees for every width below 2^53.
  Above that the quotient can round, and a width too large for a float raises
  OverflowError.

## Findings

| source | as written | input that shows it | evidently intended | confidence | as-written member | corrected member |
|---|---|---|---|---|---|---|
| AoE2ScenarioParser/helper/parser.py:56-58, 127-131 | The end-of-file field first reads its values like any field (`data` of width n, repeat times). It reports as extra data only the bytes after those. A tail shorter than one value is taken for a clean end. | An end-of-file field `data1` with repeat 1 and the five bytes 1 2 3 4 5 left reports 2 3 4 5 as the extra data. | Report every remaining byte, and a clean end exactly when none remain. | not executed | FieldDecoder.SentinelAsWritten, FieldDecoder.SentinelAsWrittenExample, FieldDecoder.SentinelAsWrittenLosesBytes | FieldDecoder.Sentinel, FieldDecoder.SentinelDrains |
