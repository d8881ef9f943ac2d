# argparse-cxx argument model and command registry, in Dafny

This project models the argument model and the command registry of the
C++ library `argparse` (`cxx/src/argparse.hxx`):

- the per-argument token consumers (`parse`), arities (`takes`) and getters
  (`get_value`, `get_values`) of `optional_value<T>`, `optional_list<T>`,
  `required_value<T>` and `required_list<T>`;
- how a `command` registers optional and required arguments
  (`add_optional_arg`, `add_required_arg` and the typed builders
  `add_opt_flag`, `add_opt_value`, `add_opt_list`, `add_req_value`,
  `add_req_list`), rejecting duplicate keys;
- how a `command` looks arguments up (`get_optional` by long name,
  `get_required` by name).

The class hierarchy becomes closed datatypes (`Arguments.Holder`,
`Arguments.OptionalSpec`, `Arguments.RequiredSpec`, `Commands.Command`).
Handles are indices into the command's registries. Every operation is a
pure function that returns the new state together with what the C++ code
returns: the token count (`-1` on failure) or a `Result`.

The payload type is a type parameter `V`. The string-to-value conversion
`argparse::parse<T>` is a parameter `conv: Token -> V` of every consumer.
A consumer's token window `(argv, len)` is a sequence plus a C `int`
count (`Arguments.CInt`). `argv` must hold at least `len` tokens, because
the source reads that many. A thrown `std::runtime_error` becomes a
`Failure` outcome, and the command is returned unchanged. An `abort()`
becomes a precondition.

Files:
- `results.dfy`: `Option` and `Result`.
- `keys.dfy`: pairwise distinctness and first-match lookup over key sequences.
- `arguments.dfy`: the argument model and its consumers.
- `commands.dfy`: the command registry.

## Model

| member | source | states |
|---|---|---|
| `Arguments.NewValue` | cxx/src/argparse.hxx:126-140 | A freshly built value argument holds nothing: `get_value` reports absent (null). |
| `Arguments.NewList` | cxx/src/argparse.hxx:154-157 | A freshly built list argument holds the empty sequence. |
| `Arguments.GetValue` | cxx/src/argparse.hxx:128 | `get_value` (and its twin at line 221) returns the stored value, or null (`None`) while the argument is unparsed. It exposes the whole state: the argument is rebuilt from what it returns. |
| `Arguments.GetValues` | cxx/src/argparse.hxx:157 | `get_values` (and its twin at line 250) returns the accumulated values in order. The argument is rebuilt from what it returns. |
| `Arguments.Takes` | cxx/src/argparse.hxx:159 | `takes()` is 1 exactly for value arguments; for lists it is `SIZE_MAX`, which exceeds any count a caller can pass. |
| `Arguments.ConvertAll` | cxx/src/argparse.hxx:165-166 | Converting a run of tokens yields one value per token, each the conversion of the token at the same position. |
| `Arguments.ConsumeValue` | cxx/src/argparse.hxx:130-136 | Fails with `-1` and leaves the argument unchanged iff no token is given. Otherwise it returns 1 and `get_value` yields the conversion of the first token; further tokens are ignored. |
| `Arguments.ConsumeList` | cxx/src/argparse.hxx:159-171 | Fails with `-1` and leaves the list unchanged iff no token is given. Otherwise it returns `len`, keeps the earlier elements as a prefix, and appends the conversions of all `len` tokens in input order. |
| `Arguments.Consume` | cxx/src/argparse.hxx:124-175 | Virtual dispatch on the payload kind. The returned count is `-1` without tokens and otherwise `min(len, takes())`, and the kind of argument is kept. After a successful parse a value holds the conversion of the first token, and a list holds its old values followed by the conversions of all `len` tokens. |
| `Arguments.ConsumeOptional` | cxx/src/argparse.hxx:124-175 | Parsing an optional value/list argument changes only its payload: short character, long name and description stay. The count follows the arity rule. After a successful parse the payload is the stored conversion of the first token (value) or the old values plus the conversions of all tokens (list). |
| `Arguments.ConsumeRequired` | cxx/src/argparse.hxx:217-269 | Parsing a required value/list argument changes only its payload: the name and description stay. The count follows the arity rule. After a successful parse the payload is the stored conversion of the first token (value) or the old values plus the conversions of all tokens (list). |
| `Arguments.ListAccumulates` | cxx/src/argparse.hxx:160-171 | Repeated parsing of a list accumulates. Two calls leave the same values as one call over both token runs joined. |
| `Arguments.ValueLastWins` | cxx/src/argparse.hxx:131-136 | A value argument keeps only its latest token. A second parse yields the same state as parsing a fresh argument. |
| `Commands.NewCommand` | cxx/src/argparse.hxx:346-349 | A command starts with empty optional and required registries and satisfies the registry invariant. |
| `Commands.AddOptional` | cxx/src/argparse.hxx:358-370 | Refused iff some registered optional has the same short character or the same long name (either is enough). A refusal leaves the command unchanged. Otherwise exactly one entry is appended at the end, earlier entries and the required registry stay, and the returned handle is the new last entry. Distinct shorts and longs stay distinct. |
| `Commands.AddRequired` | cxx/src/argparse.hxx:372-380 | Refused iff a required argument of the same name exists. A refusal leaves the command unchanged. Otherwise the argument is appended at the end, so declaration order is kept, and distinct names stay distinct. |
| `Commands.AddOptFlag` | cxx/src/argparse.hxx:288-291 | Registers a flag under the given keys and description, refused exactly on a key clash. A refusal leaves the command unchanged. On success the entry is appended at the end, the handle is its index, and earlier optionals, the required registry and the registry invariant are kept. |
| `Commands.AddOptValue` | cxx/src/argparse.hxx:293-297 | Registers an optional value argument with the given keys and description that starts absent, refused exactly on a key clash. A refusal leaves the command unchanged. On success the entry is appended at the end, the handle is its index, and earlier optionals, the required registry and the registry invariant are kept. |
| `Commands.AddOptList` | cxx/src/argparse.hxx:299-303 | Registers an optional list argument with the given keys and description that starts empty, refused exactly on a key clash. A refusal leaves the command unchanged. On success the entry is appended at the end, the handle is its index, and earlier optionals, the required registry and the registry invariant are kept. |
| `Commands.AddReqValue` | cxx/src/argparse.hxx:305-308 | Registers a required value argument with the given name and description that starts absent, refused exactly on a duplicate name. A refusal leaves the command unchanged. On success the entry is appended at the end, and earlier required arguments, the optionals and the registry invariant are kept. |
| `Commands.AddReqList` | cxx/src/argparse.hxx:310-313 | Registers a required list argument with the given name and description that starts empty, refused exactly on a duplicate name. A refusal leaves the command unchanged. On success the entry is appended at the end, and earlier required arguments, the optionals and the registry invariant are kept. |
| `Commands.AddReqListShort` | cxx/src/argparse.hxx:315-319 | The `add_req_list` overload that takes a short character registers an optional list that starts empty, refused exactly on a key clash. It never touches the required registry. A refusal leaves the command unchanged. On success the entry is appended at the end, the handle is its index, and earlier optionals, the required registry and the registry invariant are kept. |
| `Commands.GetOptional` | cxx/src/argparse.hxx:382-391 | Returns the first optional whose long name matches. A match must exist, because the source aborts otherwise. In a well-formed registry it is the only match. |
| `Commands.GetRequired` | cxx/src/argparse.hxx:393-400 | Returns the first required argument whose name matches. A match must exist, because the source aborts otherwise. In a well-formed registry it is the only match. |
| `Commands.AddThenGetOptional` | cxx/src/argparse.hxx:358-391 | After a successful registration, lookup by the new long name finds the returned handle. Every earlier long name still resolves to the same entry. |
| `Commands.AddThenGetRequired` | cxx/src/argparse.hxx:372-400 | After a successful registration, lookup by the new name finds the last position. Every earlier name still resolves to the same position. |

## Left out

- Token dispatch (`command::parse`, `parser::parse`) is left out. This covers flag classification, `-vvv` expansion, positional ordering and subcommand descent. Both are only declared in the header (lines 355 and 427), and their bodies are not part of this model.
- Flag behaviour is left out. `optional_flag::takes`, `parse`, `cnt` and `is_set` are declared without bodies (lines 102-108). The `Flag` variant therefore carries only its keys, and `ConsumeOptional` requires a value or list argument. The base `optional::parse` and `argument::parse` (lines 82, 201) are also declared only.
- The conversions `argparse::parse<int>` and `argparse::parse<std::string>` are declared only. The conversion is a parameter, and it has no failure channel because the source returns a bare `T`.
- Subcommands (`add_command`, `_commands`, `command::takes`), help output (`show_help`) and base-path handling (`set_base`, `_base`) are left out. They are declared without bodies or concern output only.
- The typed lookups `get_opt_flag`, `get_opt_value`, `get_opt_list`, `get_req_value` and `get_req_list` are left out. They downcast the found entry with `dynamic_cast`. The model returns the entry's index, and the payload is read with `GetValue`/`GetValues`.
- The accessors `desc`, `abbr` and `name` are declared only. They are modelled as datatype fields.
- String-view lifetimes, `unique_ptr` ownership and the deleted copy/move operations are left out.
- `RegisterError` carries the offending keys instead of the formatted message text.
- `add_req_value` and `add_req_list` declare an `optional_*` return type, but `add_required_arg` returns nothing. The model follows the bodies: `AddReqValue` and `AddReqList` return no handle.
- `Arguments.Takes`: `SIZE_MAX` is taken for a 64-bit `size_t`.
- The `int` counter of the list consumers cannot overflow, because it never exceeds `len`, itself an `int`. No wrap-around is modelled.
