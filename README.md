# Stanley: condition type resolution and annotation extraction

Stanley is a compiler plugin that verifies functions annotated with a precondition and a
postcondition, written as `#[condition(pre = "...", post = "...")]`. This project models the
part of its pass that runs before any solver is involved:

- **Annotation extraction** (`parse_attributes`). It scans the attributes of a function and
  collects the `pre` and `post` strings. Only list attributes are scanned, and within them
  only `name = "string"` items. Both strings default to `""`, and a later item overwrites an
  earlier one. Any other parameter name makes the pass panic.
- **Argument lookup** (`get_argument_type`). It scans the argument declarations for the
  first one with a given name and returns its type, or `Unknown` when there is none. It
  unwraps each argument's name on the way, so it panics on an unnamed (pattern) argument
  that it reaches before a match.
- **Type resolution** (`walk_and_replace`). It rebuilds a condition's expression tree.
  Every variable whose type is still `Unknown` gets a type: `ret` gets the function's return
  type, and any other name gets the argument lookup's result. Everything else is kept.

Modules:

- `Ast` (`ast.dfy`): the expression tree and types, plus the views `Vars`, `Resolved` and
  `SameShape` that the properties are stated with.
- `Syntax` (`syntax.dfy`): the attribute syntax, reduced to what the scan inspects.
- `Outcome` (`outcome.dfy`): the result type. `Err(UnwrapOnNone)` and
  `Err(UnsupportedParameter(name))` stand for the two panics.
- `Resolve` (`resolve.dfy`): the argument lookup and type resolution.
- `Attributes` (`attributes.dfy`): annotation extraction.

The pass's data is reduced to a `MirData` value. It holds the argument, local and temporary
declarations, each a name (absent for a pattern argument) and a `Types` value, and the
return type. The mapping from compiler types to `Types` (`ast::type_to_enum`) is taken as
already applied.

Where the design description and the code differ, the model follows the code:

- A name that matches no argument is not an error during resolution. It keeps the type
  `Unknown`.
- Locals and temporaries are collected, but resolution never consults them.
- A `ret` variable gets the return type even when an argument is also called `ret`.
- An annotation parameter other than `pre` or `post` is a panic, not a skipped function.

## Model

| member | source | states |
|---|---|---|
| `Resolve.ArgumentType` | stanley-lib/src/lib.rs:135-145 | a type other than `Unknown` is the type of an argument with exactly that name; with every argument named the lookup never panics; a panic is always the unwrap of an unnamed argument |
| `Resolve.ArgumentTypeFirstMatch` | stanley-lib/src/lib.rs:136-142 | the first argument with the wanted name decides the type, whatever later arguments say |
| `Resolve.ArgumentTypeNoMatch` | stanley-lib/src/lib.rs:136-144 | when every argument is named and none has the wanted name, the type is `Unknown` |
| `Resolve.ArgumentTypeUnnamed` | stanley-lib/src/lib.rs:136-138 | an unnamed argument reached before any match makes the lookup panic |
| `Resolve.GetArgumentType` | stanley-lib/src/lib.rs:135-145 | the scan with early return computes exactly the lookup above, reading only the argument list |
| `Resolve.WalkAndReplace` | stanley-lib/src/lib.rs:147-176 | a successful resolution keeps the tree's shape: the same constructors, binary and unary operators, literals and variable names in the same places; its only panic is the argument unwrap |
| `Resolve.WalkAndReplaceVars` | stanley-lib/src/lib.rs:149-161 | occurrence by occurrence, variable names are kept, known types are kept, an `Unknown` variable named `ret` gets the return type (whether or not an argument is called `ret`), and any other `Unknown` variable gets the argument lookup's type |
| `Resolve.WalkAndReplacePanics` | stanley-lib/src/lib.rs:147-176 | resolution panics exactly when some `Unknown` variable other than `ret` makes the argument lookup panic |
| `Resolve.NamedArgumentsNeverPanic` | stanley-lib/src/lib.rs:137-141 | when every argument has a name, resolution always succeeds |
| `Resolve.WalkAndReplaceResolved` | stanley-lib/src/lib.rs:149-161 | a tree with no `Unknown` variable comes back unchanged |
| `Resolve.WalkAndReplaceIdempotent` | stanley-lib/src/lib.rs:147-176 | resolving the result of a resolution again, with the same arguments and return type, gives the same tree |
| `Resolve.WalkAndReplaceIgnoresLocals` | stanley-lib/src/lib.rs:135-157 | locals and temporaries never change the outcome: only the arguments and the return type are consulted |
| `Resolve.WalkAndReplaceResolves` | stanley-lib/src/lib.rs:149-161 | the resolved tree has no `Unknown` variable exactly when every `Unknown` variable of the input is `ret` with a known return type, or names an argument found with a known type |
| `Attributes.LastValueAbsent` | stanley-lib/src/lib.rs:186-187 | with no parameter of a given name, that condition string stays `""` |
| `Attributes.LastValueIsLast` | stanley-lib/src/lib.rs:196-198 | a condition string is the value of the last parameter with its name; later ones overwrite earlier ones |
| `Attributes.ItemParamsMembers` | stanley-lib/src/lib.rs:191-194 | a list item contributes a parameter exactly when it is a name-value item with a string literal |
| `Attributes.StringParamsMembers` | stanley-lib/src/lib.rs:189-195 | a parameter is collected exactly when some list attribute holds a name-value item with that name and string; other items, other literals and other attributes contribute nothing |
| `Attributes.ParseItems` | stanley-lib/src/lib.rs:191-204 | the inner scan over one list attribute continues the outer scan: it panics at the first unsupported name, and otherwise leaves `pre` and `post` at their last values |
| `Attributes.ParseAttributes` | stanley-lib/src/lib.rs:185-209 | the result is an error exactly when some string parameter is named neither `pre` nor `post`, and then names the first such parameter; otherwise it is the pair of the last `pre` and last `post` values, each `""` when absent |

## Left out

- Plugin registration and the compiler pass entry (`plugin_registrar`, `run_pass`) are
  compiler glue. This includes copying blocks and declarations into `MirData` and the check
  that skips a function when either condition string is empty.
- `gen_smtlib` asks the Z3 solver a fixed query and ignores its expression argument. There
  is no behaviour of the pass to model there.
- `parse_condition` only wraps the generated parser, and `condition_parser` is not part of
  this model.
- `ast::ty_check` and `ast::type_to_enum` are not part of this model. Their module is not
  available, and `type_to_enum` depends on the compiler's types. Each declaration carries an
  already mapped `Types` value instead.
- The weakest-precondition and verification-condition construction is commented out in the
  source and is not modelled.
- `Types` has only `Int`, `Bool` and `Unknown`, and literals are only integers and booleans,
  because `ast.rs` is not available. The properties do not depend on which other types or
  literals exist.
- Literal kinds other than strings, integers and booleans (byte strings, characters,
  floats) are not distinguished. The scan treats all non-string literals alike.
- Spans, the panic messages' text and the attribute's own name are not modelled. The scan
  never looks at the attribute's name.
