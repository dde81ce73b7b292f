# ArraySerializator: a Dafny model of routing-schema compilation

This project models `ArraySerializator::serialize` of the Apitte REST core.
The function takes the controller graph produced by the schema builder and
compiles it into a flat routing schema. Each controller method with a
non-empty path becomes one endpoint record, holding:

- the handler: controller class, method name and arguments;
- the group ids and group paths;
- the full id: the group ids, the controller id and the method id joined
  with `.`, or no id at all when the method id is empty;
- the tags and the HTTP methods;
- the mask: the group paths, the controller path and the method path joined
  with `/`, runs of `/` collapsed, `/` trimmed from both ends, one `/` put in
  front;
- the parameters: one entry per distinct token name of the mask, scalar with no
  description by default, or with the type and description of the parameter
  the method declares under that name;
- the pattern: `#` + the mask with each token occurrence replaced by
  `(?P<name>[^/]+)` + `$/?\z#A`.

Modules, one file each:

- `Strings`: PHP `empty()` on strings, `implode` (`Join`) and its inverse
  `explode` (`Split`).
- `Schema`: the input graph (`Controller`, `Method`, `Parameter`,
  `Argument`) and the output record (`Endpoint`, `Handler`, `Group`,
  `ParamMeta`).
- `Mask`: mask composition, lines 36-43. `Helpers::slashless` becomes
  `Slashless` and `trim($mask, '/')` becomes `Trim`. The normal form of a mask
  is the predicate `IsNormalMask`.
- `FullId`: id composition, lines 47-56.
- `Placeholders`: placeholder compilation, lines 78-107.
  - `Scan` cuts the mask into literal characters and `{name}` tokens, matched
    left to right without overlap, as the pattern `{([a-zA-Z0-9\-_]+)}` does.
    The ungreedy flag `U` changes nothing, because `}` is not a name
    character.
  - `Replace` is the replace callback written as an explicit fold. It threads
    the pattern body so far and the parameter map so far, instead of writing
    into the record through a by-reference closure.
- `Serializator`: endpoint assembly, lines 20-114.
  - `Serialize` is the outer loop over the controllers.
  - `ControllerEndpoints` is the inner loop over one controller's methods,
    with the `continue` for an empty path.
  - Both accumulate a sequence and are proved against the function
    `SchemaOf`. The properties of `SchemaOf` are proved as lemmas: order,
    count, skipping, and where each record comes from.

Two behaviours of the code worth noting:

- `empty()` also holds for the string `"0"`, at lines 30 and 47. A method with
  path `"0"` is skipped, and a method with id `"0"` gets no id.
- A malformed placeholder, such as a brace with no name or an illegal
  character, is not an error. It is left in the pattern as literal text.

## Model

| member | source | states |
|---|---|---|
| `Strings.IsEmpty` | src/Schema/Serialization/ArraySerializator.php:30 | PHP `empty()` on a string: true for `""` and for `"0"`; a definition, used by the skip at line 30 and the id rule at line 47 |
| `Strings.Join` | src/Schema/Serialization/ArraySerializator.php:41 | `implode`: the parts with one separator between neighbours; `SplitJoin` and `JoinSplit` prove that `Split` inverts it |
| `Strings.JoinAppend` | src/Schema/Serialization/ArraySerializator.php:36-41 | imploding two non-empty part lists puts exactly one separator between the two joins |
| `Strings.SplitJoin` | src/Schema/Serialization/ArraySerializator.php:50-55 | when no part holds the separator, exploding the implode gives the parts back, empty parts included |
| `Strings.JoinSplit` | src/Schema/Serialization/ArraySerializator.php:55 | imploding the pieces of any string gives the string back |
| `Mask.Slashless` | src/Schema/Serialization/ArraySerializator.php:32-42 | the result holds no `//`, keeps the first character, and stays slash-only when the input is slash-only |
| `Mask.SlashlessFixed` | src/Schema/Serialization/ArraySerializator.php:42 | a string without `//` is left unchanged |
| `Mask.SlashlessCollapse` | src/Schema/Serialization/ArraySerializator.php:42 | rewriting one `//` to `/` anywhere does not change the result; with `SlashlessFixed` this makes it the collapse of every run of slashes |
| `Mask.Trim` | src/Schema/Serialization/ArraySerializator.php:43 | the result neither starts nor ends with `/`, keeps the absence of `//`, is empty for a slash-only input, and is never longer than the input |
| `Mask.TrimFixed` | src/Schema/Serialization/ArraySerializator.php:43 | a string that neither starts nor ends with `/` is left unchanged |
| `Mask.Normalize` | src/Schema/Serialization/ArraySerializator.php:42-43 | collapsing, trimming and prefixing always gives a mask in normal form: one leading `/`, no `//`, and a trailing `/` only for the root mask `/` |
| `Mask.ComposeMask` | src/Schema/Serialization/ArraySerializator.php:36-43 | the composed mask is in normal form, whatever the segments are |
| `Mask.NormalizeIgnoresEmptySegment` | src/Schema/Serialization/ArraySerializator.php:41-43 | inserting an empty segment anywhere in the imploded list leaves the normalized mask unchanged |
| `Mask.MaskIgnoresEmptyGroupPath` | src/Schema/Serialization/ArraySerializator.php:36-43 | inserting an empty group path at any position gives the same mask |
| `Mask.MaskIgnoresEmptyControllerPath` | src/Schema/Serialization/ArraySerializator.php:36-43 | an empty controller path gives the mask of the group paths and the method path alone |
| `Mask.NormalizeFixed` | src/Schema/Serialization/ArraySerializator.php:42-43 | a mask already in normal form normalizes to itself |
| `Mask.ComposeMaskIdempotent` | src/Schema/Serialization/ArraySerializator.php:36-43 | a composed mask used as the only path composes to itself |
| `Mask.MaskOfSlashes` | src/Schema/Serialization/ArraySerializator.php:36-43 | when every segment is empty or made only of slashes, the mask is the root `/` |
| `Mask.NormalizePlain` | src/Schema/Serialization/ArraySerializator.php:41-43 | when every segment is non-empty and holds no `/`, normalization only puts `/` in front of the join |
| `Mask.MaskOfPlainSegments` | src/Schema/Serialization/ArraySerializator.php:36-43 | when every path is non-empty and holds no `/`, the mask is `/` followed by the paths joined with `/` |
| `Mask.MaskExampleNested` | src/Schema/Serialization/ArraySerializator.php:36-43 | `(["api", "v1"], "users", "{id}")` gives `/api/v1/users/{id}` |
| `Mask.MaskExampleEmptySegments` | src/Schema/Serialization/ArraySerializator.php:36-43 | the segments `["", "foo", "", "bar"]` give `/foo/bar` |
| `Mask.MaskLetters` | src/Schema/Serialization/ArraySerializator.php:36-43 | the characters of the mask other than `/` are exactly those of the segments, in segment order: composition only adds, merges and drops slashes |
| `FullId.ComposeId` | src/Schema/Serialization/ArraySerializator.php:47-56 | the id is absent exactly when the method id is empty, where `"0"` counts as empty, whatever the group and controller ids are |
| `FullId.IdSegments` | src/Schema/Serialization/ArraySerializator.php:50-55 | a present id splits at `.` into exactly the group ids, the controller id and the method id, empty segments kept, when no segment holds a `.` |
| `FullId.IdExamples` | src/Schema/Serialization/ArraySerializator.php:47-55 | `(["admin"], "users", "")` gives no id; `(["admin"], "users", "list")` gives `admin.users.list` |
| `Placeholders.NameRun` | src/Schema/Serialization/ArraySerializator.php:78 | the longest prefix made of name characters `[a-zA-Z0-9\-_]`: every character of it is one, and the next one is not |
| `Placeholders.Scan` | src/Schema/Serialization/ArraySerializator.php:78 | the match scan: never more pieces than characters, and no pieces only for the empty mask; `ScanSource`, `ScanTokens` and `ScanFindsOccurrence` state what the pieces are |
| `Placeholders.TokenAt` | src/Schema/Serialization/ArraySerializator.php:78 | a token reported at the start of the text is a `{`, a non-empty name and a `}` |
| `Placeholders.TokenAtComplete` | src/Schema/Serialization/ArraySerializator.php:78 | every token at the start of the text is the one reported there |
| `Placeholders.ScanSource` | src/Schema/Serialization/ArraySerializator.php:78 | the scanned pieces spell out the mask: no character is lost, added or moved |
| `Placeholders.ScanFindsOnlyTokens` | src/Schema/Serialization/ArraySerializator.php:78 | every name the scan reports is the name of a `{name}` token occurring in the mask |
| `Placeholders.ScanFindsOccurrence` | src/Schema/Serialization/ArraySerializator.php:78 | every occurrence of a `{name}` token in the mask, a repeated name at each of its occurrences, becomes a token piece of the scan, and the pieces before it spell out exactly the text before the occurrence |
| `Placeholders.ScanFindsAllTokens` | src/Schema/Serialization/ArraySerializator.php:78 | the name of every `{name}` token occurring in the mask is reported by the scan |
| `Placeholders.ScanTokens` | src/Schema/Serialization/ArraySerializator.php:78 | the names the scan reports are exactly the names of the tokens occurring in the mask |
| `Placeholders.Fragment` | src/Schema/Serialization/ArraySerializator.php:82 | the capture fragment `(?P<name>[^/]+)` of a name; a definition, used by `Metadata` and `Render` |
| `Placeholders.Metadata` | src/Schema/Serialization/ArraySerializator.php:85-97 | the entry of a name holds the name and its fragment, the declared type and description when the method declares the name, and otherwise the scalar type and no description |
| `Placeholders.Step` | src/Schema/Serialization/ArraySerializator.php:78-104 | one call of the replace callback: a literal is appended as it is; a token appends its fragment and writes its metadata under its name. `ReplaceBody` and `ReplaceParameters` state its effect over a whole fold |
| `Placeholders.Replace` | src/Schema/Serialization/ArraySerializator.php:78-104 | `Regex::replaceCallback` as a left fold of `Step` over the pieces, in order; its contract is stated by `ReplaceBody` and `ReplaceParameters` |
| `Placeholders.Compile` | src/Schema/Serialization/ArraySerializator.php:78-104 | the fold over the scan of the mask, starting from an empty body and no parameters; its contract is stated by `CompileSpec` |
| `Placeholders.FinalPattern` | src/Schema/Serialization/ArraySerializator.php:107 | `#` + body + `$/?\z#A`; a definition, used by `Serializator.BuildSpec` |
| `Placeholders.ReplaceBody` | src/Schema/Serialization/ArraySerializator.php:78-104 | the fold appends, in order, each literal character as itself and each token as its fragment `(?P<name>[^/]+)` |
| `Placeholders.ReplaceParameters` | src/Schema/Serialization/ArraySerializator.php:84-100 | the fold adds exactly the token names to the parameter map; each of their entries is the token's metadata, and for a repeated name one entry remains, the one the last occurrence wrote |
| `Placeholders.CompileReplacesEveryOccurrence` | src/Schema/Serialization/ArraySerializator.php:78-104 | each occurrence of a token, a repeated name at each of its occurrences, is replaced by its fragment: the body is the rendering of the text before the occurrence, the fragment, and the rendering of the rest |
| `Placeholders.CompileSpec` | src/Schema/Serialization/ArraySerializator.php:78-100 | the body is the mask with every token occurrence replaced by its fragment, each occurrence at its own place; the keys are exactly the token names in the mask; each entry has the token's name and fragment, with the declared type and description when the method declares that name, and otherwise the scalar type and no description |
| `Placeholders.CompileWithoutTokens` | src/Schema/Serialization/ArraySerializator.php:78-104 | a mask without tokens compiles to itself, with no parameters |
| `Placeholders.CompileUsesOnlyTokenDeclarations` | src/Schema/Serialization/ArraySerializator.php:92-97 | declared parameters without a token in the mask are ignored: two declaration maps that agree at the token names give the same result |
| `Serializator.Build` | src/Schema/Serialization/ArraySerializator.php:58-107 | the record of one routable method; its contents are stated by `BuildSpec` |
| `Serializator.Records` | src/Schema/Serialization/ArraySerializator.php:58-110 | one record per route, the k-th being the record of the k-th route |
| `Serializator.SchemaOf` | src/Schema/Serialization/ArraySerializator.php:24-110 | the schema: the records of the routable methods of all controllers; `SchemaAppend`, `SchemaOfMethod`, `SchemaCount` and `SchemaRecordOrigin` state its order, skipping, count and origin |
| `Serializator.Serialize` | src/Schema/Serialization/ArraySerializator.php:20-114 | the loop over the controllers returns the schema of the controller list: the records of all routable methods, in controller order and then in method order |
| `Serializator.ControllerEndpoints` | src/Schema/Serialization/ArraySerializator.php:27-111 | the loop over one controller's methods, skipping every method with an empty path, returns the records of that controller's routable methods, in method order |
| `Serializator.RoutesAround` | src/Schema/Serialization/ArraySerializator.php:27-30 | a method with an empty path adds no route; any other adds exactly one, between the routes of the methods before it and those after it |
| `Serializator.SchemaOfMethod` | src/Schema/Serialization/ArraySerializator.php:27-110 | in the schema of one controller, a method with an empty path produces no record, and any other produces exactly its own record at its own place |
| `Serializator.SchemaAppend` | src/Schema/Serialization/ArraySerializator.php:24-112 | the schema of two concatenated controller lists is the concatenation of their schemas, so records keep controller order |
| `Serializator.SchemaCount` | src/Schema/Serialization/ArraySerializator.php:24-30 | the schema has exactly one record per method with a non-empty path |
| `Serializator.SchemaRecordOrigin` | src/Schema/Serialization/ArraySerializator.php:24-110 | every record of the schema is the record of some method, with a non-empty path, of some controller of the input |
| `Serializator.BuildSpec` | src/Schema/Serialization/ArraySerializator.php:47-107 | handler, group, tags and HTTP methods are copied from the input; the mask is the composed mask, in normal form; the id is the full id of lines 47-56, absent exactly when the method id is empty; the parameter keys are exactly the tokens of the mask and each entry is that token's metadata (name, fragment, declared or default type and description); the pattern is `#` + the rendered mask + `$/?\z#A` |

## Left out

- Regex matching: the pattern is built as a string, and nothing is stated
  about what it matches under PCRE, including the flags `U` and `A` and the
  anchor `\z`. Because `$` stands before `/?`, it is doubtful that a trailing
  slash is ever matched. The model makes no claim either way.
- The code of `Helpers::slashless` and `Regex::replaceCallback` is not
  modelled; their effect is: the collapse of runs of `/`
  described at lines 32-35, and one callback call per token match, left to
  right, of the pattern at line 78. Errors that `Regex` may raise are not
  modelled.
- The schema builder, controller and method discovery, and annotation
  parsing only produce the input graph. The model takes that graph as plain
  datatypes.
- The `EndpointParameter::TYPE_*` constants are an enum: the scalar default,
  and any other constant by name. `OtherType` is never given the scalar
  constant's name; the model does not rule that out by its type. The
  `SchemaMapping` keys are record field names.
- PHP associative arrays keep insertion order. The model's parameter map is
  a `map` with one entry per name, and the order of the entries is not
  modelled.
- PHP turns a numeric-string array key, such as the name of the token
  `{12}`, into an integer key. The model's `map<string, ParamMeta>` keeps every
  name as a string and does not capture that conversion.
- Serialize: the nested loop is written as two methods, the inner loop being
  `ControllerEndpoints`, to keep each proof small. Together they compute the
  same sequence.
- Serializator.Build does not fill the pattern field first with the mask and
  then overwrite it (lines 74 and 107). It writes the final pattern
  directly, since the intermediate value is never observed.
- Strings are sequences of characters. PHP strings are bytes, which makes no
  difference to the operations modelled.
- Tags, arguments and HTTP methods are carried as opaque sequences and
  copied unchanged.
