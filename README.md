# TiDB JSON functions engine, modelled in Dafny

This project models the query and mutation engine behind TiDB's
MySQL-compatible `JSON_*` SQL functions (`util/types/json/functions.go`):

- the JSON value tree and `JSON_TYPE`'s type names;
- `JSON_UNQUOTE`'s byte-level escape decoder;
- the path matcher `extract` and the multi-path `Extract` of `JSON_EXTRACT`,
  with key and index access, the `.*` and `[*]` wildcards and the
  recursive descent `**`;
- `Merge` (`JSON_MERGE`) and its four folding rules;
- `SetInsertReplace` and `set` (`JSON_INSERT`, `JSON_REPLACE`, `JSON_SET`)
  under the insert/replace bit policy.

Modules, one per file:

| file | module | contents |
|---|---|---|
| `json_value.dfy` | `JsonValue` | the `JSON` datatype, bytes, `TypeName`, bytewise key order, `SortedKeys`, the descendant relation |
| `json_path.dfy` | `JsonPath` | legs and paths, the wildcard test, `Lookup` along a wildcard-free path |
| `json_unquote.dfy` | `JsonUnquote` | `UnquoteSpec`, the `UnquoteString` loop, `Unquote`, and an escaper as the inverse |
| `json_extract.dfy` | `JsonExtract` | `ExtractPath`/`ExtractChildren` (`extract`), the `Extract` loop, the `Selects` semantics |
| `json_merge.dfy` | `JsonMerge` | `MergeStep`/`MergeFold`, the `Merge` loop, a full characterization of the fold |
| `json_modify.dfy` | `JsonModify` | `Set` (`set`), `SetAll`, the `SetInsertReplace` loop, laws of the rewrite |

The value is a datatype: `Object(map<Key, JSON>)`, `Array(seq<JSON>)`,
`Literal(byte)`, `Int64`, `Float64` and `String(seq<byte>)`. Null and the
booleans share `Literal` and are told apart by the marker byte. Keys and
strings are byte sequences. Wildcards and `**` visit object members in
ascending bytewise key order (`KeyLess`), the order of Go's `sort.Strings`.

The Go code changes values in place through `*j`. The model uses value
semantics instead: `Merge` and `SetInsertReplace` are methods that return the
new root, and `set` is a function that returns the rewritten value. The loops
stay loops: the `unquoteString` byte scanner, `Extract`'s path loop, `Merge`'s
suffix loop with its retry, its element-append loop and its member-copy loop,
and `SetInsertReplace`'s pair loop. Each loop method is proved equal to a
specification function. The lemmas state what the source promises about that
function.

Where the code and its description disagree, the model follows the code:

- A `\uXXXX` escape does not decode the hex digits. The rune is decoded from
  the slice that starts at the backslash, so it is always the one-byte rune
  `\`. The escape therefore emits one backslash byte and skips the four bytes
  after the `u` (`UnicodeEscape`). The hex digits are never checked, so no
  error comes from them.
- Under the insert-only policy, writing an existing object key overwrites it
  (`SetInsertWritesKey`). An existing array index gets the value appended at
  the end instead (`SetInsertAppends`). A path of two or more legs changes
  nothing, because descending into a child needs the replace bit
  (`SetWithoutReplaceIsShallow`).

## Model

| member | source | states |
|---|---|---|
| `JsonValue.TypeName` | util/types/json/functions.go:25-48 | every value has one of the seven type names; "NULL" exactly for the nil literal, "BOOLEAN" exactly for any other literal, and one name per remaining variant |
| `JsonValue.SortedKeys` | util/types/json/functions.go:145-146 | the object's keys, each exactly once, in strictly ascending bytewise order |
| `JsonExtract.ExtractPath` | util/types/json/functions.go:129-167 | the matcher `extract` itself, leg by leg; every match is the value itself or one of its descendants. `ExtractSelects` states exactly which values it returns, and `DescentIsPreOrder` and the wildcard lemmas state their order |
| `JsonExtract.ExtractChildren` | util/types/json/functions.go:134-164 | the loops of `extract` over array elements and over members in sorted-key order; every match lies below the value. `ChildrenSelect` characterizes the result exactly |
| `JsonExtract.ExtractSelects` | util/types/json/functions.go:129-167 | `extract` returns exactly the values the path selects: each leg steps to a fitting child, `.*`/`[*]` to any child, `**` to any descendant or the value itself; mismatched legs, missing keys and out-of-range indexes select nothing |
| `JsonExtract.ChildrenSelect` | util/types/json/functions.go:134-164 | the loops over children collect exactly what the path selects in some array element or member value |
| `JsonExtract.ExtractWithoutAsterisk` | util/types/json/functions.go:129-152 | a path without wildcards matches at most one value: the one its keys and indexes lead to, or none |
| `JsonExtract.IndexWildcardInOrder` | util/types/json/functions.go:135-138 | a final `[*]` lists the array's elements in index order |
| `JsonExtract.KeyWildcardInKeyOrder` | util/types/json/functions.go:144-148 | a final `.*` lists one match per member, the i-th being the value of the i-th key in ascending order |
| `JsonExtract.DescentIsPreOrder` | util/types/json/functions.go:153-164 | the path `$**` lists every node of the document in pre-order, children in index or ascending key order |
| `JsonExtract.KeyWildcardExample` | util/types/json/functions.go:144-148 | `$.*` over {"b": 1, "a": 2} matches [2, 1] |
| `JsonExtract.DescentThroughObject` | util/types/json/functions.go:153-164 | `$**.b` over {"a": {"b": 1}} matches [1] |
| `JsonExtract.DescentThroughArray` | util/types/json/functions.go:153-164 | `$**.b` over [1, {"b": 2}] matches [2] |
| `JsonExtract.Extract` | util/types/json/functions.go:53-71 | not found exactly when no path matches; one path with one match returns it unwrapped; otherwise an array of all matches in path order, then match order |
| `JsonExtract.MatchesAppend` | util/types/json/functions.go:54-57 | the matches of a list of paths are the matches of its parts, concatenated in order |
| `JsonExtract.MatchesFound` | util/types/json/functions.go:53-59 | something is found exactly when some path selects some value (so an empty path list finds nothing) |
| `JsonExtract.SinglePathUnwrapped` | util/types/json/functions.go:60-64 | one wildcard-free path that resolves yields the single match that `Extract` returns unwrapped |
| `JsonUnquote.UnquoteSpec` | util/types/json/functions.go:85-125 | a successful decoding is never longer than its input |
| `JsonUnquote.UnquoteString` | util/types/json/functions.go:85-125 | the byte loop with its hand-advanced index computes `UnquoteSpec` |
| `JsonUnquote.Unquote` | util/types/json/functions.go:74-81 | a string is decoded; any other value is returned as its rendering, without error |
| `JsonUnquote.UnquoteWithoutBackslash` | util/types/json/functions.go:120-122 | a string without a backslash decodes to itself |
| `JsonUnquote.UnquoteConcat` | util/types/json/functions.go:87-123 | once a prefix decodes completely, the rest decodes independently and the results concatenate |
| `JsonUnquote.TrailingBackslash` | util/types/json/functions.go:88-92 | a lone backslash at the end of a completely decoded prefix is the missing-quote error |
| `JsonUnquote.UnicodeEscape` | util/types/json/functions.go:108-116 | `\u` plus four bytes emits one backslash and resumes after those six bytes; with fewer than four bytes after the `u` it is the invalid-unicode error |
| `JsonUnquote.EscapedByte` | util/types/json/functions.go:93-119 | the selector table: exactly `\b`, `\f`, `\n`, `\r` and `\t` stand for a different byte, always a control byte; every other selector stands for itself. `UnquoteEscape` shows the table inverts the escaper |
| `JsonUnquote.EscapeByte` | util/types/json/functions.go:93-107 | each byte of the escape table has a two-byte escape whose selector decodes back to it; any other byte stands for itself |
| `JsonUnquote.UnquoteEscape` | util/types/json/functions.go:93-107 | decoding undoes escaping: every byte string survives escape then unquote |
| `JsonUnquote.UnquoteExamples` | util/types/json/functions.go:93-119 | `\n` gives a newline, `\\` a backslash, the unknown `\q` the letter q, and a trailing backslash fails |
| `JsonMerge.Autowrap` | util/types/json/functions.go:175-182 | the base becomes an array or object, and an array or object is left as it is |
| `JsonMerge.MergeStep` | util/types/json/functions.go:185-210 | one merge step yields an array or object, an object exactly when base and suffix are both objects |
| `JsonMerge.MergeFold` | util/types/json/functions.go:183-211 | the fold over the suffixes always yields an array or an object |
| `JsonMerge.Merge` | util/types/json/functions.go:174-213 | the loop, with its element and member loops and its re-wrap retry, computes the fold over the wrapped base |
| `JsonMerge.MergeIntoArray` | util/types/json/functions.go:186-195 | an array base gains, in order, every element of each array suffix and every other suffix as one element |
| `JsonMerge.MergeObjects` | util/types/json/functions.go:196-201 | an object base with object suffixes becomes their member-wise union, later members winning |
| `JsonMerge.MergeObjectThenOther` | util/types/json/functions.go:202-209 | at the first non-object suffix the union so far becomes the first element of an array, and that suffix and all later ones are still merged into it |
| `JsonMerge.MergeSplit` | util/types/json/functions.go:183-211 | merging a list of suffixes equals merging its first part, then the rest |
| `JsonMerge.MergeExamples` | util/types/json/functions.go:169-173 | [1,2]+[3] is [1,2,3]; {"a":1}+{"a":2,"b":3} is {"a":2,"b":3}; {"a":1}+5 is [{"a":1},5]; 1+2 is [1,2] |
| `JsonModify.Set` | util/types/json/functions.go:247-268 | a non-empty path keeps the root's kind, leaves scalars alone, changes an array's length by at most one appended element, and adds at most one key to an object |
| `JsonModify.FirstAsterisk` | util/types/json/functions.go:235-240 | the position of the first path with a wildcard; no path before it has one |
| `JsonModify.SetInsertReplace` | util/types/json/functions.go:230-245 | unequal counts fail with nothing changed; otherwise the pairs before the first wildcard path are applied in order, and the call fails exactly when such a path exists |
| `JsonModify.SetAllSnoc` | util/types/json/functions.go:235-243 | applying one more pair rewrites the result of the pairs before it |
| `JsonModify.SetReplacesExisting` | util/types/json/functions.go:252-265 | with the replace bit, an existing target afterwards holds the new value |
| `JsonModify.SetSkipsMissing` | util/types/json/functions.go:252-267 | without the insert bit, a missing target leaves the value unchanged |
| `JsonModify.SetWithoutReplaceIsShallow` | util/types/json/functions.go:252-267 | without the replace bit, a path of two or more legs leaves the value unchanged |
| `JsonModify.SetInsertAppends` | util/types/json/functions.go:256-257 | inserting at any index appends the value at the array's end unless the index exists and replacing is allowed |
| `JsonModify.SetInsertWritesKey` | util/types/json/functions.go:263-264 | inserting a key writes it into the object, an existing key included, unless it exists and replacing is allowed |
| `JsonModify.SetUnreachableParent` | util/types/json/functions.go:252-267 | whatever the policy, a path whose last leg's parent is missing, or is not an array (index leg) or object (key leg), leaves the value unchanged |
| `JsonModify.UnreachableExamples` | util/types/json/functions.go:252-267 | under the set policy, an index leg on an object changes nothing, and neither does `$.a.b` when `a` is missing |
| `JsonModify.SetKeepsRootShape` | util/types/json/functions.go:252-265 | with the replace bit, rewriting through an existing first step keeps the root's kind, array length and key set: only that one slot is rewritten |
| `JsonModify.SetKeepsAncestors` | util/types/json/functions.go:247-268 | with the replace bit, every value on the way to an existing step of the path keeps its kind, array length and key set, so no ancestor of the target gains or loses an element or member |
| `JsonModify.ReplaceNestedMember` | util/types/json/functions.go:259-264 | replacing an existing `$.a.b` gives exactly the old object with member b of member a set to the new value, and no other change |
| `JsonModify.SetFrame` | util/types/json/functions.go:247-268 | every existing value at a path that parts from the written path is unchanged |
| `JsonModify.ReplaceOnlyMissingTargets` | util/types/json/functions.go:235-243 | replace-only over missing targets changes nothing |
| `JsonModify.ReplaceThenExtract` | util/types/json/functions.go:247-268 | after replacing an existing target, extracting its path gives exactly the new value |

## Left out

- `JSON.String()`, the serialiser that `Unquote` uses for non-strings, is defined in a file that is not part of this model. `Unquote` takes the rendering as a function parameter.
- Path-text parsing and the helpers defined in other files (`popOneLeg`, the wildcard flags, `getSortedKeys`, `CreateJSON`) are not part of this model. Popping a leg is head and tail of the leg sequence. The wildcard flags are "some leg is `.*`, `[*]` or `**`". Sorted keys are the duplicate-free, bytewise-sorted key sequence.
- The byte values of the literals (`jsonLiteralNil` and the booleans) are defined in a file that is not part of this model. The model takes nil as 0x00; only equality with the nil byte matters.
- `unicode/utf8` internals are not modelled. The `\u` branch is stated by its effect: the decoded slice starts with the ASCII backslash, so the branch emits that one byte.
- Float64 values are carried as opaque bit patterns with no numeric behaviour.
- The panic on an unknown type code is unreachable: the datatype is closed.
- Go slice and map aliasing is not modelled. This covers results of `extract` that share storage with the document, and the backing arrays shared by `Merge` and `set`. Data races are left out too. `Merge` and `SetInsertReplace` return the new root instead of writing through `*j`.
- The loop that copies an object suffix's members in `Merge` goes through the keys in Go's unspecified map order. The model picks the keys in an arbitrary order; the result does not depend on it.
- Error message texts and the SQL error codes of the TODO comments are left out. Errors are the constructors of `UnquoteError` and `SetError`.
- `Extract`'s `ret` when nothing is found is Go's invalid zero value. The model returns `None` for "not found".
- `Set` is modelled only for wildcard-free paths, the only paths `SetInsertReplace` passes to `set`. What `set` would do with a wildcard leg is not modelled: it depends on the policy and on the index value that stands for `[*]`, which is defined in a file that is not part of this model.
- Exhausting the call stack on deeply nested documents is not modelled.
