# gcloud server helpers in Dafny

This project models three small pieces of the gcloud Go service framework. Each piece is self-contained string and sequence logic.

- **Validation-error flattener** (`utils/validator/mthValidator.go`). A translated validation error is keyed by its field namespace, such as `User.Address.City`. `removeTopStruct` drops the struct segment. `addValueToMap` nests the remaining dot-separated segments into a tree of maps. `handleErrMap` flattens the tree back into one `path.message` string, following one child per level. `ErrResp` applies this to the first error only.
- **Request-parameter helpers** (`plugins/server/http/gin/utils/utils.go`).
  - The required-parameter checks copy the value into the caller's variable. When the value is empty they answer the request with a validation error.
  - The form check falls back to the query value when the form value is empty.
  - `QueryArray` and `PostFormArray` split every raw value on commas and concatenate the pieces in order.
- **Logging and CORS middleware** (`plugins/server/http/gin/gin_server.go`).
  - `bodyLogWriter` copies every chunk a handler writes through `Write` into a buffer and forwards it.
  - The logged body is the buffer with newlines trimmed from both ends, cut when it is long, and replaced by `ignore...` for `/metrics`.
  - `cors` answers an OPTIONS request at once with 204.

The project has four modules, one per file:

| module | file | contents |
|---|---|---|
| `Text` | `text.dfy` | the parts of Go's `strings` package the code uses, with a one-character separator: `SplitN(s, sep, 2)`, `Split`, `Join`, `Count`, and their round trips |
| `Validator` | `validator.dfy` | `mthValidator.go` |
| `Params` | `params.dfy` | `utils.go` |
| `GinServer` | `gin_server.dfy` | `gin_server.go` |

The model takes these forms:

- **Go map order.** Go leaves the iteration order of a map unspecified. The methods that `range` over a map pick the next key with `:|`. They return the order they used as a ghost out-parameter, and their result is stated against a fold over the entries in that order (`AddAll`, `StripAll`).
- **Panics.** A Go runtime panic is the `Panic` outcome. This covers a failed type assertion, an index out of range and a slice out of range.
- **The request.** A `gin.Context` that a helper reads from is a `Request` value: the parsed query, form and header maps.
- **Results.** The JSON reply of a failed check is an optional returned `Reply`. The value stored through `v *string` is an out-parameter.
- **Body bytes.** Bodies are sequences of `byte`. The writers are classes whose methods append to a sequence field.

## Model

| member | source | states |
|---|---|---|
| Text.SplitN2 | utils/validator/mthValidator.go:91 | `strings.SplitN(s, ".", 2)` yields one part exactly when the separator is absent, and that part is the whole string |
| Text.SplitN2Parts | utils/validator/mthValidator.go:91 | when the separator occurs, the first part has no separator, and the first part, the separator and the second part rebuild the string |
| Text.SplitFirst | utils/validator/mthValidator.go:91 | `strings.Split` of a dotted string is the head before the first dot, followed by the split of the rest |
| Text.SplitLength | plugins/server/http/gin/utils/utils.go:74 | `strings.Split` yields one piece more than there are separators |
| Text.SplitPieces | plugins/server/http/gin/utils/utils.go:74 | no piece produced by `strings.Split` contains the separator |
| Text.JoinSplit | plugins/server/http/gin/utils/utils.go:74 | joining the pieces of a split with the separator gives back the string |
| Text.SplitJoin | plugins/server/http/gin/utils/utils.go:74 | splitting the join of non-empty-list, separator-free parts gives back the parts |
| Text.JoinAppend | plugins/server/http/gin/utils/utils.go:73-76 | joining two non-empty part lists puts exactly one separator between their joins |
| Validator.UnionPrefix | utils/validator/mthValidator.go:152-158 | `unionPrefix` gives `v` under an empty prefix and `prefix.v` otherwise, i.e. the dot-join of the non-empty prefix and `v` |
| Validator.JoinPathUnderPrefix | utils/validator/mthValidator.go:141-143 | descending through keys under a non-empty prefix yields the prefix, a dot, then the keys and the message joined with dots |
| Validator.JoinPathFromRoot | utils/validator/mthValidator.go:137-158 | descending from the empty prefix yields the keys (leading empty keys dropped) and the message joined with dots |
| Validator.FlatMessagePlain | utils/validator/mthValidator.go:123-135 | when the namespace has no empty segment after the struct name, the answer for `S.f1.….fn` is `f1.….f(n-1)` and the message joined with dots, or just the message when n = 1 |
| Validator.FlatMessageNested | utils/validator/mthValidator.go:123-135 | a field two levels down, `s.a.b`, is reported as `a.` followed by the message |
| Validator.AddValueToMap | utils/validator/mthValidator.go:88-109 | the loop visits every key of the map exactly once, in some order, and its outcome is the fold `AddAll` over the entries in that order; whatever the order, the only panic is the failed type assertion, and a completed map has exactly the first segments of the input keys as its keys |
| Validator.AddField | utils/validator/mthValidator.go:91-106 | one loop iteration: a dot-free key stores its message; `h.rest` stores the recursive result for `{rest: msg}` under `h`, or merges it into the map already there, or panics when a message is already there |
| Validator.MergeInto | utils/validator/mthValidator.go:95-98 | merging the recursive result into the entry under `h` panics on the type assertion when that entry is a message; otherwise it adds every entry of the result to that map, overwriting equal keys |
| Validator.AddAllOne | utils/validator/mthValidator.go:90-106 | a one-entry map gives `{key: msg}` for a dot-free key and `{h: tree of rest}` for `h.rest` |
| Validator.AddAllSnoc | utils/validator/mthValidator.go:90-107 | visiting one more entry performs one more loop step on the map built so far, unless the loop already panicked |
| Validator.AddAllPanicStays | utils/validator/mthValidator.go:97 | once the loop panics, later entries do not change the outcome |
| Validator.AddAllKeys | utils/validator/mthValidator.go:90-106 | the keys of the built map are exactly the first segments of the visited keys |
| Validator.HeadsEntries | utils/validator/mthValidator.go:90-91 | the first segments met along any visiting order are those of all the keys of the map |
| Validator.AddAllPanicReason | utils/validator/mthValidator.go:97 | the only panic `addValueToMap` can raise is the failed type assertion |
| Validator.LeafHasBareKey | utils/validator/mthValidator.go:95-104 | the built map holds a message under `h` only if a dot-free key `h` was visited |
| Validator.BareKeyStaysLeaf | utils/validator/mthValidator.go:95-104 | once a dot-free key `h` has been visited, `h` keeps holding a message while nothing panics; when no later entry repeats the key, as among the keys of a map, that message is the one stored for `h` |
| Validator.AddAllPanics | utils/validator/mthValidator.go:95-101 | `addValueToMap` panics exactly when a dot-free key `h` is visited before some key `h.rest` |
| Validator.OrderDecidesPanic | utils/validator/mthValidator.go:95-104 | the same two keys `h` and `h.a` panic in one visiting order and give `{h: message}` in the other |
| Validator.MergeSiblings | utils/validator/mthValidator.go:95-101 | paths `h.a` and `h.b` are merged into one child map `{a, b}` under `h` rather than overwriting it |
| Validator.SameHeadPair | utils/validator/mthValidator.go:95-101 | two paths under the same head give one entry under that head, holding the union of their subtrees |
| Validator.ShallowMerge | utils/validator/mthValidator.go:96-98 | the merge is one level deep: `h.a.y` visited after `h.a.x` replaces the whole subtree under `a` |
| Validator.RemoveTopStruct | utils/validator/mthValidator.go:112-120 | a key without a dot makes `fieldArr[1]` panic; otherwise the map is re-keyed by `StripAll` in the visiting order, and the result is `addValueToMap` of that map |
| Validator.StripAllRekeys | utils/validator/mthValidator.go:114-117 | every entry is re-keyed by the text after its first dot and keeps its message, unless a later entry has the same tail |
| Validator.StripAllKeys | utils/validator/mthValidator.go:114-117 | every key of the re-keyed map is the tail of some entry and carries that entry's message |
| Validator.StripSingle | utils/validator/mthValidator.go:112-117 | a one-entry map `{S.rest: msg}` is re-keyed to `{rest: msg}` |
| Validator.HandleErrMap | utils/validator/mthValidator.go:137-150 | a message or an empty map prints as `map[]` under the prefix; on a tree without empty maps it follows a leaf path and returns the path's keys (the leaf's own key dropped) and the message joined by `unionPrefix` |
| Validator.SingleShape | utils/validator/mthValidator.go:91-100 | the tree built for one field path has no empty map, and the path's segments lead to its message |
| Validator.SingleLeafPathUnique | utils/validator/mthValidator.go:139-143 | the tree of one field path has no other leaf path, so `handleErrMap`'s choice of child is forced |
| Validator.StripOne | utils/validator/mthValidator.go:112-120 | for a single error, `removeTopStruct` panics on a dot-free namespace and otherwise returns the tree of the namespace's tail |
| Validator.FlattenOne | utils/validator/mthValidator.go:130-132 | flattening the tree of one field path gives `FlatMessage` of its namespace and message |
| Validator.ErrResp | utils/validator/mthValidator.go:123-135 | a nil error panics on `err.Error()`; any other error gives its text; no validation errors panics on `errs[0:1]`; a dot-free first namespace panics in `removeTopStruct`; otherwise the answer is `FlatMessage` of the first error |
| Params.First | plugins/server/http/gin/utils/utils.go:12 | a parameter's value is its first value, or "" when it has none |
| Params.All | plugins/server/http/gin/utils/utils.go:70 | a parameter's values are all its values, or none when it is absent |
| Params.CheckParamsWithErrorMsg | plugins/server/http/gin/utils/utils.go:21-33 | `*v` always receives `str`; the check passes exactly when `str` is non-empty, and then writes no reply; on failure the reply is `errorMsg`, or the name followed by `不能为空` when `errorMsg` is empty |
| Params.CheckQueryParamsWithErrorMsg | plugins/server/http/gin/utils/utils.go:11-14 | the check applied to the query value |
| Params.CheckHeaderParamsWithErrorMsg | plugins/server/http/gin/utils/utils.go:16-19 | the check applied to the header value |
| Params.CheckPostFormParamsWithErrorMsg | plugins/server/http/gin/utils/utils.go:35-41 | the check applied to the form value, or to the query value when the form value is empty |
| Params.CheckQueryParams | plugins/server/http/gin/utils/utils.go:43-45 | the query check with an empty `errorMsg`, so a failure replies with the default message |
| Params.CheckPostFormParams | plugins/server/http/gin/utils/utils.go:47-49 | the form check with its query fallback and the default message |
| Params.CheckHeaderParams | plugins/server/http/gin/utils/utils.go:51-53 | the header check with the default message |
| Params.SplitValues | plugins/server/http/gin/utils/utils.go:71-78 | the loop appends the comma pieces of each raw value in turn, giving `FlattenSplit` of the raw values |
| Params.QueryArray | plugins/server/http/gin/utils/utils.go:69-79 | the result is the in-order comma pieces of all values of the query parameter |
| Params.PostFormArray | plugins/server/http/gin/utils/utils.go:80-90 | the result is the in-order comma pieces of all values of the form field |
| Params.FlattenSplitAppend | plugins/server/http/gin/utils/utils.go:73-76 | splitting works value by value: the pieces of `xs + ys` are those of `xs`, then those of `ys` |
| Params.FlattenSplitLength | plugins/server/http/gin/utils/utils.go:73-76 | each raw value contributes one piece more than it has commas |
| Params.FlattenSplitNoComma | plugins/server/http/gin/utils/utils.go:74-75 | no piece contains a comma |
| Params.FlattenSplitJoin | plugins/server/http/gin/utils/utils.go:73-76 | nothing is lost or reordered: the pieces joined with commas equal the raw values joined with commas |
| Params.FlattenSplitEmpty | plugins/server/http/gin/utils/utils.go:72-78 | there are no pieces exactly when there are no raw values |
| Params.FlattenSplitExample | plugins/server/http/gin/utils/utils.go:69-79 | the raw values `["a,b", "c"]` give `["a", "b", "c"]` |
| GinServer.Buffer.Write | plugins/server/http/gin/gin_server.go:42 | the buffer appends the whole chunk and reports its length |
| GinServer.ResponseWriter.Write | plugins/server/http/gin/gin_server.go:43 | the client receives the whole chunk |
| GinServer.BodyLogWriter.Write | plugins/server/http/gin/gin_server.go:40-44 | the chunk is appended to the capture buffer and forwarded to the wrapped writer, and its length is returned |
| GinServer.LoggingMiddleware | plugins/server/http/gin/gin_server.go:95-112 | after the handlers' writes, the client has received the chunks in order, the buffer holds exactly their concatenation, and the logged body is `LogBody` of it, or the placeholder for `/metrics` |
| GinServer.ConcatAppend | plugins/server/http/gin/gin_server.go:40-44 | the bytes of two runs of writes are the bytes of the first run, then those of the second |
| GinServer.TrimLeft | plugins/server/http/gin/gin_server.go:100 | the result is a suffix of the input, everything removed is a newline, and it does not start with a newline |
| GinServer.TrimRight | plugins/server/http/gin/gin_server.go:100 | the result is a prefix of the input, everything removed is a newline, and it does not end with a newline |
| GinServer.TrimNewlinesShape | plugins/server/http/gin/gin_server.go:100 | `strings.Trim(body, "\n")` is a slice of the body with only newlines cut at both ends and no newline left at either end |
| GinServer.TrimNewlinesUnique | plugins/server/http/gin/gin_server.go:100 | any such slice is the trimmed body, so the trim is fully determined |
| GinServer.TrimNewlinesIdempotent | plugins/server/http/gin/gin_server.go:100 | trimming twice removes nothing more |
| GinServer.LogBody | plugins/server/http/gin/gin_server.go:100-103 | the body is a prefix of the trimmed body, at most 1024 bytes long; it is the trimmed body exactly when that has at most 1024 bytes, and otherwise its first 1023 bytes |
| GinServer.LoggedBody | plugins/server/http/gin/gin_server.go:100-112 | a `/metrics` request logs `ignore...`; any other logs a prefix of its trimmed body; either way at most 1024 bytes |
| GinServer.Cors | plugins/server/http/gin/gin_server.go:88-92 | the request is aborted with 204 exactly when the method is `OPTIONS` (case-sensitive), and continues down the chain otherwise |

## Left out

- GinServer.LoggingMiddleware: `bodyLogWriter` overrides only `Write` (gin_server.go:40-44). Bytes written through the embedded writer's other methods, such as `WriteString`, reach the client without being copied into the buffer. The model covers writes made through `Write` only.
- `InitTrans` (mthValidator.go:20-86) and the validator and translator libraries are not modelled. `errs.Translate(trans)` is an input: each `FieldError` carries its namespace and its already translated message.
- `fmt.Println` at mthValidator.go:125 is output only and is not modelled.
- Validator.HandleErrMap: `fmt.Sprintf("%v", …)` is not modelled in general. Messages are strings, and the nil or empty map that lines 147 and 149 format is the constant `map[]`.
- Validator.ErrResp: the panic reasons are fixed strings that approximate the Go runtime messages. `errs[0:1]` on an empty set is taken to panic, which holds when the slice's capacity is also 0.
- Validator.ErrResp: the `return ""` branch (line 134) is kept, but it cannot be reached. A single error with a dotted namespace always leaves a non-empty map, and a dot-free namespace panics first.
- Validator.ErrResp: the plain formula `f1.….f(n-1).m` holds when no segment after the struct name is empty (`FlatMessagePlain`). Otherwise, as in the Go code, leading empty segments leave no trace, because `unionPrefix("", "")` is "". `FlatMessage` states the general case.
- Validator.HandleErrMap: the child it follows is chosen nondeterministically, standing for Go's map order. Its leaf-path result is stated for trees without empty maps. That holds for the tree built from one field path (`SingleShape`), the only tree `ErrResp` hands it; density of `addValueToMap`'s result for several fields is not proved. For one error the path is unique (`SingleLeafPathUnique`).
- Validator.AddValueToMap, Validator.RemoveTopStruct: an order is an enumeration of the keys. The model does not claim anything about which order Go picks.
- `url.QueryUnescape` is not modelled: the URI is an input taken already unescaped. Also not modelled are `time.Now`/`time.Since`, the logger, and the text of the log line apart from the body.
- `NewServer`, `Run`, `Shutdown`, signal handling, timeouts, Zipkin, Prometheus, pprof and the recovery middleware are not modelled. They are wiring, concurrency and foreign libraries.
- `SendJSON` and `ShouldBind` (utils.go:55-67) are not modelled; they delegate to gin. The `response.ValidateError` envelope module is not part of this model; only its message is kept.
- gin's parsing of the query string and form body is not modelled. Nor is its canonicalisation of header names: `GetHeader` looks the name up as given.
- GinServer.BodyLogWriter.Write: write errors of the wrapped writer are not modelled. Every write succeeds in full.
- GinServer.LogBody: the cut at 1023 bytes (`MAX_PRINT_BODY_LEN - 1`) is kept as written. It is a byte cut, and may split a multi-byte character.
- `strings.Split` and `strings.SplitN` are modelled for the one-character separators the code uses (`.` and `,`), not for general separators.
