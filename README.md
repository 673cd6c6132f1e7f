# local-image-sharp request handler, modelled in Dafny

This project models the core of the Strapi plugin `local-image-sharp`: the
Koa middleware that serves on-the-fly transformed images. It covers
`src/middleware.js`, which has two parts.

- `parseImageUrl` takes a request URL and produces the asset id and the
  modifier object. The path loses its first `uploads/` and is split on `/`.
  The last segment is the id. The segment before it, unless it is empty or
  `_`, holds comma-separated `key_value` directives. Otherwise a non-empty
  query string gives the modifiers. Otherwise the modifiers are `null`.
- `ipxMiddleware` is the handler that `createMiddleware(ipx)` returns. It
  does one of three things:
  - it lets the request through to the next middleware;
  - it answers from the disk cache, keyed by the hash of `{id, modifiers}`,
    with ETag / `If-None-Match` 304s;
  - it asks the IPX engine for the source metadata and the converted image,
    sets Last-Modified, Cache-Control, ETag and Content-Type, answers 304
    when a conditional header matches, writes the cache in the background,
    and maps engine errors to a status code.

Files:

- `wrappers.dfy` is `Option`.
- `js_string.dfy` models the JavaScript string operations the code relies on:
  - `String.prototype.split` with a one-character separator;
  - `replace` with a string pattern, which replaces the first occurrence only;
  - `toUpperCase` on ASCII;
  - `parseInt(_, 10)`;
  - integer-to-decimal conversion, as in `${+n}`.
- `modifiers.dfy` models a modifier object as a sequence of key/value pairs in
  insertion order. Assigning `obj[k] = v` replaces a key in place or appends a
  new one.
- `url_parser.dfy` holds `parseImageUrl`, as a specification function `Parse`
  and an imperative method `ParseImageUrl` proved equal to it.
- `middleware.dfy` holds the handler:
  - its specification `Serve`, which parses the URL and then calls `Dispatch`;
    `Dispatch` lets the request through or calls `Lookup`, which serves a hit
    from `FromCache` and a miss from `FromEngine`;
  - the mutable Koa context (`Context`);
  - the cache directory (`DiskCache`);
  - the handler object (`Handler`), whose methods are proved to leave the
    context and the cache exactly as `Serve` says.
- `handler_properties.dfy` holds what the handler guarantees, stated over
  `Dispatch`.

Opaque collaborators are parameters, collected in `Codec` and `Env`:

- ufo's `parseURL`, `decode` and `getQuery`;
- ohash's `hash`;
- the `etag` package;
- the IPX engine, given as the outcome of `img.src()` and `img.data()` for
  each (id, modifiers).

The file system is the `files` map of `DiskCache`. A record is one of two
things:

- `Stored`: the `.raw`, `.mime` and `.etag` files all read back;
- `Unreadable`: the `.raw` file exists, but reading its `.mime` or `.etag`
  sidecar fails.

The background write's success is a boolean parameter `written`.

Notes on what `src/middleware.js` does, which the model follows:

- Directives are split with `split('_')`. A token's value is its SECOND piece,
  so `a_b_c` gives `a = "b"`. It is not the text after the first `_`.
- `decode` is applied to each directive value. The path as a whole is not
  decoded.
- There are no presets and no strict mode. The configuration schema declares
  `strict` and `presets` (`src/config/schema.js:8-27`), but the middleware
  never reads them. Any directive key is passed on to the engine.
- `uploads/` is removed at its first occurrence anywhere in the path, not only
  as a prefix.
- On a cache hit:
  - Cache-Control uses the configured max-age only. A per-asset max-age is
    ignored.
  - No Last-Modified is sent, and `If-Modified-Since` is not consulted.
  - Content-Type is sent whenever the stored MIME text is non-empty.

## Model

| member | source | states |
|---|---|---|
| JsString.Split | src/middleware.js:17 | `split` with a one-character separator: always at least one piece, no piece holds the separator, and a single piece is exactly the input without the separator |
| JsString.JoinSplit | src/middleware.js:17 | splitting loses nothing: joining the pieces with the separator gives the input back |
| JsString.SplitJoin | src/middleware.js:25-26 | separator-free pieces joined with the separator split back into exactly those pieces |
| JsString.LastPiece | src/middleware.js:19 | the last piece of a split is the suffix after the last separator, or the whole string when there is none |
| JsString.FirstPieces | src/middleware.js:26 | the first two pieces of a split are the text before the first separator and the text between the first and second separator |
| JsString.IndexOfFromSpec | src/middleware.js:17 | the result is the least position at or after `from` where the pattern occurs, and `None` only when it occurs nowhere there |
| JsString.ReplaceFirstSpec | src/middleware.js:17 | `replace` with a string pattern leaves a string without the pattern unchanged, and otherwise splices the replacement in at the FIRST occurrence only |
| JsString.UpperMatchesIgnoringCase | src/middleware.js:64 | comparing the upper-cased text with an upper-case word is a letter-case-insensitive comparison, in both directions |
| JsString.NatToString | src/middleware.js:99 | a number prints as a non-empty run of decimal digits, with no leading zero unless it is 0 |
| JsString.NatToStringValue | src/middleware.js:99 | the printed digits have the number's value |
| JsString.TrimStart | src/middleware.js:172 | `parseInt` skips the leading white space: what it drops is white space only, and what it keeps is a suffix starting with a non-space |
| JsString.IntToString | src/middleware.js:130 | an integer prints as an optional minus sign, present exactly for a negative number, followed by at least one decimal digit, with no leading zero unless the digits are just `0` |
| JsString.ParseInt | src/middleware.js:172 | `parseInt` yields a number only when the text holds some digit; otherwise it is NaN |
| JsString.DigitPrefix | src/middleware.js:172 | `parseInt` reads the longest run of digits at the start and stops at the first non-digit |
| JsString.ParseDigits | src/middleware.js:172 | `parseInt` reads a string of digits alone as its decimal value |
| JsString.ParseMinus | src/middleware.js:172 | a leading minus sign negates the digits that follow, and no digits give NaN |
| JsString.ParseIntToString | src/middleware.js:172 | `parseInt(_, 10)` reads back any integer printed in decimal, sign included |
| Modifiers.Keys | src/middleware.js:24-28 | the object's key list has one key per entry, in order |
| Modifiers.Put | src/middleware.js:27 | assignment keeps the size or grows it by one, and a new entry is the assigned pair placed last |
| Modifiers.PutKeys | src/middleware.js:27 | assigning an existing key keeps the key order; a new key is appended last |
| Modifiers.PutDistinct | src/middleware.js:27 | assignment never creates a duplicate key |
| Modifiers.PutToMap | src/middleware.js:27 | assignment changes the contents like a map update of that one key |
| Modifiers.AssignAll | src/middleware.js:24-28 | the object built by the assignments has at most one key per assignment, and at least one key when there is any assignment |
| Modifiers.AssignAllHas | src/middleware.js:24-28 | after the assignments, a key is present exactly when some pair assigns it |
| Modifiers.AssignAllValue | src/middleware.js:24-28 | a pair that no later pair overrides gives its key's final value |
| Modifiers.AssignAllLastWins | src/middleware.js:24-28 | after assigning pairs left to right, a key is present exactly when some pair has it, holding the value of the LAST such pair |
| Modifiers.AssignAllDistinct | src/middleware.js:24-28 | an object built by assignments has no repeated key |
| Modifiers.DuplicateKeyExample | src/tests/middleware.test.js:12-17 | `width_2000,width_3000,format_webp` gives width 3000 in width's original place, then format webp |
| UrlParser.Segments | src/middleware.js:17 | the path, minus its first `uploads/`, has at least one `/`-segment |
| UrlParser.Parse | src/middleware.js:10-38 | the modifiers are `null` only for a URL without a query string |
| UrlParser.FillDirectives | src/middleware.js:24-28 | the loop over the comma-separated tokens builds exactly the object of `Directives`: each token's key is given its decoded value, left to right |
| UrlParser.ParseImageUrl | src/middleware.js:10-38 | the imperative two pops and the loop over the comma-separated tokens give exactly `Parse` |
| UrlParser.IdIsLastSegment | src/middleware.js:17-19 | the id is the text after the last `/` of the path minus `uploads/`, contains no `/`, and is unaltered |
| UrlParser.TokenKeyValue | src/middleware.js:26 | a token's key is the text before its first `_`; its value is the text up to the second `_`, or empty when there is no `_` |
| UrlParser.DirectiveSegmentPlace | src/middleware.js:17-21 | the directive segment is the `/`-free text between the last two `/` of the path minus `uploads/`, or from its start when it has only one `/` |
| UrlParser.DirectiveSegmentNone | src/middleware.js:17-21 | there is no directive segment exactly when the path minus `uploads/` has no `/` |
| UrlParser.ModifiersSource | src/middleware.js:23-36 | with no `/` in the path minus `uploads/`, the modifiers come from a non-empty query string through `getQuery`, else they are null; with a `/`, the segment before the id, when neither empty nor `_`, gives the directives, else the same query fallback applies |
| UrlParser.QueryIgnoredWithDirectives | src/middleware.js:23-30 | with a directive segment the query string plays no part in the result |
| UrlParser.DirectivesLastWins | src/middleware.js:24-28 | the directive object has distinct keys; a key is present exactly when some token carries it, with the decoded value of the last such token |
| UrlParser.StripUploads | src/middleware.js:17 | a path `/uploads/<rest>` becomes `/<rest>` |
| UrlParser.TwoSegments | src/middleware.js:17 | a path `/uploads/<id>` with no other `/` splits into an empty segment and the id |
| UrlParser.QueryExample | src/tests/middleware.test.js:19-24 | a path without directives and with a query takes its modifiers from `getQuery` |
| UrlParser.NoModifiersExample | src/tests/middleware.test.js:40-45 | a path with neither directives nor a query has null modifiers |
| UrlParser.SingleToken | src/middleware.js:25-27 | one `key_value` token yields the single entry key → decoded value |
| UrlParser.ThreeSegments | src/middleware.js:17 | `/uploads/<seg>/<id>` splits into `""`, seg and id |
| UrlParser.SingleDirective | src/tests/middleware.test.js:5-10 | `/uploads/<key>_<value>/<id>` parses to that id with the one modifier key → decoded value, whatever the query |
| Middleware.Extension | src/middleware.js:64 | the extension holds no `.`, and an id without `.` is its own extension |
| Middleware.AllowedType | src/middleware.js:45-64 | an allowed extension has three or four characters, as every listed type does |
| Middleware.Skips | src/middleware.js:61-64 | a request that is not let through has a non-empty id, non-null modifiers and an extension of an allowed length |
| Middleware.EffectiveMaxAge | src/middleware.js:133 | a per-asset max-age wins over the configured one, and there is none only when both are absent |
| Middleware.ErrorStatus | src/middleware.js:172 | the status is never 0: it is the parsed status code of the error, or 500 |
| Middleware.FromCache | src/middleware.js:87-108 | a hit never calls next, the engine or the data, leaves the cache alone, always sends the stored ETag, and has a body exactly when it has no status, that body being the stored bytes |
| Middleware.FromEngine | src/middleware.js:116-140 | a miss calls the engine for its own id and modifiers, requests the data only when the source metadata was obtained, and changes the cache at most at its key |
| Middleware.FromImage | src/middleware.js:142-180 | once the data is requested, a failure answers with its error status, no body and no cache change; a success sends the ETag of the data |
| Middleware.FreshAnswer | src/middleware.js:159-170 | the data's ETag is added to the metadata headers; the body is the data exactly when there is no status, and a status is 304 only on a matching If-None-Match |
| Middleware.Serve | src/middleware.js:43-181 | a request let through leaves the cache alone; any other has non-null modifiers and changes the cache at most at its own hash key |
| Middleware.Dispatch | src/middleware.js:58-181 | `next` is called exactly when the request is skipped, and then the cache is untouched; otherwise the cache changes at most at the request's hash key |
| Middleware.Lookup | src/middleware.js:70-116 | the engine is not called exactly on a cache hit, and the cache changes at most at that key |
| Middleware.Context.Set | src/middleware.js:89 | setting a header updates that header only and leaves status and body alone |
| Middleware.DiskCache.Exists | src/middleware.js:81 | a record is found exactly when its key is present |
| Middleware.DiskCache.ReadSidecars | src/middleware.js:83-86 | the sidecars read back exactly when the record is readable, and they are its MIME text and ETag |
| Middleware.DiskCache.ReadRaw | src/middleware.js:87 | the stream carries the record's bytes |
| Middleware.DiskCache.Write | src/middleware.js:150-156 | a successful write stores (bytes, MIME, ETag) under the key; a failed one leaves the cache unchanged |
| Middleware.Handler.constructor | src/middleware.js:40-43 | the handler closes over the plugin configuration and its collaborators |
| Middleware.Handler.Handle | src/middleware.js:43-181 | after one request, `next`, the engine call, the status, the headers (added on top of the earlier ones), the body and the cache are exactly as `Serve` prescribes |
| Middleware.Handler.Respond | src/middleware.js:58-68 | once the URL is parsed, the request is let through or served exactly as `Dispatch` prescribes |
| Middleware.Handler.ServeImage | src/middleware.js:70-116 | an image request is answered from a readable record on a hit, else by the engine, as `Lookup` prescribes |
| Middleware.Handler.ServeCached | src/middleware.js:87-108 | the hit branch always sets the stored ETag, then answers 304 or the full record, as `FromCache` prescribes |
| Middleware.Handler.SendCached | src/middleware.js:95-107 | the full answer from a record adds the configured Cache-Control, the stored MIME type and the stored bytes, as `CachedHeaders` prescribes |
| Middleware.Handler.SetSourceHeaders | src/middleware.js:123-140 | the source metadata adds exactly the headers of `SourceHeaders` and leaves status and body alone |
| Middleware.Handler.Transform | src/middleware.js:116-140 | the miss branch up to the data sets status, Last-Modified, Cache-Control and the cache as `FromEngine` prescribes |
| Middleware.Handler.Deliver | src/middleware.js:142-170 | the data stage answers an engine failure with its status, else writes the cache and answers as `FromImage` prescribes |
| Middleware.Handler.SendFresh | src/middleware.js:159-170 | the ETag is set, then a matching non-empty If-None-Match gives 304, else the data is sent with its Content-Type, as `FreshAnswer` prescribes |
| HandlerProperties.PassThroughExactly | src/middleware.js:58-68 | `next()` is called exactly when the id is empty, the modifiers are null or the type is not allowed; then no engine, cache or response change |
| HandlerProperties.ExtensionIsLastPiece | src/middleware.js:64 | the extension is the text after the id's last `.`, or the whole id when it has none |
| HandlerProperties.AllowedTypesUpper | src/middleware.js:45-56 | each of the ten listed types is written in upper-case letters, so upper-casing the extension makes the check case-insensitive |
| HandlerProperties.AllowedTypeIgnoresCase | src/middleware.js:45-64 | the file type is allowed exactly when its extension equals one of the ten types up to letter case |
| HandlerProperties.CacheHitServesRecord | src/middleware.js:76-108 | a hit never calls the engine or changes the cache, always sends the stored ETag, gives 304 on a matching non-empty If-None-Match, and otherwise sends the stored bytes with the configured Cache-Control and the stored MIME |
| HandlerProperties.MissInvokesEngine | src/middleware.js:109-116 | every request not let through and not a hit creates the engine request for its own id and modifiers |
| HandlerProperties.NotModifiedSince | src/middleware.js:123-129 | on a miss, a modification time not later than If-Modified-Since gives 304 before the data is requested, with no header, body or cache write |
| HandlerProperties.SourceHeadersSpec | src/middleware.js:123-140 | Last-Modified is present exactly when the source has an mtime; Cache-Control comes from `src.maxAge ?? config.maxAge` and is present exactly when that is non-zero, so a per-asset 0 suppresses it |
| HandlerProperties.FreshResponse | src/middleware.js:142-170 | a miss that obtains the data adds the data's ETag to the metadata headers, then answers 304 on a matching non-empty If-None-Match, else sends the data with `image/<format>` when the format is non-empty |
| HandlerProperties.CacheWrite | src/middleware.js:148-157 | the cache changes only on a miss whose data was obtained, with the cache on and the write successful, and then to exactly that record under the request's hash |
| HandlerProperties.WriteOutcomeInvisible | src/middleware.js:149-157 | whether the background write succeeds never changes the answer |
| HandlerProperties.EngineFailure | src/middleware.js:171-180 | an engine failure answers with the error's status and no body and never writes the cache; a data failure keeps the metadata headers already set |
| HandlerProperties.ErrorStatusOfCode | src/middleware.js:172 | the status is the error's numeric status code when it is non-zero, and 500 when it is absent or zero |
| HandlerProperties.DispatchKeepsCoherent | src/middleware.js:70-157 | if every readable record is the engine's output for some input hashing to its key, that stays true after a request |
| HandlerProperties.HitMatchesEngine | src/middleware.js:76-108 | with a coherent cache and no hash collision at the key, a hit answers with the engine's data, its ETag and `image/<format>` |
| HandlerProperties.ServeSingleDirective | src/middleware.js:58 | a request for `/uploads/<key>_<value>/<id>` is handled as the id with the one decoded modifier |

## Left out

- I/O is abstracted:
  - reads and writes of the cache directory are a map of records;
  - the `.raw` stream is the bytes it carries;
  - paths built with `path.join` are the hash key.
- A partly written record is not modelled. A record is either readable in
  full or unreadable.
- Concurrency is not modelled. The fire-and-forget cache write is assumed to
  have finished, or failed, before the next request. Interleavings of
  requests are not captured.
- Koa's setter side effects are not modelled. The status and body are
  recorded as assigned. Koa's implicit 200, its removal of the body on 304,
  and its status-range assertion are not part of this model.
- The log message built at lines 173-176 is left out, since it only feeds
  the debug log. The `error.message` text is not modelled.
- A throw from `ipx(...)` itself at line 116 is outside the `try` and is not
  modelled. Neither is `throw null` or `throw undefined`, for which reading
  `error.statusCode` fails in the handler. Any other thrown value without a
  `statusCode` is `IpxError(None)` and gives 500. The engine's outcome is
  given per (id, modifiers) in `Env`.
- The engine's output is fixed per `Env`. A source that changes between
  requests, and so a stale cache, is not captured.
- `ctx.req.options` is not passed to the engine in the model. It is not part
  of this model.
- `If-Modified-Since` is given as a number of milliseconds. Date parsing and
  invalid dates are not modelled.
- The hash, the ETag and the URL helpers are opaque functions. The model
  never relies on the hash ignoring key order.
- JsString.Upper: maps ASCII letters only. Unicode case mappings that change
  letters outside ASCII (or a string's length) are not modelled.
- Modifiers.Put: keys are kept in plain insertion order. JavaScript's rule
  that integer-like keys are listed first in ascending order is not
  modelled.
- Max-ages are whole numbers. The configuration allows any positive number
  (`src/config/schema.js:7`), and `${+maxAge}` would print a fraction such as
  `max-age=0.5`. A NaN max-age, which is falsy, is not modelled either.
- JsString.ReplaceFirst: the function itself carries no contract. What it
  does is stated by `ReplaceFirstSpec`, so that proofs about paths do not
  pay for it at every use.
- The plugin configuration loading (`strapi.config.get`) is a `Config`
  value. Its schema and defaults are not part of this model.
