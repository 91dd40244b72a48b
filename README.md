# Keywork core, modelled in Dafny

This project models four pieces of the Keywork library for Cloudflare Workers.

- **Route matching** (`matchPath`, `compilePath`, `safelyDecodeURIComponent`). A route pattern such as
  `/users/:id/*` is compiled into a token sequence plus a tail. Each token is a literal character or a
  `:name` parameter. The tail stands for the regular expression's ending: trailing slashes, the word
  boundary group, `(.*)$` or `(?:\/(.+)|\/*)$`.
  - `RouteRegex` gives the compiled expression two meanings. `Accepts` is a declarative relation.
    `MatchTokens`/`Exec` is an executable backtracking matcher. A parameter first takes its longest
    `[^\/]+` run and then gives characters back one at a time.
  - The two are proved to agree. `Exec` finds a run exactly when one is accepted. Its captures are the
    greatest accepted ones in capture order (leftmost-greedy).
  - When parameters are separated by literals, the accepted run is unique.
  - `MatchPath` builds the `{params, pathname, pathnameBase, pattern}` object, as the `reduce` of the
    source does.
  - `UriComponent` models `decodeURIComponent` (RFC 3986 section 2.1 percent-escapes over UTF-8, RFC 3629).
    Malformed input decodes to `None`, and the safe variant then keeps the raw text.
- **Indexed collection store** (`KeyworkCollection`). A class holding a `KVNamespace`, the collection path,
  the key-namespace constants, the JSON codec and the field-to-index-prefix table.
  - `initialize` builds the table from the listed index-prefix keys.
  - `addEntryToIndexes` writes two mandatory index keys and then one key per indexed, truthy field.
  - The `fetch*` operations list and project the by-id namespace.
  - The KV namespace is a class whose `entries` map changes only through `Put`. Its set `failing` names
    the keys whose writes are refused.
- **`getBrowserIdentifier`**: classifies a user-agent header as `chrome`, `safari` or `unknown`.
- **`routerMethodToHTTPMethod`**: inverts the ordered entries of the HTTP-verb-to-router-method map.

Modules: `Wrappers` (Option/Result), `UriComponent`, `RoutePattern`, `RouteRegex`, `MatchPath`, `UserAgent`,
`RouterMethods`, `Json`, `DocumentMetadata`, `KeyPaths`, `KVStore`, `Collection`.

Behaviour of the code that the model keeps as written:
- The splat capture (`*`) is percent-decoded into `params["*"]` like every other capture: matchPath.ts
  line 48 applies `safelyDecodeURIComponent` to every parameter name (SplatParam).
- `pathnameBase` drops every trailing slash after the first character, because the regex `/(.)\/+$/`
  at matchPath.ts lines 38 and 45 removes the whole run of slashes, and `/` stays `/`
  (TrimKeepsFirstCharacter).
- Every field index write is issued even when one of them fails: KeyworkCollection.ts lines 202-225 map
  each field to an async callback inside `Promise.all`, so all the writes start before any failure is
  seen (WriteFieldIndexes).
- The field stage iterates `Object.entries(this.__indexPathByPropertyName)` (KeyworkCollection.ts line
  203). That field is declared without a value (line 70) and set only by `initialize` (line 99), so a
  JSON document added before `initialize` gets a `TypeError` once the mandatory keys are written
  (AddEntryToIndexes).
- Field index keys (`indexPath/id/JSON.stringify(value)`, KeyworkCollection.ts line 213) are written
  under the index prefix they belong to, so they lie inside the index-prefixes namespace
  (FieldKeyUnderIndexPrefixes). A later `initialize` lists them too (lines 86-99) and registers each
  serialised value, such as `"active"` with its quotes, as a field name.

## Model

| member | source | states |
|---|---|---|
| MatchPath.ResolvePattern | packages/keywork/lib/paths/matchPath.ts:28-30 | Definition: a string pattern becomes `{path, caseSensitive: false, end: true}`; an object pattern is kept (properties in StringPatternDefaults) |
| MatchPath.CompileFor | packages/keywork/lib/paths/matchPath.ts:32 | Definition: compilePath's defaults (`caseSensitive = false`, `end = true`) stand in for an option the pattern leaves out |
| MatchPath.MatchResult | packages/keywork/lib/paths/matchPath.ts:24-60 | Definition of matchPath's value: resolve the pattern, compile it, build the match; MatchPathOf is proved equal to it |
| MatchPath.MatchWith | packages/keywork/lib/paths/matchPath.ts:34-59 | Definition: null without a run; otherwise the matched prefix, params and base from the run's captures (properties in NoMatchIffNotAccepted, MatchedPrefix, SplatParam) |
| MatchPath.ParamsOf | packages/keywork/lib/paths/matchPath.ts:40-50 | Definition of the reduce's `memo`: each name bound to its decoded capture in order, `__proto__` ignored (properties in ParamsKeys, ParamsLastWins) |
| MatchPath.BaseOf | packages/keywork/lib/paths/matchPath.ts:38-46 | Definition of the final `pathnameBase`: recomputed from the raw splat when there is one (properties in BaseIsPrefix, SplatParam) |
| MatchPath.StringPatternDefaults | packages/keywork/lib/paths/matchPath.ts:28-30 | A string pattern matches exactly like an object pattern with both options left out; the only difference in the result is the recorded pattern, which holds `caseSensitive: false, end: true` |
| MatchPath.MatchPathOf | packages/keywork/lib/paths/matchPath.ts:24-60 | The imperative matchPath (compile, run, reduce the params) returns the match object defined by `MatchResult` |
| MatchPath.ReduceParams | packages/keywork/lib/paths/matchPath.ts:38-50 | The loop over parameter names produces the params map of `ParamsOf` and the pathnameBase of `BaseOf` |
| MatchPath.NoMatchIffNotAccepted | packages/keywork/lib/paths/matchPath.ts:34-35 | The result is null exactly when no run of the compiled expression is accepted at position 0 |
| MatchPath.MatchedPrefix | packages/keywork/lib/paths/matchPath.ts:37-46 | The matched pathname is a prefix of the input, and pathnameBase is a prefix of the matched pathname |
| MatchPath.TrimTrailingSlashes | packages/keywork/lib/paths/matchPath.ts:38 | The replace of `/(.)\/+$/` keeps a prefix and removes only slashes; a non-empty string stays non-empty |
| MatchPath.TrimAtLeftmostSite | packages/keywork/lib/paths/matchPath.ts:38 | At the leftmost place where the regex `(.)\/+$` can match, the result ends right after that `(.)` character |
| MatchPath.TrimWithoutSite | packages/keywork/lib/paths/matchPath.ts:38 | Where `(.)\/+$` matches nowhere, the string is unchanged |
| MatchPath.TrimKeepsFirstCharacter | packages/keywork/lib/paths/matchPath.ts:38 | Without line terminators, trailing slashes are dropped but never the first character, so `/` stays `/` |
| MatchPath.SliceTo | packages/keywork/lib/paths/matchPath.ts:45 | `slice(0, e)` gives a prefix, and exactly `s[..e]` when `e` is in range |
| MatchPath.BaseIsPrefix | packages/keywork/lib/paths/matchPath.ts:38-46 | The computed pathnameBase is always a prefix of the matched pathname |
| MatchPath.ParamsKeys | packages/keywork/lib/paths/matchPath.ts:40-50 | The params keys are exactly the parameter names, except `__proto__`, which assignment on `{}` ignores |
| MatchPath.ParamsLastWins | packages/keywork/lib/paths/matchPath.ts:48 | A name's value is the decoded capture at its last occurrence, so a repeated name keeps the later capture |
| MatchPath.MalformedParamKeptRaw | packages/keywork/lib/paths/matchPath.ts:48 | A capture that does not decode is stored raw, and the match is not rejected |
| MatchPath.EndMatchesWholePathname | packages/keywork/lib/paths/matchPath.ts:91-92 | With `end` true (the default), a match consumes the whole pathname |
| MatchPath.ParamCapturesAreSegments | packages/keywork/lib/paths/matchPath.ts:79-82 | Every `:name` capture is non-empty and contains no `/` |
| MatchPath.SplatParam | packages/keywork/lib/paths/matchPath.ts:43-48 | With a splat tail the match covers the pathname. The raw splat is its suffix, `params["*"]` is the decoded splat, and pathnameBase cuts the raw splat off |
| MatchPath.StarPatternHasSplat | packages/keywork/lib/paths/matchPath.ts:84-85 | A pattern ending in `*` gets a splat tail and `*` as its last parameter name |
| MatchPath.MatchIgnoresLetterCase | packages/keywork/lib/paths/matchPath.ts:102 | Without `caseSensitive`, upper-casing the pathname neither makes nor breaks a match, and the matched pathname is upper-cased with it |
| MatchPath.LiteralPatternMatch | packages/keywork/lib/paths/matchPath.ts:76-99 | A pattern whose compiled text has no `:name` parameter and that does not end in `*` (a literal `:`, as in `/a:`, is allowed) matches iff the normalised text matches the pathname's prefix character by character (case per flag) and the tail then succeeds: trailing slashes only with `end`, otherwise a boundary |
| MatchPath.HomeIsNotHome2 | packages/keywork/lib/paths/matchPath.ts:93-99 | `/home` with `end: false` does not match `/home2` |
| MatchPath.HomeMatchesHomeUsers | packages/keywork/lib/paths/matchPath.ts:93-99 | `/home` with `end: false` matches `/home/users` with pathname and base `/home` and no params |
| RoutePattern.StripTrailing | packages/keywork/lib/paths/matchPath.ts:76 | The `replace(/\/*\*?$/, '')` step keeps a prefix of the pattern (exactly which one: StripTrailingIsShortestTrailer) |
| RoutePattern.Tokenize | packages/keywork/lib/paths/matchPath.ts:78-82 | Definition of the global `:(\w+)` replace: a `:` followed by word characters becomes a parameter named by the longest run, every other character a literal (properties in RenderTokenize, TokenizeUnique, TokenizeWellTokenized) |
| RoutePattern.TailFor | packages/keywork/lib/paths/matchPath.ts:84-100 | Definition of the appended tail: `(.*)$` for `*` and `/*`, the optional-slash splat for any other final `*`, `\/*$` with `end`, the boundary group without |
| RoutePattern.Compile | packages/keywork/lib/paths/matchPath.ts:62-102 | Definition of the compiled expression: the tokens of the normalised text, the tail, and the `i` flag unless `caseSensitive` |
| RoutePattern.ParamNames | packages/keywork/lib/paths/matchPath.ts:72-85 | Definition of `paramNames`: the `:name` names in order, then `*` with a splat tail (properties in ParamNamesShape) |
| RoutePattern.CompilePath | packages/keywork/lib/paths/matchPath.ts:62-105 | The imperative compilePath (pushes to paramNames, appends the tail) returns the matcher `Compile` defines and the names `ParamNames` defines |
| RoutePattern.ReplaceParams | packages/keywork/lib/paths/matchPath.ts:79-82 | The scanning loop for `:(\w+)` yields `Tokenize` of the text and pushes the names in left-to-right order |
| RoutePattern.WordRunEnd | packages/keywork/lib/paths/matchPath.ts:79 | `\w+` takes the longest run of word characters: all word characters, followed by a non-word character or the end |
| RoutePattern.WordRunLength | packages/keywork/lib/paths/matchPath.ts:79 | The run length counts only word characters and stops before a non-word one |
| RoutePattern.StripTrailingIsShortestTrailer | packages/keywork/lib/paths/matchPath.ts:76 | `replace(/\/*\*?$/, '')` removes the leftmost suffix made of slashes optionally followed by one `*` |
| RoutePattern.DropTrailingSlashes | packages/keywork/lib/paths/matchPath.ts:76 | Removes only trailing slashes, keeping a prefix that does not end in `/` |
| RoutePattern.DropLeadingSlashes | packages/keywork/lib/paths/matchPath.ts:77 | The leading-slash replace removes exactly the leading slashes, leaving a suffix that starts with another character |
| RoutePattern.Normalize | packages/keywork/lib/paths/matchPath.ts:76-77 | The normalised text always starts with `/` |
| RoutePattern.NormalizeOmits | packages/keywork/lib/paths/matchPath.ts:76-77 | Normalising adds no character other than `/` |
| RoutePattern.NormalizeSlashPrefix | packages/keywork/lib/paths/matchPath.ts:77 | `users` and `/users` normalise to the same text |
| RoutePattern.LeadingSlashIsOptional | packages/keywork/lib/paths/matchPath.ts:76-91 | For every pattern except `/*`, adding a leading `/` does not change the compiled matcher |
| RoutePattern.StarWithoutSlashActsAsSlashStar | packages/keywork/lib/paths/matchPath.ts:63-70 | A pattern compilePath warns about (`*` not after `/`) compiles exactly like the same pattern with `/*` at the end |
| RoutePattern.ParamNamesShape | packages/keywork/lib/paths/matchPath.ts:72-85 | paramNames are the `:name` names in order, each a non-empty word, then `*` exactly when the path ends in `*` |
| RoutePattern.RenderTokenize | packages/keywork/lib/paths/matchPath.ts:78-82 | Tokenising keeps every character: rendering the tokens gives the text back (regex escaping makes every other character literal) |
| RoutePattern.TokenizeUnique | packages/keywork/lib/paths/matchPath.ts:79-82 | A well-formed token sequence is the only tokenisation of its rendering |
| RoutePattern.TokenizeWellTokenized | packages/keywork/lib/paths/matchPath.ts:79-82 | Tokenising always gives a well-formed sequence: names are non-empty words, and no word character follows a parameter or a literal `:` |
| RoutePattern.TokenizeLiteral | packages/keywork/lib/paths/matchPath.ts:78-82 | Text without `:` tokenises to one literal per character and no names |
| RouteRegex.TailMatch | packages/keywork/lib/paths/matchPath.ts:84-100 | Each tail stops within the text and has its capture count; every tail except the boundary group runs to the end (`$`) |
| RouteRegex.BoundaryTakesFirstAlternative | packages/keywork/lib/paths/matchPath.ts:99 | The boundary group succeeds iff one of its alternatives holds, and it ends at the earliest such end (lookahead, `\b` and `$` consume nothing) |
| RouteRegex.SlashRestPrefersCapture | packages/keywork/lib/paths/matchPath.ts:89 | `(?:\/(.+)\|\/*)$` succeeds iff an alternative does; after a `/` followed by more text without line terminators, it captures that rest without the `/` |
| RouteRegex.NonSlashRun | packages/keywork/lib/paths/matchPath.ts:81 | A parameter's longest `[^\/]+` run stops at a `/` or at the end |
| RouteRegex.MatchTokens | packages/keywork/lib/paths/matchPath.ts:78-100 | A run found from position `i` ends within the text, has one capture per `:name` plus the tail's captures, and ends at the end unless the tail is the boundary group |
| RouteRegex.Exec | packages/keywork/lib/paths/matchPath.ts:34 | A found run ends within the pathname, has one capture per param name, and ends at the end unless the tail is the boundary group |
| RouteRegex.Accepts | packages/keywork/lib/paths/matchPath.ts:78-102 | Definition of what the compiled expression accepts from a position: literals match in place (case per flag), a parameter takes any non-empty slash-free run, the tail matches as its regex does; used to state MatchTokensSound, MatchTokensGreedy, ExecNoneIff |
| RouteRegex.MatchTokensSound | packages/keywork/lib/paths/matchPath.ts:79-100 | Every run the backtracking matcher returns is accepted by the declarative semantics of the expression |
| RouteRegex.MatchTokensGreedy | packages/keywork/lib/paths/matchPath.ts:81 | If any run is accepted, the matcher finds one, and its captures are at least as long, in capture order, as any accepted run's |
| RouteRegex.ExecComplete | packages/keywork/lib/paths/matchPath.ts:34 | The matcher's result is accepted and greatest among accepted runs |
| RouteRegex.ExecNoneIff | packages/keywork/lib/paths/matchPath.ts:34-35 | The matcher fails exactly when no run is accepted |
| RouteRegex.ExecUnique | packages/keywork/lib/paths/matchPath.ts:79-100 | When parameters are separated by literals, a run is accepted iff it is the matcher's result |
| RouteRegex.AcceptsUnique | packages/keywork/lib/paths/matchPath.ts:79-100 | With separated parameters, at most one run is accepted |
| RouteRegex.AcceptsCaptureCount | packages/keywork/lib/paths/matchPath.ts:81-89 | An accepted run has one capture per `:name` plus the tail's captures |
| RouteRegex.AcceptsParamCaptures | packages/keywork/lib/paths/matchPath.ts:81 | In an accepted run, every parameter capture is non-empty and contains no `/` |
| RouteRegex.AcceptsSplatSuffix | packages/keywork/lib/paths/matchPath.ts:86-89 | With a splat tail, an accepted run reaches the end and its last capture is a suffix of the pathname |
| RouteRegex.ExecIgnoresCase | packages/keywork/lib/paths/matchPath.ts:102 | With the `i` flag, running on the upper-cased pathname gives the same run with upper-cased captures |
| RouteRegex.LiteralMatch | packages/keywork/lib/paths/matchPath.ts:78 | Literal tokens match iff each character matches in place (case per flag); the tail then decides |
| RouteRegex.BoundaryStopsInsideWord | packages/keywork/lib/paths/matchPath.ts:93-99 | A text ending in a word character does not match, with the boundary tail, a pathname that continues with a word character |
| UriComponent.Decode | packages/keywork/lib/paths/matchPath.ts:109 | `decodeURIComponent`: never longer than its input; `None` where JavaScript throws URIError (bad escape, bad UTF-8, overlong or surrogate encoding) |
| UriComponent.EncodeURIComponent | packages/keywork/lib/paths/matchPath.ts:109 | `encodeURIComponent`, the inverse DecodeEncode is stated against: at least one character per input character, and only unreserved characters, `%` and hexadecimal digits |
| UriComponent.SafelyDecode | packages/keywork/lib/paths/matchPath.ts:107-118 | The decoded value when decoding succeeds, the raw value when it fails |
| UriComponent.DecodeEncode | packages/keywork/lib/paths/matchPath.ts:109 | `decodeURIComponent` inverts `encodeURIComponent` on every string |
| UriComponent.SafelyDecodeEncoded | packages/keywork/lib/paths/matchPath.ts:107-109 | Safe decoding of an encoded value gives the value back |
| UriComponent.DecodeWithoutEscapes | packages/keywork/lib/paths/matchPath.ts:109 | A string without `%` decodes to itself |
| UriComponent.DecodeEscapedChar | packages/keywork/lib/paths/matchPath.ts:109 | The UTF-8 escapes of a character decode to that character, consuming exactly those escapes |
| UriComponent.SafelyDecodeTruncatedSequence | packages/keywork/lib/paths/matchPath.ts:108-117 | `%E0%A4%A` fails to decode and is kept raw |
| UserAgent.GetBrowserIdentifier | packages/keywork/lib/headers/userAgent.ts:21-31 | The result is always one of `chrome`, `safari` and `unknown` (which one: Classification) |
| UserAgent.Classification | packages/keywork/lib/headers/userAgent.ts:21-31 | `chrome` iff the lower-cased header contains "chrome"; `safari` iff it contains "safari" and not "chrome"; `unknown` iff it contains neither |
| UserAgent.MissingHeaderIsUnknown | packages/keywork/lib/headers/userAgent.ts:22 | A missing header is treated as the empty string and yields `unknown` |
| UserAgent.ChromeInAnyCase | packages/keywork/lib/headers/userAgent.ts:22-25 | "Chrome" in any letter case anywhere in the header gives `chrome` |
| UserAgent.ToLower | packages/keywork/lib/headers/userAgent.ts:22 | Lower-casing keeps the length and maps each character |
| UserAgent.IncludesIffOccurs | packages/keywork/lib/headers/userAgent.ts:24-26 | `includes` is true iff the substring occurs at some index |
| RouterMethods.RouterMethodToHTTPMethod | modules/http/variables/routerMethodToHTTPMethod.ts:22-26 | `new Map` of the swapped entries: never more entries than the source has (keys, origins and last-wins: InverseKeys, InverseFromSource, InverseLastWins) |
| RouterMethods.MapOf | modules/http/variables/routerMethodToHTTPMethod.ts:22 | `new Map(pairs)`: pairs inserted in order, so the map has at most one entry per pair |
| RouterMethods.Swapped | modules/http/variables/routerMethodToHTTPMethod.ts:23-25 | Each entry `[h, r]` becomes `[r, h]`, in the same order |
| RouterMethods.MapOfLastWins | modules/http/variables/routerMethodToHTTPMethod.ts:22 | `new Map(pairs)` maps a key to the value of its last pair |
| RouterMethods.MapOfKeys | modules/http/variables/routerMethodToHTTPMethod.ts:22 | The keys of `new Map(pairs)` are exactly the pairs' first components |
| RouterMethods.InverseKeys | modules/http/variables/routerMethodToHTTPMethod.ts:22-26 | The inverted map's keys are exactly the source's values |
| RouterMethods.InverseFromSource | modules/http/variables/routerMethodToHTTPMethod.ts:23-25 | Every entry `r → h` of the result comes from a source entry `h → r` |
| RouterMethods.InverseLastWins | modules/http/variables/routerMethodToHTTPMethod.ts:22-26 | When several verbs map to one router method, the last in iteration order wins |
| RouterMethods.InjectiveSourceIsInverted | modules/http/variables/routerMethodToHTTPMethod.ts:22-26 | For an injective source, the two maps are mutual inverses |
| RouterMethods.InverseSize | modules/http/variables/routerMethodToHTTPMethod.ts:22-26 | The result is no larger than the source, and the same size exactly when the source is injective |
| Collection.KeyworkCollection.constructor | packages/keywork/lib/collections/KeyworkCollection.ts:72-83 | Stores the namespace and collection path; the field table starts undefined |
| Collection.KeyworkCollection.BuilderRooted | packages/keywork/lib/collections/KeyworkCollection.ts:78-82 | Every key a path builder makes starts with `collectionPath/<constant>` and extends the builder's root |
| Collection.KeyworkCollection.BuildersDisjoint | packages/keywork/lib/collections/KeyworkCollection.ts:78-82 | With distinct slash-free constants, two different builders never produce the same key |
| Collection.KeyworkCollection.FetchIndexPrefixes | packages/keywork/lib/collections/KeyworkCollection.ts:104-111 | Returns the names of exactly the stored keys under the index-prefixes namespace, in listing order |
| Collection.KeyworkCollection.Initialize | packages/keywork/lib/collections/KeyworkCollection.ts:85-102 | Sets the field table to the table built from the listed prefixes and returns the collection itself |
| Collection.PrefixTable | packages/keywork/lib/collections/KeyworkCollection.ts:89-97 | Definition of the table the loop builds: each listed prefix under its non-empty last segment, later ones overwriting, `__proto__` ignored (properties in PrefixTableEntry, PrefixTableComplete, PrefixTableLastWins) |
| Collection.PrefixTableEntry | packages/keywork/lib/collections/KeyworkCollection.ts:89-97 | Every table entry maps a non-empty last segment (not `__proto__`) to a listed prefix that ends in that segment |
| Collection.PrefixTableComplete | packages/keywork/lib/collections/KeyworkCollection.ts:89-97 | Every listed prefix with a non-empty last segment is registered under that segment |
| Collection.PrefixTableLastWins | packages/keywork/lib/collections/KeyworkCollection.ts:94-95 | For a repeated last segment, the later prefix overwrites the earlier |
| Collection.KeyworkCollection.InitializedTable | packages/keywork/lib/collections/KeyworkCollection.ts:85-99 | After initialize, every registered prefix is a stored key under the index-prefixes namespace, named by its last segment |
| Collection.KeyworkCollection.AddEntryToIndexes | packages/keywork/lib/collections/KeyworkCollection.ts:181-227 | States the store and the result in every case. Both mandatory writes are issued; if one is refused: error 500 and no field writes. A non-JSON document: only the mandatory keys. No field table: TypeError. Otherwise one write per indexed field; Ok iff all succeed, else an error 500 naming a failed field |
| Collection.KeyworkCollection.WriteMandatoryIndexes | packages/keywork/lib/collections/KeyworkCollection.ts:188-199 | Writes by-id(`id`) and by-document-path(`relativeDocPath`) with the metadata entry; succeeds iff neither write is refused |
| Collection.KeyworkCollection.WriteFieldIndexes | packages/keywork/lib/collections/KeyworkCollection.ts:201-226 | The loop over registered fields writes exactly the field keys not refused; Ok iff no field key is refused, else an error naming a failed field |
| Collection.KeyworkCollection.WriteNextField | packages/keywork/lib/collections/KeyworkCollection.ts:203-223 | One more field keeps the loop's invariant: the store and outcome are those of the fields done so far plus this one |
| Collection.KeyworkCollection.WriteFieldIndex | packages/keywork/lib/collections/KeyworkCollection.ts:203-216 | A falsy or missing value writes nothing and succeeds; otherwise one put of `indexPath/id/stringify(value)` with the field entry |
| Collection.KeyworkCollection.FieldStep | packages/keywork/lib/collections/KeyworkCollection.ts:203-223 | Adding one field adds its key to the written store iff it is indexed and not refused, and the stage stays successful iff that write is not refused |
| Collection.KeyworkCollection.SamePayload | packages/keywork/lib/collections/KeyworkCollection.ts:182-215 | Every index key written (mandatory or field) holds the same serialised metadata |
| Collection.KeyworkCollection.MetadataReadsBack | packages/keywork/lib/collections/KeyworkCollection.ts:136-138 | After a successful by-document-path write, reading that key as JSON gives back the metadata |
| Collection.KeyworkCollection.WrittenDocumentIsListed | packages/keywork/lib/collections/KeyworkCollection.ts:116-121 | A document whose by-id key was written appears in the by-id listing with its metadata |
| Collection.KeyworkCollection.FieldKeyUnderIndexPrefixes | packages/keywork/lib/collections/KeyworkCollection.ts:213 | A field key built from a registered prefix stays under the index-prefixes namespace, and its last segment is the serialised value |
| Collection.KeyworkCollection.FetchDocumentsListByID | packages/keywork/lib/collections/KeyworkCollection.ts:116-121 | Returns the sorted, complete listing of the by-id namespace |
| Collection.KeyworkCollection.FetchDocumentsList | packages/keywork/lib/collections/KeyworkCollection.ts:123-130 | Same length and order as the by-id listing, each key replaced by its metadata's relativeDocPath (undefined without metadata); the listing is complete, with no cursor |
| Collection.KeyworkCollection.ReadJson | packages/keywork/lib/collections/KeyworkCollection.ts:137 | `get` with type json: null for a missing key, an error when the stored text does not parse, otherwise the parsed value |
| Collection.KeyworkCollection.FetchDocumentMetadataByPath | packages/keywork/lib/collections/KeyworkCollection.ts:136-138 | Reads the by-document-path key of the given path as JSON |
| Collection.KeyworkCollection.FetchDocuments | packages/keywork/lib/collections/KeyworkCollection.ts:143-166 | Fails iff some listed key lacks metadata; otherwise one reference per listed key, in order, to its absoluteDocPath, with the listing fields kept |
| Collection.KeyworkCollection.Query | packages/keywork/lib/collections/KeyworkCollection.ts:229-231 | Always fails with "Not implemented" |
| Collection.KeyworkCollection.PermanentlyDeleteThisCollection | packages/keywork/lib/collections/KeyworkCollection.ts:233-235 | Always fails with "Not implemented" |
| Collection.WriteAll | packages/keywork/lib/collections/KeyworkCollection.ts:191-195 | Issuing one put per key: exactly the keys not refused get the entry; every other key keeps its value |
| KVStore.KVNamespace.Put | packages/keywork/lib/collections/KeyworkCollection.ts:193 | A put succeeds iff its key is not refused, and then changes exactly that key |
| KVStore.KVNamespace.Get | packages/keywork/lib/collections/KeyworkCollection.ts:137 | Returns the stored text of a present key, and null for a missing one |
| KVStore.KVNamespace.List | packages/keywork/lib/collections/KeyworkCollection.ts:106-108 | Lists exactly the keys with the prefix, sorted, with their metadata, in one complete page |
| KVStore.ListingUnique | packages/keywork/lib/collections/KeyworkCollection.ts:106-110 | There is only one listing of a prefix, so listing order is determined |
| KVStore.SortKeys | packages/keywork/lib/collections/KeyworkCollection.ts:106-110 | Orders a key set lexicographically, keeping exactly its members |
| KeyPaths.LastSegment | packages/keywork/lib/collections/KeyworkCollection.ts:91-92 | The last `split('/')` segment is the slash-free suffix after the last `/` |
| KeyPaths.LastSegmentOfJoin | packages/keywork/lib/collections/KeyworkCollection.ts:91-92 | The last segment of a joined path is its last slash-free segment |
| KeyPaths.RootedAt | packages/keywork/lib/collections/KeyworkCollection.ts:78-82 | A path joined from `root`, `name` and more segments extends `root/name`, with a `/` right after it |
| KeyPaths.NamespacesDisjoint | packages/keywork/lib/collections/KeyworkCollection.ts:78-82 | Paths under distinct slash-free namespace constants never coincide |
| Json.Property | packages/keywork/lib/collections/KeyworkCollection.ts:204 | `entry[propertyName]` is defined exactly for an own field of an object entry |
| Json.StringifyInjective | packages/keywork/lib/collections/KeyworkCollection.ts:210-213 | Under a round-tripping codec, distinct values serialise to distinct keys |
| DocumentMetadata.FromToJson | packages/keywork/lib/collections/KeyworkCollection.ts:182 | Serialised metadata parses back to the same metadata |
| DocumentMetadata.ToJsonInjective | packages/keywork/lib/collections/KeyworkCollection.ts:182 | Distinct metadata serialise to distinct JSON |

## Left out

- Collection.KeyworkCollection.AddEntryToIndexes: when several field writes fail, the error names one failing field, not a particular one. `Promise.all` rejects with whichever rejection comes first in time, and the model has no clock.
- Collection.KeyworkCollection.WriteFieldIndexes: the fields are visited in an unspecified order (a set), not in `Object.entries` order. The resulting store does not depend on the order; only which failing field the error names could.
- `Promise.all` concurrency: all writes of a stage are issued and applied one after another. Interleavings with other writers are not modelled.
- The KV namespace's fault model is a fixed set of keys whose `put` is refused. Transient failures and partial network errors are not modelled.
- Expiration: `expiration` and `expirationTtl` are stored with each entry, but keys never expire (there is no clock).
- Listing options and pagination: one complete, lexicographically sorted page. `limit`, `cursor` and the other `FetchListOptions` are not modelled.
- `console.warn` and `console.error` output of compilePath, safelyDecodeURIComponent and addEntryToIndexes is not modelled.
- `JSON.stringify` and `JSON.parse` are a codec parameter. Only the round-trip property (`parse(stringify(v)) == v`) is assumed where a lemma needs it.
- JSON numbers are integers. Floating point is not modelled.
- Entries that are not objects, and properties inherited through prototypes, have no fields in the model.
- The metadata stored in KV is the typed `Metadata` record and not an arbitrary object.
- `resolvePathSegments` and the constants module are not part of this model. Paths are a `/`-join of segments, and the five namespace constants are a `KeyLayout` value given to the constructor.
- `KeyworkDocumentReference` internals are not part of this model. A reference is the record (absoluteDocPath, collection).
- `createDocumentReference` only constructs such a reference. It is not modelled.
- Strings are sequences of Unicode scalar values, not UTF-16 code units. Lone surrogates cannot be represented, and `encodeURIComponent`'s error on them is not modelled.
- MatchPath.MatchIgnoresLetterCase, RouteRegex.ExecIgnoresCase: case folding is ASCII only (`i` flag and `toLowerCase` on letters A–Z). Full Unicode case folding is not modelled.
- UserAgent.ToLower: lower-cases ASCII letters only.
- The JavaScript regular-expression engine itself is not modelled. The compiled expression is given its meaning directly, both declaratively and as a backtracking matcher.
- `routerMethodToHTTPMethod`'s source map `methodVerbToRouterMethod` is not part of this model. It is a parameter: an ordered sequence of entries.
