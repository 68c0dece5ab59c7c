# FileInput accept-list resolver and file classifier, in Dafny

This project models the decision-making core of the `FileInput` React widget
of the dropcore repository: the code that turns the caller's `accept` tokens
into lists of allowed MIME types and extensions, and the `handleFiles`
routine that splits a batch of chosen files into allowed and forbidden ones
and reports the split.

- `wrappers.dfy` (`Wrappers`): `Option`, for the optional `accept` prop.
- `strings.dfy` (`Strings`): ASCII lower-casing, `split` and `join` on one
  separator character, and the last piece of a split.
- `string_order.dfy` (`StringOrder`): the order `Array.prototype.sort` uses
  on strings, an insertion sort, and uniqueness of sorted permutations.
- `file_types.dfy` (`FileTypes`): the `FileType` enum, the curated
  extension-to-MIME table and the key and value lists derived from it.
- `resolver.dfy` (`Resolver`): the four lists `allowedFileMimes`,
  `allowedUnsupportedFileMimes`, `allowedUnsupportedFileExtensions` and
  `invalidFileTypes`, built from the sorted, lower-cased tokens; the console
  diagnostics as a returned list.
- `classifier.dfy` (`Classifier`): the file extension rule, the acceptance
  test, the order-preserving partition, the alert text, and `handleFiles` as
  a loop that returns the allowed files, the forbidden files and the trace of
  callback events (`Rejected`, `Alerted`, `Changed`).
- `scenarios.dfy` (`Scenarios`): concrete accept lists and files with the
  outcome the widget produces.

Three behaviours of the code that a reader might not expect, modelled as
written:
- The unsupported MIME list is not disjoint from the allowed MIME list: each
  unsupported MIME type is pushed onto both, so it is a subset of it.
- The file's extension is not lower-cased before it is compared; only the
  accept tokens are. `ExtensionCaseKept` shows the effect.
- `onReject` receives only the forbidden files, not the alert text.

The two long Office MIME type strings and the alert header are written as
concatenations of shorter literals with the same characters, so that the
verifier can reason about their characters.

## Model

| member | source | states |
|---|---|---|
| Strings.ToLower | src/FileInput.tsx:133 | lower-casing keeps the length, leaves no upper-case letter, and changes nothing in a string that has none |
| Strings.JoinSplit | src/FileInput.tsx:186 | joining the pieces of `name.split(".")` with dots gives back the name |
| Strings.SplitJoin | src/FileInput.tsx:205-210 | splitting a newline-join of newline-free lines gives back the lines |
| Strings.LastSegmentIsTail | src/FileInput.tsx:186 | the last piece of a split is the separator-free tail after the last separator, or the whole string when there is no separator |
| StringOrder.Sort | src/FileInput.tsx:119 | the sorted copy of the accept list is sorted and has the same elements, counting repeats |
| StringOrder.SortedUnique | src/FileInput.tsx:119 | two sorted sequences with the same elements are equal |
| StringOrder.SortIgnoresOrder | src/FileInput.tsx:118-120 | any two permutations of the accept list sort to the same sequence |
| FileTypes.SupportedListsMatchTable | src/FileInput.tsx:115-116 | the key list is exactly the table's keys and the flattened value list is exactly the union of its values |
| FileTypes.DefaultAccept | src/index.ts:1-11 | the default accept list is the `FileType` values in declaration order, and these are exactly the table's keys |
| FileTypes.TableShapes | src/FileInput.tsx:99-113 | curated extensions are lower-case without a slash; curated MIME types are lower-case with one |
| Resolver.Contribution | src/FileInput.tsx:133-151 | one token's contribution is well shaped; it adds curated MIME types or the lower-cased token itself to the allowed MIME list, only the lower-cased token to the other lists, and at most one entry to the extension and invalid lists together |
| Resolver.ResolveSorted | src/FileInput.tsx:132-152 | after the loop, each list holds exactly what some processed token contributes to it, and the four lists are well shaped (lower-case entries, unsupported MIME types among the allowed ones and outside the table, slash-free extension-shaped unsupported extensions and slash-free non-extension invalid tokens, all outside the table) |
| Resolver.Resolve | src/FileInput.tsx:118-159 | resolution is a per-token union: an entry is in a list exactly when some accept token, anywhere in the list, contributes it; the lists are well shaped, and the extension list, the invalid list and the MIME lists share no entry |
| Resolver.EffectiveAccept | src/FileInput.tsx:90 | a given accept list is used as is; an omitted one is a list whose elements are exactly the curated extensions |
| Resolver.ResolveIgnoresOrder | src/FileInput.tsx:118-159 | permuting the accept list leaves all four lists identical, entry for entry |
| Resolver.ResolveTableKey | src/FileInput.tsx:134-135 | a token that lower-cases to a table key adds exactly that key's MIME types to the allowed MIME list and nothing elsewhere |
| Resolver.ResolveKnownMime | src/FileInput.tsx:136-139 | a token equal to a curated MIME type adds nothing to any list |
| Resolver.ResolveUncuratedToken | src/FileInput.tsx:140-150 | any other token goes to both MIME lists when it has a slash, else to the extension list when it is `.` plus a dot-free tail, else to the invalid list |
| Resolver.KeysOnlyResolution | src/FileInput.tsx:132-152 | an accept list of table keys yields empty uncurated lists, no diagnostics, and exactly its keys' MIME types |
| Resolver.DefaultResolution | src/FileInput.tsx:90-116 | with the default accept list the uncurated lists are empty, no diagnostic is emitted, and the allowed MIME list covers exactly the curated MIME types |
| Resolver.Diagnostics | src/FileInput.tsx:161-179 | one error per invalid token, then one warning per unsupported MIME type and extension, each naming its token, in list order |
| Resolver.MessagesNameTheirToken | src/FileInput.tsx:163-173 | distinct tokens give distinct error messages and distinct warning messages |
| Classifier.Extension | src/FileInput.tsx:186 | the extension is a dot and the exact, case-preserved text after the name's last dot; a dot-less name gives a dot and the whole name |
| Classifier.ExtensionAfterDot | src/FileInput.tsx:186 | a name ending in a dot and a dot-free tail has that tail as its extension |
| Classifier.IsAllowed | src/FileInput.tsx:187-198 | a file whose declared type is an allowed MIME type passes; when the unsupported MIME list is contained in the allowed one, as `Resolve` guarantees, a file passes exactly when its declared type is an allowed MIME type or its extension is an allowed unsupported extension |
| Classifier.SelectPartitions | src/FileInput.tsx:181-199 | allowed and forbidden files interleave to the batch in order, their lengths and element counts add up to the batch's, and a file is on the allowed side exactly when it passes the test |
| Classifier.AlertMessage | src/FileInput.tsx:204-211 | when no forbidden name contains a newline, the alert text reads back line by line as the header followed by `    - <name>` for each forbidden file in order |
| Classifier.Report | src/FileInput.tsx:200-214 | `onChange` fires exactly once, last, with the allowed files; a forbidden file triggers exactly one of `onReject` (when supplied) or the alert; none triggers neither |
| Classifier.HandleFiles | src/FileInput.tsx:181-215 | the one-pass loop yields the order-preserving allowed and forbidden splits of the batch and the reporting trace |
| Scenarios.PngOnly | src/FileInput.tsx:134-135 | accepting `.png` admits an `image/png` file and turns away an `image/jpeg` one, with no diagnostics |
| Scenarios.UncuratedMime | src/FileInput.tsx:140-142 | accepting `image/svg+xml` admits a file of that type and emits one warning naming it |
| Scenarios.UncuratedExtension | src/FileInput.tsx:143-147 | accepting `.xyz-not-real` admits any file named `<stem>.xyz-not-real` whatever its declared type, with one warning |
| Scenarios.ExtensionCaseKept | src/FileInput.tsx:186-192 | accepting `.XYZ` admits `<stem>.xyz` but not `<stem>.XYZ` |
| Scenarios.MalformedToken | src/FileInput.tsx:148-149 | accepting `not-a-type-at-all` emits one error naming it and admits no file |

## Left out

- React state and memoisation (`useMemo`, `useEffect`, the `JSON.stringify`
  cache key): resolution is a pure function recomputed on demand.
- Console output, `alert` and the callbacks themselves: the diagnostics are a
  returned list and the callbacks an event trace.
- Styling (`VisuallyHiddenInput`, `Dropzone`), the keyboard shim of
  `FileInputButton`, the drag state and drag handlers, including the early
  return on drop while disabled: presentation only, they pass files to
  `handleFiles` unchanged.
- The joined `accept` attribute string: the browser enforces it, not this code.
- `src/FileInputList.tsx` (appending new files, deleting one by identity) and
  `vite.config.ts`: user-interface glue and build configuration.
- Strings.ToLower: folds only ASCII letters; full Unicode lower-casing is
  not modelled.
- StringOrder.Sort: compares characters by Unicode scalar value, whereas
  JavaScript compares UTF-16 code units; the two orders differ only for
  characters outside the Basic Multilingual Plane, and the order-independence
  results hold for any total order.
- Table lookups on a plain object also find the inherited keys whose names
  are already lower-case, `constructor` and `__proto__`. In the code such a
  token passes the truthiness test at src/FileInput.tsx:134, and spreading
  the inherited value at line 135 throws a `TypeError`, so the widget fails
  while rendering. The model's table is a finite map holding only its own
  keys, so these tokens fall through to the shape tests: neither has a slash
  or starts with a dot, so each goes to `invalidFileTypes` and draws an
  error diagnostic instead.
