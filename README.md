# Electronics inventory: the synchronisation core, modelled in Dafny

The electronics inventory is a browser application. It keeps a list of
component records: name, category, part number, storage location, package,
parameters, stock, and a datasheet link. It saves that list in the browser's
`localStorage`. It can also keep a copy as `data.json` in a GitHub repository,
through the GitHub contents API. Its logic is the `ComponentManager` class in
`script.js`.

This project models that class. Apart from DOM and network wiring, it covers:

- **The collection as state.** `Manager.ComponentManager` owns `components`
  and `editingIndex`. Its methods add, replace and delete records in place and
  save every change to a `LocalStorage` object (a string map standing in for
  `localStorage`). The predicate `Persisted()` says the saved
  `components` entry reads back as the current collection; every mutation
  establishes it.
- **Configuration.** The token and repository entries, which read as `''`
  when missing, and the "both non-empty" test made before every remote call.
- **Load and push decisions.** `loadData` tries the remote document, then
  the saved copy, then the two seed records. `saveToGitHub` fetches the
  current `sha` and uploads the encoded collection with that `sha`.
  `syncData` guards all of this with the configuration test. The network is a
  `Network` object that logs every request sent. The replies (`GetReply`, and
  a boolean for the PUT) are parameters, so every contract holds whatever the
  server answers.
- **Transport encoding.** `btoa(unescape(encodeURIComponent(s)))` is UTF-8
  (RFC 3629, section 3) followed by Base64 (RFC 4648, section 4).
  `decodeURIComponent(escape(atob(t)))` is the forgiving Base64 decoder of
  `atob` followed by strict UTF-8 decoding. Both directions are pure
  functions, and round trips are proved at every layer. The top-level lemma,
  `Transport.DecodeEncodeDocument`, says that any collection uploaded by
  `saveToGitHub` is read back unchanged by `loadFromGitHub`.
- **Pure queries.** The low-stock counter, the search filter, the
  natural-key index lookup, and the seed data.

Modules: `Wrappers` (Option), `Bytes`, `Utf8`, `Base64`, `Seqs` (filter,
splice, subsequence), `Text` (`trim`, `includes`, ASCII `toLowerCase`),
`Inventory` (records and queries), `Serial` (the collection's text form),
`Transport`, `Config`, `Manager` (the classes), and `Scenarios`. `Scenarios`
is client code that drives the class through a first start offline, an
offline fallback, a push, a second client loading what was pushed, and two pushes in a
row, using only the method contracts.

The model follows the code also where it is fragile:
- A saved copy that does not parse makes `loadData` throw
  (`JSON.parse` at script.js:69 is unguarded). It is not treated as absent.
- A push reports only success or failure. It has no distinct conflict,
  authentication or rate-limit outcome.
- There is no guard against overlapping pushes.

## Model

| member | source | states |
|---|---|---|
| Utf8.DecodeEncode | script.js:129 | every string (any Unicode scalar values, multi-byte ones included) decodes back from its UTF-8 octets unchanged |
| Utf8.EncodeDecode | script.js:95 | octets the UTF-8 decoder accepts re-encode to exactly themselves: no over-long forms, surrogates or values past U+10FFFF get through, so encoding and decoding are inverse bijections |
| Utf8.DecodeFirstEncodeChar | script.js:95 | the decoder reads one encoded character back, with its exact octet length, whatever follows it |
| Base64.DecodeEncode | script.js:129 | `atob(btoa(b)) == b` for every octet string, padding included |
| Base64.DecodeSkipsWhitespace | script.js:95 | inserting ASCII whitespace anywhere (as the API's line breaks do) does not change what `atob` decodes |
| Base64.Index | script.js:95 | a character accepted by the decoder is the alphabet character of the value it decodes to |
| Transport.DecodeEncodeContent | script.js:129 | the transport encoding of any string decodes back to it: `decodeURIComponent(escape(atob(btoa(unescape(encodeURIComponent(s)))))) == s` |
| Transport.DecodeContentExact | script.js:95 | any content that decodes to `s` carries exactly the UTF-8 octets of `s` |
| Transport.DecodeEncodeDocument | script.js:128-129 | the `content` uploaded for a collection is decoded and parsed by `loadFromGitHub` into that same collection |
| Transport.EncodeDocumentInjective | script.js:128-129 | different collections produce different uploads |
| Serial.ParseSerialize | script.js:166 | the saved text of a collection parses back to the same collection |
| Serial.SerializeInjective | script.js:166 | different collections are saved as different text |
| Config.ConfigReadsWrites | script.js:157-162 | once both credential entries are removed the configuration is the empty pair and sync is unconfigured; once both are set it is exactly the pair written, whatever was stored before |
| Config.ConfiguredIff | script.js:157-162 | sync counts as configured exactly when both the token and the repository entries are present and non-empty |
| Config.ConfigIgnoresOtherKeys | script.js:157-162 | writing any other entry (such as the saved collection) does not change the configuration |
| Config.ContentsUrlInjective | script.js:86 | different repositories address different `data.json` documents |
| Inventory.DefaultData | script.js:170-193 | the seed data is two records with empty datasheets |
| Inventory.LowStockExact | script.js:283-284 | the low-stock list holds each record with stock below 5 as often as it occurs and no other record, in the original order, so the low-stock count is at most the total |
| Inventory.LowStockBoundary | script.js:249 | stock 4 is low and stock 5 is not; neither seed record is low |
| Inventory.SearchBlankShowsAll | script.js:291-295 | the unfiltered table is shown exactly when the query is whitespace only |
| Inventory.SearchShowsMatches | script.js:297-304 | a non-blank query shows the matching records, each as often as it occurs and in the original order, and none that do not match |
| Inventory.IndexOf | script.js:274 | `indexOf` gives the first position holding the record, or -1 exactly when it is absent |
| Inventory.FindByKey | script.js:275-278 | `findIndex` gives the first position whose name and part number match, or -1 exactly when none does |
| Inventory.OriginalIndexBounds | script.js:273-279 | a record in the collection resolves to a position no later than its own, holding a record with the same name and part number |
| Inventory.FilteredRowResolves | script.js:273-279 | with unique natural keys, every row of a search result resolves to the position of that very record |
| Inventory.DuplicateKeyResolvesToFirst | script.js:275-278 | a record that shares its natural key with an earlier one resolves to the earlier one |
| Text.TrimEmptyIff | script.js:292 | `query.trim()` is empty exactly when the query is whitespace only |
| Text.TrimIsSlice | script.js:412-413 | `trim()` keeps a contiguous slice of its input, removes only whitespace, from both ends, and removes all of it: a non-empty result neither starts nor ends with whitespace |
| Text.ContainsIff | script.js:298-301 | `includes` holds exactly when the query occurs at some offset |
| Text.Lower | script.js:298 | lower-casing keeps the length and maps each character on its own (ASCII letters to lower case) |
| Seqs.RemoveAt | script.js:383 | `splice(i, 1)` keeps the elements before `i`, shifts the ones after it down by one and shortens the list by one |
| Seqs.RemoveAtMultiset | script.js:383 | `splice(i, 1)` loses exactly one copy of the element at `i` |
| Seqs.RemoveAtIsSubsequence | script.js:383 | `splice(i, 1)` keeps the other records in their relative order |
| Seqs.FilterIsSubsequence | script.js:297 | `filter` keeps the relative order of what it keeps |
| Seqs.FilterMultiplicity | script.js:284 | `filter` keeps every accepted element as often as it occurs and nothing else |
| Manager.PushRequestsShape | script.js:105-154 | without configuration a push sends nothing. Otherwise it sends a GET first. After a GET that did not throw, it sends one PUT, to the same address and with the same token, whose content decodes to the collection and which carries a `sha` exactly when the GET succeeded with a non-empty one |
| Manager.SetGitHubConfig | script.js:470-478 | the console entry point stores both values as given, and the configuration then reads back as that pair |
| Manager.ComponentManager.constructor | script.js:3-7 | a new manager starts with no records and no record being edited |
| Manager.ComponentManager.SaveToLocal | script.js:165-167 | only the `components` entry is overwritten, with text that reads back as the current collection |
| Manager.ComponentManager.LoadFromGitHub | script.js:78-102 | one GET when configured and none otherwise; the result is the decoded document only when configured and the GET succeeded with content that decodes |
| Manager.ComponentManager.LoadData | script.js:53-75 | remote data first (then saved locally), else a non-empty saved copy, else the seed records (then saved locally); a saved copy that does not parse leaves the collection as it was; after any other outcome the local copy is non-empty and reads back as the collection |
| Manager.ComponentManager.SaveToGitHub | script.js:105-154 | the requests sent are exactly those of `PushRequests`; the result is true exactly when configured, the GET did not throw and the PUT succeeded |
| Manager.ComponentManager.SyncData | script.js:196-238 | without configuration it sends nothing and reports so; otherwise it pushes and reports the push's success or failure |
| Manager.ComponentManager.UpdateStats | script.js:282-288 | the counters are the number of records and the number of low-stock records, the latter at most the former |
| Manager.ComponentManager.OpenAddModal | script.js:308-324 | opening the add form makes the next submit append |
| Manager.ComponentManager.CloseModal | script.js:327-330 | closing the form forgets the record being edited |
| Manager.ComponentManager.EditComponent | script.js:373-377 | an in-range index becomes the record being edited and fills the form; any other index changes nothing |
| Manager.ComponentManager.HandleSubmit | script.js:345-370 | editing replaces exactly that slot and keeps the length; adding, or an edit index equal to the length, appends one record at the end; either way the copy is saved locally and the form is closed |
| Manager.ComponentManager.DeleteComponent | script.js:380-389 | an in-range, confirmed delete removes exactly that record and saves locally; otherwise nothing changes |
| Manager.ComponentManager.HandleConfigSubmit | script.js:409-427 | the trimmed pair is stored exactly when both halves are non-empty after trimming, and sync is then configured; otherwise storage is unchanged |
| Manager.ComponentManager.ClearConfig | script.js:430-441 | a confirmed clear removes both credential entries, which leaves sync unconfigured; a declined one changes nothing |

## Left out

- DOM and UI are not modelled. This covers event listeners, `renderTable`
  row building, `fillForm`, `openConfigModal`/`closeConfigModal`, the
  `updateConfigStatus` display, modal visibility, and button text and
  disabling. `confirm` answers are boolean parameters and `alert` messages
  are the returned reports.
- `init` is not modelled as one operation, because it is asynchronous UI
  orchestration. Its pieces are modelled: the constructor, `LoadData` and
  `UpdateStats`.
- HTTP is not modelled: `fetch`, headers and `response.json()`. Each request
  is logged in `Network.sent` and its reply is a parameter. The code tells
  replies apart only by `response.ok` (or a thrown error), so there is no
  separate conflict, authentication or rate-limit outcome. The PUT's outcome
  is a single boolean.
- The error-message handling in the `catch` of `syncData` (script.js:217-233)
  is not modelled. `saveToGitHub` catches its own errors, so that branch
  cannot be reached from the network path.
- Serialization is only JSON-shaped. `Serial` writes the compact form
  `JSON.stringify` gives for these records; it escapes only `"` and `\`, not
  control characters. `Parse` accepts exactly that form, with no whitespace,
  a fixed key order and no other JSON values. The 2-space indentation of the
  uploaded document (script.js:128) is not modelled: the model uploads the
  compact form. Because of this, the falsy `JSON.parse` results that the
  truthiness test at script.js:57 would reject (`null`, `0`, `""`) cannot
  arise in the model.
- Strings are sequences of Unicode scalar values. JavaScript strings with
  lone surrogates, on which `encodeURIComponent` throws, cannot be
  represented.
- Text.Lower: folds only ASCII letters. The full Unicode case mapping of
  `toLowerCase` is not modelled.
- Stock is any integer the caller supplies. The `parseInt(...) || 0` parsing
  of the form field (script.js:356) and floating-point number precision are
  not modelled.
- The commit message and its timestamp (script.js:131) are not modelled.
- Inventory.IndexOf: compares records by value. JavaScript's `indexOf`
  compares object identity, so for two equal records found at different
  positions the model returns the first one.
- Manager.ComponentManager.HandleSubmit: requires the edit index to be at
  most the collection's length. `editComponent` sets only in-range indexes,
  and an index equal to the length (left by deleting the last record) appends,
  as in JavaScript. A stale index beyond the length would, in JavaScript,
  leave holes in the array, which a sequence cannot hold; the model does not
  cover that.
- Manager.ComponentManager.LoadData: text that `Serial.Parse` rejects counts
  as a throw when it is the local copy and as no data when it is the remote
  document, even where `JSON.parse` would accept it. Examples are a local
  entry `[ ]` (the code loads an empty list) and remote content in the
  2-space-indented form `saveToGitHub` uploads (the code takes it; the model
  falls back to the local copy). Only text in the compact form the model
  writes is loaded.
- The manager is not protected against overlapping syncs (the code only
  disables the button). Interleavings of the asynchronous calls, such as a
  load finishing after an edit, are not modelled.
- A GET reply that succeeds always carries a `sha` string. A response with
  no `sha` field is not modelled.
