# Vattenfall DDW kiosk — verified model of its data core

This project is a Dafny model of the data-handling core of the Vattenfall
Dutch Design Week kiosk, a Vue application written in TypeScript. It covers
three source files.

- **Conversation retrieval** (`src/composables/useFirebaseData.ts`)
  - the shallow validator of stored conversation records;
  - the decoder that reads a creation time out of the first eight characters of a Firebase push ID;
  - the pipeline of `fetchAllConversations`: filter the valid entries, resolve each one's timestamp (stored, then decoded key, then clock), normalise it, and sort newest first;
  - the error paths of that pipeline and the `loading`/`error` state they leave behind;
  - the two selectors `getLatestConversation` and `getPreviousConversations`.
- **Parts catalogue** (`src/data/partsData.ts`)
  - the CSV parser: its per-line scanner with quoted fields and doubled quotes, the skipping of the header and of blank lines, and the first-id-wins deduplication;
  - the record it builds for each line;
  - the sort by priority;
  - the grid-area naming helper.
- **Part selection** (`src/composables/useSelectedPart.ts`)
  - the shared selection state, an ordered list of parts whose capacity depends on the difficulty level, as a class;
  - its toggle (`addSelectedPart`) with its three cases; trimming on a change of difficulty; and the plain setters and getter.

Modules follow the program.

| module | file | what it holds |
|---|---|---|
| `Wrappers` | `wrappers.dfy` | `Option` |
| `Builtins` | `builtins.dfy` | the JavaScript built-ins the core relies on: `trim`, `split`, `indexOf`, `slice`, `String(n)` for integers and the decimal part of `parseInt`; `Join` is not used by the core and serves only as the inverse against which `split` is specified |
| `Sorting` | `sorting.dfy` | a stable sort by an integer key. `Array.prototype.sort` has been required to be stable since ECMAScript 2019. |
| `FirebaseData` | `firebase_data.dfy` | `useFirebaseData.ts` |
| `PartsData` | `parts_data.dfy` | `partsData.ts` |
| `SelectedPart` | `selected_part.dfy` | `useSelectedPart.ts` |

How the source's effects are modelled:

- The network, `response.text()`, `JSON.parse` and `Date.now()` are inputs. A `FetchOutcome` value says what the request and the parser produced, and `now` is the clock reading.
- Parsed JSON values are a `Json` datatype. A document is the sequence that `Object.entries` yields, with unique keys.
  A falsy document such as `null`, which the source skips with `if (data)`, is the empty sequence: both give an empty list and no error.
- Imperative code stays imperative:
  - `decodeFirebaseKey`, the `forEach` that collects conversations, the CSV line loop and the CSV character scanner are methods with loops. Each one is proved equal to a specification function.
  - The state of `useFirebaseData` and of `useSelectedPart` are classes whose methods update their fields.

Three facts about the code are worth spelling out:

- **Negative limits.** `getPreviousConversations(limit)` is `slice(1, limit + 1)`, so a limit below -1 counts from the end of the list (`FirebaseData.PreviousNegativeLimit`).
- **Decoding to 0.** `-` has index 0 in the push alphabet, so only a key whose leading characters are all `-` decodes to 0 (`FirebaseData.DecodeZero`). `00000000` does not.
- **Ties.** Both sorts are stable, so ties keep document order (`FirebaseData.SortedNewestFirstStable`, `PartsData.PartsByPriorityStable`).

## Model

| member | source | states |
|---|---|---|
| FirebaseData.DecodeFirebaseKey | src/composables/useFirebaseData.ts:36-50 | the loop computes the base-64 value of the first eight characters over the 64-character push alphabet |
| FirebaseData.DecodedKey | src/composables/useFirebaseData.ts:42 | only the first eight characters of a key matter: a longer key decodes like its eight-character prefix |
| FirebaseData.PushCharsOrdered | src/composables/useFirebaseData.ts:39 | the alphabet has 64 characters, starts with `-`, and is in strictly increasing character order |
| FirebaseData.IndexOfPushChar | src/composables/useFirebaseData.ts:46 | `indexOf` maps the d-th alphabet character back to d |
| FirebaseData.DecodeRange | src/composables/useFirebaseData.ts:41-49 | a key drawn from the alphabet decodes to a value in [0, 64^n), n being the number of characters read |
| FirebaseData.DecodeZero | src/composables/useFirebaseData.ts:41-49 | the decoded value is 0 exactly when every character read is `-`, for every key, including keys with characters outside the alphabet |
| FirebaseData.EncodeInAlphabet | src/composables/useFirebaseData.ts:37-39 | the push-ID time prefix of a given length uses only alphabet characters |
| FirebaseData.PushKeyRoundTrip | src/composables/useFirebaseData.ts:36-50 | decoding a key whose first eight characters encode time t gives back t, whatever follows them |
| FirebaseData.DigitsValueOfEncoding | src/composables/useFirebaseData.ts:44-47 | reading the n characters that write t < 64^n in base 64 over the alphabet gives back t |
| FirebaseData.IsValidConversation | src/composables/useFirebaseData.ts:21-33 | `isValidConversation`: the four member checks; characterised exactly by ValidConversationShape |
| FirebaseData.ValidConversationShape | src/composables/useFirebaseData.ts:21-33 | a record is valid exactly when it is an object with truthy `image_url` and `summary` and non-empty arrays `key_phrases` and `conversation` |
| FirebaseData.ValidationIgnoresElements | src/composables/useFirebaseData.ts:26-31 | validation is shallow: swapping the two arrays for any other non-empty arrays keeps a record valid |
| FirebaseData.StoredTimestamp | src/composables/useFirebaseData.ts:78 | `value.timestamp` when it is a JSON number; what it gives in each case is stated by StoredTimestampWins and ResolvedWithoutStored |
| FirebaseData.ResolvedTimestamp | src/composables/useFirebaseData.ts:78 | the resolved timestamp is the clock, the decoded key or the stored number, and it is 0 only if the clock reads 0 |
| FirebaseData.TimestampFromPushKey | src/composables/useFirebaseData.ts:78 | a record with no stored timestamp (or 0) under a push ID gets the time that ID encodes |
| FirebaseData.ResolvedWithoutStored | src/composables/useFirebaseData.ts:78 | for every key, with no stored timestamp or a stored 0: the clock if every significant character is `-`, otherwise the decoded key |
| FirebaseData.StoredTimestampWins | src/composables/useFirebaseData.ts:78 | a stored non-zero numeric timestamp is used whatever the key and clock say |
| FirebaseData.Normalized | src/composables/useFirebaseData.ts:80-84 | the normalised record carries its storage key, and its payload keeps no stale `timestamp` or `firebaseKey` |
| FirebaseData.NormalizedIsSpread | src/composables/useFirebaseData.ts:80-84 | the normalised object is the stored object with `timestamp` and `firebaseKey` set, every other member copied unchanged |
| FirebaseData.Collected | src/composables/useFirebaseData.ts:72-87 | filtering never produces more conversations than entries |
| FirebaseData.CollectStep | src/composables/useFirebaseData.ts:75-86 | one turn of the `forEach`: a valid entry adds its normalised record in front of what the following entries add, an invalid one adds nothing |
| FirebaseData.CollectValid | src/composables/useFirebaseData.ts:74-87 | the `forEach` loop pushes exactly the normalised valid entries, in document order |
| FirebaseData.CollectedExactly | src/composables/useFirebaseData.ts:75-86 | a conversation is in the output if and only if it is the normalisation of some valid entry |
| FirebaseData.CollectedKeysFromEntries | src/composables/useFirebaseData.ts:83 | every output conversation carries the key of a document entry |
| FirebaseData.CollectedOnePerKey | src/composables/useFirebaseData.ts:75-86 | with unique document keys, no two output conversations share a `firebaseKey` |
| FirebaseData.SortedNewestFirst | src/composables/useFirebaseData.ts:89-90 | the sort is a permutation and leaves timestamps non-increasing |
| FirebaseData.SortedNewestFirstStable | src/composables/useFirebaseData.ts:90 | conversations with equal timestamps keep their document order |
| FirebaseData.Retrieve | src/composables/useFirebaseData.ts:52-105 | whenever an error is recorded the list is empty, and the list is always newest first |
| FirebaseData.RetrieveErrorPaths | src/composables/useFirebaseData.ts:58-67 | the error paths: HTTP failure gives "Failed to fetch conversations", a rejected request gives its own message, a blank body gives an empty list with no error, and unparsable JSON gives "Invalid response from server"; every one of them gives an empty list |
| FirebaseData.RetrieveParsed | src/composables/useFirebaseData.ts:63-92 | a body that is not blank and parses to a document ends with no error and the sorted normalised valid entries |
| FirebaseData.RetrieveDocument | src/composables/useFirebaseData.ts:69-92 | a parsed document gives no error and a permutation of its normalised valid entries, newest first, one per key |
| FirebaseData.PermutationKeepsDistinctKeys | src/composables/useFirebaseData.ts:90 | sorting cannot make two conversations share a key |
| FirebaseData.Latest | src/composables/useFirebaseData.ts:107-110 | null exactly for an empty list, otherwise the first conversation |
| FirebaseData.LatestIsNewest | src/composables/useFirebaseData.ts:107-110 | on a retrieved list, the latest conversation is at least as new as every other |
| FirebaseData.Previous | src/composables/useFirebaseData.ts:112-116 | the page never includes the latest conversation, and it takes the following ones in order |
| FirebaseData.PreviousWindow | src/composables/useFirebaseData.ts:112-116 | for limits of -1 or more the page holds min(limit, n-1) conversations starting after the latest; limits 0 and -1 give none |
| FirebaseData.PreviousNegativeLimit | src/composables/useFirebaseData.ts:115 | for every limit below -1 the page is the conversations from position 1 up to `n + limit + 1`, and empty when that end is not past position 1, as `slice` counts from the end |
| FirebaseData.LatestAndPreviousCover | src/composables/useFirebaseData.ts:107-116 | the latest conversation followed by a large enough page is the whole list |
| FirebaseData.ConversationStore.constructor | src/composables/useFirebaseData.ts:18-19 | the state starts with `loading` false and no error |
| FirebaseData.ConversationStore.FetchAllConversations | src/composables/useFirebaseData.ts:52-105 | `loading` ends false, and the returned list and the error left behind are those of `Retrieve` |
| FirebaseData.ConversationStore.GetLatestConversation | src/composables/useFirebaseData.ts:107-110 | returns `Latest` of a fresh retrieval and leaves that retrieval's error |
| FirebaseData.ConversationStore.GetPreviousConversations | src/composables/useFirebaseData.ts:112-116 | returns `Previous` of a fresh retrieval with the default limit 6 and leaves that retrieval's error |
| PartsData.Tokens | src/data/partsData.ts:34-47 | the scanner's branch order: a doubled quote inside quotes is one literal quote, any other quote toggles the quote state, a comma outside quotes separates, every other character is a literal; specified through ParseLine and the Fields lemmas |
| PartsData.Assemble | src/data/partsData.ts:30-49 | the fields that a token stream yields: at least one more than the fields already finished (AssembleCount, AssembleConcat give count and content) |
| PartsData.Fields | src/data/partsData.ts:26-49 | a line always splits into at least one field |
| PartsData.ParseLine | src/data/partsData.ts:26-49 | the character loop, with its quote state and its skip past a doubled quote, yields the fields of the line |
| PartsData.FieldCount | src/data/partsData.ts:41-49 | a line has one more field than it has commas outside quotes |
| PartsData.FieldsConcat | src/data/partsData.ts:34-47 | the fields, put together, hold exactly the literal characters of the line: quotes that toggle are dropped and a doubled quote inside quotes stands for one |
| PartsData.UnquotedFields | src/data/partsData.ts:30-49 | a line with no quote characters splits exactly like `split(',')` |
| PartsData.QuotedRoundTrip | src/data/partsData.ts:30-49 | writing fields quoted, with inner quotes doubled, and scanning the line gives the same fields back, commas and quotes included |
| PartsData.ToPart | src/data/partsData.ts:57-65 | the record built from one line's fields; its fields are stated by CatalogueRowFields |
| PartsData.ParsePriority | src/data/partsData.ts:57 | `parseInt` of the fifth field, with a missing field read as the text `undefined` (so NaN, None here) |
| PartsData.CatalogueRowFields | src/data/partsData.ts:57-65 | a quoted row yields a record with id, name, description, icon path under `/src/assets/images/` and the parsed priority taken from fields 0 to 4 |
| PartsData.LineParts | src/data/partsData.ts:21-23 | one record per line that is not blank after trimming, so never more records than lines |
| PartsData.KeepFirst | src/data/partsData.ts:51-55 | deduplication by id with the set of ids seen, never longer than its input; its meaning is given by KeepFirstDistinct, KeepFirstComplete and KeepFirstFirstInOrder |
| PartsData.DataLines | src/data/partsData.ts:16-21 | the lines after the first of the trimmed text; stated by DataLinesAfterHeader and HeaderOnly |
| PartsData.ParsedParts | src/data/partsData.ts:15-69 | what `parseCSV` returns; ParseCsv is proved equal to it, and ParsedIdsDistinct, ParsedKeepsEveryId and ParsedKeepsFirstInOrder state its properties |
| PartsData.FirstWithId | src/data/partsData.ts:51-55 | the first position holding an id, or -1 when none does |
| PartsData.LoopStep | src/data/partsData.ts:21-66 | one turn of the line loop: a blank line and an already-seen id add nothing; otherwise the record is added and its id recorded |
| PartsData.ParseCsv | src/data/partsData.ts:15-69 | the line loop from the second line on returns exactly the parsed catalogue |
| PartsData.KeepFirstDistinct | src/data/partsData.ts:51-55 | deduplication yields pairwise distinct ids, none of them already seen |
| PartsData.KeepFirstComplete | src/data/partsData.ts:51-55 | every id not already seen survives deduplication |
| PartsData.KeepFirstFirstInOrder | src/data/partsData.ts:51-55 | each kept record is the first with its id, and kept records keep the input order |
| PartsData.ParsedIdsDistinct | src/data/partsData.ts:51-55 | the parsed catalogue has no two records with the same id |
| PartsData.ParsedKeepsEveryId | src/data/partsData.ts:21-55 | every id on a non-blank data line appears in the parsed catalogue |
| PartsData.ParsedKeepsFirstInOrder | src/data/partsData.ts:21-66 | the parsed catalogue holds the first record of each id, in the order of the lines |
| PartsData.LinePartsAppend | src/data/partsData.ts:21-23 | records of two runs of lines are the records of each run, concatenated |
| PartsData.BlankLineParts | src/data/partsData.ts:22-23 | a line that is blank after trimming gives no record |
| PartsData.BlankLineSkipped | src/data/partsData.ts:22-23 | inserting a blank line anywhere does not change the records |
| PartsData.DataLinesAfterHeader | src/data/partsData.ts:16-21 | after a header, the data lines are the body's lines, trailing white space trimmed |
| PartsData.HeaderIgnored | src/data/partsData.ts:16-21 | two catalogues differing only in their header parse alike |
| PartsData.HeaderOnly | src/data/partsData.ts:16-21 | a text with no line break after trimming gives no records |
| PartsData.GridAreaName | src/data/partsData.ts:114-116 | the name is `part` followed by the canonical decimal numeral of index + 1: digits only with no leading zero (a `-` first for a negative number), parsing back to index + 1 |
| PartsData.GridAreaNamesDistinct | src/data/partsData.ts:114-116 | distinct indices get distinct grid areas |
| PartsData.PriorityKey | src/data/partsData.ts:120 | the key of the comparator `a.priority - b.priority`, a NaN priority read as 0 (see Left out) |
| PartsData.PartsByPriority | src/data/partsData.ts:119-121 | the sorted copy is a permutation of the catalogue, and it is non-decreasing by priority when every priority is a number |
| PartsData.NumericPrioritiesSorted | src/data/partsData.ts:120 | a permutation of all-numeric records sorted by key has non-decreasing numeric priorities |
| PartsData.PartsByPriorityStable | src/data/partsData.ts:120 | records with equal priority keep their catalogue order |
| PartsData.PartsByPriorityOfSorted | src/data/partsData.ts:119-121 | a catalogue already in priority order comes back unchanged |
| SelectedPart.MaxParts | src/composables/useSelectedPart.ts:27 | every level allows between one and three parts |
| SelectedPart.IndexOfId | src/composables/useSelectedPart.ts:29 | `findIndex` by id: the first position holding the id, or -1 when none does |
| SelectedPart.Spliced | src/composables/useSelectedPart.ts:32 | `splice(k, 1)` removes exactly the element at k: one fewer element, those before k unchanged, those after it moved up by one |
| SelectedPart.AfterAdd | src/composables/useSelectedPart.ts:26-41 | the selection after `addSelectedPart`, by its three cases; the lemmas below state each case and the invariants it keeps |
| SelectedPart.AddRemovesSelected | src/composables/useSelectedPart.ts:29-32 | a part already selected is removed: the first element with its id goes and the rest keep their order |
| SelectedPart.AddAppendsWhenRoom | src/composables/useSelectedPart.ts:33-35 | a new part is appended while under capacity, nothing else changes |
| SelectedPart.AddReplacesOldest | src/composables/useSelectedPart.ts:36-39 | at capacity a new part displaces the oldest and the length is unchanged |
| SelectedPart.AddToggles | src/composables/useSelectedPart.ts:26-41 | with distinct ids the part is selected afterwards exactly when it was not before |
| SelectedPart.AddElements | src/composables/useSelectedPart.ts:26-41 | every part in the selection afterwards is the added part or was selected before |
| SelectedPart.AddSelectsNothingElse | src/composables/useSelectedPart.ts:26-41 | any other id selected afterwards was already selected |
| SelectedPart.AddPreservesInvariant | src/composables/useSelectedPart.ts:26-41 | ids stay distinct, and the length stays within capacity when it was within it before |
| SelectedPart.AddKeepsOverCapacity | src/composables/useSelectedPart.ts:36-39 | once over capacity, adding a new part leaves the selection over capacity |
| SelectedPart.AddTwiceRestores | src/composables/useSelectedPart.ts:29-35 | adding a new part under capacity and adding it again restores the selection |
| SelectedPart.EasyReplacesSelection | src/composables/useSelectedPart.ts:27-39 | at the easy level a new part replaces the single selected one |
| SelectedPart.Fitted | src/composables/useSelectedPart.ts:54-57 | the kept list is the prefix of length min(length, capacity) |
| SelectedPart.FittedProperties | src/composables/useSelectedPart.ts:54-57 | trimming changes only lists that are too long, keeps distinct ids distinct, and is idempotent |
| SelectedPart.Selection.constructor | src/composables/useSelectedPart.ts:14-15 | the initial state is an empty selection at medium |
| SelectedPart.Selection.SetSelectedPart | src/composables/useSelectedPart.ts:18-20 | the selection becomes exactly the one part |
| SelectedPart.Selection.SetSelectedParts | src/composables/useSelectedPart.ts:22-24 | the selection becomes the given list verbatim; the state is sound afterwards only if that list is |
| SelectedPart.Selection.AddSelectedPart | src/composables/useSelectedPart.ts:26-41 | the new selection is `AfterAdd` of the old one at the current level, and a sound state stays sound |
| SelectedPart.Selection.GetSelectedPart | src/composables/useSelectedPart.ts:43-45 | the oldest selected part, or none exactly when nothing is selected |
| SelectedPart.Selection.SetDifficulty | src/composables/useSelectedPart.ts:51-58 | records the level and keeps the selection's prefix that fits it, so the selection is always within the new capacity |
| SelectedPart.Selection.ClearSelectedPart | src/composables/useSelectedPart.ts:64-66 | the selection becomes empty and the level is unchanged |

## Left out

- The HTTP request, `response.text()`, `JSON.parse`, `Date.now()` and the console messages are not modelled. Their results are inputs: `FetchOutcome` and `now`.
- The Firebase URL is not modelled, because it only parameterises the request.
- `loading` is not observable while a request is in flight, because the model has no concurrency. Overlapping calls that race on `loading` and `error` are not modelled.
- The "Unknown error" branch (a thrown value that is not an `Error`) is not modelled, because `fetch` and `response.text()` reject only with errors.
- FirebaseData.DecodedKey: keys are read as Unicode characters, while `substring`, `charAt` and `length` count UTF-16 code units. A character above U+FFFF among the first eight is one character here and two units (each with `indexOf` -1) in the source, so such a key decodes to a different value, and its record's resolved timestamp and sort position differ.
- FirebaseData.StoredTimestamp: only a stored JSON number counts as a timestamp. A truthy non-numeric `timestamp` (a string, say), which the source would keep, is treated as absent.
- FirebaseData.Json: numbers are integers. Floating-point values and NaN are not modelled.
- FirebaseData.IsValidConversation: elements of `key_phrases` and `conversation` are not checked. The source does not check them either.
- PartsData.ParsePriority: only the decimal part of `parseInt` is modelled. A `0x` prefix, which `parseInt` reads as hexadecimal, is not.
- PartsData.PriorityKey: a record whose priority is NaN sorts with key 0. In JavaScript a comparator returning NaN leaves the order to the engine.
- PartsData.PartsByPriority: it takes the catalogue as a parameter. The source sorts its module-level `partsData`, which is the parsed `partsData.csv`. That file is loaded by a bundler import and is an input here.
- The static tables `gridConfigurations` and `priorityClasses` in partsData.ts are not modelled, because they are data alone.
- SelectedPart.Selection.SetSelectedParts: the source stores the caller's array itself. Aliasing between the selection and that array, and the Vue reactivity around `ref`, are not modelled: the selection is a value.
- `getSelectedParts` and `getDifficulty` are not modelled as members, because they only read the `selectedParts` and `difficulty` fields.
- The other source files are not part of this model: `useGooeyAPI.ts`, `useInactivityTimeout.ts`, `loadingPhrases.ts` and the router.
