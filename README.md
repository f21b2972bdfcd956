# Student registration server: record table and chat conventions

This project models the logic of `index.js` in Dafny:

- **The student table** behind `/api/students`. It is a module-level array of student records that starts with one seed record (id 1), plus a counter `nextId` that starts at 2. Three handlers act on it:
  - POST inserts a record. It stamps the submitted object with the next id and a date, then appends it.
  - GET searches: a case-insensitive substring filter on `nomComplet`.
  - DELETE removes by id. It keeps every record whose id differs from `parseInt` of the route parameter, and it always answers `{success: true}`, whether or not a record had that id (index.js:48).
  - POST stores any body it is given. A record without a string `nomComplet` makes every later search with a non-empty `q` throw, because `toLowerCase` is called on its name (index.js:32). The model keeps that failure as `Err(TypeError)`.
- **Two string conventions** the Telegram bot uses against that table:
  - The `/search` command takes as its argument everything after the first space of the message: `split(" ").slice(1).join(" ")`.
  - Under each search result the bot shows a delete button whose payload is `del_<id>`. The regular expression `/del_(\d+)/` reads the id back, and the DELETE handler parses it with `parseInt`.

The modules:

- `Wrappers`: `Option`, which models `undefined`, `NaN` and a regular expression with no match, and `Result`, which models a handler that throws.
- `Seqs`: `Array.prototype.filter`. It has lemmas on which elements survive, in which order and how often.
- `Strings`: `String.prototype.toLowerCase` (ASCII), `String.prototype.includes`, `String.prototype.split` on one character and `Array.prototype.join`. `IndexOf` is not a call of the program: it only names "the first space" in the properties of `split`.
- `Numbers`: the ECMAScript `parseInt` with the radix omitted, and the decimal text of a non-negative integer.
- `Students`: records as JSON objects (`map<string, Value>`) and the table invariant. The class `Store` holds the `students` sequence, the `nextId` counter and a ghost set of every id handed out so far.
- `Chat`: the `/search` argument, the usage-or-lookup decision, the `del_<id>` payload and its regular expression. It also holds the end-to-end lemma that a delete button removes exactly the record it was shown with.

The table invariant (`StoreInv`) has three parts:
- `nextId` is at least 2.
- Every record has a numeric id in `[1, nextId)`.
- Ids strictly increase along the table.

Insert and delete both preserve it. So ids are pairwise distinct. The ghost `issued` set shows that an insert never reuses an id, even one whose record was deleted.

Functions and their callers:
- Insert and delete are methods of `Store` that update its fields in place. POST appends to `students` in place with `push` (index.js:41) and moves `nextId` on (index.js:39). DELETE replaces `students` with a filtered copy (index.js:47).
- Search is a function that reads the store and changes nothing.
- The string conventions are pure functions.
- The date that POST stamps comes from the wall clock and the `fr-FR` locale. It is a parameter of `Insert`.

## Model

| member | source | states |
|---|---|---|
| `Students.Store.constructor` | index.js:22-23 | the table starts as the single seed record `{id: 1, nomComplet: "Test User", dateAjout: "20/01/2026"}`, `nextId` is 2, and the invariant holds |
| `Students.Store.Insert` | index.js:37-43 | the stored and returned record is the body stamped with the old `nextId` and the date; it is appended after the unchanged earlier records; `nextId` grows by one; the new id was never handed out before; the invariant is kept |
| `Students.Stamp` | index.js:38-40 | the stamped record has the body's keys plus `id` and `dateAjout`; `id` is the assigned number and `dateAjout` the given date, whatever the client sent; every other field is the body's, verbatim |
| `Students.InsertPreservesInv` | index.js:39-41 | appending a record stamped with `nextId` and moving `nextId` on keeps every id below the counter and keeps ids strictly increasing |
| `Students.IdsDistinct` | index.js:22-23 | under the table invariant no two stored records share an id |
| `Students.Store.Delete` | index.js:45-49 | the new table is the old one filtered by "id differs from `parseInt(param)`"; `nextId` and the issued ids are unchanged; the answer is always success; the invariant is kept |
| `Students.Differs` | index.js:47 | the test is strict inequality: `NaN` differs from every record, a record without a numeric id differs from every number, and otherwise the test holds exactly when the ids are different numbers |
| `Students.DeleteRecords` | index.js:46-47 | every record left has an id different from the parsed one and comes from the table; every such record of the table is left |
| `Students.DeleteKeepsExactly` | index.js:47 | the table after a delete is an order-preserving subsequence of the one before; each record whose id differs keeps all its occurrences, and the others keep none |
| `Students.DeleteAbsent` | index.js:46-47 | deleting an id no record carries, or `NaN` from a non-numeric parameter, leaves the table exactly as it was |
| `Students.DeleteIdempotent` | index.js:45-48 | deleting the same id twice gives the same table as deleting it once |
| `Students.DeletePreservesInv` | index.js:47 | deleting keeps the table invariant with the same `nextId` |
| `Students.DeleteUnique` | index.js:47 | under the invariant, deleting the id of the record at position `i` removes that record and no other, keeping the rest in order |
| `Students.StoreInvTail` | index.js:47 | dropping the first record keeps the invariant |
| `Students.StoreInvCons` | index.js:47 | a record with a smaller id than all that follow can head a table that keeps the invariant |
| `Students.SearchRecords` | index.js:28-35 | a missing or empty `q` returns the whole table; a non-empty `q` fails (the handler throws) exactly when some record's `nomComplet` is not a string; a successful answer holds only records of the table |
| `Students.SearchIsFilter` | index.js:29-33 | with a non-empty query and string names, the answer is the filter "lowercased name includes lowercased query" |
| `Students.SearchFindsExactly` | index.js:29-33 | with a non-empty query and string names, the answer is an order-preserving subsequence of the table; each matching record keeps all its occurrences, and each non-matching one is absent |
| `Students.SearchMatchIff` | index.js:32 | a record is in the answer if and only if the lowercased query occurs at some position of its lowercased name |
| `Students.SearchCaseInsensitive` | index.js:29 | searching for `q` and for its lowercase gives the same answer |
| `Students.Store.Search` | index.js:28-35 | on the current table, a missing or empty `q` returns the whole table; a non-empty `q` throws exactly when some stored `nomComplet` is not a string; an answer holds only stored records |
| `Seqs.Filter` | index.js:47 | a filtered sequence is never longer than the original |
| `Seqs.FilterMembers` | index.js:32 | every element that survives the filter is an element of the input and satisfies the callback, and every element of the input that satisfies it survives |
| `Seqs.FilterIsSubsequence` | index.js:47 | filtering keeps the input order |
| `Seqs.FilterMultiplicity` | index.js:47 | filtering keeps every occurrence of an element that satisfies the callback and none of the others |
| `Seqs.FilterAllKept` | index.js:47 | a callback that accepts every element leaves the sequence unchanged |
| `Seqs.FilterIdempotent` | index.js:47 | filtering twice equals filtering once |
| `Seqs.RemoveOnly` | index.js:47 | when the callback rejects exactly the element at `i`, filtering removes just that element |
| `Seqs.SliceKept` | index.js:47 | a slice whose elements all satisfy the callback survives filtering whole |
| `Strings.Lower` | index.js:29 | lowercasing keeps the length, maps each character by the ASCII case mapping and leaves no upper-case letter |
| `Strings.LowerIdempotent` | index.js:32 | lowercasing an already lowercased string changes nothing |
| `Strings.Includes` | index.js:32 | `includes` holds if and only if the needle occurs at some position of the string |
| `Strings.ShiftOccurrences` | index.js:32 | when the needle does not start the string, it occurs in the string exactly when it occurs after the first character |
| `Strings.IndexOf` | index.js:119 | the index found holds the character, and no earlier position does |
| `Strings.Split` | index.js:119 | a split has at least one piece, and no piece contains the separator |
| `Strings.Join` | index.js:119 | joining a non-empty list of pieces that do not contain the separator, then splitting on it, gives back the same pieces |
| `Strings.SplitAfterPiece` | index.js:119 | a piece without the separator, the separator, then more text splits into that piece followed by the split of the rest |
| `Strings.JoinSplit` | index.js:119 | joining the pieces of a split with the same separator gives back the original string, so spacing is preserved |
| `Strings.JoinAfterEmpty` | index.js:119 | an empty first piece adds only a separator in front of the join of the rest |
| `Strings.JoinPrepend` | index.js:119 | a character put in front of the first piece comes first in the join |
| `Strings.SplitAtFirst` | index.js:119 | with no separator the split is the whole string; otherwise the first piece is the text before the first separator, and the other pieces are the split of the text after it |
| `Chat.SearchArgument` | index.js:119 | the `/search` argument is exactly the text after the first space, internal spacing included, and empty when the message has no space |
| `Chat.SearchCommand` | index.js:119-120 | the bot replies with the usage hint exactly when the message has no space or ends at its first space; otherwise it looks up the non-empty text after the first space |
| `Chat.EncodeDelete` | index.js:127 | the payload is `del_` followed by a non-empty run of decimal digits |
| `Chat.MatchDelete` | index.js:133 | the regular expression matches if and only if some position has `del_` followed by a digit; the captured group is a non-empty run of decimal digits |
| `Chat.MatchDeleteLeftmost` | index.js:133 | the match is taken at the leftmost such position, and the group is the whole run of digits there |
| `Chat.MatchEncodeDelete` | index.js:127-133 | on the payload `del_<id>` the regular expression captures exactly the decimal digits of the id |
| `Chat.DeleteCallbackRoundTrip` | index.js:125-134 | for every natural id, `parseInt` of the group captured from `del_<id>` is that id again |
| `Chat.PressDelete` | index.js:133-134 | a payload the regular expression does not match leaves the table unchanged; otherwise the captured digits go through `parseInt` and the DELETE filter (index.js:46-47), so every record left comes from the table |
| `Chat.PressDeleteRemovesShownRecord` | index.js:123-136 | in a table that keeps the invariant, pressing the delete button shown with the record at position `i` removes that record and no other |
| `Numbers.TrimStart` | index.js:46 | the trimmed string is a suffix of the input that does not start with white space, and everything removed before it is white space |
| `Numbers.DigitPrefix` | index.js:46 | `parseInt` reads the longest prefix made of digits of the radix: a prefix of the input, all digits, followed by a non-digit or by nothing |
| `Numbers.DecimalString` | index.js:127 | the decimal text of a natural number is a non-empty run of decimal digits with no leading zero |
| `Numbers.DecimalValue` | index.js:127 | the decimal text of `n` denotes `n` |
| `Numbers.DigitPrefixOfDigits` | index.js:46 | a run of digits followed by a non-digit, or by nothing, is exactly what the digit scan reads |
| `Numbers.ParseInt` | index.js:46 | an empty or all-white-space parameter parses to `NaN`; its other behaviours are the lemmas `ParseIntDecimal`, `ParseIntSigned`, `ParseIntNaN` and `ParseIntSkipsWhiteSpace` |
| `Numbers.ParseIntDecimal` | index.js:46 | `parseInt` gives back `n` from its decimal text followed by any text that does not start with a digit; the one exception is `0x`/`0X` after a lone `0`, which is a hexadecimal prefix |
| `Numbers.MagnitudeDecimal` | index.js:46 | the unsigned part of `parseInt` reads back the decimal text of `n` under the same conditions |
| `Numbers.ParseIntNaN` | index.js:46 | a parameter that does not start with white space, a sign or a digit parses to `NaN` |
| `Numbers.ParseIntSkipsWhiteSpace` | index.js:46 | leading white space never changes what `parseInt` reads |
| `Numbers.ParseIntSigned` | index.js:46 | a `-` or `+` in front of the decimal text of `n` gives `-n` or `n`, under the same conditions as `ParseIntDecimal` |
| `Numbers.SignedOfMagnitude` | index.js:46 | once white space is skipped, a `-` or `+` followed by text whose magnitude is `m` reads as `-m` or `m` |
| `Numbers.ParseIntTrailingText` | index.js:46 | example: `parseInt("12abc")` is 12 |
| `Numbers.ParseIntHex` | index.js:46 | example: `parseInt("0x1f")` is 31, because `0x` switches to radix 16 |
| `Numbers.ParseIntBareHexPrefix` | index.js:46 | example: `parseInt("0x")` is `NaN` |

## Left out

- Express plumbing is not modelled: app set-up, `cors`, body parsing, static hosting, the root route and `listen`. A route the model has becomes a method or function with the request's parts as parameters.
- The Telegraf bot's wiring is not modelled: `start`, `hears`, `on`, `action`, keyboards, Markdown replies, `launch` and signal handling. The model keeps only the two string conventions and what a button press does to the table (`Chat.PressDelete`).
- The `apiService` HTTP calls from the bot to the server's own API are not modelled. They turn network failures into `null`, `[]` or `false`. As a consequence, the bot's search query goes into the URL without encoding (`?q=${nom}`): a name containing `&`, `#` or `+` would reach the server altered. The model assumes it arrives verbatim.
- `new Date().toLocaleDateString("fr-FR")` depends on the clock and the locale. The date is a parameter of `Store.Insert`.
- `JSON.parse` of the mini-app payload and the JSON body parser are not modelled. A submitted body is an already-parsed object (`Record`).
- A body that is a JSON array is not modelled. Nor is a `q` that arrives as an array (`?q=a&q=b`) or as an object (`?q[a]=b`); on either, `toLowerCase` would throw.
- `Students.Value`: JSON numbers are integers only. Fractional numbers, and the double precision of JavaScript numbers, are not modelled. So `nextId` is an unbounded integer, with no loss of precision past 2^53 and no exponent notation in `${id}` past 10^21.
- Strings are sequences of Unicode scalar values, while JavaScript strings are sequences of UTF-16 code units. A lone surrogate has no model, and a character outside the Basic Multilingual Plane counts as one character here rather than two.
- `Strings.Lower`: maps only ASCII letters. `toLowerCase` uses full Unicode case mapping, which is not modelled.
- The aliasing between the request object, the stored record and the response is not modelled: the handler mutates `req.body` in place and returns the same object. Key order inside a JSON object is not modelled either, because records are maps.
- Asynchronous interleaving is not modelled. Each handler runs synchronously on Node's single event loop, so each is modelled as one atomic step.
