# Knowledge: article codec, statement text, navigation and folder selection

A Dafny model of the logic inside the Knowledge note-taking application
(an Electron app that keeps folders, categories, topics and articles in one
SQLite file). The model covers the four pieces of real logic found in
`js/db.js` and `js/folders.js`:

- **The article content codec.**
  - `utf8ToHex` encodes the text to UTF-8, strips zero bytes from both ends, and writes `0x` followed by two lowercase hex digits per byte.
  - `isHexStrict` is the regular expression `/^(-)?0x[0-9a-f]*$/i`.
  - `hexToUtf8` validates its input, strips the marker and any `00` pairs at either end, reads two-character chunks with `parseInt(_, 16)`, and decodes the result.
  - The three are modules `Codec` and `CodecLaws`. They rest on `Seqs`, which holds the JavaScript string and array built-ins, and `Numbers`, which holds `toString(radix)`, `parseInt` and ToUint16.
- **The statement text of `dbInsert`, `dbUpdate`, `dbDelete` and `dbTableCreate`** (modules `Sql` and `SqlLaws`, with `Texts` for `join`/`split`).
  - They share one value mapping: numbers and booleans as they are, strings in double quotes, `null`/`undefined` as null, and objects and functions throw.
  - Then comes each statement's template.
  - The INSERT, UPDATE and DELETE builders are proved against a reader of their own text: the text reads back as the table, the keys in order and the mapped values.
  - CREATE TABLE reads back as its fields when no field type holds a comma. Four of the five tables the database is created with put a foreign key clause after a comma in their last field's type; that clause reads back as a column of its own with an empty name (`SqlLaws.LinkedTableReadsBack`).
  - Because nothing is escaped, a string holding quotes and commas makes a one-value statement read as a two-value one.
- **The navigation handlers of `js/db.js`** (module `Navigation`, class `App`, over the tables of module `Store`).
  - The state is `currentState` (folder id, topic id, edit flag, edited article), the article text area, and four tables with an AUTOINCREMENT counter each.
  - Every handler is one method. Each store call the handler makes is an `ok` parameter that says whether the call succeeded.
  - The confirmation dialog and the rename overlay are parameters as well.
- **The folder page of `js/folders.js`** (module `Folders`).
  - Class `FolderSelection` holds the card checkboxes, `selectedFolders` (changed in place by `push` and `splice`) and the `selecting` class.
  - Its invariant is that the list holds the ids of the checked cards, as a multiset, and that `selecting` is on exactly when the list is not empty.
  - Select-all and deselect-all are loops over the checkboxes that click only the boxes in the other state.
  - Class `FolderForm` is the add/edit form with its save-or-close decision.

The `utf8` library is a value `Utf8(encode, decode)` of two partial
functions. The round-trip laws assume, as hypotheses, that it decodes what
it encodes (`RoundTrips`) and that a zero byte at either end of an encoding
comes from a NUL at that end of the text (`ZeroBytesOnlyFromNul`). The law
that NUL-bordered text is lost assumes the converse: a NUL at either end is
written as a zero byte there (`NulIsZeroByte`), and the library decodes a
byte string to a text only when it is that text's encoding
(`DecodesOnlyEncodings`). UTF-8 read strictly has all four properties.

### Where the code departs from its evident intent

The model follows the code in each case below; each item ends with what
was evidently meant.

- The decoder accepts `-0x…` and odd-length payloads.
  - The chunks `-0` and `x4` of `-0x41` read as code 0, and the last character of an odd-length payload is read as a chunk of its own (`CodecLaws.SignedTextChunks`, `CodecLaws.OddPayloadChunks`).
  - This happens because `parseInt` gives -0 or NaN, and `String.fromCharCode` maps both to 0.
  - Evidently intended: only the encoder's own output, an even number of hex digits after an unsigned `0x`, is accepted.
- Text that starts or ends with NUL does not round-trip: its zero bytes at that end are stripped, and what is left decodes to another text or fails (`CodecLaws.NulBorderLost`). Evidently intended: every text the encoder accepts decodes back to itself.
- Strings are pasted into the statements unescaped (`SqlLaws.UpdateNotEscaped`, `SqlLaws.InsertNotEscaped`). Evidently intended: each value stays one value, by escaping quotes or binding parameters.
- No handler checks for an empty name. Evidently intended: a category or topic name is required, as the folder form requires a title.
- A category added with no current folder, or an article with no current topic, makes an INSERT whose value list ends in an empty element (`SqlLaws.ParentlessInsert`), which the database refuses. Evidently intended: the handler runs only once a folder or topic is current, which the hidden buttons ensure in practice.
- `deleteCategory` asks for confirmation and ignores the answer.
  - It deletes only the category row, so its topics stay.
  - Its result is whether exactly one row changed.
  - Evidently intended: delete only on a confirming answer, and take the category's topics and their articles with it.
- Deleting a topic deletes its row and then its articles, but leaves `currentState.topicID` as it was. Evidently intended: the deleted topic stops being current.
- The return button only toggles visibility: it resets no part of `currentState`. Evidently intended: either that, or clearing the current folder and topic; the code gives no sign which, so nothing is claimed.
- An edit shows the stored hex text and stores the text area unencoded (see Findings). Evidently intended: decode for the text area and encode on commit, as a new article is encoded.

## Model

| member | source | states |
|---|---|---|
| Codec.Utf8ToHex | js/db.js:586-603 | the library's error, or `0x` followed by the hex text of the bytes with the zero bytes at both ends removed (`Encoded`) |
| Codec.TrimZeroBytes | js/db.js:590-594 | the strip, reverse, strip, reverse steps leave the bytes without their leading and trailing zero bytes |
| Codec.WriteHex | js/db.js:596-600 | the loop's `hex` is each byte's `toString(16)` padded to two digits, in byte order |
| Codec.Encoded | js/db.js:586-603 | what `utf8ToHex` returns: the library's error, or the hex encoding of the bytes; `CodecLaws.EncodedIsHexStrict` and `CodecLaws.RoundTripText` state its properties |
| Codec.IsHexStrict | js/db.js:605-607 | `isHexStrict` on a string, as a scanner of `/^(-)?0x[0-9a-f]*$/i`; `Codec.IsHexStrictShape` states the language it accepts |
| Codec.NumbersRejected | js/db.js:605-607 | a number passes the type test of `isHexStrict` but never the regular expression, since its `String` form holds no `x` |
| Codec.IsHexStrictShape | js/db.js:605-607 | the scanner accepts a text exactly when it is an optional `-`, `0`, `x` or `X`, then hex digits of either case |
| Codec.TrimZeroPairs | js/db.js:615-621 | the decoder's steps leave the text without its marker and without the `00` pairs at both ends (`Payload`) |
| Codec.ReadCharCodes | js/db.js:623-628 | one character code per two-character chunk, the last chunk of an odd-length text read alone, NaN and -0 as 0 |
| Codec.Decoded | js/db.js:609-631 | what `hexToUtf8` returns: the invalid-HEX error, or the library's decoding of the chunk codes; `CodecLaws.DecodeEncoding` states it on encodings |
| Codec.HexToUtf8 | js/db.js:609-631 | rejected text throws the message naming it; accepted text is decoded from the chunk codes of its payload (`Decoded`) |
| Numbers.ToRadixString | js/db.js:598 | `n.toString(radix)` is nonempty, all digits of the radix, and one character exactly when n is below the radix |
| Numbers.ParseRadixString | js/db.js:598 | `parseInt(n.toString(radix), radix)` is n for every radix |
| Numbers.ParseNumberToString | js/db.js:182 | `parseInt(String(n), 10)` is n, negative numbers included |
| Numbers.ParseInt | js/db.js:626 | `parseInt` with a sign, an optional `0x` for radix 16 and the longest digit run, NaN without digits; `Numbers.ParseRadixString` and `Numbers.ParseNumberToString` state what it reads back |
| Numbers.ToUint16 | js/db.js:627 | the code `String.fromCharCode` uses lies in 0..65535 and equals the argument when the argument already does |
| CodecLaws.HexByteFormat | js/db.js:597-599 | a written byte is two lowercase hex digits, `parseInt(_, 16)` reads the byte back, and it is `00` exactly for byte 0 |
| CodecLaws.HexOfFormat | js/db.js:596-602 | the hex text of n bytes has 2n characters, all lowercase hex digits |
| CodecLaws.EncodingIsHexStrict | js/db.js:586-607 | every text the encoder writes passes `isHexStrict` |
| CodecLaws.EncodedIsHexStrict | js/db.js:586-607 | whenever the encoder returns, its result passes `isHexStrict` |
| CodecLaws.StripZeroBytesShape | js/db.js:590-594 | the stripped bytes neither start nor end with zero, and the input is zeros, then the stripped bytes, then zeros, so interior zeros stay |
| CodecLaws.StripZeroBytesFixed | js/db.js:590-594 | stripping changes nothing exactly when no zero byte sits at either end |
| CodecLaws.CharCodesOfHexOf | js/db.js:596-628 | the decoder's chunk loop reads the encoder's hex text back to the same byte values |
| CodecLaws.PayloadOfEncoding | js/db.js:586-621 | the payload the decoder reads from an encoding is the hex text of the stripped bytes |
| CodecLaws.DecodeEncoding | js/db.js:586-631 | `hexToUtf8(utf8ToHex(s))` decodes the bytes of s with the zero bytes at both ends removed |
| CodecLaws.RoundTripBytes | js/db.js:586-631 | text whose encoding has no zero byte at either end decodes back to itself |
| CodecLaws.RoundTripText | js/db.js:586-631 | every encodable text that neither starts nor ends with NUL decodes back to itself |
| CodecLaws.BoundaryZerosForgotten | js/db.js:590-594 | two texts whose encodings differ only in zero bytes at the ends encode, and so decode, the same |
| CodecLaws.NulBorderLost | js/db.js:586-631 | for a library that writes a bordering NUL as a zero byte and decodes only encodings, a nonempty text starting or ending with NUL encodes, but does not decode back to itself |
| CodecLaws.EmptyText | js/db.js:602 | the empty text is written as `0x`, which decodes as the empty binary string |
| CodecLaws.PaddedPayload | js/db.js:618-621 | `0x00` + h + `00` and `0x` + h have the same payload |
| CodecLaws.PaddedHexStrict | js/db.js:605-607 | hex digits after the marker pass `isHexStrict` with or without `00` padding at both ends |
| CodecLaws.PaddingIgnored | js/db.js:618-621 | for hex digits h, `0x00` + h + `00` decodes exactly as `0x` + h |
| CodecLaws.RejectedText | js/db.js:610-611 | text outside the regular expression throws the invalid-HEX message and is never decoded |
| CodecLaws.SignedTextChunks | js/db.js:606-628 | `-0x41` is accepted and decoded from the codes 0, 0, 1 |
| CodecLaws.OddPayloadChunks | js/db.js:623-628 | `0xabc` is accepted and decoded from the codes 0xab, 0x0c |
| Texts.SplitJoin | js/db.js:194 | splitting a join at its separator gives the parts back when no part holds the separator |
| Texts.JoinLastHalves | js/db.js:72-74 | joining parts whose last one holds the separator is the same text as joining with that part's two halves as two parts |
| Sql.TemplateText | js/db.js:220 | a mapped value as a template literal writes it: digits, the string in double quotes, `null`, `true` or `false`; `SqlLaws.ParseTemplateText` reads it back |
| Sql.JoinText | js/db.js:194 | a mapped value as an element of the joined value list, null as empty text; `SqlLaws.ParseJoinText` reads it back |
| Sql.InsertText | js/db.js:178-194 | the INSERT text, or the error of the first refused value; `SqlLaws.InsertRoundTrip` states what it reads back as |
| Sql.UpdateText | js/db.js:205-222 | the UPDATE text, or the error of the first refused value; `SqlLaws.UpdateRoundTrip` states what it reads back as |
| Sql.DeleteText | js/db.js:233-234 | the DELETE text; `SqlLaws.DeleteRoundTrip` states what it reads back as |
| Sql.CreateTableText | js/db.js:67-75 | the CREATE TABLE text; `SqlLaws.CreateTableRoundTrip` and `SqlLaws.ConstraintReadsAsColumn` state what it reads back as |
| Sql.MapValues | js/db.js:179-193 | the mapping succeeds exactly when no value is an object or a function, maps each value in order, and otherwise throws the error of the first value it refuses |
| SqlLaws.ParseTemplateText | js/db.js:220 | a number, quoted string, `null` or boolean in a template reads back as itself |
| SqlLaws.ParseJoinText | js/db.js:194 | an element of the value list reads back as itself, null being the empty element |
| SqlLaws.NumberTextChars | js/db.js:182 | a number is written as digits with at most a leading minus sign |
| SqlLaws.InsertRoundTrip | js/db.js:178-194 | `INSERT INTO T(k1,...) VALUES(v1,...);` reads back as the table, the keys in order and the mapped values, when no name or string holds a separator |
| SqlLaws.UpdateRoundTrip | js/db.js:205-222 | `UPDATE T SET k1 = v1,... WHERE id = X;` reads back as the table, each key with its mapped value in order, and the row id |
| SqlLaws.DeleteRoundTrip | js/db.js:233-234 | `DELETE FROM T WHERE id = X;` reads back as the table and the row id |
| SqlLaws.CreateTableRoundTrip | js/db.js:67-75 | the CREATE TABLE text reads back as the table with the `id` column and then each field with its type, in order |
| SqlLaws.ConstraintReadsAsColumn | js/db.js:67-75 | a last field whose type is `t, c` makes the same text as the two fields `k t` and an empty name with type c, and reads back as them |
| SqlLaws.ForeignKeyReadsBack | js/db.js:119-150 | a table whose second field is `INTEGER, FOREIGN KEY (k) REFERENCES P(id)` reads back as three columns: the first field, k as INTEGER, and the reference with no name |
| SqlLaws.FirstTableReadsBack | js/db.js:111-115 | the Folders table reads back as created |
| SqlLaws.LinkedTableReadsBack | js/db.js:119-150 | each of the Categories, Topics, Articles and Embeds tables reads back with its reference to the table created before it as a nameless column |
| SqlLaws.BuildersRefuseTogether | js/db.js:184-191 | INSERT fails exactly when some value is an object or a function, and then UPDATE fails with the same message |
| SqlLaws.NullInsert | js/db.js:185-194 | a null value is an empty element of the INSERT value list |
| SqlLaws.ParentlessInsert | js/db.js:446-452 | a row of a text and a null parent id makes an INSERT whose value list is the quoted text followed by an empty element |
| SqlLaws.NullUpdate | js/db.js:213-222 | a null value is the word `null` in an UPDATE |
| SqlLaws.UpdateNotEscaped | js/db.js:211-222 | a string holding `",b = "` makes a one-key UPDATE the same text as a two-key one |
| SqlLaws.InsertNotEscaped | js/db.js:183-194 | a key and a string holding commas make a one-value INSERT the same text as a two-value one |
| Store.InsertFresh | js/db.js:305-306 | an insert adds exactly one row, under a positive `lastID` no row had, and the table stays valid |
| Store.InsertAfterDelete | js/db.js:71 | AUTOINCREMENT never hands out a deleted id again |
| Store.DeleteChanges | js/db.js:347-348 | a delete reports one change exactly when the row existed, and no other row is touched |
| Store.DeleteWhereRows | js/db.js:546 | a filtered delete removes exactly the matching rows and keeps the others as they were |
| Store.UpdateRows | js/db.js:472-474 | an update keeps the ids and rewrites only the addressed row |
| Navigation.App.constructor | js/db.js:46-51 | nothing is selected, no edit is going on, and the tables are empty |
| Navigation.App.Type | js/db.js:52 | the text area holds what was typed |
| Navigation.App.AddFolder | js/db.js:299-314 | on success the folder gets a fresh id, which is returned; a failed insert changes nothing |
| Navigation.App.SelectFolder | js/db.js:316-332 | categories are loaded only for a folder that is not the current one, and it becomes current only when the load succeeds |
| Navigation.App.AddCategory | js/db.js:446-462 | on success, with a current folder, the category is stored under it with a fresh id; with no current folder nothing is stored |
| Navigation.App.AddTopic | js/db.js:397-413 | on success the topic is stored under the clicked category with a fresh id |
| Navigation.App.DeleteCategory | js/db.js:343-355 | whatever the answer, only the category row is deleted, and the result is true exactly when that row existed |
| Navigation.App.SelectTopic | js/db.js:414-437 | a different topic is loaded, and it becomes current exactly when the query succeeds and every one of its articles decodes |
| Navigation.App.AddArticle | js/db.js:488-505 | the encoded text is stored under the current topic with a fresh id, and the text area is cleared once the stored text decodes; with no current topic, or text that does not encode, nothing changes |
| Navigation.App.BeginEdit | js/db.js:530-539 | the stored (hex) content goes into the text area and edit mode starts for that article |
| Navigation.App.CommitEdit | js/db.js:469-487 | the text area is stored unencoded in the edited row, and edit mode ends and the text area clears only when that text decodes |
| Navigation.App.BeginEditDecoded | js/db.js:530-539 | the decoded content goes into the text area, and content that does not decode changes nothing |
| Navigation.App.CommitEditEncoded | js/db.js:469-487 | the text area is stored encoded, and edit mode ends when that content decodes |
| Navigation.App.DeleteArticle | js/db.js:522-529 | the article's row is gone, and nothing else changes |
| Navigation.App.DeleteTopic | js/db.js:540-551 | the current topic's row goes, then every article of that topic; the current topic id stays |
| Navigation.App.RenameTopic | js/db.js:552-566 | the current topic is renamed to the overlay's text, with nothing changed when the overlay is cancelled or there is no current topic |
| Navigation.UnchangedEditKeepsTable | js/db.js:470-474 | committing the hex text as the edit button left it stores the row back unchanged |
| Navigation.RawEditBreaksTopic | js/db.js:472-474 | an edit that leaves text that is not hex makes the article's topic throw on every later load |
| Navigation.NewArticleLoads | js/db.js:491-500 | a new article keeps its topic loadable and reads back as the text typed |
| Navigation.EncodedEditKeepsTopic | js/db.js:472-474 | an edit committed encoded keeps every topic loadable |
| Folders.FolderSelection.constructor | js/folders.js:1 | the list starts empty, with every box off and `selecting` off |
| Folders.FolderSelection.SelectFolder | js/folders.js:41-52 | a check appends the id and sets `selecting` when the length becomes 1; an uncheck splices at `indexOf` and clears `selecting` when the list empties |
| Folders.FolderSelection.Check | js/folders.js:42-45 | clicking an unchecked box appends its id at the end and keeps the list in step with the boxes |
| Folders.FolderSelection.Uncheck | js/folders.js:46-49 | clicking a checked box removes exactly the first occurrence of its id and keeps the list in step with the boxes |
| Folders.FolderSelection.Click | js/folders.js:41-52 | a click turns the box over and then appends or splices out its id |
| Folders.FolderSelection.SelectAll | js/folders.js:142-146 | every box ends checked, and the ids of the boxes that were off are appended in document order |
| Folders.FolderSelection.CheckEveryClear | js/folders.js:143-145 | the loop clicks exactly the unchecked boxes, in document order |
| Folders.FolderSelection.CheckIfClear | js/folders.js:144 | a checked box is left alone, and an unchecked one is clicked |
| Folders.FolderSelection.DeselectAll | js/folders.js:148-152 | every box ends unchecked, the list is empty, and `selecting` is off |
| Folders.PickedSet | js/folders.js:42-48 | setting one box trades its id out of, or into, the checked ids and leaves the others as they were |
| Folders.CheckKeepsStep | js/folders.js:44 | appending the id of a box being checked keeps the list equal to the checked ids as a multiset |
| Folders.UncheckKeepsStep | js/folders.js:47 | the id of a checked box is on the list, and splicing out its first occurrence keeps the list equal to the checked ids |
| Seqs.IndexOf | js/folders.js:47 | the first position of the id on the list, or -1 exactly when it is absent |
| Seqs.Splice | js/folders.js:47 | `splice(i, 1)` inside the list removes the element at i, `splice(-1, 1)` removes the last one, and the list never grows |
| Folders.UncheckPresent | js/folders.js:47 | `splice(indexOf(id), 1)` on a list holding id removes exactly its first occurrence, keeping the order of the rest |
| Folders.UncheckAbsent | js/folders.js:47 | for an id not on the list, `splice(-1, 1)` drops the last id |
| Folders.SelectAllKeepsStep | js/folders.js:142-146 | appending the ids of the unchecked boxes to a list in step gives the ids of all boxes |
| Folders.HandleFolderData | js/folders.js:134-140 | a nonempty folder id gives an update of that folder and anything else a creation, with the data unchanged |
| Folders.SaveDispatch | js/folders.js:124-140 | a form opened on a card saves as an update of that card, and a form opened to add saves as a creation |
| Folders.FolderForm.constructor | js/folders.js:106-110 | the form starts empty and hidden, showing the default image resolved against the page's directory |
| Folders.FolderForm.Show | js/folders.js:71-87 | an edit fills the form with the card's id, image and trimmed texts; either way the form is shown |
| Folders.FolderForm.Fill | js/folders.js:80-83 | the card's id, image source and trimmed title and description go into the form |
| Folders.FolderForm.ChooseImage | js/folders.js:63-65 | the picked file's path is shown, or the default image when none is picked |
| Folders.FolderForm.InputTitle | js/folders.js:67-69 | typing a title clears its invalid mark |
| Folders.FolderForm.Close | js/folders.js:106-131 | image, title and description are reset, the invalid mark cleared, the folder id removed and the form hidden |
| Folders.FolderForm.Save | js/folders.js:114-131 | an empty title marks the field invalid and changes nothing else; otherwise one request is made and the form ends closed |
| Folders.ImageOfSource | js/folders.js:116 | a shown image `file:///p` saves as p |
| Folders.DefaultImageSource | js/folders.js:108-116 | the default image, read back from `img.src` as a `file:///` URL under the page's directory, saves as that directory's `imgs/no-image.png` |
| Folders.ImageOf | js/folders.js:116 | the picked file's path, or the part of the shown source after `file:///`; `Folders.ImageOfSource` states it |
| Folders.Trim | js/folders.js:82-83 | `trim`: leading, then trailing white space removed; `Folders.TrimShape` states its result |
| Folders.TrimShape | js/folders.js:82-83 | trimming keeps a middle slice of the text that neither starts nor ends with white space, and removes only white space |

## Left out

- Database, file system and inter-process I/O (`dbOpen`, `dbQuery`, `prepareDB`, `isDatabaseExist`, `showConfirmDialog`) are not modelled.
  - The tables are the values of module `Store`.
  - Each store call is an `ok` flag.
  - The dialog's answer and the overlay's outcome are parameters.
- The text of the SELECT queries, and how SQLite parses and stores the statement text, are not modelled. The statement builders are proved against readers of their own text, not against SQL.
- The DOM, the showdown markdown converter, highlight.js and the text area's row counting are not modelled. The UI-only handlers are left out for the same reason: the return button, the menu toggle, the delete-folder actions that only log, and window loading.
- `index.js` (Electron window and single-instance lock) is not part of this model.
- The internals of the `utf8` library are not modelled, because its code is not part of this model. Its round trip is a hypothesis of the laws that need it.
- Codec.IsHexStrict: `isHexStrict` also takes a JavaScript number, and always rejects it (`Codec.NumbersRejected`); the predicate itself takes only strings, which is all the application passes.
- Floating-point numbers are not modelled: a number value is an integer of magnitude below 10^21, which `Number(n)` and `${n}` write as its decimal digits; larger numbers, written in exponent form, and integers beyond 2^53, which a JavaScript number holds only inexactly, are not modelled.
- Numbers.ParseNumberToString and SqlLaws.NumberTextChars: stated for every integer; in JavaScript they hold only below 10^21 (`${1e21}` is `1e+21`, and `parseInt` of that is 1). BigInt and symbol values, the `default` branch of the mapping, are not modelled either.
- `Object.keys` order is modelled as the given order of the row's pairs. The reordering of integer-like keys is not modelled.
- Ids are integers in the navigation model. For a current id of the same value, the source compares a `data-id` string with a stored string; any difference between the string and integer forms of an id is not modelled.
- Navigation.App.SelectTopic: the articles are decoded in id order; the query has no ORDER BY, but only whether one of them throws affects the state.
- Async interleaving is not modelled. Each handler is atomic, and the parallel topic queries of `createCategoryElements` are not modelled.
- Folders.TrimShape: the white space removed by `trim` is the common characters of it (space, tab, line breaks, form feed, vertical tab, no-break space, byte-order mark, line and paragraph separators). The other Unicode space separators are not included.
- Folders.SrcOf: the resolution of `img.src` covers only `./`-relative paths, absolute paths and full URLs, against a page directory given as a parameter; percent-encoding, Windows drive paths and other URL forms are not modelled. The form's initial source comes from `index.html`, which is not part of this model; the constructor assumes the default image.
- Navigation.App.AddCategory and AddArticle: the refusal of an INSERT with an empty value element is the database's; the model stores nothing then, whatever the `ok` flag says.
- `saveFolderData` and `updateFolderData` only log and then click the close button. They are modelled as a request appended to `requests`, followed by Close.
- SqlLaws.CreateTableRoundTrip covers only field types without a comma, and so none of the four schema tables with a foreign key; what those read back as is stated by SqlLaws.LinkedTableReadsBack instead. How SQLite itself reads a nameless column after a comma, as a table constraint, is not modelled.
- SqlLaws.CreateTableRoundTrip, InsertRoundTrip and UpdateRoundTrip require names and strings without the separators the text is built around; without that requirement the text is ambiguous, which InsertNotEscaped and UpdateNotEscaped exhibit.

## Findings

| source | as written | input that shows it | evidently intended | confidence | as-written member | corrected member |
|---|---|---|---|---|---|---|
| js/db.js:469-487 | the edit button puts the stored hex text into the text area (line 534), and Enter stores the text area unencoded (lines 472-474) | an article stored as `0x6869` ("hi") is edited to `hi!`: `hi!` is stored, `hexToUtf8("hi!")` throws, and the topic can no longer be opened | decode the content for the text area and encode the text on commit, as a new article is encoded (line 491) | not executed | Navigation.RawEditBreaksTopic | Navigation.EncodedEditKeepsTopic |
