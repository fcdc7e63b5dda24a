# Card store and image upload filter

A Dafny model of the logic in `server.js`, a small Express server that keeps
"cards" (title, description, tags, image URL, creation time) in an in-memory
array and accepts one image upload per create or update request.

The model has seven modules, plus `Wrappers` (`wrappers.dfy`) for `Option`:

- `Decimal` (`decimal.dfy`): the decimal numeral JavaScript writes for a
  counter or a clock reading, with its inverse. Both the card ids
  (`card_${idCounter}`) and the stored file names (`${Date.now()}-…`) are
  built from it.
- `Upload` (`upload.dfy`): multer's configuration. It covers the
  `fileFilter`, which runs the unanchored pattern `/jpeg|jpg|png|gif|webp/`
  over the lower-cased `path.extname` of the file name and over the
  `file.mimetype` as multer reports it. It also covers the 10 MiB size limit, the stored
  name `<clock>-<originalname>` and the URL `/uploads/<name>`.
- `Cards` (`cards.dfy`): the state (`cards`, `idCounter`), the id strings,
  `findIndex`, and the store invariant `Valid`. The invariant says ids are
  pairwise distinct, every id number is in `[1, counter)`, and every image
  URL lies under `/uploads/`.
- `Ordering` (`ordering.dfy`): the list route's in-place
  `sort((a, b) => new Date(b.createdAt) - new Date(a.createdAt))`, which
  compares the creation instants, newest first. It is modelled as a stable
  insertion sort, newest first, and proved to be the only newest-first
  order that keeps same-instant cards in stored order.
- `Api` (`api.dfy`): the five `/api/cards` handlers as pure functions
  `State -> Outcome(State, Reply)`. `PostCard` and `PutCard` put the upload
  middleware in front of the create and update handlers.
- `Properties` (`properties.dfy`) and `Server` (`server.dfy`): invariant
  preservation, what `get` sees after each handler, the request state
  machine, the fact that ids are never reused, and a walk-through in which
  an upload such as `cat.png` becomes `card_1`.

Choices of representation:

- A card keeps its id as the counter value `num`. The JSON id is
  `Cards.IdText(num) = "card_" + digits`. Lookups compare id strings, as the
  source does, and `Cards.IdTextInjective` shows this is the same as
  comparing numbers.
- Text fields are `Option<string>`. `None` is JavaScript `undefined`.
- `createdAt` and the file-name clock are integer milliseconds, passed in
  as parameters. The ISO string that `toISOString` produces converts back
  to the same instant, so sorting on the integer matches the source's
  comparator.
- The update handler spreads `{title, description, tags}` over the stored
  card. JavaScript copies keys whose value is `undefined`, so a field the
  client leaves out is **cleared**, not kept. A reader might expect a
  partial update to keep the fields it omits; server.js:85-92 clears them.
  The model follows that code, and `Properties.OmittedFieldsCleared` states
  the behaviour.
- multer skips a file part whose file name is empty, which is what a
  browser sends for a file input left blank, so `req.file` stays
  undefined. `Upload.Receive` treats such a part as no file: POST replies
  `MissingImage`, and PUT updates the text fields and keeps the image.
- When multer refuses a file, the route handler never runs. The state is
  unchanged and the reply is `UploadRejected`. On PUT this happens before
  the id lookup, so a bad file sent to an unknown id is not reported as
  `NotFound`.
- `toLowerCase` is modelled on ASCII letters only. Only two non-ASCII
  characters lower-case to ASCII letters: U+212A becomes `k`, and U+0130
  becomes `i` followed by U+0307. Neither can complete an occurrence of
  jpeg, jpg, png, gif or webp, so the filter's verdict is the same.

## Model

| member | source | states |
|---|---|---|
| `Decimal.Digits` | server.js:65 | the numeral of a counter value is non-empty, all digits, with no leading zero |
| `Decimal.ValueOfDigits` | server.js:65 | reading the numeral of `n` back yields `n` |
| `Decimal.DigitsInjective` | server.js:65 | two counter values have the same numeral iff they are equal |
| `Cards.IdTextInjective` | server.js:65 | `card_<m>` equals `card_<n>` iff `m = n`, so string comparison of ids compares counter values |
| `Cards.Init` | server.js:19-20 | the initial store is empty, satisfies the invariant, and will issue `card_1` first |
| `Cards.FindIndex` | server.js:82 | `findIndex` returns the first index whose id equals the key, and `-1` (None) iff no card has that id |
| `Cards.FindIndexOfNum` | server.js:100 | with distinct ids, the id of the card at index `i` finds exactly `i` |
| `Upload.LowerHasNoCapitals` | server.js:42 | a lower-cased string has no upper-case ASCII letter |
| `Upload.LowerIdempotent` | server.js:42 | lower-casing twice is lower-casing once |
| `Upload.ExtNameLower` | server.js:42 | `path.extname` of the lower-cased name is the lower-cased `path.extname`: lower-casing moves no dot and no slash |
| `Upload.FileFilterIgnoresCase` | server.js:40-46 | two file names that lower-case alike are accepted or refused together, for every content type |
| `Upload.BaseName` | server.js:42 | the last segment inside `path.extname` is the longest slash-free suffix of the path once trailing slashes are dropped |
| `Upload.ExtName` | server.js:42 | `path.extname` is empty or starts with a dot |
| `Upload.ExtNameWithoutDot` | server.js:42 | `path.extname` of a path whose last segment has no dot is empty |
| `Upload.ExtNameCharacterised` | server.js:42 | with `d` the last dot of the last segment, `path.extname` is empty iff `d` is its first character or the segment is `..`, and is the segment from `d` on otherwise |
| `Upload.StoredName` | server.js:31-34 | the stored name is the clock's numeral, a dash, then `file.originalname` unchanged |
| `Upload.ImageUrl` | server.js:69 | the image URL lies under `/uploads/` and what follows the prefix is exactly the stored name |
| `Upload.LastIndexOf` | server.js:42 | the last occurrence of a character, or None iff it does not occur (the scan inside `path.extname`) |
| `Upload.StripTrailingSlashes` | server.js:42 | `path.extname` ignores trailing slashes: the result is the longest prefix not ending in `/`, and only slashes were dropped |
| `Upload.ExtNameFromLastDot` | server.js:42 | when the last dot lies in the last path segment, `extname` is empty (a dotfile) or runs from that dot to the end |
| `Upload.ExtNameOfPlainName` | server.js:42 | `extname("stem.ext")` is `".ext"` for a plain name |
| `Upload.NoExtensionExamples` | server.js:42 | `extname(".png")` and `extname("png")` are empty |
| `Upload.MatchAlternatives` | server.js:41 | trying the alternatives in order at one position succeeds iff one of them occurs there |
| `Upload.SearchFrom` | server.js:41 | the unanchored search from position `i` succeeds iff an alternative occurs at some position `>= i` |
| `Upload.TestAllowed` | server.js:41-43 | the pattern's `test(s)` holds iff one of the five words occurs in `s` as a substring |
| `Upload.FileFilter` | server.js:40-46 | a file is accepted iff the lower-cased extension of `file.originalname` contains an allowed word and `file.mimetype`, which is not lower-cased, contains one too |
| `Upload.Receive` | server.js:37-47 | no file is seen iff none was sent or its file name is empty; a file is stored iff it was sent with a non-empty name, it passes the filter and it has at most 10485760 bytes; the stored name is `<clock>-<originalname>`; a part that fails the filter is refused as not an image, and one that passes it but exceeds the limit is refused as too large |
| `Upload.FirstDash` | server.js:32 | in a stored name the first `-` directly follows the clock numeral |
| `Upload.StoredNameInjective` | server.js:31-34 | two uploads get the same stored name iff they have the same clock reading and the same original name |
| `Upload.ImageUrlShape` | server.js:69 | every image URL lies under `/uploads/` and is non-empty |
| `Upload.NoWordStartNoMatch` | server.js:41 | a string with none of the letters j, p, g, w contains no allowed word |
| `Upload.ExeNeverAccepted` | server.js:40-46 | a name ending in `.exe`, in any letter case, is refused whatever MIME type is declared |
| `Upload.UppercaseMimeRefused` | server.js:43-45 | a `file.mimetype` without lower-case letters (`IMAGE/PNG`) is refused: the filter does not lower-case it |
| `Upload.NoExtensionRefused` | server.js:42-45 | a name with an empty extension is refused whatever MIME type is declared |
| `Upload.PlainNameAccepted` | server.js:40-46 | `stem.ext` is accepted whenever the lower-cased `ext` contains an allowed word anywhere and the MIME type contains one |
| `Upload.EmptyNameRefused` | server.js:42-45 | an empty file name never passes the filter |
| `Upload.PngAccepted` | server.js:40-46 | `<stem>.png`, with the extension in any letter case, declared as `image/png` is accepted |
| `Upload.WebpageAccepted` | server.js:41-42 | `<stem>.webpage`, in any letter case, declared as `image/webp` is accepted: the pattern is unanchored |
| `Ordering.WithTime` | server.js:51 | the cards created at an instant are exactly those of the sequence with that `createdAt` |
| `Ordering.Insert` | server.js:51 | insertion adds exactly one card (as a multiset) |
| `Ordering.InsertSorted` | server.js:51 | insertion into a newest-first sequence keeps it newest first |
| `Ordering.SortDesc` | server.js:51 | the list sort returns a permutation of the cards in newest-first order |
| `Ordering.InsertStable` | server.js:51 | an inserted card goes to the front of its own time group and no other group changes |
| `Ordering.SortStable` | server.js:51 | the sort is stable: within every time group the stored order is kept |
| `Ordering.SortSorted` | server.js:51 | an already newest-first array is left unchanged |
| `Ordering.InOwnGroup` | server.js:51 | a card is in a sequence iff it is in its own time group there |
| `Ordering.SameHead` | server.js:51 | two newest-first sequences with equal time groups begin with the same card |
| `Ordering.SameTailGroups` | server.js:51 | dropping the same first card from both keeps the time groups equal |
| `Ordering.SortedGroupsDetermine` | server.js:51 | newest-first order together with the time groups determines the sequence |
| `Ordering.SortIsStableDesc` | server.js:51 | the sort result is newest first and keeps every time group's stored order |
| `Ordering.SortCharacterised` | server.js:51 | an array equals the sort result iff it is newest first and keeps every time group's stored order |
| `Ordering.InsertKeepsDistinct` | server.js:51 | inserting a card with a fresh id keeps ids distinct |
| `Ordering.SortKeepsDistinct` | server.js:51 | sorting keeps ids distinct |
| `Api.OrEmpty` | server.js:66-68 | the `or ''` default on a string or `undefined` is the sent text, or `""` when the field is missing |
| `Api.ListCards` | server.js:50-52 | listing re-orders the stored array in place into a permutation that is newest first and stable, replies with it, and keeps the counter |
| `Api.GetCard` | server.js:54-58 | get changes nothing; it replies NotFound iff no card has the id, and otherwise the first card that has it |
| `Api.CreateCard` | server.js:60-78 | without a file: 400 and nothing changes; with a file: the counter rises by exactly 1 and one card is appended. That card has number = old counter, text fields defaulted to `""`, image `/uploads/<file>` and the given creation time |
| `Api.Merge` | server.js:85-92 | the spread keeps id and `createdAt`, sets the three text fields to the sent value or to absent, and replaces the image iff a file was stored |
| `Api.UpdateCard` | server.js:80-97 | unknown id: 404 and nothing changes; otherwise only the found index changes, to the merged card, and length and counter are kept |
| `Api.DeleteCard` | server.js:99-104 | unknown id: 404 and nothing changes; otherwise exactly the found element is removed, the rest keep their order, and the counter is kept |
| `Api.PostCard` | server.js:60-74 | a card is created iff the middleware stored a file, and then the create handler runs with that file: the card is appended with image `/uploads/<clock>-<originalname>`. Otherwise the state is unchanged. No file, or a file part with an empty name, gives MissingImage; a refused upload replies with the middleware's reason: not an image for a filter failure, too large for an accepted image over the limit |
| `Api.PutCard` | server.js:80-93 | a refused upload leaves the state unchanged before any lookup and replies with the middleware's reason; otherwise the reply is Updated iff the id is found, and the update handler runs with no file or with the stored file; a reply other than Updated leaves the state unchanged; without a file the image is kept, with one it becomes `/uploads/<clock>-<originalname>` |
| `Properties.CreatePreservesValid` | server.js:60-78 | create keeps the invariant (fresh distinct id below the new counter, image under `/uploads/`) |
| `Properties.UpdatePreservesValid` | server.js:80-97 | update keeps the invariant; ids are untouched |
| `Properties.DeletePreservesValid` | server.js:99-104 | delete keeps the invariant |
| `Properties.ListPreservesValid` | server.js:50-52 | listing keeps the invariant |
| `Properties.GetFindsCard` | server.js:54-58 | in a valid store every card is found by its own id |
| `Properties.CreateThenGet` | server.js:55-74 | the id a create issues was unknown before and afterwards finds the new card, whose image URL is non-empty |
| `Properties.UpdateThenGet` | server.js:82-93 | after an update, get of the same id returns the updated card |
| `Properties.DeleteThenGet` | server.js:100-102 | after a delete, get of that id returns NotFound |
| `Properties.DeleteRemovesOne` | server.js:102 | delete removes exactly one copy of the found card from the multiset of cards |
| `Properties.ListIdempotent` | server.js:51 | listing twice gives the same state and reply as listing once |
| `Properties.GetAfterList` | server.js:51-56 | in a valid store, listing does not change what get returns for any id |
| `Properties.OmittedFieldsCleared` | server.js:85-92 | a title-only update clears description and tags; an image-only update clears all three text fields |
| `Server.Handle` | server.js:50-104 | a request raises the counter by 1 exactly when it creates a card, and the created card gets the old counter's number |
| `Server.HandlePreservesValid` | server.js:50-104 | every request keeps the invariant |
| `Server.Run` | server.js:19-20 | the counter never decreases over any sequence of requests |
| `Server.RunPreservesValid` | server.js:19-20 | any sequence of requests keeps the invariant |
| `Server.IssuedStep` | server.js:65 | the first request of a run issues the counter's number or nothing, and the run continues from its state |
| `Server.IssuedIncreasing` | server.js:65 | the ids created along any run strictly increase and lie between the starting and final counter, so none is reused, even after deletes |
| `Server.FirstPost` | server.js:20-73 | the first upload into a fresh server creates a card iff the file passes the filter and the size limit, and that card is number 1 with the stored file's URL |
| `Server.ListShows` | server.js:50-52 | listing shows every stored card |
| `Server.DeleteForgets` | server.js:99-104 | deleting a stored card's id succeeds and a later get of it is NotFound |
| `Server.PngScenario` | server.js:50-104 | posting `<stem>.png` (for instance `cat.png`, extension in any letter case) titled "Cat" yields `card_1` with image `/uploads/<clock>-<stem>.png`; the list contains it; deleting `card_1` succeeds; get `card_1` is then NotFound |

## Left out

- Express wiring, CORS, JSON body parsing and `listen` (server.js:9-10, 23-24, 111-113): framework plumbing with no logic.
- Static serving of `public` and `uploads`, and the catch-all route (server.js:25-26, 107-109): file passthrough.
- Creating the uploads directory and writing files to disk (server.js:13-16, 29-30): side effects. Only the stored name and the URL are modelled.
- `Date.now()` and `new Date()`: both are integer parameters. No ordering between successive readings is assumed.
- The `catch` branches that reply 500 (server.js:75-77, 94-96): nothing in the modelled handler bodies throws.
- The HTTP status of a refused upload: multer passes its error to Express's default error handler, which is not part of this model. The model's reply is `UploadRejected` with the reason.
- Other multer failures, each of which ends the request before the route handler with the state unchanged, while the model would create or update: a file under a field name other than `image`; more than one file; a text field value over 1 MiB (`LIMIT_FIELD_VALUE`); a field name over 100 bytes (`LIMIT_FIELD_KEY`). The last two come from busboy's default limits. Also left out are bodies whose text fields are not strings, such as repeated fields or JSON values.
- `Upload.Receive`: starts from `file.originalname` and `file.mimetype` as multer reports them. busboy, the multipart parser inside multer, is not part of this model. It lower-cases the content type and drops its parameters. It also cuts the file name to its last `/`- or `\`-separated part, and it turns `.` and `..` into an empty name, which multer then skips. So a client that declares `IMAGE/PNG` is accepted, and a file sent as `../x.png` is stored as `<clock>-x.png`.
- `Upload.Receive`: takes a file of exactly 10485760 bytes to be accepted and one byte more to be refused. Whether multer's limit fires at or past that size depends on the busboy version inside it, which is not part of this model.
- `Upload.ExtName`: POSIX `path.extname` only. Backslash separators of the Windows variant are not modelled.
- `Upload.Lower`: ASCII lower-casing only. The reasoning above shows that the filter's verdict does not change.
- `Cards.Card`: `idCounter` is an unbounded `nat`. A JavaScript number stops counting exactly past 2^53, which no realistic run reaches.
- Concurrency: requests are handled one at a time. The interleavings the runtime allows between I/O steps are not modelled.
