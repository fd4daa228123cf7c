# TDTU notification bot: the deduplicate-and-deliver pipeline in Dafny

This is a model of the deterministic core of a Discord bot. The bot scrapes a
university department's notification list. It tells the channel about items
it has not reported before, and stores the ids it has reported in a text file,
`readed_noti.txt`. The model covers four parts of `app.js`:

- **Seen-id file** (`SeenStore.dfy`). `readFromFile` reads the file as
  `data.trim().split('\n').filter(Boolean)`. A missing file reads as the empty
  list, and the function creates the file empty. The writer rewrites the file
  with `[...old, ...new].join('\n')`. File contents are values: `Option<string>`
  before the read (`None` means the file does not exist) and `string` after it.
- **Id extraction** (`IdExtraction.dfy`). This is `onclick.match(/Detail\/(\d+)/)`
  and its capture group. It is modelled as the regular-expression engine's
  leftmost scan, and the greedy `\d+` takes the maximal digit run
  (`Text.DigitRun`).
- **Diff** (`Differ.dfy`). This is the loop of `getNotification` over the
  list items. It pushes into the two parallel lists `newNotifications` (ids)
  and `newContents` (titles). The file is rewritten only when something is
  new. An item of the page is a pair of its `title` and `onclick` attributes.
- **Delivery** (`Chunking.dfy`, `Delivery.dfy`, `Cycle.dfy`). This is
  `fetchAndSendNotifications`. It builds one embed per new item, splits the
  embeds into pages of ten, and sends the `followUp` messages. The messages
  are modelled as the list of their arguments, in sending order.

The loops of the source are methods proved against specification functions:
the item loop (`Differ.CollectNew`), the slicing loop
(`Chunking.SplitIntoChunks`) and the send loop (`Delivery.FetchAndSend`).
The `map`, the `join`, the `trim().split().filter()` chain and the regular
expression are functions. Lemmas state what the source promises about them.

Three behaviours of the code that the model keeps as they are:

- The seen ids are a list, not a set. An unseen id that two items of one page
  carry is kept twice (`Differ.DuplicatesKept`), so it is sent twice and
  written to the file twice.
- The page size is the constant 10 (`Delivery.PageSize`). The chunker itself
  takes any positive size.
- Errors are not reported distinctly: the `finally` block of
  `getNotification` returns whatever lists it has so far. This is left out
  (see below).

## Model

| member | source | states |
|---|---|---|
| `Text.DigitRun` | app.js:189 | the digit run at a position is a slice of the text, all digits, and followed by a non-digit or the end (greedy `\d+`) |
| `Text.DigitRunIs` | app.js:189 | a digit string followed by a non-digit or the end is the digit run at its position |
| `Text.DecimalString` | app.js:123 | `${index + 1}` renders a number as a non-empty digit string with no leading zero |
| `Text.DecimalRoundTrip` | app.js:123 | reading the rendered number back gives the number |
| `IdExtraction.ExtractId` | app.js:189-190 | the id is either `null` or a non-empty digit string |
| `IdExtraction.MatchFromNone` | app.js:189-190 | the scan from a position finds nothing exactly when the pattern matches at no later position |
| `IdExtraction.MatchFromSome` | app.js:189-190 | a scan that finds something returns the digit run after the first matching position, and no earlier position matches |
| `IdExtraction.ExtractIdIsLeftmostMatch` | app.js:189-190 | the id is `null` exactly when no `Detail/` is followed by a digit; otherwise it is the maximal digit run after the leftmost such `Detail/` |
| `IdExtraction.ExtractIdOf` | app.js:189-190 | an `onclick` holding `Detail/`, digits and then a non-digit, with no earlier match, yields exactly those digits |
| `SeenStore.TrimStart` | app.js:214 | removes exactly the leading white space: the result is a suffix, everything dropped is white space, and the result does not start with white space |
| `SeenStore.TrimEnd` | app.js:214 | removes exactly the trailing white space |
| `SeenStore.Trim` | app.js:214 | the result is the middle slice of the text, only white space lies outside it, and it neither starts nor ends with white space |
| `SeenStore.Split` | app.js:214 | `split('\n')` yields at least one piece, and no piece holds the separator |
| `SeenStore.Join` | app.js:202 | `join('\n')`: `SplitJoin` proves that splitting the joined text gives the pieces back, and `JoinSplit` that joining the pieces of a split gives the text back |
| `SeenStore.Serialise` | app.js:201-202 | the text the file is rewritten with: `ParseSerialise` proves it reads back as the list for every well-formed list, and `DigitIdsRoundTrip` for every list of digit ids |
| `SeenStore.SplitJoin` | app.js:202 | splitting the joined pieces (none holding the separator) gives the pieces back |
| `SeenStore.JoinSplit` | app.js:214 | joining the pieces of a split gives the text back |
| `SeenStore.DropEmpty` | app.js:214 | `filter(Boolean)` keeps only non-empty strings, and a string is kept exactly when it is in the input and non-empty |
| `SeenStore.DropEmptySingle` | app.js:214 | on a single string, `filter(Boolean)` keeps it exactly when it is non-empty |
| `SeenStore.DropEmptyAppend` | app.js:214 | `filter(Boolean)` of a concatenation is the concatenation of the filtered parts; with `DropEmptySingle` this fixes the result element by element, so order and duplicates are kept |
| `SeenStore.ParseSeen` | app.js:214 | the list read from the file never contains an empty string or a newline |
| `SeenStore.ReadFromFile` | app.js:211-225 | a missing file gives the empty list and is created empty; an existing file is parsed by `ParseSeen` and left unchanged |
| `SeenStore.ParseIsWellFormed` | app.js:214 | any file text parses to a list in the format the file carries unchanged |
| `SeenStore.ParseSerialise` | app.js:201-202 | a well-formed list written with `join('\n')` reads back as itself |
| `SeenStore.ReadWriteRead` | app.js:201-202 | rewriting the file with the list read from it changes nothing the next read sees |
| `SeenStore.DigitIdsRoundTrip` | app.js:201-202 | for non-empty digit-only ids, parsing `ids.join('\n')` gives the ids |
| `Differ.IsNew` | app.js:192 | the test `id && !readed_noti.includes(id)`: `NewIndices` proves the kept items are exactly those that pass it |
| `Differ.Positions` | app.js:186-198 | the positions holding `true` in a list of flags: every one holds `true`, they increase strictly, and none is missed |
| `Differ.NewIndices` | app.js:186-198 | the positions of the kept items are exactly the items with a non-null unseen id, in increasing page order |
| `Differ.FreshStep` | app.js:192-197 | one more item adds its id and its title to the two lists exactly when its id is non-null and unseen |
| `Differ.CollectNew` | app.js:186-198 | the loop's `newNotifications` and `newContents` are the ids and titles of the new items, in page order |
| `Differ.FreshEntries` | app.js:186-198 | the two lists are parallel: entry k of each comes from the k-th new item; every id is a digit string not in the seen list |
| `Differ.FreshMembership` | app.js:186-198 | an id is new exactly when it is unseen and some item of the page carries it; items with no match contribute nothing |
| `Differ.DuplicatesKept` | app.js:192-196 | an unseen id carried by two items appears twice, because the seen list is not updated inside the loop |
| `Differ.NothingNewTwice` | app.js:192 | against the seen list extended with the new ids, the same page has nothing new |
| `Differ.SeenFileAfter` | app.js:200-203 | with nothing new, the file is not rewritten: an existing file keeps its text and a missing one is left empty |
| `Differ.SeenListGrows` | app.js:200-202 | the rewritten file reads back as the old list followed by the new ids: the old list is a prefix, so the seen list never shrinks, and every new id is in it |
| `Differ.SecondPollFindsNothing` | app.js:184-202 | reading the updated file and diffing the same page again finds no new ids and no new titles |
| `Differ.GetNotification` | app.js:183-203 | returns the titles and ids of the new items, and the file as rewritten |
| `Chunking.Chunks` | app.js:130-133 | every page holds between one and `size` items, all but the last hold exactly `size`, and an empty list has no pages |
| `Chunking.SplitIntoChunks` | app.js:130-133 | the slicing loop builds the same pages |
| `Chunking.FlattenChunks` | app.js:130-133 | concatenating the pages gives back exactly the list |
| `Chunking.ChunkCount` | app.js:130-133 | there are `ceil(n / size)` pages: the least number `m` with `n <= m * size`, so none for `n = 0` |
| `Chunking.ChunkAt` | app.js:132 | page k is the slice from `k * size` to `min((k + 1) * size, n)` |
| `Chunking.ChunkItem` | app.js:132 | item p of page k is item `k * size + p` of the list |
| `Delivery.EmbedFor` | app.js:119-126 | the `map` callback: `EmbedReadBack` proves its title, url and color |
| `Delivery.BuildEmbeds` | app.js:118-127 | one embed per new title |
| `Delivery.EmbedReadBack` | app.js:118-127 | embed k's title is the number k+1, written in decimal with no leading zero as `${index + 1}` writes it, then `". "`, then the k-th title; its url is the detail prefix followed by the k-th id; its color is 0x00AE86 |
| `Delivery.FetchAndSend` | app.js:112-141 | the send loop emits exactly the trace: the acknowledgment alone, or the preamble and then one message per page in order |
| `Delivery.TraceShape` | app.js:112-141 | nothing new gives exactly one ephemeral "No new notifications found."; otherwise there are 1 + ceil(n/10) messages: the public preamble first, then public messages of 1 to 10 embeds, full except the last |
| `Delivery.TraceCarriesAllEmbeds` | app.js:130-141 | the embeds of the messages after the preamble, in order, are exactly the embeds of the new items |
| `Delivery.NumberedAcrossMessages` | app.js:118-140 | embed p of message m is the embed of new item `10 * (m - 1) + p`, so the numbering runs on across message boundaries |
| `Cycle.FetchAndSendNotifications` | app.js:109-142 | one run sends the trace of the new items and leaves the file as `getNotification` rewrote it |
| `Cycle.SecondRunSendsOnlyAcknowledgment` | app.js:109-115 | running again on the same page after the update sends only the acknowledgment |
| `Cycle.NothingNewChangesNothing` | app.js:112-115 | a run that finds nothing new sends only the acknowledgment and leaves an existing file unchanged |
| `Cycle.FirstRunScenario` | app.js:109-142 | ids 101 and 102 with no file yet: the preamble and one message with embeds "1. A" and "2. B", the file becomes "101\n102", and a second run sends only the acknowledgment |

## Left out

- Discord client setup, slash-command registration, the select menu, `deferReply` and `editReply` (app.js:1-84). These are library calls. `followUp` is modelled only as the list of its arguments.
- The ephemeral flag of a `followUp` call without one (app.js:140) is modelled as `false`. What Discord then shows is not part of this model.
- Scheduling with `node-cron` at 09:00 and 18:00, and the append to `log.txt` with the local time (app.js:86-107). These are timers, concurrent runs and wall-clock time.
- Browser automation: login, navigation, the 10-second wait and the scroll loop (app.js:145-183). The list items the scrape yields are an input of the model.
- File I/O as effects. The file is a value, and `writeFile` and `readFile` cannot fail in the model.
- `readFromFile`'s rethrow of errors other than ENOENT (app.js:220-223), and the `return` inside `finally` (app.js:205-208). Together they turn any error into "nothing new" or into partial lists. This is JavaScript exception control.
- `SeenStore.Trim`: removes only space, tab, carriage return and line feed. JavaScript's `trim` removes the full Unicode white-space set.
- Strings are sequences of characters. JavaScript's UTF-16 code units and surrogate pairs are not modelled.
- `console.log` and `console.error` output.
- Concurrency: two overlapping runs racing on the seen-id file are not modelled. Every run here is sequential.
