# IPTV channel catalog: playlist ingestion and channel list, in Dafny

This project models the core of a desktop IPTV player. The Electron main process parses
M3U/M3U8 playlists into channel candidates with `m3u8Parser`. `insertChannels` stores the
candidates in a SQLite `channels` table, where `link` is unique. Three reads serve the table:
a paginated read, a name search and a full read. The React channel list keeps the loaded
channels, the displayed channels, a page offset and a `hasMore` latch. It loads pages of 20,
searches locally first and the database second, appends imported channels, and can clean
names for display. A small helper, `findLastIndex`, does a backward search.

Modules, one per concern:

- `Text` (text.dfy): the JavaScript string operations the code relies on. It covers
  `includes`, `indexOf`, `split(sep)[1]`, `split`/`join` on one character, `toLowerCase`
  and `trim`. It also defines `JsText`, a value that is a string, `null` or `undefined`.
- `Seqs` (seqs.dfy): order-preserving `Filter` and `LastMatch`, the last index satisfying
  a predicate.
- `Utilis` (utilis.dfy): `FindLastIndex`, an imperative backward loop over an array.
- `Records` (records.dfy): the candidate channel object `{name, referer, link, state}`.
- `Parser` (parser.dfy): `M3u8Parser`, the imperative loop, proved equal to `Parse`, which
  applies one `Step` per line. The lemmas describe what `Parse` produces.
- `Store` (store.dfy): the table as rows plus the AUTOINCREMENT counter, and the per-record
  INSERT rules. `ChannelStore.InsertChannels` is the imperative batch loop. The reads are
  functions over the rows.
- `ChannelsList` (channels_list.dfy): the `ChannelList` class, with one method per handler,
  plus the local search filter and the `hidedetails` cleaner.

Behaviour of the code worth noting, all of it modelled as written:

- A record's name is `line.split(",")[1]`. That is the text between the first and the
  second comma, not everything after the first comma.
- `hasMore` becomes false only on an EMPTY page. A short page does not clear it.
- No step drops candidates whose link is null before the insert. SQLite's NOT NULL
  constraint refuses them one by one.
- The insert handler always replies `{ success: true }` (main.js:195). So every parsed
  channel is appended to the UI lists, whether it was stored or not.
- The two searches lower case differently. The local filter lowers the name and the
  query with JavaScript's `toLowerCase`. The store's search lowers only the query that
  way. SQLite's `LOWER` and `LIKE` fold ASCII letters alone, so a stored name with a
  capital outside ASCII, such as `"ÖRF"`, is not found even by its own spelling.

Assumptions about the environment:

- node-sqlite3 binds both `null` and `undefined` as SQL NULL.
- Rows come back in id (rowid) order, although the queries have no `ORDER BY`.
- `LIKE '%q%'` is read as plain substring containment, so `%` and `_` in a query are not
  treated as wildcards.
- `toLowerCase` is modelled for every capital of four Unicode blocks: Basic Latin,
  Latin-1 Supplement, Greek and Coptic (U+0370 to U+03FF) and Cyrillic (U+0400 to U+04FF).
  Each capital maps to its lowercase in Unicode's case table. `LOWER` folds ASCII capitals
  only, as SQLite's does.
- A negative `LIMIT` means no limit, and a negative `OFFSET` counts as 0 (SQLite's rules).
- Storage errors on reads are a `failed` parameter.

## Model

| member | source | states |
|---|---|---|
| `Utilis.FindLastIndex` | src/utilis.js:1-8 | With no satisfying element, including an empty array, the result is the default (-1 when omitted). Otherwise it is an index in `[0, length)` where the condition holds and no later index does. The array is only read. |
| `Text.SecondField` | main.js:208 | `s.split(sep)[1]` is `undefined` exactly when `sep` does not occur. Otherwise it is the text that starts right after the first occurrence and stops before the next occurrence or at the end. |
| `Text.Split` | main.js:201 | `split` on one character gives at least one piece. No piece contains the separator, and joining the pieces gives back the input. |
| `Text.SplitJoin` | src/ChannelsList.jsx:132-140 | Splitting a `join` of separator-free pieces returns exactly those pieces. |
| `Text.TrimEmptyIffBlank` | src/ChannelsList.jsx:52 | `query.trim()` is empty exactly when every character is JavaScript white space. |
| `Parser.M3u8Parser` | main.js:200-221 | The loop's output equals `Parse(file)`, one `Step` per line split on "\n". There is one record per line containing `#EXTINF`, named after that line's second comma field. |
| `Parser.ParseEmpty` | main.js:200-205 | Empty input, the parameter's default, gives no records. |
| `Parser.ParseNames` | main.js:206-213 | The records correspond one to one, in order, to the lines containing `#EXTINF` anywhere. Each record's name is its line's `split(",")[1]`, and `undefined` without a comma. |
| `Parser.LeadingLinesIgnored` | main.js:214-217 | Lines before the first `#EXTINF` line never change the output. |
| `Parser.ParseSegment` | main.js:205-219 | A marker line followed by marker-free lines adds exactly one record. Its referer is `split("http-referrer=")[1]` of the last line containing `http-referrer`. Its link is the last line that contains neither marker and does not start with `#`; blank lines count. Each is null when there is no such line. A line with both `#EXTINF` and `http-referrer` is only a marker. |
| `Store.RefererParam` | main.js:138 | `channel.referer \|\| null` binds NULL exactly for a falsy referer, `""` included. Otherwise it binds the string itself. |
| `Store.Attempt` | main.js:97-103 | An INSERT succeeds exactly when name and link are non-null and the link is not yet in the table. The new row holds the bound values and the id after the AUTOINCREMENT counter. A refusal is for uniqueness exactly when no NOT NULL column is null. |
| `Store.InsertOneValid` | main.js:136-139 | One INSERT keeps links unique and ids ascending. It keeps old rows in place, never lowers the counter, and adds exactly the candidate's link when its name and link are non-null. |
| `Store.InsertAllValid` | main.js:133-145 | A batch keeps the table invariant and every old row. Afterwards the table holds exactly the old links plus the link of every candidate with non-null name and link. Each refusal affects only its own record. |
| `Store.AcceptedStored` | main.js:134-139 | An accepted candidate's row is in the final table and holds the candidate's values. |
| `Store.AcceptedInBatchOrder` | main.js:134-144 | Rows of accepted candidates get ids above every earlier id, strictly increasing in batch order. |
| `Store.FirstWithLinkStored` | main.js:98-101 | For a link the table did not hold, the first candidate with that link and a non-null name is accepted. Its row is in the final table and carries its values. |
| `Store.FirstAcceptedWins` | main.js:98-101 | Every later candidate with that link is refused. The reason is `NameIsNull` when its own name is null, and otherwise that the link is not unique. |
| `Store.ChannelStore.constructor` | main.js:97-103 | A fresh table is empty, with the counter at 0. |
| `Store.ChannelStore.InsertChannels` | main.js:133-145 | The loop's new table equals the per-record `InsertAll` of the old table and the batch, and the invariant is kept. |
| `Store.GetChannelsPaginated` | main.js:156-167 | `LIMIT ? OFFSET ?` returns the slice starting at the offset (0 if negative), of length `min(limit, max(0, n - offset))` (the rest when limit < 0). It returns `[]` on error. |
| `Store.SearchChannelsByName` | main.js:169-178 | The search returns exactly the rows whose name, ASCII-lowered by `LOWER`, contains the query as lowered by `toLowerCase` and compared by `LIKE` ignoring ASCII case. It keeps ascending id order and returns `[]` on error. |
| `Store.GetAllChannels` | main.js:147-155 | `SELECT *` returns the same rows as a page with no limit, and `undefined` on error. |
| `Store.SearchIsCaseInsensitive` | main.js:171-173 | `"BBC One"` is found by `"bbc"`, `"ONE"` and `"c on"`. |
| `Store.SearchKeepsNonAsciiCase` | main.js:171-173 | The query `"ÖRF"` finds a stored `"örf"` but not a stored `"ÖRF"`. |
| `ChannelsList.LocalResults` | src/ChannelsList.jsx:57-59 | The local filter keeps exactly the loaded entries whose name, lowered by `toLowerCase`, contains the query lowered the same way. It throws (`None`) exactly when some loaded name is not a string. |
| `ChannelsList.LocalFoldsBeyondAscii` | src/ChannelsList.jsx:57-59 | The query `"é"` finds a loaded `"É"` locally, where the store's search would not. |
| `ChannelsList.LocalResultsConcat` | src/ChannelsList.jsx:57-59 | The local results keep the loaded order: for a concatenation they are the results of each part, in turn. |
| `ChannelsList.HideDetailsWords` | src/ChannelsList.jsx:131-141 | The cleaned name consists of exactly the space-separated words containing none of `(`, `[`, `{`, in order. It is `""` when no word is kept. |
| `ChannelsList.HideDetailsIdempotent` | src/ChannelsList.jsx:131-141 | Cleaning a cleaned name changes nothing. |
| `ChannelsList.CleanedIdempotent` | src/ChannelsList.jsx:132 | Re-applying the in-place `e.name` rewrite to an entry changes nothing. |
| `ChannelsList.PagesCover` | src/ChannelsList.jsx:29-36 | Pages of 20 at offsets 0, 20, 40, ... tile the id-ordered table. After k full loads the rows fetched are its first `min(20k, n)`. The page at `20k` is empty exactly when `20k >= n`. |
| `ChannelsList.ChannelList.constructor` | src/ChannelsList.jsx:11-17 | On first mount nothing is loaded, the offset is 0 and `hasMore` is true. |
| `ChannelsList.ChannelList.LoadChannels` | src/ChannelsList.jsx:25-40 | With `hasMore` false nothing changes. An empty page, including a failed read, latches `hasMore` to false and changes nothing else. A non-empty page, short or not, is appended to both lists and advances the offset by exactly 20. `hasMore` never becomes true again. |
| `ChannelsList.ChannelList.SearchChannels` | src/ChannelsList.jsx:49-69 | A blank query shows the full loaded list. Otherwise the display is the local results when there are any, and the store's search results only when there are none. A throwing filter leaves the display as it was. |
| `ChannelsList.ChannelList.AppendImported` | src/ChannelsList.jsx:116-121 | On a successful insert both lists become the old list followed by every parsed channel. Otherwise nothing changes. |
| `ChannelsList.ChannelList.ImportFile` | src/ChannelsList.jsx:111-123 | The store becomes `InsertAll` of the parsed playlist. Both lists gain every parsed channel, stored or refused, because the insert reply is always a success. |
| `ChannelsList.ChannelList.CleanNamesOnRender` | src/ChannelsList.jsx:130-141 | The render pass cleans displayed names in place, in order, and stops at the first entry whose name is not a string. It completes exactly when every name is a string. |

## Left out

- `src/Player.jsx` (hls.js, DOM video state, floating-point seek and bitrate arithmetic) is not part of this model.
- `electron-build.js` is filesystem packaging and shells out to `npm`.
- Main-process plumbing is not modelled:
  - window creation;
  - the Content-Security-Policy override and the `from` to `Referer` header rewrite;
  - creation of the database file and the connection;
  - the Promise wrappers;
  - the `ipcMain.handle` wiring, apart from the constant `{ success: true }` insert reply.
  The table is modelled abstractly instead of through SQLite.
- `preload.js`, `src/App.jsx`, `src/index.jsx`, `src/Loader.jsx`, `src/AddChannels.jsx` and `src/data/index.js` are bridge, rendering and store declarations without logic.
- Async timing is not modelled:
  - overlapping `loadChannels` calls;
  - the scroll listener and its stale closure;
  - the loading-bar flag.
  Each handler is one atomic state transition, and `LoadChannels` and `PagesCover` describe the handler run on the current state. In the source, the scroll listener is registered once on mount (src/ChannelsList.jsx:19-23). It always calls the first render's `loadChannels`, which sees offset 0, `hasMore` true and both lists as they were at the first render. So every scroll near the bottom fetches page 0 again and sets both lists back to those first-render lists followed by that page. Imported entries drop out of the display, and offset 20 is never requested from a scroll.
- Store.ChannelStore.InsertChannels: storage I/O failures on an insert are not modelled, only constraint refusals. SQLite's 64-bit id limit, where AUTOINCREMENT fails when full, is not modelled.
- ChannelsList.ChannelList.CleanNamesOnRender: the displayed entries are the same objects as those in `data.channels`. The in-place `e.name` rewrite therefore also renames the loaded entries. The model cleans the displayed values only, because it holds entries as values, not shared objects.
- ChannelsList.ChannelList.SearchChannels: the root component always renders the list with `hidedetails` on. After a render, the source's local filter therefore sees the cleaned names in `data.channels`. For example, the query `"hd"` no longer finds `"BBC One (HD)"` locally and goes to the store's search. The model's local filter still sees the uncleaned names and matches locally.
- Parser.M3u8Parser: takes a string. A missing argument is the default `""`, covered by `ParseEmpty`. A non-string argument, which would throw, is not modelled.
- The parser's `quality: {}` property is not modelled, because nothing reads it.
- Strings are sequences of Unicode scalar values, not UTF-16 code units.
- Store.SearchChannelsByName: the query's `toLowerCase` folds only the capitals of the Basic Latin, Latin-1 Supplement, Greek and Coptic, and Cyrillic blocks. Capitals of every other block, such as Latin Extended `Ā`, Cyrillic Supplement (U+0500 on) and Georgian, stay as typed in the model, although JavaScript lowers them. Greek final sigma and multi-character mappings such as `İ` are also not modelled. The full Unicode case table is not part of this model.
- ChannelsList.LocalResults: the same partial `toLowerCase` applies to both the names and the query. A match that needs a capital outside those four blocks to be folded is missed by the model but found by the source.
- `LIKE` wildcards in a query are not modelled.
- The `state` column is only ever written with the candidate's own value.

## Findings

None.
