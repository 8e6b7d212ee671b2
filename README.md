# TelegramPicker giveaway engine in Dafny

A model of the giveaway engine of the TelegramPicker bot (`index.js`). The
module-level `giveaways` object holds one record per giveaway, keyed by a fresh
UUID. Three handlers change it:

- a channel post starting with `/run` opens a giveaway;
- a press on its "Participate" button (callback data `join_<id>`) enters the
  user once;
- `/draw` in a chat closes the latest open giveaway of that chat, shuffles its
  participants with Fisher–Yates and announces the first `count` of them.

The project has five modules:

- `Wrappers`: the `Option` type that lookups and parsers return.
- `Text`: the JavaScript string operations the handlers use, each stated on
  `seq<char>`:
  - `String(n)` and `padStart`;
  - `split` with a one-character separator, and `join`;
  - `replace` with a string pattern;
  - `trim`, with the JavaScript whitespace set.
- `UtcDate`: `formatUTCDate`, the `DD/MM/YYYY HH:MM UTC` stamp. A parser is
  included only as the partner for the round-trip proof.
- `FisherYates`: `shuffle`, as an in-place loop over an `array`. It is proved
  against a function on sequences.
- `Giveaways`:
  - the records and the join, draw and rendering logic as functions;
  - the store as a class `Store`, with a `map` of records and the keys in
    insertion order (the order `Object.values` lists them);
  - the three handlers as methods. `Run` states the new store directly;
    `Join` and `Draw` are each tied to a pure step function (`JoinStep`,
    `DrawStep`) whose properties are lemmas.

These become parameters:

- the UUID of a new giveaway;
- the announcement's message id;
- the sheet id and url;
- the clock, as the UTC fields of `new Date()`;
- the random source. `crypto.randomInt(0, i + 1)` at step `i` of the shuffle
  becomes `pick(i)`, with `pick(i) <= i`.

Behaviours of the code worth stating:

- `/run` does not refuse a second open giveaway in the same channel. The newer
  one is the one `/draw` closes; the older one stays open and still takes
  joins.
- `/draw` on a giveaway with no participants still closes it and announces an
  empty winner list.
- The default winner format is `🎉 Winner: {username}`. The format has only a
  `{username}` placeholder, and only its first occurrence is replaced.
- Records are keyed by giveaway id, not by channel. A join names the giveaway,
  and a closed or unknown one answers "not found or expired".
- The draw shuffles the stored participants list itself, not a copy. After a
  draw, the in-memory record holds the shuffled order.

## Model

| member | source | states |
|---|---|---|
| Text.NatToStringRoundTrip | index.js:80-84 | `String(n)` of a natural number is all digits, and reading the digits back gives `n` |
| Text.NatToStringLength | index.js:82 | a number in [10^k, 10^(k+1)) prints with exactly k + 1 digits, so a year in 1000..9999 prints with four |
| Text.PadStart | index.js:80-84 | `padStart(width, c)` keeps the string as a suffix, has max(width, length) characters, and pads only with `c` |
| Text.Pad2RoundTrip | index.js:80-84 | for n < 100, `String(n).padStart(2, '0')` has two digits and reads back to `n` |
| Text.NatToString | index.js:80-84 | `String(n)` of a natural number is at least one decimal digit, with no leading zero: a leading `0` occurs only in `"0"`, the text of 0 |
| Text.IntToString | index.js:82 | `String(i)` of an integer is digits that read back as `i`, preceded by `-` exactly when `i` is negative, and a negative value's digits have no leading zero |
| UtcDate.FormatUtcDate | index.js:78-86 | for a valid time with a four-digit year, the stamp is `DD/MM/YYYY HH:MM UTC`: 20 characters, with the separators at fixed positions and each field, the month shifted by one, in its slot |
| UtcDate.ParseUtcDate | index.js:85 | the parser built as the inverse of the stamp layout returns a result only for a valid time with a four-digit year. Other text gives none, for example a 20-character stamp whose fields are out of range, such as `99/99/2024 99:99 UTC` |
| UtcDate.FormatParseRoundTrip | index.js:78-86 | for every valid UTC time with a four-digit year, the stamp is 20 characters long and reads back to the same day, month, year, hour and minute |
| Text.Trim | index.js:134 | `trim()` returns a slice of the input with only whitespace cut from each end, and no whitespace left at either end |
| Text.TrimIdempotent | index.js:134 | trimming twice is trimming once |
| Giveaways.DisplayName | index.js:134 | a non-empty username is recorded as is; otherwise the recorded name is `trim()` of first name, a space and last name, so it has no whitespace at either end |
| Giveaways.DisplayNameFirstNameOnly | index.js:134 | with no username and no last name, the space after the first name is trimmed away |
| Text.Split | index.js:127 | `split(c)` always yields at least one piece, and no piece contains `c` |
| Text.SplitAtSeparator | index.js:127 | splitting a string at its first separator peels off the piece before it |
| Text.StartsWith | index.js:125 | `startsWith(prefix)` (also at index.js:90) holds exactly when the text is at least as long as the prefix and agrees with it at every position of the prefix |
| Giveaways.ParseJoinData | index.js:125-127 | a press yields a giveaway id exactly when the data starts with `join_`; the id is the text after `join_` up to the next `_` or the end |
| Giveaways.JoinToken | index.js:103 | the button's callback data is `join_` followed by exactly the giveaway id |
| Giveaways.JoinTokenRoundTrip | index.js:125-127 | the id written into the button's data (`join_${giveawayId}`) is the id read back from it, for every id without `_` |
| Giveaways.FindParticipant | index.js:132 | `find(p => p.id === userId)` finds something exactly when some participant has the id, and then it is the first participant with that id |
| Giveaways.Admit | index.js:132-137 | a join by an id already present leaves the participants unchanged; otherwise exactly one participant is appended at the end and the earlier ones are untouched |
| Giveaways.AdmitKeepsIdsDistinct | index.js:132-137 | a join never creates a second entry with the same user id |
| Giveaways.AdmitAllKeepsIdsDistinct | index.js:132-137 | from distinct ids, any sequence of joins keeps participant ids pairwise distinct |
| Giveaways.AdmitAllDistinctUsers | index.js:132-137 | joins by pairwise distinct new users are all accepted, in arrival order |
| Giveaways.AdmitTwice | index.js:132 | a repeated join by the same user is a no-op |
| Giveaways.JoinStep | index.js:123-158 | a button press changes at most the giveaway it names, and only by appending the user. It is ignored unless the data starts with `join_`, answers "not found or expired" for a missing or closed giveaway, and answers "already joined", with no change, for an id already present. Otherwise the answer carries the new entry count and announcement text |
| Giveaways.JoinStepKeepsWellFormed | index.js:132-137 | a join keeps the store's invariant: every key listed once in insertion order, each record filed under its own id, no duplicate participant ids |
| Giveaways.JoinOpenGiveaway | index.js:125-137 | pressing the button of an open giveaway as a new user appends that user and is answered as a successful join |
| Giveaways.JoinTwice | index.js:132 | after a successful join, the same user pressing again is answered "already joined" and the store is unchanged |
| Giveaways.LatestOpen | index.js:170 | `Object.values(giveaways).reverse().find(...)` finds the last-inserted giveaway of the chat that is active, or reports that there is none |
| FisherYates.Swap | index.js:163 | the destructuring swap exchanges the two cells and leaves every other cell and the length as they were |
| FisherYates.ShuffleDown | index.js:161-164 | steps i down to 1 of the loop keep the length and leave every position after i as it was |
| FisherYates.Shuffled | index.js:160-166 | the result of the loop on a sequence: the swaps at steps length-1 down to 1 keep the length (its permutation properties are the lemmas below) |
| FisherYates.Shuffle | index.js:160-166 | the in-place loop leaves in the array exactly what `Shuffled` computes from the old contents, and the same multiset of elements |
| FisherYates.ShuffledIsPermutation | index.js:160-166 | the shuffle returns the same elements, each as often as before |
| FisherYates.ShuffledKeepsDistinct | index.js:160-166 | elements with pairwise distinct keys still have pairwise distinct keys after the shuffle |
| FisherYates.EveryPermutationReachable | index.js:161-164 | every rearrangement of the input is the outcome of some sequence of draws within range |
| FisherYates.DrawsDetermineOrder | index.js:161-164 | on elements with pairwise distinct keys (as participants' ids are), two draw sequences that give the same order made the same draw at every step, so for such elements draw sequences and outcomes correspond one to one. With repeated elements, different draws can give the same order |
| Giveaways.ShuffledCopy | index.js:176 | shuffling the participants in an array gives `Shuffled` of the participants |
| Giveaways.Winners | index.js:176 | `shuffle(ps).slice(0, count)` has min(count, number of participants) entries, is a prefix of the shuffled list, takes nobody more often than they joined, and keeps ids distinct |
| Giveaways.WinnersAreParticipants | index.js:176 | every winner joined, and when no more joined than the count, every participant wins |
| Giveaways.WinnerLines | index.js:177 | one line per winner, the i-th line rendered from the i-th winner |
| Giveaways.WinnerLine | index.js:177 | the `replace('{username}', ...)` callback: a format without the placeholder is the line as is; otherwise the first `{username}` becomes `@` followed by the winner's name and the rest of the format is kept |
| Text.ReplaceFirst | index.js:177 | `replace(pat, rep)` with a string pattern leaves the text unchanged when the pattern does not occur, and otherwise replaces only its first occurrence |
| Giveaways.DefaultWinnerLine | index.js:177 | with the default format, a winner's line reads `🎉 Winner: @` followed by the name |
| Text.Join | index.js:177-178 | `join(sep)` of no pieces is empty; otherwise it starts with the first piece and its length is that of all pieces plus one separator between each two |
| Text.JoinSnoc | index.js:177-178 | joining one more piece appends the separator and then that piece; with the one-piece case this fixes the content of every join, including pieces that hold the separator |
| Giveaways.WinnersText | index.js:177-178 | no winners give the empty text. Otherwise, when neither the format nor any name holds a line break, splitting the text at line breaks gives back exactly the winners' lines in order. The source writes the separator as a line break between quotes, which JavaScript rejects; the model reads it as `'\n'` |
| Giveaways.WinnersMessage | index.js:179-180 | when neither the format nor any name holds a line break, the draw's message splits into the header line `🎉 Giveaway Winners:` followed by one line per winner, or by one empty line when there are none |
| Text.SplitJoinRoundTrip | index.js:177-178 | `join` with a one-character separator followed by `split` at it gives back the pieces, when no piece holds the separator |
| Giveaways.AnnouncementText | index.js:148-150 | the announcement (also the one of index.js:97-99, with 0) is the fixed three-line head followed by at least one digit. The digits read back as the entry count, and they start with `0` only when the count is 0 and the digit is the only one |
| Giveaways.Opened | index.js:109-119 | the record `/run` stores is filed under its own id, open in its channel, with no participants, ten winners and the default format |
| Giveaways.DrawStep | index.js:168-184 | a draw keeps the same set of giveaway ids, and answering "no active giveaway" changes nothing |
| Giveaways.DrawStepEffect | index.js:168-180 | "no active giveaway" is answered exactly when the chat has no open giveaway. Otherwise the latest open one is closed, its participants are kept but reordered, and the first min(count, n) of the new order win. The message renders them, and every other giveaway is unchanged |
| Giveaways.DrawStepKeepsWellFormed | index.js:173-176 | a draw keeps the store's invariant |
| Giveaways.DrawnWinnersAreParticipants | index.js:176 | the winners of a draw have distinct ids and all joined; with at most `count` participants, all of them win |
| Giveaways.JoinAfterDrawRejected | index.js:128-129 | once a draw has closed a giveaway (line 173), every later press of its button is answered "not found or expired" and changes nothing |
| Giveaways.DrawAgainReachesFurtherBack | index.js:170-173 | a second draw in the same chat finds only an open giveaway inserted before the one just closed, or none |
| Giveaways.InsertKeepsWellFormed | index.js:109-119 | filing a new record keeps the invariant: a fresh key goes at the end of the insertion order, a colliding key keeps its place |
| Giveaways.Store.constructor | index.js:23 | the store starts empty |
| Giveaways.Store.Run | index.js:88-121 | a post not starting with `/run` changes nothing. Otherwise a giveaway is stored under the new id: open, no participants, ten winners, the default format. The id goes at the end of the insertion order, and the announcement shows 0 entries and the `join_<id>` button |
| Giveaways.Store.Join | index.js:123-158 | a button press changes the store and answers exactly as `JoinStep` says for the user's display name and formatted join time, keeping the invariant |
| Giveaways.Store.Draw | index.js:168-184 | `/draw` changes the store and answers exactly as `DrawStep` says, keeping the invariant and the insertion order |

## Left out

- Telegram I/O is not modelled. That covers sending, deleting and editing messages, the inline keyboards and the text of `answerCbQuery`; the handlers return a reply value instead.
- The Google Sheets, OAuth and Drive calls, and the Express routes, are not part of this model. They are API wrappers with no engine logic. That includes `createSheet`, whose `return url, spreadsheetId` uses the comma operator: the destructured `sheetUrl` and `sheetId` are then single characters of the id. The sheet id and url are plain parameters here.
- Writing `giveaways.json` and loading it at start-up are not modelled; the store lives in memory only. `/draw` saves before it shuffles, so the file holds the order before the shuffle until the next save, which any later successful join (index.js:138) or `/run` (index.js:120) makes with the shuffled order.
- `uuidv4`, `new Date()` and `crypto.randomInt` are parameters. For elements with distinct keys, as participants' ids are, the model proves that the shuffle's draw sequences and its outcomes correspond one to one. It does not prove the uniformity of the result, which depends on the random source.
- Giveaways.Store.Join: always answers `Joined(...)` after storing the participant. In the source, the awaited sheet `values.append` (index.js:141) and `editMessageText` (index.js:155) come before `answerCbQuery('You have joined!')` (index.js:157). If either rejects, the participant stays stored, since it was pushed and saved at index.js:137-138, but no answer is sent.
- Giveaways.Store.Run: is modelled as if `createSheet` and the announcement's `sendMessage` succeed. Both are awaited (index.js:95, 106) before the record is stored (index.js:109), so when either rejects the source stores no giveaway, while `Run` always stores one.
- Giveaways.WinnersMessage: the split into a header and one line per winner is proved only when neither the format nor any winner's name holds a line break. A name with a line break spreads its winner over several lines, and the model states nothing about that layout.
- Giveaways.WinnersText: the split back into one line per winner is likewise proved only when neither the format nor any winner's name holds a line break; the text itself is still fixed by `Join`.
- Message routing by the Telegram framework is not modelled. The handlers take the chat or channel id as a parameter. From the code, the `channel_post` handler (index.js:88-90) returns without calling `next()`, so a `/draw` posted in the channel would not reach `bot.command('draw')` (index.js:168), and a `/draw` from any other chat carries a chat id that no giveaway has. The model does not capture this.
- Concurrency is not modelled: the handlers are `async` and could interleave at their `await`s. Each handler is modelled as one atomic step.
- Text.ReplaceFirst: does not model the special `$` patterns of a replacement string; a name containing `$&` or `$1` is inserted literally.
- Giveaways.Winners: does not model a negative or fractional `count`, which only a hand-edited JSON file could contain; `count` is a natural number.
- Strings are sequences of Unicode scalar values, not UTF-16 code units, so `padStart` and lengths are counted in scalar values. Every padded field is ASCII digits, so this does not change the results.
- Keys such as `__proto__` or `constructor` are not modelled. On a plain JavaScript object they would name inherited members; a UUID never has that form.
- Numeric-looking keys are not modelled: `Object.values` would list them first. UUIDs contain dashes, so insertion order applies.
- Absent strings (a missing `text`, `username` or `last_name`) are modelled as the empty string, which the source treats the same way.
