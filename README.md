# Steam group queue bot — verified model of its core

The bot keeps a queue of storefront games for a Discord group session. A
member posts `!add <urls…>`. The bot pulls every storefront product-page URL
out of the message, drops each URL's fragment and stores it in the
channel's active list under the member's name. `!rm` withdraws the member's
URLs from that list. `!clear` empties the list. `!list [name]` shows the
list grouped by URL, with the members who recommended each one. `!create`
opens a new list for a new thread. Deleting the thread closes its list.

Rows are never deleted. Removing, clearing and closing only switch a row's
`active` flag off. Two partial unique indexes keep the data in shape:
- at most one active list per (channel, server);
- at most one active entry per (user, URL, list).

The model has four parts.

* `UrlExtractor` (url_extractor.dfy) is the URL extractor. `FindAll` is
  the left-to-right, non-overlapping search that `re.findall` does for
  the pattern `https?://store\.steampowered\.com/app\S+`. It is written
  for any list of literal alternatives followed by `\S+`. `Defrag` cuts
  a URL at its first `#`. `ParseUrls` is the bot's loop, which rewrites
  each match in place.
* `UrlExamples` (url_examples.dfy) holds the repository's pattern tests,
  each as a lemma about `FindAll`, plus a few further behaviours.
* `StoreTables` (store_tables.dfy) holds the two tables as sequences of
  rows. Each SQL statement is a function over them, and the lemmas state
  what each statement does and which invariants it keeps.
  `ListStore.Store` (list_store.dfy) is the database as an object: one
  method per store function, each one transaction. `Decimal`
  (decimal.dfy) renders counts in decimal, as f-strings do.
* `ListReply` (list_reply.dfy) models how `list_session_urls` picks its
  reply and formats the listing.

## Model

| member | source | states |
|---|---|---|
| UrlExtractor.IsSpace | discord-bot/bot.py:11 | definition: the characters `\S` excludes, i.e. those Python's `str.isspace()` accepts. |
| UrlExtractor.Match | discord-bot/bot.py:11 | definition: the pattern matches at the start of a text when one of the literal's spellings is there, followed by a non-whitespace character. |
| UrlExtractor.FindAll | discord-bot/bot.py:408 | definition: `findall` scans left to right. It takes the greedy match where the pattern matches and resumes after it; elsewhere it moves on by one character. |
| UrlExtractor.LiteralsValid | discord-bot/bot.py:11 | The two spellings of the pattern's literal part (`https` tried first, since `s?` is greedy) each contain a ':', contain no whitespace and no '#', and cannot both start the same text. Their lengths are 34 and 33. |
| UrlExtractor.FirstLiteral | discord-bot/bot.py:11 | Returns the first alternative the text starts with. No earlier alternative is a prefix of the text. |
| UrlExtractor.RunEnd | discord-bot/bot.py:11 | Greedy `\S+`: the run from j contains no whitespace and ends at whitespace or at the end of the text. |
| UrlExtractor.MatchLen | discord-bot/bot.py:11 | A match is the literal, at least one non-whitespace character, and then everything up to the next whitespace or the end. |
| UrlExtractor.MatchLenRun | discord-bot/bot.py:11 | The match at the start of a text is exactly its first whitespace-free run, so it contains no whitespace. |
| UrlExtractor.FindAllWeave | discord-bot/bot.py:408 | findall loses nothing: interleaving the unmatched gaps with the matches rebuilds the message. |
| UrlExtractor.FindAllFirst | discord-bot/bot.py:408 | The first match starts at the leftmost position where the pattern matches. The search then resumes right after that match. |
| UrlExtractor.FindAllSuffix | discord-bot/bot.py:408 | A prefix with no match position adds nothing to the result. |
| UrlExtractor.FindAllSome | discord-bot/bot.py:408 | If the pattern matches at any position, the result is non-empty. |
| UrlExtractor.FindAllEmpty | discord-bot/bot.py:408 | The result is empty if and only if the pattern matches at no position. |
| UrlExtractor.MatchShape | discord-bot/bot.py:11 | A match contains no whitespace and the pattern matches at its start. Searched on its own, it is found whole, as the only match. |
| UrlExtractor.FindAllShape | discord-bot/bot.py:408 | Every match found is whitespace-free and matches the pattern. |
| UrlExtractor.FindAllSplit | discord-bot/bot.py:408 | Splitting the message at a whitespace character splits the result: matches never cross whitespace. |
| UrlExtractor.MatchBeforeSpace | discord-bot/bot.py:11 | Text after a whitespace character changes neither whether the pattern matches at the start nor the match's length. |
| UrlExtractor.FindAllWord | discord-bot/bot.py:408 | A whitespace-free word the pattern matches at its start is returned whole, as the only match. |
| UrlExtractor.FindAllShort | discord-bot/bot.py:408 | A text no longer than either literal has no match. |
| UrlExtractor.FindAllNoColon | discord-bot/bot.py:408 | A text without ':' has no match. |
| UrlExtractor.LiteralHasColon | discord-bot/bot.py:11 | A text that starts with a literal contains ':'. |
| UrlExtractor.Defrag | discord-bot/bot.py:410 | urldefrag's URL part is a prefix of its input with no '#'. It is the whole input, or it stops just before the first '#'. |
| UrlExtractor.DefragKeepsPrefix | discord-bot/bot.py:410 | Defragmenting keeps any '#'-free prefix, so the literal of a match survives. |
| UrlExtractor.DefragShape | discord-bot/bot.py:410 | A defragmented match still starts with a literal and contains no whitespace and no '#'. |
| UrlExtractor.Canonical | discord-bot/bot.py:409-410 | Keeps one URL per match, in order. URL k is a '#'-free prefix of match k. It is the whole match when the match has no '#', and otherwise stops exactly at the match's first '#'. |
| UrlExtractor.ParseUrls | discord-bot/bot.py:407-411 | The in-place loop returns, in order, the findall matches with their fragments removed. |
| UrlExtractor.ParseUrlsShape | discord-bot/bot.py:407-411 | Every URL parse_urls returns starts with the storefront app prefix and contains no whitespace and no '#'. |
| UrlExamples.NoMatches | discord-bot/tests/test_pattern.py:10-13 | A command without a storefront URL yields no match. |
| UrlExamples.RootPathNotMatched | discord-bot/tests/test_pattern.py:16-19 | The store's root URL (no `/app`) yields no match. |
| UrlExamples.SingleMatch | discord-bot/tests/test_pattern.py:22-29 | One product URL after the command is the only match, in full. |
| UrlExamples.TwoMatches | discord-bot/tests/test_pattern.py:32-39 | Two space-separated product URLs give exactly those two matches, in order. |
| UrlExamples.AppIdOnly | discord-bot/tests/test_pattern.py:42-45 | `…/app/22370` alone is one match. |
| UrlExamples.DirtyUrl | discord-bot/tests/test_pattern.py:48-51 | Percent-encoded junk glued to the URL is part of the single match. |
| UrlExamples.TrailingTextExcluded | discord-bot/tests/test_pattern.py:54-61 | Words after two spaces are not part of the match. The single match is the bare URL. |
| UrlExamples.GluedUrlSwallowed | discord-bot/bot.py:11 | Two URLs with no whitespace between them form one match. |
| UrlExamples.AppleMatched | discord-bot/bot.py:11 | The pattern does not require a '/' after `app`, so `…/apple` matches. |
| UrlExamples.HttpMatched | discord-bot/bot.py:11 | The `http` spelling matches as well. |
| UrlExamples.MidWordMatch | discord-bot/bot.py:11 | A URL glued to a preceding word is still found, without the word. |
| UrlExamples.DefragFragment | discord-bot/bot.py:410 | A '#'-free URL followed by a fragment defragments to the URL. |
| UrlExamples.FragmentDropped | discord-bot/bot.py:407-411 | parse_urls returns a URL with a `#reviews` fragment without the fragment. |
| StoreTables.WithActiveList | discord-bot/bot.py:363-378 | definition: the list insert with `ON CONFLICT (channel_id, server_id) WHERE active = true DO NOTHING`. It appends an active row with the next id unless the pair already has an active list. |
| StoreTables.InsertEntry | discord-bot/bot.py:97-107 | definition: one games insert. It appends an active row for the user, URL and list unless that triple already has an active entry. |
| StoreTables.AddAll | discord-bot/bot.py:87-114 | definition: the per-URL loop of inserts, in the batch's order, all into the pair's active list. |
| StoreTables.CountActive | discord-bot/bot.py:166 | definition: the row count of one per-URL UPDATE, i.e. the user's active entries for that URL and list. |
| StoreTables.RemoveAll | discord-bot/bot.py:138-165 | definition: the per-URL UPDATEs applied in the batch's order. |
| StoreTables.RemoveCount | discord-bot/bot.py:166 | definition: the sum of the per-URL row counts, each taken on the table as the earlier UPDATEs left it. |
| StoreTables.OneActiveList | discord-bot/bot.py:79 | definition: the partial unique index that the `ON CONFLICT (channel_id, server_id) WHERE active = true` target relies on. No two active lists share a (channel, server) pair. |
| StoreTables.HasActiveEntry | discord-bot/bot.py:107 | definition: the conflict test of the games insert. Some active row already has this user, URL and list. |
| StoreTables.OneActiveEntry | discord-bot/bot.py:107 | definition: the partial unique index behind `ON CONFLICT (user_name, game_url, game_list_id) WHERE active = true`. No two active entries share a (user, URL, list) triple. |
| StoreTables.Consistent | discord-bot/bot.py:79-107 | definition: the invariant every store method keeps. It combines the two partial unique indexes, the reference from each entry to an existing list, and list ids being the serial row numbers. |
| StoreTables.ActiveList | discord-bot/bot.py:141-152 | The `list_id` sub-query returns an active list of the channel and server if one exists, and otherwise nothing. |
| StoreTables.ActiveListUnique | discord-bot/bot.py:371 | Under the partial unique index, the sub-query's row is the pair's only active list. |
| StoreTables.WithActiveListSpec | discord-bot/bot.py:363-378 | The insert with `ON CONFLICT … DO NOTHING` leaves existing rows alone. It adds one active row exactly when the pair had no active list, and preserves the invariants. Afterwards the pair has exactly one active list. |
| StoreTables.AddAllSpec | discord-bot/bot.py:87-114 | Only active rows of this user and list are added, each with a URL from the batch. Afterwards every URL of the batch has an active entry. |
| StoreTables.AddAllCount | discord-bot/bot.py:87-114 | The summed row counts equal the number of distinct batch URLs that had no active entry. Duplicates and already-present URLs add 0. |
| StoreTables.AddAllAgain | discord-bot/bot.py:87-114 | Adding again any URLs already added changes nothing (idempotence of `DO NOTHING`). |
| StoreTables.AddAllConsistent | discord-bot/bot.py:87-114 | The inserts keep the unique indexes and the foreign key. |
| StoreTables.Deactivate | discord-bot/bot.py:153-158 | The per-URL UPDATE keeps the table's length. |
| StoreTables.DeactivateAt | discord-bot/bot.py:153-158 | The UPDATE switches off exactly the user's active entries for that URL and list, and leaves every other row as it was. |
| StoreTables.RemoveAllSpec | discord-bot/bot.py:138-166 | A row is deactivated exactly when it is an active entry of the user in the list whose URL is in the batch. The summed counts equal the number of such rows (duplicates count once). |
| StoreTables.CountSplit | discord-bot/bot.py:166 | The count for a URL set splits into one URL's count plus the rest's count after that URL's UPDATE. |
| StoreTables.RemoveAllConsistent | discord-bot/bot.py:138-166 | Removing keeps the invariants. |
| StoreTables.ClearList | discord-bot/bot.py:203-205 | The clearing UPDATE keeps the table's length. |
| StoreTables.CountList | discord-bot/bot.py:205-210 | definition: the row count of the clearing UPDATE, i.e. every row of the list, active or not. |
| StoreTables.ClearListSpec | discord-bot/bot.py:189-210 | Every row of the list is switched off and the others are untouched. No active row of the list is left. The count reported is every row of the list, including rows that were already inactive. |
| StoreTables.ClearListConsistent | discord-bot/bot.py:189-210 | Clearing keeps the invariants. |
| StoreTables.CloseSession | discord-bot/bot.py:395-400 | The closing UPDATE keeps the number of lists. |
| StoreTables.CloseSessionAt | discord-bot/bot.py:395-400 | Every list of the channel and server is switched off, whatever its state, and the others are untouched. |
| StoreTables.CloseSessionSpec | discord-bot/bot.py:393-404 | Afterwards the pair has no active list. Closing again changes nothing. The invariants hold. |
| StoreTables.ListRows | discord-bot/bot.py:271-273 | definition: the SELECT of (user, URL) for the active entries of one list, in table order. The same query appears at bot.py:306-308. |
| StoreTables.Append | discord-bot/bot.py:279 | definition: `games[url].append(user)` on a defaultdict kept as key/value pairs in insertion order. |
| StoreTables.Grouped | discord-bot/bot.py:278-279 | definition: the dictionary built with one append per fetched row, in row order. The same loop appears at bot.py:312-313. |
| StoreTables.AppendSpec | discord-bot/bot.py:279 | `games[url].append(user)` on a defaultdict adds a key only for a new URL, keeps the keys distinct and appends the user to that key alone. |
| StoreTables.GroupedSpec | discord-bot/bot.py:278-279 | The dictionary's keys are distinct and are exactly the fetched URLs. Each value is that URL's users in row order. |
| StoreTables.GroupedOrder | discord-bot/bot.py:278-279 | The keys come in the order their URLs first occur among the rows: row i adds its URL exactly when no earlier row has it. The listing is numbered in this order (bot.py:244). |
| StoreTables.UsersOfSnoc | discord-bot/bot.py:278-279 | A further row adds its user to its own URL only. |
| StoreTables.UsersOfNonEmpty | discord-bot/bot.py:278-279 | A URL has users if and only if some row has that URL. |
| StoreTables.ListedUsers | discord-bot/bot.py:271-273 | The users fetched for a URL of a list are exactly the users with an active entry for it, each once. |
| StoreTables.ListingSpec | discord-bot/bot.py:304-313 | Grouping a list's active rows gives distinct URLs, each with a non-empty list of distinct users. A user appears under a URL if and only if they have an active entry for it. |
| StoreTables.CurrentGamesSpec | discord-bot/bot.py:249-280 | The current listing shows exactly the active entries of the channel's active list. It is empty when there is no active list. |
| StoreTables.NamedLists | discord-bot/bot.py:288-296 | definition: the ids of the lists with that server and name, whether active or not. |
| StoreTables.AmbiguousName | discord-bot/bot.py:298 | definition: the "Found N lists on this server with the same name!…" message, with N in decimal. |
| StoreTables.UnknownName | discord-bot/bot.py:300-302 | definition: the "Cannot find a list matching '<name>' on this server" message. |
| StoreTables.CurrentGames | discord-bot/bot.py:249-280 | definition: no active list gives an empty dictionary. Otherwise it groups the rows of that list. |
| StoreTables.SessionGames | discord-bot/bot.py:283-314 | definition: more than one id gives the ambiguity message and no id gives the not-found message. Otherwise it groups the rows of the one list. |
| StoreTables.NamedListsSpec | discord-bot/bot.py:288-296 | The name query returns, in id order, exactly the server's lists with that name, whether active or not. |
| StoreTables.NamedListsNone | discord-bot/bot.py:288-296 | No list of that name on the server gives no ids. |
| StoreTables.NamedListsSingle | discord-bot/bot.py:288-296 | A single list of that name gives exactly its id. |
| StoreTables.NamedListsIgnoreActive | discord-bot/bot.py:288-296 | Closing sessions does not change the name query's result. |
| StoreTables.SessionGamesUnknown | discord-bot/bot.py:299-302 | The "Cannot find a list matching" message comes if and only if the server has no list of that name. |
| StoreTables.SessionGamesAmbiguous | discord-bot/bot.py:297-298 | Two lists with the name give the "Found N lists" message, with N the number of such lists and N >= 2. |
| StoreTables.SessionGamesSingle | discord-bot/bot.py:303-314 | A unique list of that name is listed, active or not: a user appears under a URL if and only if they have an active entry for it. |
| StoreTables.SessionGamesAfterClose | discord-bot/bot.py:288-314 | Closing a session does not change what `!list <name>` reports. |
| StoreTables.RecreatedNameAmbiguous | discord-bot/bot.py:288-298 | Suppose a list is closed and a new list with the same name is created in the same channel. Looking the name up then reports the "Found N lists" message. |
| ListStore.GroupRows | discord-bot/bot.py:278-279 | The row loop builds the grouping the specification function describes. |
| ListStore.Store.constructor | discord-bot/bot.py:22-29 | The database at `DATABASE_URL` that every store function connects to, here in its empty state: no lists, no games, and the invariants hold. |
| ListStore.Store.CreateGameList | discord-bot/bot.py:356-378 | Performs the conditional insert and leaves the games table alone. Returns 1 when a row was inserted and 0 when the pair already had an active list. The pair then has an active list and the invariants hold. |
| ListStore.Store.AddGames | discord-bot/bot.py:59-115 | Ensures the pair has an active list, then inserts each URL in turn into it. Returns the number of rows added: the batch's distinct URLs that were not yet active for the user. |
| ListStore.Store.RemoveUrls | discord-bot/bot.py:131-167 | With no active list nothing changes and 0 is returned. Otherwise it deactivates exactly the user's active entries for the batch's URLs and returns how many it deactivated. The lists are untouched. |
| ListStore.Store.ClearGamesFromList | discord-bot/bot.py:184-211 | With no active list nothing changes and 0 is returned. Otherwise every row of the list is switched off and the count of all its rows is returned. |
| ListStore.Store.RemoveSession | discord-bot/bot.py:389-404 | Switches off every list of the channel and server and leaves the games table alone. |
| ListStore.Store.ListCurrentSessionGames | discord-bot/bot.py:249-280 | Returns the current listing of the store's state. |
| ListStore.Store.ListSpecificSessionGames | discord-bot/bot.py:283-314 | Returns the by-name listing or one of its two messages. |
| Decimal.DigitChar | discord-bot/bot.py:298 | A digit below 10 becomes the digit character of that value. |
| Decimal.NatToString | discord-bot/bot.py:298 | The decimal rendering of a count is non-empty and all digits. |
| Decimal.NatToStringValue | discord-bot/bot.py:298 | Reading the rendering back gives the number, and there is no leading zero. |
| Decimal.NatToStringInjective | discord-bot/bot.py:298 | Different counts render differently. |
| ListReply.Falsy | discord-bot/bot.py:232 | definition: `not games` holds for None, the empty string and the empty dictionary. |
| ListReply.Join | discord-bot/bot.py:245 | definition: `', '.join(users)`. |
| ListReply.Entry | discord-bot/bot.py:245 | definition: one entry, `<index>:\t<url>\n\tRecommended by <users>\n`. |
| ListReply.Formatted | discord-bot/bot.py:243-245 | definition: the message as the loop builds it, one entry per key, numbered from 1. |
| ListReply.Replies | discord-bot/bot.py:232-246 | definition: the messages sent, following the branches in the code's order. |
| ListReply.ListReplies | discord-bot/bot.py:232-246 | The reply code, including its formatting loop, sends exactly the specified replies. |
| ListReply.RepliesSpec | discord-bot/bot.py:232-246 | Exactly one reply is sent. No list, or an empty dictionary (which is falsy), gets "This channel doesn't have any lists tied to it". So "No games are in the list!" is never sent. A non-empty message string is sent as it is. A non-empty dictionary is sent as its entries numbered from 1. |
| ListReply.FormattedFromSnoc | discord-bot/bot.py:244-245 | One more URL appends one more entry, numbered after the previous ones. |
| ListReply.FormattedFront | discord-bot/bot.py:244 | The loop's message equals the numbering from 1. |
| ListReply.JoinCommas | discord-bot/bot.py:245 | If no user name contains a comma, the joined names contain one comma fewer than there are users. |
| ListReply.JoinNoChar | discord-bot/bot.py:245 | Joining adds no characters other than ',' and ' '. |
| ListReply.EntryLines | discord-bot/bot.py:245 | If the URL and names contain no line break, each entry contains exactly two. |
| ListReply.FormattedLines | discord-bot/bot.py:244-245 | The message then has exactly two lines per listed URL. |

## Left out

- Discord itself is not modelled. That covers the command handlers, message sending, `ctx.guild` checks, the bot token and the `.env` loading. The store's functions take the ids and names the handlers pass to them.
- `asyncpg`, connection pools and concurrency are not modelled. Each store function is one atomic method. Transactions running side by side, and their isolation, are out of scope.
- The row counts come from status strings such as `INSERT 0 1`; parsing those strings is not modelled. The model computes the count directly.
- Table creation (the DDL) is not modelled. The two partial unique indexes and the foreign key are taken as the `Consistent` invariant.
- List ids are the list's position in the table. An insert that hits the conflict consumes a serial value in PostgreSQL; those gaps in ids are not modelled.
- Query results come back in table order. SQL gives no order without `ORDER BY`, so the order of listed URLs and users is a modelling choice. Membership and counts do not depend on it.
- Only this one pattern is modelled, not a general regular-expression engine. `\s` is the fixed set of characters Python treats as whitespace in `str` patterns.
- `urldefrag` is modelled as cutting at the first `#`. The reassembly by `urlunparse`, which can change some unusual URLs (an empty query `?` and the like), is not modelled.
- The thread search of `!list <name>`, the thread creation in `!create` and the `on_thread_delete` event are not modelled. Their store calls are modelled: ListSpecificSessionGames, CreateGameList and RemoveSession. For the by-name listing, the model takes the name as given.
- Discord's message-length limit on the formatted listing is not modelled.
- ListReply.RepliesSpec: the reply for a name with no matching thread is the "I cannot find a thread" message followed by the falsy-result reply. Only the second is modelled, because the thread search is out of scope.

## Behaviour of the code that may surprise

The model follows the code in each of these cases.
- `clear_games_from_list` has no `active = true` filter (bot.py:203-205). It therefore counts, and rewrites, every row of the list, including rows already removed (ClearListSpec).
- The by-name lookup in `list_specific_session_games` does not filter on `active` (bot.py:290-292). A closed list is still found by its name (SessionGamesAfterClose). A name reused in the same channel after closing reports two lists (RecreatedNameAmbiguous).
- An empty listing is an empty dictionary, which is falsy. It therefore gets "This channel doesn't have any lists tied to it" (bot.py:232-235). The "No games are in the list!" branch at bot.py:240-241 is never reached (RepliesSpec).
