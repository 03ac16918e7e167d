# Listing-tracker bot: change detection and batching

This project models the core of a bot that watches four career and event
listing sites (Anbean, Coderspace, Youthall, Boomerang), finds the listings it
has not reported before, and sends them to a Telegram chat. The core is the
body of `main` in `bot.py` once the browser, the HTTP call and the JSON file are
taken away:

- each listing card gives an optional title text and an optional date text;
  the title is trimmed, the date is trimmed with its newlines turned into
  spaces (or is `"Bilgi yok"` when the card has no date element), and a card
  is kept only when its trimmed title is longer than two characters;
- the identity key of a card is the site name, `-` and the trimmed title; a
  key missing from the archive (`arsiv`) produces a message block and is
  inserted at once with the date, so a repeat later in the same run stays
  silent;
- the messages are sent in consecutive groups of at most ten, each text being
  the header, a blank line and the group's blocks separated by blank lines;
  the header is the "all active listings" one when the loaded archive was
  empty, and the archive is written only when there was something new.

The extractor is an input: a `SiteScan` holds a site's name, its cards in page
order and, when reading a card raised, the index of that card. A site whose
scan raised keeps what its earlier cards added, as the `try` around the card
loop does. Sending is modelled as the sequence of texts handed to the send
call, writing the archive as the map returned for writing (`None` when the
file is left alone).

Modules: `Text` (Python's `strip`, `replace` and `join`), `Listing` (cards,
keys, message blocks, the candidates a run collects), `Dedup` (the archive
check as a fold, its declarative reading, and the two loops as methods),
`Dispatch` (grouping, sending and one whole run), `Wrappers` (`Option`).

## Model

| member | source | states |
|---|---|---|
| `Text.IsSpaceExactly` | bot.py:94-95 | a character counts as whitespace exactly when it is one of the 29 code points Python's `str.strip()` removes |
| `Text.TrimLeft` | bot.py:94 | the result is a suffix of the input, everything dropped is whitespace, and it does not start with whitespace |
| `Text.TrimRight` | bot.py:94 | the result is a prefix of the input, everything dropped is whitespace, and it does not end with whitespace |
| `Text.Strip` | bot.py:94-95 | the result is a slice of the input with only whitespace on either side of it, and it neither starts nor ends with whitespace |
| `Text.StripPadding` | bot.py:94 | whitespace added on either side of a text does not change its stripped form |
| `Text.ReplaceNewlines` | bot.py:95 | same length; each newline becomes a space and every other character is kept |
| `Text.JoinEnds` | bot.py:114 | joining nothing gives the empty text; otherwise the joined text starts with the first block and ends with the last |
| `Text.JoinAppend` | bot.py:114 | joining two non-empty runs of blocks equals joining each and putting one separator between them |
| `Listing.NormalizeDate` | bot.py:95 | a missing date element gives `"Bilgi yok"`; a present one gives its text with the whitespace at both ends cut off and each newline read as a space (a slice of the text with only whitespace around it, character for character); the stored date never holds a newline and never starts or ends with whitespace |
| `Listing.Key` | bot.py:98 | for a site name without `-`, splitting the key at its first `-` gives back the site name and the title |
| `Listing.KeyInjective` | bot.py:98 | for the registry's site names, equal keys mean the same site and the same title |
| `Listing.Message` | bot.py:100 | for a site name without `*` and a date without a newline, the site name, the title and the date can be read back from the message block |
| `Listing.CardCandidate` | bot.py:94-100 | a card yields a candidate exactly when its title element exists and its trimmed text is longer than two characters; the key is site name, `-`, trimmed title, the date is the normalised one, and the message block reads back as that site, title and date |
| `Listing.KeyIgnoresPadding` | bot.py:94-98 | two cards whose titles differ only by surrounding whitespace get the same key |
| `Listing.Reached` | bot.py:80-103 | the cards handled are a prefix of the page's cards: all of them when nothing raised, those before the card that raised otherwise |
| `Listing.SiteCandidates` | bot.py:90-97 | a site gives at most one candidate per card; which cards give one is stated by `SiteCandidatesExactly`, and that the first cards give a prefix by `SiteCandidatesPrefix` |
| `Listing.SiteCandidatesExactly` | bot.py:90-97 | exactly the cards whose title passes the filter give candidates: each such card's candidate is among the site's, and every candidate of the site is the candidate of one of its cards |
| `Listing.SiteCandidatesKeyed` | bot.py:97-98 | every candidate of a site has a key starting with the site name and `-`, followed by more than two characters |
| `Listing.SiteCandidatesPrefix` | bot.py:90-101 | the candidates of the first cards of a page are a prefix of those of the whole page |
| `Listing.FailedSiteKeepsPrefix` | bot.py:78-103 | a site that raised part-way contributes a prefix of the candidates its whole page would have given |
| `Dedup.Step` | bot.py:99-101 | a key already archived changes nothing; a new key is archived with its date, its message is queued, and no other entry changes |
| `Dedup.RunFromAppend` | bot.py:76-101 | scanning one site after another continues from the archive and messages the previous site left |
| `Dedup.RunGrows` | bot.py:99-101 | the archive only grows: its keys become the loaded keys plus the keys of all candidates, and every loaded key keeps its loaded value |
| `Dedup.RunNews` | bot.py:99-100 | the messages are exactly those of the candidates whose key was not loaded and did not occur earlier in the run, in site order then card order |
| `Dedup.RunFirstDateWins` | bot.py:99-101 | for a key new in this run, the stored date is the date of its first occurrence |
| `Dedup.RunCounts` | bot.py:99-101 | the archive grows by exactly as many entries as there are messages |
| `Dedup.AddedKeysCount` | bot.py:99-101 | the number of keys added equals the number of messages |
| `Dedup.NoNewsNoChange` | bot.py:99-101 | a run with no message leaves the archive equal to the loaded one |
| `Dedup.RunAllSeen` | bot.py:99 | when every key is already archived, nothing is announced and the archive is unchanged |
| `Dedup.RunIdempotent` | bot.py:99-101 | checking the same candidates again against the archive just produced announces nothing and changes nothing |
| `Dedup.FreshMessagesDisjoint` | bot.py:99-100 | candidates whose keys never meet are judged independently: the messages of the two runs of candidates together are the messages of each, one after the other |
| `Dedup.RunNewsBySite` | bot.py:76-101 | the registry's sites do not interfere: a run's messages are each site's messages judged against the loaded archive alone, one site after another |
| `Dedup.FailureIsolated` | bot.py:76-105 | when one site's scan raises, or raises at another card, every other site's messages stay the same and in the same place; only that site's share changes |
| `Dedup.FailedSiteNewsPrefix` | bot.py:80-103 | a site that raised part-way announces a prefix of what its whole page would have announced |
| `Dedup.ScanCards` | bot.py:90-103 | the card loop of one site leaves the archive and messages the fold over that site's reached candidates gives |
| `Dedup.ScanSites` | bot.py:76-105 | the site loop leaves the archive and messages of the fold over all candidates; loaded entries are kept and the archive grows by the number of messages |
| `Dispatch.Header` | bot.py:110 | the header is one non-empty line, and it starts with the check mark exactly on a first run |
| `Dispatch.GroupsPartition` | bot.py:113-114 | each group is non-empty with at most ten messages, there are ceil(n/10) groups, and their concatenation is the message list |
| `Dispatch.GroupsAt` | bot.py:113-114 | group k is the slice the stepped loop takes at i = 10k, clamped at the end of the list |
| `Dispatch.BodiesRejoin` | bot.py:113-115 | the groups' bodies, joined by a blank line, are exactly all the messages joined by a blank line: nothing is lost, repeated or reordered between texts |
| `Dispatch.SendBatches` | bot.py:113-115 | ceil(n/10) texts are sent, text k being the header, a blank line and group k joined by blank lines |
| `Dispatch.RunOnce` | bot.py:68-121 | nothing is sent and nothing written exactly when no listing is new, and then the archive in memory is the loaded one; otherwise the texts are the groups under the header chosen by whether the loaded archive was empty, and the archive written is the grown one |
| `Dispatch.RunTwice` | bot.py:62-121 | a second run over unchanged pages, starting from the archive file as the first run left it, sends nothing and writes nothing |

## Behaviour worth noting

- Batches are cut by count, ten messages per text (bot.py:113), whatever their length.
- A key is inserted into the in-memory archive as soon as its message is queued (bot.py:100-101), before anything is sent. The file is written after the sends whether or not they succeeded, because `telegram_send` catches its own errors (bot.py:50-54).
- A site whose scan raises keeps the messages and archive entries of the cards it handled before the exception (bot.py:90-103). It still counts as having produced those.

## Left out

- Browser automation (bot.py:72-92): navigation, waits, scrolling and selector queries are replaced by the `SiteScan` input. An exception inside the `try` (bot.py:80-95) is the `failsAt` index: `Some(0)` when navigation, a wait, the scroll or the card query raised, `Some(j)` when reading card `j` raised. A page with no matching cards is `cards == []` with `failsAt == None`.
- Dispatch.RunOnce: an exception from launching the browser or opening its context (bot.py:72, 74), from opening a page (bot.py:77, outside the `try`), or from closing a page or the browser (bot.py:105-106) ends `main` with nothing sent and nothing written. The model has no such outcome: every run it describes reaches the sending step.
- `telegram_send` (bot.py:45-54): the HTTP POST, the removal of `"bot"` from the token, the Markdown parse mode and the status printing are network I/O. The model records the texts passed to it. Its early return on an empty text or token never applies to the texts built here once the start-up check has passed.
- The start-up check on `TELEGRAM_TOKEN` and `CHAT_ID` (bot.py:8-9, 57-59): environment input. The model describes a run that passed it.
- Reading and writing the JSON archive file (bot.py:62-66, 118-119): the archive is a `map<string, string>` given to the run and returned for writing. A file holding non-string values, or a corrupt file that makes `json.load` raise and so ends `main` before any scan, is not modelled.
- The `asyncio` structure (bot.py:1, 123-124): the run is sequential, with no concurrency to model.
- Logging `print` calls and the text of exception messages.
