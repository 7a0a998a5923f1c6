# tgtonum lookup bridge — a Dafny model

`tg.py` is a small HTTP service. `GET /search?id=…&key=…` checks an access key and the id,
then runs one lookup exchange with a Telegram bot. It sends a trigger message and then the id,
and polls the bot's latest messages. The first message carrying the banner
`User Information Lookup` is parsed into a record: phone number, country, country code and
Telegram id. The result is accepted only when it holds a phone number different from the id.

This project models the three pieces of logic in that file, with clocks and I/O taken out.

- **Patterns** (`patterns.dfy`): the five regular expressions of `parse_bot_response`.
  Each is written as a scanner that behaves like Python's backtracking `re` engine, next to
  a declarative predicate saying what a match is. Backticked tokens use `TickedMatch`; the
  country line uses `LineMatch`. For the country line, `PreferredLineMatch` picks the greedy
  match that `re` reports. The lemmas connect the two. The scanner finds exactly the matches
  the predicates describe, and `re.search` reports the leftmost one.
- **Parser** (`parser.dfy`): `parse_bot_response` as `Parse`, which builds a four-field
  `Record`. Every field is optional, and the record has no other fields. The lemmas cover:
  - what each field looks like;
  - that each field comes from the leftmost match of its pattern;
  - that the emoji-prefixed fallback for the phone number never changes the result;
  - that the two-step clean-up of the country (`└`, then `├`) cuts at whichever glyph comes
    first.
- **Exchange** (`exchange.dfy`): the decision rule of `search_user`. The time budget is
  replaced by a finite list of poll snapshots. Each snapshot is the texts that `get_messages`
  returned, or the error it raised. A send error is a separate input. `Poll` and the
  imperative `RunSearchUser` compute the same outcome. The lemmas say that:
  - the first qualifying message decides the outcome;
  - nothing after that message is inspected;
  - success means the parsed phone number is present and differs from the query;
  - the outcome is `NoData` exactly when every poll was quiet.
- **Gate** (`gate.dfy`): `check_key` and the validation at the start of `search`. The
  checks run in the program's order: the key first (403), then the id (400). Only a request
  that passes both reaches the exchange.
- **Text** (`text.dfy`): the character classes and string operations used above. These are
  `\d`, `\s`, `str.isdigit`, `str.strip`, `str.split(c)[0]` and `in`.

Characters are Unicode scalar values (Dafny's `char`). A Python `str` may also hold the
surrogates D800–DFFF, which the model cannot express. Whitespace (`\s`, `str.strip`) is
exactly the 29 code points for which Python 3's `str.isspace` holds. Digits (`\d`,
`str.isdigit`) are only the ASCII digits `0`–`9` (see "Left out").

## Model

| member | source | states |
|---|---|---|
| Text.IsDecimal | tg.py:173 | the left-to-right `isdigit` scan accepts exactly the non-empty strings all of whose characters are digits |
| Text.LStrip | tg.py:53 | `lstrip` removes only whitespace, and what it keeps does not start with whitespace |
| Text.LStripSuffix | tg.py:53 | what `lstrip` keeps is exactly the tail of the input |
| Text.RStrip | tg.py:53 | `rstrip` keeps a prefix of the input, removes only whitespace, and what it keeps does not end with whitespace |
| Text.Strip | tg.py:53 | the stripped string has no whitespace at either end |
| Text.StripUnique | tg.py:53 | whatever whitespace surrounds a stripped core, `strip` returns exactly that core |
| Text.StripKeeps | tg.py:53 | `strip` keeps only characters of its input: any property all input characters have, the result's characters have too |
| Text.RStripTrailingSpace | tg.py:53 | trailing whitespace added to a string does not change what `rstrip` returns |
| Text.Before | tg.py:56 | `split(c)[0]` is a prefix of the string that holds no `c`, and when it is shorter than the string it stops at a `c` |
| Text.Contains | tg.py:118 | the substring test holds exactly when the banner occurs at some position of the text |
| Patterns.MatchTickedAt | tg.py:39 | when the backtick scanner returns a group, label, whitespace, backtick, token and backtick line up there |
| Patterns.MatchTickedComplete | tg.py:39 | whenever a backtick pattern can match at a position, the scanner returns exactly that group: the match is unique |
| Patterns.TokenAt | tg.py:63 | a token found for `\+?\d+`, `\+\d+` or `\d+` has the right shape and is closed by a backtick |
| Patterns.TokenAtComplete | tg.py:63 | any token end that has the right shape and a closing backtick is the one the token scanner finds |
| Patterns.TryLineFrom | tg.py:51 | backtracking `\s*` one character at a time finds the largest start from which `[^\n`]+` takes a character, and the group runs to the first newline or backtick |
| Patterns.MatchLineAt | tg.py:51 | the country pattern returns the greedy match `re` reports: the largest start, then the largest end |
| Patterns.MatchLineComplete | tg.py:51 | wherever some split of label, whitespace and `[^\n`]+` exists, the country pattern matches |
| Patterns.MatchAt | tg.py:39-71 | for each of the five patterns, a group returned at a position is a match there |
| Patterns.MatchAtComplete | tg.py:39-71 | whatever match exists at a position, the scanner returns it, so matches are unique |
| Patterns.MatchShape | tg.py:39-69 | every group lies within the text and has the pattern's shape (`\+?\d+`, `\+\d+`, `\d+`, or one non-empty line without backticks) |
| Patterns.SearchFrom | tg.py:39 | `re.search` returns the first position where the pattern matches; no earlier position matches, and nothing is returned only when no position matches |
| Patterns.SearchGroup | tg.py:63-65 | a found group always has the pattern's shape |
| Patterns.SearchFindsLeftmost | tg.py:39-41 | given the leftmost matching position, `re.search` reports that position and its group |
| Patterns.SearchFailsExactly | tg.py:40 | `re.search` finds nothing exactly when the pattern matches at no position |
| Patterns.LongerCaptionMatch | tg.py:45 | a match of a backtick pattern whose label extends another's at the front contains a match of the shorter one, with the same group |
| Patterns.EmojiMatchHoldsPlainMatch | tg.py:39-45 | every match of `📞 Phone Number:` holds a match of `Phone Number:` two characters on, with the same token |
| Patterns.EmojiPhoneNeedsPlainPhone | tg.py:43-46 | whenever `📞 Phone Number:` finds a token, `Phone Number:` finds one too |
| Parser.UpToGlyphAt | tg.py:55-58 | the cut at the first glyph falls exactly before the first `└` or `├` |
| Parser.CutAt | tg.py:55-58 | one clean-up step leaves no `c` behind and keeps the value stripped |
| Parser.CutAtKeeps | tg.py:55-58 | one clean-up step adds no character: any property all input characters have, the result's characters have too |
| Parser.TidyCountry | tg.py:53-58 | the cleaned country has no `└` or `├` and no surrounding whitespace, and it has no newline or backtick when the capture had none |
| Parser.LStripUpToGlyph | tg.py:53-56 | leading whitespace is never a glyph, so `lstrip` and the cut at the first glyph commute |
| Parser.RStripUpToGlyphTrailing | tg.py:53-56 | trailing whitespace does not change the cut at the first glyph once the result is right-stripped |
| Parser.StripThenCut | tg.py:53-56 | stripping before the cut gives the same result as cutting and then stripping |
| Parser.CutBeforeGlyph | tg.py:55-58 | cutting at the first `└` or `├` first leaves the first-glyph cut unchanged |
| Parser.CutAtKeepsTarget | tg.py:55-58 | each clean-up step keeps the value the whole clean-up produces |
| Parser.TidyCountryCutsAtFirstGlyph | tg.py:53-58 | the two-step clean-up equals: cut at the first glyph of either kind, then strip |
| Parser.FindPhone | tg.py:39-48 | a phone number, when found, is an optional `+` followed by one or more digits |
| Parser.FindCountry | tg.py:51-59 | a country, when found, has no newline, backtick, `└` or `├`, and no surrounding whitespace; it may be empty |
| Parser.Parse | tg.py:28-74 | no text or empty text gives the empty record; each field present has its shape (`\+?\d+`, clean country, `\+\d+`, `\d+`) |
| Parser.PhoneFallbackIsDead | tg.py:43-48 | the phone number is always the result of the plain `Phone Number:` search |
| Parser.PhoneIsLeftmostToken | tg.py:39-41 | the phone number is the token of the leftmost `Phone Number:` match |
| Parser.PhoneAbsentExactly | tg.py:39-48 | the phone number is missing exactly when `Phone Number:` + whitespace + backticked token occurs nowhere |
| Parser.CountryIsLeftmostLine | tg.py:51-59 | the country is the leftmost capture, cut at its first glyph and stripped |
| Parser.CountryAbsentExactly | tg.py:51-59 | the country is missing exactly when no split of `Country:` + whitespace + `[^\n`]+` exists anywhere |
| Parser.CountryCodeIsLeftmostToken | tg.py:63-66 | the country code is the token of the leftmost `Country Code:` match |
| Parser.TelegramIdIsLeftmostToken | tg.py:69-72 | the Telegram id is the token of the leftmost `Query ID:` match |
| Exchange.FirstQualifying | tg.py:117-118 | returns the first message whose text is non-empty and contains the banner; every earlier message lacks one of the two |
| Exchange.Decide | tg.py:119-139 | a qualifying message gives success exactly when its parsed phone is present and differs from the query; otherwise it gives a mismatch carrying the full parsed record |
| Exchange.Poll | tg.py:114-143 | a success always holds a phone number different from the query, with the query as `query_id`; "no data" comes exactly when every poll was fetched and had no qualifying message |
| Exchange.SearchUser | tg.py:101-146 | a failing send gives the transport failure before any poll; a success never echoes the query |
| Exchange.DecisiveMessageDecides | tg.py:114-139 | the first qualifying message of the first poll that has one fixes the outcome |
| Exchange.SuccessExactly | tg.py:122-139 | success exactly when the decisive message parses to a phone other than the query; the record is carried unchanged, otherwise the error carries the parsed record |
| Exchange.LaterMessagesIgnored | tg.py:117-139 | replacing everything after the decisive message, in its snapshot and in later snapshots, does not change the outcome |
| Exchange.FetchFailureEnds | tg.py:115 | a fetch error after only quiet polls ends the exchange with that error |
| Exchange.RunSearchUser | tg.py:101-146 | the nested loops, returning from inside both, compute the same outcome as the functional rule |
| Gate.Check | tg.py:151-174 | 403 exactly when the key is missing, empty or different from the configured key; 400 exactly when the key passes and the id is missing, empty or not all digits; otherwise proceed with that id |
| Gate.Search | tg.py:167-178 | the exchange is reached exactly when both checks pass |
| Gate.KeyCheckedFirst | tg.py:169-174 | a rejected key gives 403 whatever the id is |
| Gate.UnsetKeyRefusesAll | tg.py:151-154 | with no configured key, or an empty one, every request is refused |
| Gate.AnsweredUsesId | tg.py:172-177 | an answered request runs the exchange on exactly the `id` it was given |

## Left out

- Unicode digits: `\d` and `str.isdigit` accept every Unicode decimal digit, and `isdigit`
  also accepts superscripts. The model takes the ASCII digits only.
- Telethon client handling (`init_telegram`, `send_message`, `get_messages`, `is_connected`,
  tg.py:79-96, 105, 109, 115, 185) is foreign I/O. It appears only as the inputs: an optional
  send error, and per poll the fetched texts or a fetch error.
- The fixed limit of 3 messages per `get_messages` call is not enforced. No property depends
  on the snapshot length.
- The event loop, `asyncio.sleep` and the 3-second wall-clock budget (tg.py:106, 112-114,
  141, 177) are replaced by the finite list of snapshots. No real-time bound is modelled.
- `Exchange.Outcome` keeps the status and the data of each result. The JSON envelopes, the
  formatted message strings and the constant `credit` field (tg.py:123-143) are left out.
- The 500 answer of `search` (tg.py:176-180) is left out. It is reached only when
  `loop.run_until_complete` itself raises, for instance when a second request arrives while
  the event loop is still running. The event loop and overlapping requests are not modelled.
- Flask routing, `jsonify`, `home` and `status` (tg.py:159-188) are framework glue.
- Environment configuration and startup (tg.py:11-15, 193-201) are process I/O. The
  configured key is a parameter of `Gate.Check`.
- The debug `print` calls (tg.py:36, 42, 48, 60, 66, 72, 96) are assumed not to fail. Those
  in `parse_bot_response` run inside the `try` of `search_user`, so a stdout that cannot encode
  `✅` or `📞` would turn a parsed reply into an error result (tg.py:145-146); the model does
  not have that path.
