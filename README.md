# Storify core in Dafny

Storify is a Streamlit app. It writes stories with a language model, illustrates them and reads them aloud. Most of it is screens and calls to remote services. This project models the parts that hold logic of their own, and proves what they promise:

- **Text helpers** (`utils.py`), as pure functions:
  - `truncate_text` cuts text and adds an ellipsis.
  - `format_time` formats a duration in hours, minutes and seconds.
  - `sanitize_filename` and `generate_filename` build file names.
  - `count_words` counts words.
  - `extract_keywords` is a method. Its counting loop fills the dictionary step by step. It is proved against a specification function.
- **The SQLite store** (`database.py`), module `Database`:
  - It holds a `users` table with a UNIQUE username and a `stories` table, both with AUTOINCREMENT ids.
  - Each SQL statement is a function from the tables before it to an `Exec`. An `Exec` is either the value the cursor reports (a row count or a `lastrowid`) with the tables after it, or the integrity error it raised.
  - The class `Connection` holds the shared tables. Its method `Run` plays `get_cursor`: it commits on success and rolls back on an error.
  - Each public function of `database.py` is a method of `Connection`.
- **The credential store** (`auth.py`), module `Auth`:
  - It works on the same `users` table, through the same connection.
  - The SHA-256 digest is a function parameter, so equal passwords give equal digests by construction.
- **Text-to-speech chunking and language detection** (`audio_generation.py`):
  - `split_text` is a method with the source's loop. It is proved to produce a chunking that loses no word, respects the bound except for single-word chunks, and is greedy.
  - `detect_language` tests Unicode ranges in priority order.
- **Image prompt shaping and dispatch** (`image_generation.py`):
  - `preprocess_prompt` keeps the first three sentences and cuts the prompt to a bound.
  - The DALL-E size whitelist.
  - The choice of generator by model name. The value records which generator would be called, and with what.
- **The streaming display** in `main.py`'s `handle_user_input`: the loop that consumes the generated answer one character at a time.

Python built-ins the code relies on are modelled in two modules:

- `Text` holds `str.split()`, `sep.join`, `s.split(c)`, slicing with Python's negative bounds, `.lower()`, `.strip()`, `re.sub` and `re.findall`.
- `Decimal` holds `f"{n}"` and its inverse.

Both work on ASCII character classes.

Files:

- `wrappers.dfy`: `Option` and `Result`.
- `text.dfy`, `decimal.dfy`: the Python built-ins above.
- `utils.dfy`, `database.dfy`, `auth.dfy`, `audio.dfy`, `image.dfy`: one module per source file.
- `chat.dfy`: the streaming loop.

## Model

| member | source | states |
|---|---|---|
| Text.Lower | utils.py:45 | `.lower()` on ASCII: same length; every character is lowered and none is upper case |
| Text.LowerOfLower | utils.py:45 | lowering text without upper-case letters changes nothing |
| Text.SliceTo | utils.py:60 | `s[:n]` is a prefix of `s`, of length `min(n, len)` for `n >= 0` and `len + n` (at least 0) for negative `n`, as Python slices |
| Text.Strip | main.py:168 | `.strip()` leaves text that neither starts nor ends with whitespace, and removes nothing but whitespace |
| Text.Trim | utils.py:47 | `.strip(c)` removes exactly the leading and trailing run of `c`: the result is the middle slice, and it neither starts nor ends with `c` |
| Text.TrimUnchanged | utils.py:47 | stripping text that neither starts nor ends with the character changes nothing |
| Text.Remove | utils.py:45 | `re.sub` with a character class and "": the result keeps only characters outside the class |
| Text.RemoveAppend | utils.py:45 | removal distributes over concatenation |
| Text.RemoveRemove | utils.py:45-47 | removing one class and then another removes their union |
| Text.RemoveTrim | utils.py:47 | stripping a character loses nothing that removing it would keep |
| Text.Runs | utils.py:121 | every item `re.findall(r'\w+', s)` or `str.split()` returns is a non-empty run of characters outside the separator class |
| Text.Split | utils.py:92 | `str.split()` is `Runs` over whitespace; its count and contents are stated by `Text.RunsCount` and `Text.RunsContent` |
| Text.Join | audio_generation.py:57 | `sep.join(ws)`: the words with `sep` between neighbours; `Text.RunsOfJoin` and `Text.JoinSplitOn` are its inverses |
| Text.RunsCount | utils.py:92 | the number of words `str.split()` finds equals the number of word starts counted by an independent scanner |
| Text.RunsContent | utils.py:121 | the words found, concatenated, are the text with every separator removed: nothing else is lost or reordered |
| Text.RunsOfJoin | audio_generation.py:54 | splitting words joined by one separator gives back the words |
| Text.SplitOfJoin | audio_generation.py:54-57 | `' '.join(ws).split() == ws` for whitespace-free, non-empty words |
| Text.SplitOn | image_generation.py:57 | `s.split('.')` yields at least one part, and no part contains '.' |
| Text.JoinSplitOn | image_generation.py:57-58 | joining the parts of `s.split(c)` with `c` gives back `s` |
| Text.SplitOnCount | image_generation.py:57 | `s.split(c)` has one more part than `s` has occurrences of `c` |
| Text.JoinPartsIsPrefix | image_generation.py:57-58 | the first `m` parts of `s.split(c)`, rejoined with `c`, are a prefix of `s` |
| Decimal.NatToString | utils.py:75-79 | `f"{n}"` for `n >= 0` is a non-empty digit string without a leading zero, except for 0 |
| Decimal.IntToString | image_generation.py:113 | `f"{n}"` is a non-empty digit string, with a leading '-' for a negative `n` |
| Decimal.ParseNatToString | utils.py:75-79 | reading the digits of `f"{n}"` gives back `n` |
| Decimal.ParseIntToString | image_generation.py:113 | reading `f"{n}"` for any integer gives back `n`, sign included |
| Decimal.IntToStringInjective | image_generation.py:113 | different integers print differently |
| Utils.TruncateText | utils.py:49-60 | short text is returned unchanged; longer text becomes a prefix of it plus "...", of length `max_length + 3` for a non-negative bound (and the Python slice length for a negative one) |
| Utils.Breakdown | utils.py:72-73 | the two `divmod` steps give `h*3600 + m*60 + s == seconds` with `0 <= m, s < 60`, and `h >= 0` for `seconds >= 0` |
| Utils.FormatTime | utils.py:74-79 | the text ends in "s"; it has an "h" part iff `h > 0` and an "m" part iff `h > 0` or `m > 0` |
| Utils.FormatTimeParts | utils.py:72-79 | for `seconds >= 0`, the text reads back as exactly the `divmod` results `h`, `m`, `s`, each with its unit: "Xh Ym Zs" when `h > 0`, else "Ym Zs" when `m > 0`, else "Zs" |
| Utils.FormatTimeReadsBack | utils.py:62-79 | for `seconds >= 0`, the parts read back from the formatted text add up to `seconds` |
| Utils.ReadClockText | utils.py:74-79 | each of the three forms, with digit strings for `h`, `m` and `s`, reads back as those numbers with units "h", "m", "s", dropping the leading parts exactly as the form does |
| Utils.ClockSeconds | utils.py:72-79 | the parts of a duration weigh `3600h + 60m + s` seconds |
| Utils.DashSpaceRuns | utils.py:47 | `re.sub(r"\s+", "-", s)` yields only '-' and the non-space characters of `s` |
| Utils.DashSpaceRunsRun | utils.py:47 | a word followed by a whitespace run becomes the word and one '-', and the rest is rewritten independently |
| Utils.DashSpaceRunsSpace | utils.py:47 | a leading whitespace run becomes one '-' |
| Utils.DashSpaceRunsDashes | utils.py:47 | dropping the dashes from the result leaves `s` without its whitespace and dashes: the non-space, non-dash characters are kept in order |
| Utils.SanitizeFilename | utils.py:44-47 | the name holds only lower-case ASCII letters, digits, '_' and '-' (so no whitespace), and neither starts nor ends with '-' |
| Utils.SanitizeKeepsWordChars | utils.py:44-47 | dropping the dashes from the sanitized name leaves exactly the lowered name's word characters, in order: nothing else is kept, and none is lost |
| Utils.KeptWordChars | utils.py:45-47 | dropping the invalid characters and then whitespace and '-' keeps exactly the word characters |
| Utils.SanitizeFilenameIdempotent | utils.py:44-47 | sanitizing a sanitized name changes nothing |
| Utils.SanitizeSafe | utils.py:44-47 | any name of safe characters without a leading or trailing '-' is left unchanged |
| Utils.WithExtension | utils.py:106 | `f"{stem[:50]}.{ext}"` is the first `min(50, len)` characters of the stem, then '.', then the extension |
| Utils.CountWords | utils.py:81-92 | `len(text.split())` equals the number of maximal non-whitespace runs, and is 0 iff the text is all whitespace |
| Utils.GenerateFilename | utils.py:94-106 | the name is the first `min(50, len)` characters of the sanitized title (all safe, none a '.'), then '.', then the extension, so the extension can be recovered after the first '.' |
| Utils.FindWords | utils.py:121 | `re.findall(r'\w+', text.lower())` is `Runs` over non-word characters of the lowered text; its words are non-empty runs of word characters |
| Utils.CountedMembers | utils.py:125-127 | the words counted are exactly the words of the text that are not stop words |
| Utils.FirstIndex | utils.py:125-127 | the position of a word's first occurrence |
| Utils.FirstOccurrences | utils.py:125-127 | the dictionary's keys, in insertion order, are exactly the counted words |
| Utils.FirstOccurrencesOrdered | utils.py:125-127 | the keys are ordered by first occurrence |
| Utils.TallyCounts | utils.py:125-127 | the dictionary maps each counted word to its number of occurrences, and holds no other key |
| Utils.InsertByCount | utils.py:129 | one step of the stable sort inserts the word and changes nothing else (multiset) |
| Utils.SortByCount | utils.py:129 | `sorted(..., key=count, reverse=True)` is a permutation of the keys |
| Utils.InsertByCountRanked | utils.py:129 | inserting a word that occurs before all sorted words keeps the ranking |
| Utils.SortByCountRanked | utils.py:129 | the sorted keys are in non-increasing count order, with ties in first-occurrence order (a stable sort) |
| Utils.RankedOutranksLater | utils.py:129-130 | in a ranking, every word before position `n` outranks any word not among the first `n` |
| Utils.TopWordsRanked | utils.py:129-130 | the first `num_keywords` keys are ranked, come from the text, and outrank every word left out; there are `min(num_keywords, distinct words)` of them |
| Utils.CountKeywords | utils.py:121-127 | the counting loop leaves the dictionary equal to the tally of the counted words, its keys in first-occurrence order |
| Utils.ExtractKeywords | utils.py:108-130 | `extract_keywords` returns the specification's top words |
| Utils.KeywordsRanked | utils.py:108-130 | the keywords are distinct, are words of the text, and are not stop words; counts are non-increasing with ties by first occurrence; every omitted word is outranked by each keyword; there are `min(num_keywords, distinct words)` of them |
| Database.Filter | database.py:91 | a row is selected by a WHERE clause iff it is in the table and satisfies the clause, and no more rows come out than went in |
| Database.Update | database.py:156-160 | an UPDATE rewrites exactly the rows the WHERE clause selects, and keeps the others in place |
| Database.FilterAtMostOne | database.py:41-42 | a predicate that no two distinct rows can share selects at most one row |
| Database.FilterUpdate | database.py:156-160 | selecting after an UPDATE that keeps the selection key equals updating the selection |
| Database.Empty | database.py:33-59 | `init_db` on a fresh file gives empty tables that satisfy the schema invariant: ids positive, at most the AUTOINCREMENT counter and increasing, and usernames unique |
| Database.UserNameUnique | database.py:42 | at most one user row carries a given username |
| Database.StoryIdUnique | database.py:50 | at most one story row carries a given id |
| Database.InsertUserRow | database.py:74-75 | the user INSERT keeps the schema invariant |
| Database.UpdatePasswordRows | auth.py:45 | the password UPDATE never raises and keeps the schema invariant |
| Database.DeleteUserRows | auth.py:60 | the user DELETE never raises and keeps the schema invariant |
| Database.InsertStoryRow | database.py:108-111 | the story INSERT never raises and keeps the schema invariant |
| Database.UpdateStoryRows | database.py:156-160 | the story UPDATE never raises and keeps the schema invariant |
| Database.DeleteStoryRows | database.py:174 | the story DELETE never raises and keeps the schema invariant |
| Database.InsertNewest | database.py:125 | one insertion step of ORDER BY adds the row and nothing else (multiset) |
| Database.NewestFirst | database.py:125 | `ORDER BY created_at DESC` is a permutation of the selected rows |
| Database.InsertNewestSorted | database.py:125 | inserting a row into a newest-first list keeps it newest-first |
| Database.NewestFirstSorted | database.py:125 | the ordered rows have non-increasing `created_at` |
| Database.SelectUser | database.py:91-92 | `SELECT * FROM users WHERE username = ?` with `fetchone()`; `Database.SelectUserFinds` states what it returns |
| Database.SelectUserFinds | database.py:80-92 | `get_user` returns the row with that username if there is one, and None iff there is none |
| Database.InsertUserEffect | database.py:61-78 | the user INSERT raises iff the username is taken; otherwise the new row has an id above every existing one and is found by its name with the given digest |
| Database.UpdatePasswordEffect | auth.py:38-48 | the row count is positive iff the user exists; only that user's digest changes; other users and all stories are unchanged |
| Database.DeleteUserEffect | auth.py:53-62 | the row count is positive iff the user existed; afterwards the user is absent; other users and all stories are unchanged |
| Database.InsertStoryEffect | database.py:94-112 | `lastrowid` is above every earlier story id; the story is found by that id with the given fields; every other id and the users table are unchanged |
| Database.SelectStory | database.py:139-140 | `SELECT * FROM stories WHERE id = ?` with `fetchone()`; `Database.SelectStoryFinds` states what it returns |
| Database.SelectStoryFinds | database.py:128-140 | `get_story` returns the row with that id if there is one, and None iff there is none |
| Database.UpdateStoryEffect | database.py:142-161 | the answer is true iff the story exists; only its title, content and genre change (`user_id` and `created_at` are kept); other stories and the users are unchanged |
| Database.DeleteStoryEffect | database.py:163-175 | the answer is true iff the story existed; afterwards it is absent; other stories and the users are unchanged |
| Database.SelectUserStories | database.py:125-126 | the user's stories `ORDER BY created_at DESC`; `Database.SelectUserStoriesSpec` states what it returns |
| Database.SelectUserStoriesSpec | database.py:114-126 | `get_user_stories(uid)` returns exactly the stories of `uid`, each once, with `created_at` non-increasing |
| Database.Connection.constructor | database.py:33-59 | the connection starts on empty, valid tables |
| Database.Connection.Run | database.py:16-31 | a statement that completes is committed, and its value returned; one that raises is rolled back, and the tables keep their prior state |
| Database.Connection.AddUser | database.py:61-78 | true iff the username was free, with the row inserted; false with nothing changed otherwise |
| Database.Connection.GetUser | database.py:80-92 | returns the user row with the name, or None iff there is none |
| Database.Connection.SaveStory | database.py:94-112 | returns the next AUTOINCREMENT id; the story is then found by that id with the given fields |
| Database.Connection.GetStory | database.py:128-140 | returns the story with the id, or None iff there is none |
| Database.Connection.GetUserStories | database.py:114-126 | returns exactly the user's stories, newest first |
| Database.Connection.UpdateStory | database.py:142-161 | true iff the story existed; the tables become the UPDATE's result |
| Database.Connection.DeleteStory | database.py:163-175 | true iff the story existed; the tables become the DELETE's result |
| Auth.HashPassword | auth.py:5-9 | the digest of the password, by the function parameter; equal passwords hash alike |
| Auth.Verified | auth.py:17-20 | the credentials SELECT finds a row; `Auth.VerifiedIffStored` states when |
| Auth.Exists | auth.py:74-77 | the username SELECT finds a row; `Auth.ExistsIffRow` states when |
| Auth.ExistsIffRow | auth.py:68-77 | `user_exists(u)` holds iff some row carries the name `u` |
| Auth.VerifiedIffStored | auth.py:11-20 | `verify_user(u, p)` holds iff the table maps `u` to the digest of `p` |
| Auth.AddThenVerify | auth.py:22-36 | `add_user` succeeds iff the name is free; afterwards the user exists and verifies with that password, and other users keep their digests |
| Auth.ChangePasswordEffect | auth.py:38-51 | after `change_password(u, q)`, `verify_user(u, p)` holds iff `u` existed and `p` hashes like `q`; an absent user stays absent; other users keep their digests |
| Auth.DeleteUserForgets | auth.py:53-66 | after `delete_user(u)` the user neither exists nor verifies with any password; other users keep their digests |
| Auth.VerifyUser | auth.py:11-20 | the answer is true iff the stored digest for the name equals the digest of the password |
| Auth.UserExists | auth.py:68-77 | the answer is true iff some row carries the name |
| Auth.AddUser | auth.py:22-36 | true and committed iff the name was free, and then the user verifies with the password; false with the table unchanged otherwise |
| Auth.ChangePassword | auth.py:38-51 | always true; the tables become the UPDATE's result, whether or not the user exists |
| Auth.DeleteUser | auth.py:53-66 | always true; the tables become the DELETE's result, whether or not the user existed |
| Audio.ChunkWordsSnoc | audio_generation.py:57 | the words of the chunks grow by the words of the chunk just appended |
| Audio.SplitText | audio_generation.py:38-63 | the chunks' words, in order, are `text.split()`; there are no chunks iff there are no words; every chunk is its words joined by ' '; a chunk longer than `max_length` has at most one word; an empty chunk can only be the first, and when the first word is longer than `max_length` it is there; each chunk after the first starts with the word that did not fit in the one before |
| Audio.PackWord | audio_generation.py:54-55 | adding a word that fits keeps the packing invariant |
| Audio.PackWordKeepsFirst | audio_generation.py:54-55 | adding a word that fits keeps an empty first chunk for an overlong first word in place |
| Audio.CloseChunk | audio_generation.py:56-58 | closing the chunk when the next word does not fit keeps the packing invariant, including the empty first chunk for an overlong first word |
| Audio.CloseKeepsFirst | audio_generation.py:56-58 | closing a chunk keeps the empty first chunk for an overlong first word, and creates it when the first word closes the empty current chunk |
| Audio.FlushChunk | audio_generation.py:60-61 | flushing the last, non-empty chunk completes a valid chunking of all the words |
| Audio.NothingToFlush | audio_generation.py:60-63 | with no current chunk the closed chunks are already a valid chunking |
| Audio.JoinCurrent | audio_generation.py:57 | splitting the joined current chunk gives back its words |
| Audio.AnyIn | audio_generation.py:108-112 | `any(lo <= c <= hi for c in text)` holds iff some character is in the range |
| Audio.DetectLanguage | audio_generation.py:94-116 | "zh-cn" iff some Han character; else "ja" iff some kana; else "ko" iff some Hangul syllable; else "en" |
| Image.PreprocessPrompt | image_generation.py:45-67 | a prompt that fits is the prefix plus the shortened story; a longer one is cut with Python's `[:max_length - 3]` and gets "...": for `max_length >= 3` that is the first `max_length - 3` characters, so the result is never longer than `max_length`; for `max_length < 3` the slice drops `3 - max_length` characters from the end (keeping at least none), so the result has `len + max_length` characters, or 3, and is longer than the bound; the fixed prefix survives when `max_length` leaves room for it |
| Image.JoinSpaced | image_generation.py:58 | joining dot-free parts with ". " is joining them with "." and putting a space after every '.' |
| Image.ShortenStory | image_generation.py:57-58 | `'. '.join(story.split('.')[:3])`; `Image.ShortenStoryKeepsPrefix` states what it keeps |
| Image.ShortenStoryKeepsPrefix | image_generation.py:57-58 | the kept text is a prefix of the story made of the first `min(3, dots + 1)` sentences, and the shortened story is that prefix with a space after each kept '.' |
| Image.NormalizeDalleSize | image_generation.py:25-27 | the size sent is always one DALL-E 3 accepts; an accepted size is kept, any other becomes "1024x1024" |
| Image.SizeString | image_generation.py:113 | `f"{w}x{h}"`; `Image.SizeStringParses` reads it back |
| Image.SizeStringParses | image_generation.py:113 | `f"{w}x{h}"` reads back as `(w, h)` |
| Image.SizeStringInjective | image_generation.py:113 | different size tuples give different size strings |
| Image.DalleSizeKept | image_generation.py:26-27 | a size tuple reaches DALL-E unchanged iff it is (1024, 1024), (1792, 1024) or (1024, 1792); the (512, 512) default becomes "1024x1024" |
| Image.GenerateStoryImage | image_generation.py:97-118 | "dalle" goes to DALL-E with the whitelisted "WxH" size; otherwise a name starting with "stabilityai/" or "runwayml/" goes to Stable Diffusion with the model id and size; anything else is the unknown-model error; every generator gets the preprocessed prompt |
| Chat.IsBreak | main.py:151 | the characters that end a word: whitespace and `.,!?;:` |
| Chat.StreamResponse | main.py:147-168 | the final response is the whole generated text; the display after character `k` is the first `k + 1` characters plus the cursor; the stored content is the response stripped (the loop's invariant keeps `full_response + current_word` equal to the consumed prefix, with no break character in `current_word`) |

## Left out

- The e-mail confirmation and password-reset tokens: `email_utils.py` and the token helpers that `ui_components.py` imports are not part of this model. The `users` table has no columns for them.
- Remote services are not modelled: story generation (OpenAI, Groq, SambaNova), DALL-E, Stable Diffusion, gTTS and pydub. The streamed answer is the parameter of `Chat.StreamResponse`, and `Image.Generator` names the generator instead of calling it.
- `text_to_speech`, `generate_audio_for_story` and `adjust_speech_rate` are left out: they only call gTTS and pydub.
- SMTP mail sending is left out: it is network I/O.
- Streamlit rendering, session state, `ui_components.py` and `streamlit-openai-chat.py` are left out.
- `main.py` outside the streaming loop is left out. That includes its call to `generate_story` with four arguments, where `story_generation.py` declares five.
- PIL image work is left out: `image_to_base64`, `base64_to_image`, `resize_image` and `apply_watermark`. It is a foreign library with pixel and floating-point geometry.
- `hash_password`: SHA-256 and its hex encoding are the function parameter `digest`.
- `st.cache_data` / `st.cache_resource` memoisation is left out; every function is modelled uncached.
- The cached connection, cursor closing and `check_same_thread=False` are left out: they only matter for resources and concurrency.
- `created_at` is the parameter `now`, standing in for SQLite's `CURRENT_TIMESTAMP`.
- Database.NewestFirst: rows with equal `created_at` come out in rowid order. SQLite leaves the order of such ties unspecified; the model fixes one of the orders it may return.
- The FOREIGN KEY on `stories.user_id` is not modelled: SQLite does not enforce it unless foreign keys are switched on, and the code never does that.
- NULL column values are not modelled: every value the code passes is a string or an integer.
- Errors other than the UNIQUE violation are not modelled, such as a locked or full database file.
- Auth.ChangePassword: the `sqlite3.Error` branch that returns false is never taken in the model.
- Auth.DeleteUser: the `sqlite3.Error` branch that returns false is never taken in the model.
- Unicode is modelled on ASCII only:
  - `str.isspace`, `\s`, `\w` and `.lower()` use ASCII character classes.
  - Non-ASCII letters count as non-word characters, and are not lowered.
  - `detect_language` uses its exact Unicode ranges.
- Utils.FormatTimeReadsBack: the read-back is stated for non-negative durations only. For a negative one the model computes Python's floor `divmod` as the source does, and the text does not read back: -5 gives "59m 55s".
