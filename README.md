# Tweet-to-Bluesky thread pipeline, modelled in Dafny

This project models the part of the pipeline that turns a long text into a
Bluesky thread. It has two halves.

- `text_seperator.py` is the sentence-preserving path:
  - `split_into_sentences` falls back to English and turns every exception into `[]`;
  - `split_into_chunks` greedily packs sentences into chunks of at most `max_length` characters, except that a sentence longer than that stays whole in a chunk of its own;
  - `format_thread` puts an `i/N ` marker in front of each chunk;
  - `process_tweet` leaves a short text alone and chunks and numbers a long one.
- `bluesky_poster.py` is the publishing path:
  - `BlueskyClient.split_text` cuts at word boundaries;
  - the client logs in (`session` dictionary);
  - `_create_post` builds a record, and it is a reply only when both references are given;
  - `create_thread` posts the pieces in order as one reply chain.

Files:

- `Wrappers.dfy`: `Option` and `Result`.
- `Strings.dfy`: the parts of Python's `str` the code relies on.
  - `isspace`, `strip()`, `rfind(' ', 0, end)` and `str(n)`.
  - `len` is the number of code points, `|s|` on `seq<char>`.
  - `NonSpace` is the filter used to say that only white space is ever lost.
- `TextSeparator.dfy`: `text_seperator.py`.
  - `SplitIntoChunks` and `FormatThread` are loops, as in the source.
  - Each is proved equal to a specification function: `Chunks(Pack(..))` or the per-element marker formula.
  - The properties are lemmas about those functions.
  - `Pack` is proved to be the unique partition that obeys the greedy rule (`Greedy`), stated independently of the loop.
- `BlueskyPoster.dfy`: `bluesky_poster.py`.
  - `SplitText` is a `while` loop proved equal to the function `Pieces`.
  - `BlueskyClient` is a class with the mutable `session` map.
  - The remote service is a class `Server`. Two functions, fixed when it is made, give its answers. `posts` is the sequence of records it has created, and it only ever grows.
  - `CreateThread` is proved to leave in that sequence a reply chain (`ThreadChain`) of the pieces it got to, each post carrying the reference the service answered to its request (`AnsweredBy`).
  - A failure stops it and does not roll back.

The foreign parts are parameters:

- the language detector: `detect`, which answers `None` where it raises;
- the spaCy segmenter: `nlp`, which answers `None` where running a model on the text raises. The models are loaded when the module is imported, outside the `try`, so a failed load is not part of this model;
- the service's answers to `createSession` and `createRecord`.

## Model

| member | source | states |
|---|---|---|
| TextSeparator.ModelLanguage | text_seperator.py:20-22 | the detected tag selects its own model when it is `en`, `de` or `fr`; any other tag selects English |
| TextSeparator.SplitIntoSentences | text_seperator.py:15-29 | a failed detection gives `[]`; a failed segmentation gives `[]`; otherwise the result is exactly what the model of the mapped language finds |
| TextSeparator.SplitIntoChunks | text_seperator.py:33-46 | the loop over `current_chunk` returns exactly `Chunks(Pack(sentences, max_length))`; no sentences give no chunks |
| TextSeparator.PackIsTheGreedyPartition | text_seperator.py:38-45 | the packing is the greedy partition, in both directions. A sentence joins the open chunk exactly when `len(current) + len(sentence) + 1 <= max_length`. A chunk is closed only when the next sentence does not fit, and no other partition satisfies the rule |
| TextSeparator.PackFromIsGreedy | text_seperator.py:38-43 | the packing from any open group satisfies the greedy rule |
| TextSeparator.GreedyFromIsPackFrom | text_seperator.py:38-43 | every partition satisfying the greedy rule is the one the loop builds |
| TextSeparator.GreedyGrow | text_seperator.py:39-40 | appending a sentence that fits to the open chunk keeps a partition greedy |
| TextSeparator.GreedyClose | text_seperator.py:41-43 | closing the chunk before a sentence that does not fit keeps a partition greedy |
| TextSeparator.GreedyAfterClose | text_seperator.py:41-43 | in a greedy partition, a chunk closed before sentence x left x no room, and the rest is greedy from `[x]` |
| TextSeparator.GreedyAfterGrow | text_seperator.py:39-40 | in a greedy partition, a chunk that took sentence x had room for it |
| TextSeparator.PackKeepsSentences | text_seperator.py:38-45 | the groups hold every sentence exactly once and in source order; none is split, dropped, repeated or reordered |
| TextSeparator.PackLoopStep | text_seperator.py:39-43 | one turn of the loop keeps the groups still to come in step with the packing |
| TextSeparator.JoinedAppend | text_seperator.py:40 | the `current_chunk` string of a concatenation of groups is the concatenation of their strings: each sentence followed by one space |
| TextSeparator.ChunkOfLength | text_seperator.py:42-45 | `strip()` never lengthens a chunk; a one-sentence chunk is exactly that sentence stripped, so it is no longer than the sentence |
| TextSeparator.ChunkLength | text_seperator.py:39-45 | a chunk of two or more sentences fits in `max_length`; a one-sentence chunk is exactly that sentence stripped, and only such a chunk can exceed `max_length`. Only the first chunk can hold no sentence, and it is then `""`. The first chunk fits whenever `max_length >= 0` |
| TextSeparator.FirstChunkEmpty | text_seperator.py:36-42 | a first sentence with `len >= max_length` makes the first chunk the empty string |
| TextSeparator.FormatThread | text_seperator.py:49-54 | keeps the length; element i (0-based) is `str(i+1) + "/" + str(N) + " " + chunks[i]`; `[]` gives `[]` |
| TextSeparator.Marker | text_seperator.py:53 | the prefix `f"{i}/{total_posts} "` of a post; `MarkerRoundTrip` shows that it can be read back |
| TextSeparator.MarkerRoundTrip | text_seperator.py:53 | the marker is unambiguous: reading a marked chunk back yields exactly its position, the total and the chunk |
| TextSeparator.ReadNumberOf | text_seperator.py:53 | the decimal digits of a number followed by a non-digit separator read back as that number and the text after the separator |
| TextSeparator.ProcessTweet | text_seperator.py:57-67 | a tweet of at most 300 characters comes back as `[tweet]` unchanged. A longer one becomes the numbered chunks of its sentences packed to 300 characters, and `[]` when it has no sentences |
| Strings.IsSpace | text_seperator.py:42-45 | the white-space test `str.strip()` uses: exactly the code points Python's `str.isspace` accepts |
| Strings.Strip | bluesky_poster.py:66-67 | `str.strip()` with no argument, removing white space from both ends; the result is never longer than its input. The lemmas below characterise it |
| Strings.StripIsInfix | bluesky_poster.py:66-67 | `strip()` keeps one contiguous stretch of its input, starting after the leading white space |
| Strings.StripRemovesSpace | bluesky_poster.py:66-67 | everything `strip()` removes, before and after what it keeps, is white space |
| Strings.StripEnds | bluesky_poster.py:66-67 | a stripped string is empty or neither starts nor ends with white space |
| Strings.StripKeepsNonSpace | bluesky_poster.py:66-67 | `strip()` loses no character that is not white space |
| Strings.StripTrailingSpace | text_seperator.py:42-45 | `(s + " ").strip()` equals `s.strip()`: the space appended after a sentence never reaches a chunk |
| Strings.NonSpaceAppend | bluesky_poster.py:66-67 | the non-space characters of a concatenation are those of its parts, in order |
| Strings.RFind | bluesky_poster.py:63 | `rfind(c, 0, end)` is the greatest index below `min(end, len)` holding `c`, or -1 |
| Strings.NatToString | text_seperator.py:53 | `str(n)` is a non-empty decimal string without leading zero whose value is n |
| Strings.DigitsThen | text_seperator.py:53 | the digit run of `digits + separator + rest` ends exactly at the separator |
| Strings.DigitSpanOfDigits | text_seperator.py:53 | digits followed by a non-digit form a digit run of exactly their length |
| BlueskyPoster.CutPoint | bluesky_poster.py:63-65 | the cut is at the last space at an index in `[1, max_len)`; without one it is a hard cut at `max_len`. A space at index 0 does not count, and the cut is always in `[1, max_len]` |
| BlueskyPoster.Pieces | bluesky_poster.py:58-69 | `split_text` always yields at least one piece |
| BlueskyPoster.PiecesStep | bluesky_poster.py:62-67 | one loop turn takes off the first piece and leaves a strictly shorter remainder, so the loop ends |
| BlueskyPoster.PiecesFit | bluesky_poster.py:62-68 | every piece has at most `max_len` characters; a text that already fits is returned as the single piece, unstripped |
| BlueskyPoster.PiecesKeepNonSpace | bluesky_poster.py:66-68 | only white space is discarded: the non-space characters of the text appear across the pieces in order, none lost or repeated |
| BlueskyPoster.PiecesNonEmpty | bluesky_poster.py:66-68 | for a text not starting with white space, every piece but the last is non-empty |
| BlueskyPoster.TrailingSpaceGivesEmptyPiece | bluesky_poster.py:62-68 | `split_text("abc    ", 3)` is `["abc", ""]`: the last piece can be empty |
| BlueskyPoster.BlueskyClient.SplitText | bluesky_poster.py:58-69 | the `while` loop returns exactly `Pieces(text, max_len)` when `max_len >= 1` |
| BlueskyPoster.BuildRecord | bluesky_poster.py:34-44 | the record keeps the text and is a reply exactly when both references are given, with `root` and `parent` set to exactly those references |
| BlueskyPoster.Server.CreateRecord | bluesky_poster.py:46-56 | the service answers a reference or an error; a created record is appended to its posts, and nothing else changes |
| BlueskyPoster.BlueskyClient.constructor | bluesky_poster.py:12-17 | the session starts with `did` and `accessJwt` both unset |
| BlueskyPoster.BlueskyClient.Login | bluesky_poster.py:19-30 | a successful `createSession` stores its `did` and `accessJwt`; a failed one leaves the session unchanged |
| BlueskyPoster.BlueskyClient.CreatePost | bluesky_poster.py:32-56 | without an access token nothing is sent and the call fails. Otherwise it sends a `Bearer` request for the session's `did`, with the record from `BuildRecord`, and returns the service's answer. Exactly that record is added on success, and nothing on failure |
| BlueskyPoster.ThreadChainSnoc | bluesky_poster.py:79-98 | posting the next chunk as a reply to the last post, in the thread of the first, extends the reply chain |
| BlueskyPoster.AnsweredBySnoc | bluesky_poster.py:46-56 | a post whose reference the service answered to the request for its record extends a run of answered posts |
| BlueskyPoster.AnsweredByEach | bluesky_poster.py:46-56 | in a run of answered posts, post i's reference is the service's answer to the `Bearer` request for post i's record, made with the earlier posts already in place |
| BlueskyPoster.RefsSnoc | bluesky_poster.py:79-98 | appending a post appends its reference to the returned list |
| BlueskyPoster.CompleteThreadKeepsText | bluesky_poster.py:71-100 | a complete thread carries the pieces in order, each within 300 characters, and together they hold every non-space character of the text |
| BlueskyPoster.BlueskyClient.CreateThread | bluesky_poster.py:71-100 | posts only ever get added. The new posts form a reply chain of the pieces: post 0 replies to nothing, and post i replies to post i-1 with post 0 as root. Every new post was sent as a `Bearer` request with the session's token and `did`, and its reference is what the service answered (`AnsweredBy`). On success every piece is posted and the result is their references in order. A failure means the service refused the next piece's request, and the earlier posts stay. Without a token it fails with nothing posted |

## Left out

- Language detection (langdetect) and sentence segmentation (spaCy) are foreign libraries. They are the parameters `detect` and `nlp`, and only the fallback and exception rules around them are modelled.
- The error message `split_into_sentences` prints is not modelled.
- Loading the spaCy models at import (text_seperator.py:8-12) is not modelled. It happens outside the `try`, so a failed load aborts the import rather than giving `[]`.
- HTTP and JSON are not modelled: the request URLs, `raise_for_status` and response decoding. The service is the `Server` object, whose answers are functions fixed at construction.
- The `createdAt` timestamp depends on the clock and is left out of `PostRecord`.
- An exception is modelled as a `Result` failure (or `false` for `Login`) rather than a raised error.
  - Python's `"Bearer " + None`, a post before any login, raises before any request is sent. It is modelled as the error `NotLoggedIn`.
  - `Login` stores the credentials the service answers. Which keys that JSON contains is not modelled.
- BlueskyPoster.BlueskyClient.SplitText: requires `max_len >= 1`. With `max_len <= 0` a text that keeps exceeding it need not shrink, and the Python loop need not end.
- The `if not chunks: return []` branch of `create_thread` is unreachable because `split_text` always returns at least one piece (`Pieces`). The model asserts that it is dead.
- References are `Ref(uri, cid)` values, and "not given" is `None`. Python tests the truthiness of a dict; a given reference is always a non-empty dict here.
- The platform counts graphemes for its post limit. Lengths here are code points, as Python's `len` counts them.
- tweet_scraper.py is not part of this model: network scraping, media downloads and file writes.
- app.py is not part of this model: Flask routing, JSON marshalling, and a call to a function the module does not define.
- The example run at the bottom of text_seperator.py is left out, as is the `__main__` demo in bluesky_poster.py. The demo does not run as written.
- The `.env` loading is left out.
- A chunk can be empty (`FirstChunkEmpty`, `TrailingSpaceGivesEmptyPiece`). The model follows the code here: it does not claim that every chunk is non-empty.
