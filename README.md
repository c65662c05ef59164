# Bandordle game core, modelled in Dafny

Bandordle is a Wordle-style guessing game. A new game picks one of a Last.fm
user's top album names, normalises it into a secret word and stores it in an
in-memory session store under a fresh id. Each guess is graded letter by
letter with Wordle's duplicate-letter rules. A guess graded all `Correct`
ends the session.

The project models:

- `grading.dfy` (module `Grading`): the two-pass letter grader
  `SessionState::grade`. `Graded` is a closed-form reference. Position i is
  `Correct` when guess and secret agree there. Otherwise it is `WrongPlace`
  when fewer earlier unmatched guess positions hold the same letter than
  there are unmatched secret positions holding it. `GradeWord` is the source's
  algorithm, with its `Option<char>` buffers and result vector as arrays and
  its early `break`, and is proved to return exactly `Graded`. The
  duplicate-letter cap and the other promises are proved about `Graded`.
- `game.dfy` (module `Game`): the session store `AppState` as a class whose
  `db` field is a map from session id to `SessionState`; the effects of the
  `newgame` and `guess` handlers on it; the secret-word normalisation
  (lowercase, drop spaces); and the `AppError` to HTTP status mapping.
- `api_types.dfy` (module `ApiTypes`): the Last.fm error rendering
  (`Display for Error`), `LfmStatus::into_result`, the `Period` display
  strings, and the `ImageSize` decoder. `src/lastfm/api_types.rs` repeats the
  error rendering and `into_result` of `crates/lastfm/src/api_types.rs`
  unchanged. They are modelled once, and separate lemmas state the promises
  of each file.
- `results.dfy` (module `Results`): `Option` and `Result`.

The model follows the code as written.
There is one secret word per session, not a phrase of several words. No guess
counter or limit exists: `guesses` is never appended to, and the store keeps
that as its invariant `Valid()`. No dictionary check is made. Normalisation
lowercases and removes only the `' '` character. Digits, punctuation and other
whitespace stay in the word.

Words are sequences of characters. Their length is the character count, which
equals the source's byte length for ASCII words.

## Model

| member | source | states |
|---|---|---|
| `Grading.Graded` | src/main.rs:108-139 | fails with `WrongLength(len secret, len guess)` exactly when the lengths differ; otherwise one grade per secret letter, and a position is `Correct` iff guess and secret agree there |
| `Grading.GradeWord` | src/main.rs:108-139 | the two-pass grader on `Option` buffers (pass 1 consumes exact matches, pass 2 lets each remaining guess letter consume the first unconsumed equal secret letter) returns exactly the reference result `Graded`, including the length error |
| `Grading.DuplicateCap` | src/main.rs:117-136 | for every letter c, the guess positions holding c graded `Correct` or `WrongPlace` number min(count of c in guess, count of c in secret), so never more than the secret holds |
| `Grading.AllCorrect` | src/main.rs:296 | a grade list is all `Correct` iff it holds no `Incorrect` and no `WrongPlace`; `Game.AppState.Guess` removes the session exactly when it holds, and `Grading.SolvedIffEqual` proves it holds exactly when the guess equals the word |
| `Grading.SolvedIffEqual` | src/main.rs:117-123 | a guess is graded successfully and all `Correct` iff it equals the secret word |
| `Grading.GradeSelf` | src/main.rs:117-123 | grading a word against itself gives one `Correct` per letter |
| `Grading.DuplicateExamples` | src/main.rs:125-136 | ties go to the earliest unconsumed secret letter: "abb"/"bab" gives [WrongPlace, WrongPlace, Correct], "deed"/"eedd" gives [WrongPlace, Correct, WrongPlace, Correct] |
| `Game.NewSession` | src/main.rs:100-106 | a new session holds the given word and an empty guess list |
| `Game.StatusCode` | src/main.rs:61-82 | `NoSession` maps to 404, `LastFmError` to 500, and `NoAlbums`, `MissingParam` and `GradingError` to 400 |
| `Game.Lower` | src/main.rs:263 | an ASCII upper-case letter `A`-`Z` becomes the matching `a`-`z`, every other character is kept unchanged, so no upper-case letter remains and only a space gives a space |
| `Game.Lowercase` | src/main.rs:263 | lowercasing keeps the length and lowercases each character in place |
| `Game.RemoveSpaces` | src/main.rs:263 | removing spaces leaves no space, shortens by the number of spaces, and keeps every other character with its multiplicity |
| `Game.RemoveSpacesSingle` | src/main.rs:263 | a single space is dropped and any other single character is kept |
| `Game.RemoveSpacesConcat` | src/main.rs:263 | removing spaces from a concatenation is the concatenation of the results, so together with the single-character case the kept characters stay in their original order |
| `Game.Normalize` | src/main.rs:263 | the secret word is the album name lowercased with its spaces removed; its properties are proved in `Game.NormalizeShape` and `Game.NormalizeIdempotent` |
| `Game.NormalizeShape` | src/main.rs:263 | a secret word has no space and no upper-case letter, and is as long as the album name minus its spaces |
| `Game.NormalizeIdempotent` | src/main.rs:263 | normalising a secret word again leaves it unchanged |
| `Game.AppState.constructor` | src/main.rs:36-39 | the store starts empty |
| `Game.AppState.NewGame` | src/main.rs:250-271 | a failed album fetch gives `LastFmError` and an empty album list gives `NoAlbums`, both leaving the store unchanged; otherwise exactly one new entry under the fresh id holds some album name normalised, other entries are untouched, and the returned length is that word's length |
| `Game.AppState.Guess` | src/main.rs:285-301 | an absent id gives `NoSession`, a length mismatch gives `GradingError`, both leaving the store unchanged; otherwise the grades are `Graded` of the stored word, the stored word is never changed, and the entry is removed iff every grade is `Correct`, that is iff the guess equals the word; no other entry changes |
| `ApiTypes.DescribedCodes` | crates/lastfm/src/api_types.rs:17-35 | the codes with a fixed description are exactly 2 to 11, 13 to 16, 26 and 29 |
| `ApiTypes.Display` | crates/lastfm/src/api_types.rs:15-44 | a known code renders as code, ": ", its description, ": ", message; any other code as "unknown code ", code, ": ", code, ": ", message |
| `ApiTypes.DisplayMarksUnknown` | crates/lastfm/src/api_types.rs:36-41 | the rendering starts with "unknown code " iff the code has no description |
| `ApiTypes.DisplayEndsWithMessage` | crates/lastfm/src/api_types.rs:41 | every rendering ends with the error's message |
| `ApiTypes.IntoResult` | crates/lastfm/src/api_types.rs:54-61 | an ok status gives `Ok` of its payload, a failed status gives `Err` of its error |
| `ApiTypes.IntoResultInjective` | crates/lastfm/src/api_types.rs:54-61 | the conversion loses nothing: distinct statuses give distinct results |
| `ApiTypes.PeriodSerdeName` | crates/lastfm/src/api_types.rs:86-98 | each period's serde rename is one of "overall", "7day", "1month", "3month", "6month", "12month", made only of lower-case letters and digits; `ApiTypes.PeriodDisplayFaithful` proves the six are distinct |
| `ApiTypes.PeriodDisplay` | crates/lastfm/src/api_types.rs:100-112 | a period displays as its serde rename and that display parses back to the same period; `ApiTypes.PeriodDisplayFaithful` adds that distinct periods display differently |
| `ApiTypes.ParsePeriod` | crates/lastfm/src/api_types.rs:85-99 | a string parses to a period only when it is that period's serde name |
| `ApiTypes.PeriodDisplayFaithful` | crates/lastfm/src/api_types.rs:100-112 | each period displays as its serde rename, distinct periods display differently, and the display parses back to the period |
| `ApiTypes.DisplayPeriodTest` | crates/lastfm/src/api_types.rs:484-487 | `Overall` displays as "overall" |
| `ApiTypes.DecodeImageSize` | crates/lastfm/src/api_types.rs:133-149 | decoding never fails; the five kebab-case names give their sizes, and every other string gives `Unknown` carrying that exact string |
| `ApiTypes.ImageSizeName` | crates/lastfm/src/api_types.rs:122-131 | each named size's serde name is one of the five lower-case kebab-case names; `ApiTypes.ImageSizeRoundTrip` proves it decodes back to the size |
| `ApiTypes.ImageSizeRoundTrip` | crates/lastfm/src/api_types.rs:122-145 | each named size decodes back from its kebab-case name |
| `ApiTypes.ImageSizeCaseSensitive` | crates/lastfm/src/api_types.rs:140-146 | matching is case-sensitive: "Small" and "EXTRALARGE" decode to `Unknown` |
| `ApiTypes.KnownCodesAreNumeric` | src/lastfm/api_types.rs:17-35 | every described code is a non-empty string starting with a decimal digit |
| `ApiTypes.UnknownCodes` | src/lastfm/api_types.rs:36-41 | codes 1, 12, 17 to 25, 27, 28, the empty code and a non-numeric code all render with the "unknown code " prefix followed by code, ": ", code, ": ", message |
| `ApiTypes.StatusFailedTest` | src/lastfm/api_types.rs:163-180 | an instance built on the error value of the `status_failed` test (code "10"): the failed status converts to `Err` of that error, which renders with the invalid-API-key description |

## Left out

- Concurrency: the `RwLock` around the store and the per-session `Mutex` are not modelled. Each handler is one atomic step on the map. The gap between grading under the read lock and removing under the write lock only matters when requests interleave.
- Randomness: the album name is chosen nondeterministically (any index may be picked). `Uuid::new_v4` is a caller-supplied id that is not yet in the store.
- The album fetch in `newgame` is a parameter holding its outcome. A fetch failure becomes `LastFmError`. The client's HTTP and XML error payloads are not modelled.
- Game.Lower: lowercases ASCII `A`-`Z` only. Rust's Unicode `to_lowercase` can change other characters and byte lengths, so words are treated as ASCII.
- Grading.GradeWord: lengths are character counts. The source compares byte lengths but walks characters, and the two agree only for ASCII words.
- The error messages of `AppError` and of the Last.fm client error are not modelled. Only the status mapping is.
- `Grade`'s derived traits are not modelled: ordering, hashing, serde and TypeScript export. Neither is serialisation of `ImageSize`.
- `main`, `signin`, `authenticate`, `get_top_albums` and `root` are HTTP routing, configuration, SQLite and redirects. They are not modelled.
- The Last.fm client (`crates/lastfm/src/lib.rs`, `src/lastfm.rs`) is not part of this model. It signs requests with MD5 and sends them over HTTP.
- XML parsing, the `Url` type, the album, artist and track records and their test fixtures are library behaviour. They are not modelled.
- The older `ImageSize` in `src/lastfm/api_types.rs` is not modelled. It is a derived four-variant decoder with no unknown fallback.
