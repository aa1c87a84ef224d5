# srtsync in Dafny

`srtsync` is a small C tool that re-times and searches SubRip (`.srt`)
subtitle files. This project models its timing and cue logic in Dafny and
proves properties of the model. Four modules follow the structure of
`srtsync.c`:

- `Clock` (`clock.dfy`) is the timestamp codec:
  - `ts2ms` reads an `HH:MM:SS,mmm` clock text at fixed offsets;
  - `ms2ts` splits milliseconds into fields and prints them with `snprintf`;
  - `hms2ms` reads a loose duration such as `1h2m3s`.

  `uint32_t` is the subset type `u32`. Its wrap-around is written out as
  `Wrap32`. `atoi` and `strtoul` are modelled by what they do on a run of
  decimal digits (`DigitRun`, `NumberValue`).
- `Store` (`store.dfy`) is the cue store. The class `Subtitles` has the C
  record's fields `bulk`, `count` and `lines`; `lines` is an `array<Cue>`
  of `bulk` slots. The class has:
  - the empty store `load_subs` starts from;
  - the append step of `load_subs`, which grows the array by half when it is full;
  - `transform` with factor 1 (a shift), as an in-place loop over the array.

  The shift is specified by the function `Shifted` on the sequence of cues.
- `Matching` (`matching.dfy`) is `contains`. `Find` is a model of `strstr`.
  `Contains` is the loop of `strstr` calls, each resuming at the start of the
  previous match, proved equal to the predicate `InOrder`: the words occur
  in order, and consecutive words may overlap.
- `Search` (`search.dfy`) is the proximity search:
  - `closest` bisects the on times. `ClosestFrom` specifies it, one loop
    pass (`Bisect`) at a time, and `Closest` is the `do`/`while` loop;
  - `search` tests the cue `closest` found, then cues on alternating sides,
    then sweeps the side that is left. `Rank` gives the position at which
    each index is tested. It is proved injective, so every index is tested
    exactly once, and nearest-first.

  The methods `Search`, `Expand`, `Sweep` and `Check` (the `SRT_CHECK`
  macro) are proved against `IsSearchResult`:
  - the result is -1 exactly when no cue matches;
  - otherwise it is a matching cue that comes first in the search order;
  - so it is one of the matches nearest to the start.

The search does not need the cues to be in order. On cues sorted by on time,
`StartIndexSorted` shows that the start index is where the target
belongs, and that a cue starting exactly at the target is found.

Take cues at 1, 5 and 9 seconds with texts "foo", "bar" and "foo bar".
One might expect the search for "bar" at 5.2 seconds to answer the middle
cue, the nearest by time. The code answers the last cue: `closest` probes the middle cue, finds it
earlier than the target and closes on the last one, which already holds "bar" (`ExampleSearchBar`). The
model follows the code.

## Model

| member | source | states |
|---|---|---|
| Clock.DigitRun | srtsync.c:24-27 | where `atoi` stops: the result is the length of the longest all-digit prefix, followed by a non-digit or the end |
| Clock.Pad | srtsync.c:65 | `%0wu` gives digits whose value is `n`, at least `w` of them, exactly `w` when `n` fits in `w` digits, and no leading zero beyond the width, so a wider number is printed in full and never cut |
| Clock.PadWide | srtsync.c:65 | `%02u` prints 123 as `"123"` |
| Clock.Ts2Ms | srtsync.c:20-29 | on a well-formed clock text the result is `h*3600000 + m*60000 + s*1000 + f` for the fields at offsets 0, 3, 6 and 9, with no wrap-around |
| Clock.ClockTextSum | srtsync.c:24-27 | on a well-formed clock text each `atoi` reads exactly its field, and the sum of the fields stays below 2^32 |
| Clock.SplitClock | srtsync.c:58-64 | minutes < 60, seconds < 60, milliseconds < 1000, and the fields add back up to the input |
| Clock.Ms2Ts | srtsync.c:55-66 | what `snprintf` leaves in a buffer of `bufsiz` bytes: a prefix of the full rendering, cut to `bufsiz - 1` characters, empty when `bufsiz` is 0 |
| Clock.Ms2TsIsClockText | srtsync.c:55-66 | below 100 hours and with at least 13 bytes, the output is a 12-character clock text whose fields are those of `SplitClock` |
| Clock.Ms2TsHundredHours | srtsync.c:65 | at 100 hours the 13-byte buffer holds `"100:00:00,00"`: the last digit is lost |
| Clock.Ms2TsThousandHours | srtsync.c:65 | at 1000 hours it holds `"1000:00:00,0"`: the last two digits are lost |
| Clock.ClockRoundTrip | srtsync.c:20-66 | for every time below 100 hours, `ts2ms` applied to the 13-byte `ms2ts` output gives the time back |
| Clock.ReadToken | srtsync.c:37-49 | one `strtoul` plus the fall-through `switch`: the result is the token's scaled value, and the position moves past the digits and the key character (not past the end) |
| Clock.Hms2Ms | srtsync.c:31-53 | the result is the sum of the token values of the duration text, in 32-bit wrap-around arithmetic |
| Clock.DurationToken | srtsync.c:37-50 | a token `<n><c>` adds `n * 3600000` for `h`/`H`, `n * 60000` for `m`/`M`, `n * 1000` for `s`/`S` and `n` for any other non-digit, and the key character is skipped |
| Clock.DurationBare | srtsync.c:37-50 | a bare number is read as milliseconds |
| Clock.DurationOfHms | srtsync.c:36-51 | `"1h2m3s"` is 3723000 ms |
| Clock.DurationOfSeconds | srtsync.c:36-51 | `"90s"` is 90000 ms |
| Clock.DurationOfBareNumber | srtsync.c:36-51 | `"500"` is 500 ms |
| Store.Subtitles.constructor | srtsync.c:76-79 | the new store is valid, has capacity 256 and holds no cues |
| Store.Subtitles.Append | srtsync.c:105-109 | a full array grows to `bulk + bulk/2` before the write; otherwise the array is kept; `count` grows by one and stays within `bulk`; the cues are the old ones followed by the new one |
| Store.Subtitles.Transform | srtsync.c:151-160 | every stored cue becomes its shift by `sign * offset` (`Shifted`), in place; the count and the unused slots are unchanged |
| Store.ShiftedKeeps | srtsync.c:156-159 | a shift keeps the number of cues, every text and every cue's duration, and moves every on time by the same amount |
| Store.ShiftedIdentity | srtsync.c:157-158 | a shift by 0 (sign 0) is the identity |
| Store.ShiftedCompose | srtsync.c:157-158 | two shifts are one shift by the sum of the amounts |
| Store.ShiftedInverse | srtsync.c:157-158 | a shift by `+k` followed by `-k` restores every on and off time |
| Store.ShiftedKeepsOrder | srtsync.c:156-159 | cues ordered by on time stay ordered after a shift |
| Matching.Find | srtsync.c:204 | `strstr` from `pos`: the first position at or after `pos` where the word occurs, or nothing when it occurs nowhere from there |
| Matching.GreedyStep | srtsync.c:203-205 | taking the first occurrence loses no match: the words occur in order from `pos` if and only if the first word is found and the rest occur in order from where it was found |
| Matching.Contains | srtsync.c:199-207 | true exactly when the words occur in the text in order, each search resuming at the previous match; true for no words |
| Matching.RepeatedWordOnce | srtsync.c:204 | because each search resumes at the start of the previous match, a word listed twice needs to occur only once |
| Search.Bisect | srtsync.c:187-195 | a loop pass either returns an index within `[lo, hi + 1]` or narrows the bounds; a narrowing moves a bound past the probed cue, which starts before the target (lower bound) or after it (upper bound), so on sorted cues every excluded cue is on that side; `hi + 1` is returned only once the bounds have closed on a cue that is earlier than the target |
| Search.BisectSkipsUnprobed | srtsync.c:189-190 | on unsorted cues a narrowing can drop a cue that was never compared: on times 9000, 1000, 6000, 7000 and target 5000 narrow to `[2, 3]`, dropping cue 0, which starts after the target |
| Search.ClosestFrom | srtsync.c:180-197 | the loop's result lies in `[lo, hi + 1]`, and is `hi + 1` only when `lo == hi` and the cue there starts before the target |
| Search.BisectHitBrackets | srtsync.c:187-196 | given outside neighbours that start before and after the target, a pass that returns leaves the target bracketed |
| Search.ClosestFromBrackets | srtsync.c:180-197 | whatever the order of the cues, the result either starts exactly at the target (the early return) or has an earlier cue before it and a later cue at or after it |
| Search.BracketedOrder | srtsync.c:180-197 | on sorted cues no cue before the result starts after the target and none after it starts before |
| Search.BracketedFinds | srtsync.c:180-197 | on sorted cues the result starts exactly at the target whenever some cue does |
| Search.ClosestOverrunsSingleCue | srtsync.c:185-196 | with one cue that starts before the target, `closest` returns 1, one past the last cue |
| Search.StartIndex | srtsync.c:214-215 | the start of the search, always an index of a stored cue |
| Search.StartIndexSorted | srtsync.c:180-197 | on sorted cues the start index is where the target belongs, and it lands on a cue starting exactly at the target when there is one |
| Search.Closest | srtsync.c:179-197 | the loop returns `ClosestFrom` over the whole store; with two or more cues the index is in range; with one cue it is 1 exactly when that cue starts before the target, and 0 otherwise |
| Search.Rank | srtsync.c:214-226 | the position at which each index is tested lies in `[0, n)` |
| Search.RankInjective | srtsync.c:214-226 | no two indices are tested at the same position, so every index is tested exactly once |
| Search.RankNearerFirst | srtsync.c:214-226 | an index tested earlier is never farther from the start than one tested later |
| Search.MissStep | srtsync.c:212 | a miss at position `p`, after misses at every earlier position, extends the misses to `p + 1` |
| Search.HitIsFirst | srtsync.c:212 | a match tested after misses at every earlier position is the first match in the search order |
| Search.AllMissed | srtsync.c:228 | misses at all `n` positions mean no cue matches, and -1 is the right answer |
| Search.Check | srtsync.c:212 | `SRT_CHECK(x)` reports whether cue `x` matches; a hit is the search result; a miss extends the run of misses by one position |
| Search.Search | srtsync.c:209-229 | on a non-empty store the result is -1 exactly when no cue matches; otherwise it is a matching cue that comes first in the search order from the start index, and so is one of the matches nearest to it; on an empty store the result is -1 |
| Search.Expand | srtsync.c:214-222 | after the start index and the alternating loop, the result satisfies the search contract |
| Search.Sweep | srtsync.c:223-228 | the two linear sweeps finish the search order and the result satisfies the search contract |
| Search.ExampleStart | srtsync.c:180-197 | with cues at 1, 5 and 9 seconds, the search at 5.2 seconds starts at the last cue |
| Search.ExampleLastHoldsBar | srtsync.c:199-207 | "foo bar" holds the word "bar" |
| Search.ExampleSearchBar | srtsync.c:209-229 | the search for "bar" at 5.2 seconds returns the last cue, index 2 |
| Search.ExampleSearchBaz | srtsync.c:209-229 | the search for "baz" returns -1 |

## Left out

- Reading in `load_subs` (srtsync.c:68-104) is left out: the `fgets` calls into fixed buffers, blank-line skipping, the index assertion and the off-time offset. Only the empty store and the append step are modelled.
- `print_line` and `save_subs` are left out. They print the 1-based index, the on and off times through `ms2ts`, the cue text as it was loaded (keeping the input's own line ends), and a separator line; the index line, the time line and the separator end in CRLF. `Ms2Ts` with `bufsiz` 13 covers their buffers, including the digits lost from the end: the last one from 100 hours on, the last two from 1000 hours on (`Ms2TsHundredHours`, `Ms2TsThousandHours`).
- `free_subs` is left out, because Dafny has no manual memory release.
- `sync` and `transform` with a factor other than 1 are left out, because they are `double` arithmetic and a double-to-`uint32_t` conversion.
- Store.Subtitles.Transform: `sign * offset` is taken over the integers, with a precondition that every new time stays in `[0, 2^32)`. It does not reproduce C's conversion of `sign` to unsigned and of the sum through `double`. In C, `sign * offset` with `sign` -1 is the unsigned `2^32 - offset`, so `on * 1.0 + (2^32 - offset)` is a `double` of at least 2^32 for every cue with `on >= offset`; converting it to `uint32_t` is undefined behaviour (section 6.3.1.4 of the C11 standard). A shift to earlier times thus relies on undefined behaviour, and a cue earlier than the offset wraps to a time near 2^32. The model states the integer shift these cases evidently intend.
- `main` and `usage` are command-line glue and are left out.
- Clock.DigitRun: `atoi` and `strtoul` are modelled on digit runs only. Leading whitespace, signs and saturation on overflow are not modelled.
- Clock.Ts2Ms: `atoi(ts) * 3600000` is `int` arithmetic in C and overflows, undefined, from 597 hours on. The model takes the mathematical product reduced to 32 bits. On well-formed clock texts there is no overflow.
- Clock.Ts2Ms requires the text to have at least 9 characters, because the C code reads at `ts + 9`.
- Clock.Ts2Ms: the contract speaks only of well-formed clock texts. On other texts the result is given by the definition alone: the numbers `atoi` reads, scaled and summed modulo 2^32.
- Clock.ReadToken: `strtoul` saturates at `ULONG_MAX` on a number too large for an `unsigned long` (20 digits or more); this is not modelled. The 64-bit wrap-around of `n *= 60` and `n *= 1000` needs no model of its own: only its value modulo 2^32 reaches `ms`, and 2^32 divides 2^64.
- Store.Subtitles.Append: an `int` overflow of `bulk` and a failing `realloc` are not modelled.
- Search.Search: on an empty store the C code bisects with bounds 0 and -1 and reads `lines[0]`, which holds no cue. The model returns -1 without probing.
- Search.Closest requires at least one cue for the same reason.
- Cue texts are `seq<char>` values. The byte-level C strings, their terminating zero and the sharing of text pointers between the store and the caller are not modelled.

## Findings

| source | as written | input that shows it | evidently intended | confidence | as-written member | corrected member |
|---|---|---|---|---|---|---|
| srtsync.c:185-196 | with a single cue that starts before the target, `closest` returns `imin = 1`, one past the last cue, and `search` then runs `SRT_CHECK(1)` on a slot that holds no cue | one cue with on time 1000 ms, target 2000 ms | the search starts at an index of a stored cue, the last one here | not executed | Search.ClosestOverrunsSingleCue | Search.StartIndex |
