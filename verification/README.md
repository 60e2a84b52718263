# Keyframe extraction and message helpers of a Discord chat bot

This project models, in Dafny, the deterministic core of a Discord bot written
in TypeScript. The bot answers mentions through a chat-completion endpoint.
Before it can show an emoji or sticker to a vision model, it cuts the animation
into still frames.

The model covers:

- **`extractFrames`** (`splitGif.ts`). It sniffs the GIF or PNG signature and
  decodes the frames, normalising delays: GIF hundredths of a second become
  milliseconds, and a missing or zero APNG delay becomes 100 ms. It then places
  ten target times evenly over the animation, both ends included. Each target
  is mapped to the frame on screen at that time by `findFrameIndexAt`, and the
  result is padded to ten images.
- **The helpers of `index.ts`:**
  - `getMaxSize`, the emoji slots per server boost tier;
  - the legacy keyframe indices of `getKeyFrameDataURLs`;
  - the retry loop `openAiWithExponentialBackoff`;
  - the page list of `scrapeSearxPage`;
  - the announcement cut at a run of ten `=`;
  - the `<think>…</think>` reply extraction;
  - `sanitize`.

Modules follow the source: `Signatures`, `Frames`, `Keyframes` and `SplitGif`
for `splitGif.ts`; `EmojiLimit`, `LegacyKeyframes`, `Backoff`, `Pagination`,
`Announcements`, `ThinkReply` and `Sanitize` for `index.ts`. Three modules are
shared:

- `Results` holds `Option` and `Result`.
- `SortedSets` models the `Array.from(new Set(xs)).sort((a, b) => a - b)`
  idiom.
- `JsText` holds JavaScript white space and `trimEnd`.

Outside code becomes parameters:

- The image decoders are function parameters: `gif-frames` becomes `Bytes ->
  Result<seq<GifFrame>, string>` and `sharp-apng` becomes `Bytes ->
  Result<ApngData, string>`.
- `decancer` is a parameter `string -> string`.
- The completion endpoint is a parameter `nat -> CallOutcome<R>`, giving what
  the n-th call does.
- `Math.random()` is a parameter `nat -> real` with values in [0, 1).

Times are exact: a target `(i / 9) * totalDuration` is a Dafny `real`, which is
a rational number. `Math.floor(total * 0.k)` is the integer `total * k / 10`,
which is not always what the double arithmetic gives (see "## Left out").

Two behaviours of the code are easy to miss, and the model keeps both:

- With a total duration of 0, every target is 0 and no cumulative time is
  strictly greater. `findFrameIndexAt` therefore falls through to the last
  frame, and all ten keyframes are the last frame, not the first
  (`Keyframes.ZeroTotalSelectsLast`).
- The GIF test reads only six bytes. A buffer of exactly six bytes `GIF89a` is
  therefore accepted as a GIF, although it is shorter than the eight bytes
  the PNG test reads (`Signatures.ShortBuffers`).

## Model

| member | source | states |
|---|---|---|
| Signatures.Sniff | splitGif.ts:65-68 | a GIF exactly when the first six bytes spell `GIF89a` or `GIF87a`; a PNG exactly when the first eight bytes are the PNG signature; nothing otherwise |
| Signatures.SniffReadsEightBytes | splitGif.ts:65-66 | the classification depends only on the first eight bytes |
| Signatures.SniffSharedPrefix | splitGif.ts:65-66 | buffers agreeing on eight leading bytes are classified alike |
| Signatures.SignaturesExclusive | splitGif.ts:65-66 | no buffer carries both signatures, so the order of the GIF and PNG tests never matters |
| Signatures.ShortBuffers | splitGif.ts:65-68 | under six bytes is always unsupported; a bare six-byte GIF header is accepted |
| Frames.GifFrames | splitGif.ts:47-54 | one frame per decoded GIF frame, same order and image, delay ten times the raw value, no default for zero |
| Frames.GifFramesInvertible | splitGif.ts:52 | every converted delay is a multiple of ten, and dividing by ten recovers the decoder's frame |
| Frames.ApngDelayAt | splitGif.ts:19 | the delay frame i receives is positive: the i-th reported delay when present and nonzero, else 100 |
| Frames.ApngFramesFrom | splitGif.ts:15-21 | one frame per image, same order; frame i's delay is what `shift() \|\| 100` hands it |
| Frames.ApngFrames | splitGif.ts:11-23 | one frame per decoded image, in order; frame i's delay is the i-th reported delay when present and nonzero, else 100 |
| Frames.ApngDelaysPositive | splitGif.ts:15-21 | APNG frames keep their images and never have delay 0, so a non-empty APNG has a positive total |
| Frames.TotalDuration | splitGif.ts:81 | the total of no frames is 0, and no single frame's delay exceeds the total |
| Frames.TotalAppend | splitGif.ts:81 | the total duration of two frame lists joined is the sum of their totals |
| Frames.TotalPrefixStep | splitGif.ts:81 | extending a prefix by one frame adds that frame's delay to its total |
| Frames.GifTotalDuration | splitGif.ts:52 | a GIF's total duration is ten times the sum of its raw delays |
| Frames.RunningSums | splitGif.ts:87-91 | entry k of the running sum is the start value plus the total of frames 0..k |
| Frames.Cumulative | splitGif.ts:87-91 | entry k of `cumulativeTimes` is the total duration of frames 0..k |
| Frames.CumulativeSteps | splitGif.ts:87-91 | cumulative times start at the first delay, add each next delay, and end at the total duration |
| Frames.CumulativeMonotone | splitGif.ts:87-91 | cumulative times never decrease and never exceed the total duration |
| Keyframes.Target | splitGif.ts:84 | each target lies within [0, total]; the first is 0 and the last is the total |
| Keyframes.TargetBounded | splitGif.ts:84 | i/9 of the total lies between 0 and the total |
| Keyframes.TargetsEvenlySpaced | splitGif.ts:84 | consecutive targets lie exactly a ninth of the total apart, so with the first at 0 target i is i/9 of the total |
| Keyframes.TargetsNonDecreasing | splitGif.ts:84 | later targets are never earlier |
| Keyframes.ScanFrom | splitGif.ts:94-99 | the loop from position i returns the first index at or after i whose end time is after t, or the last index |
| Keyframes.FrameIndexAt | splitGif.ts:94-99 | every earlier frame has ended by t, and the chosen frame ends after t or is the last frame |
| Keyframes.FrameIndexAtUnique | splitGif.ts:94-99 | these two properties determine the index, so they are a complete description of `findFrameIndexAt` |
| Keyframes.FrameIndexAtMonotone | splitGif.ts:94-99 | a later time never maps to an earlier frame |
| Keyframes.SelectedIndex | splitGif.ts:102-104 | the index used for target i is a valid frame index; every earlier frame has ended by the target, and the chosen frame ends after it unless it is the last |
| Keyframes.PadWithLast | splitGif.ts:107-110 | a list shorter than ten is extended to ten by repeating its last entry, keeping the entries it had; a longer list is unchanged |
| Keyframes.SelectKeyframes | splitGif.ts:81-112 | exactly ten images; image i is the buffer of the frame on screen at target i |
| Keyframes.KeyframesComeFromInput | splitGif.ts:102-105 | every keyframe is the image of some input frame |
| Keyframes.SelectionMonotone | splitGif.ts:84-105 | selected frame indices never go backwards as the target index grows |
| Keyframes.LastTargetSelectsLastFrame | splitGif.ts:84-105 | the tenth keyframe is always the last frame |
| Keyframes.ZeroDelayOnlyIfLast | splitGif.ts:94-105 | a frame with delay 0 is selected only when it is the last frame |
| Keyframes.ZeroTotalSelectsLast | splitGif.ts:81-105 | with total duration 0 all ten keyframes are the last frame |
| Keyframes.SingleFrameRepeated | splitGif.ts:81-112 | a one-frame animation yields ten copies of its frame |
| Keyframes.FirstFrameLeads | splitGif.ts:84-105 | when the first frame has a positive delay, the first keyframe is the first frame |
| Keyframes.TenTenthSecondFrames | splitGif.ts:81-112 | ten frames of 100 ms each yield every frame exactly once, in order |
| Keyframes.TenTenthsTarget | splitGif.ts:94-99 | with frame i running from 100 i to 100 i + 100, target i falls in frame i |
| Keyframes.FramesEndAtMultiples | splitGif.ts:87-91 | with all delays 100 ms, frame k starts at 100 k and ends at 100 k + 100 |
| SplitGif.Message | splitGif.ts:68-78 | the two errors `extractFrames` raises itself carry "Unsupported image format" and "No frames extracted"; a decoder's failure keeps the decoder's own message |
| SplitGif.DecodeFrames | splitGif.ts:70-76 | the sniffed format picks the decoder; its frames are normalised by that format's delay rule, and its failure is passed on |
| SplitGif.ExtractFrames | splitGif.ts:63-112 | fails with "Unsupported image format" exactly when neither signature matches; passes on a decoder failure unchanged; fails with "No frames extracted" exactly when the decoder returns no frames; otherwise returns the ten keyframes of the decoded frames, each one of their images |
| SplitGif.ExtractGif | splitGif.ts:72-78 | a GIF is decoded by the GIF path: empty gives "No frames extracted", otherwise the keyframes of the decoded frames with delays ×10 |
| SplitGif.ExtractApng | splitGif.ts:74-78 | a PNG-signed buffer goes to the APNG path, and its total duration is positive |
| SplitGif.UnsupportedIgnoresDecoders | splitGif.ts:68 | an unrecognised buffer is refused before any decoder is consulted |
| SortedSets.Insert | index.ts:130-132 | inserting into a strictly increasing list keeps it strictly increasing and adds exactly the new value |
| SortedSets.SortUnique | index.ts:130-132 | the result is strictly increasing and holds exactly the input's values |
| SortedSets.StrictlyIncreasingUnique | index.ts:130-132 | two strictly increasing lists with the same values are equal, so the result is determined by the value set |
| SortedSets.SortUniqueOfSorted | index.ts:130-132 | an already strictly increasing list is returned unchanged |
| JsText.TrimEnd | index.ts:567 | the result is a prefix with no trailing white space, and everything removed is white space |
| JsText.TrimEndIdempotent | index.ts:567 | trimming twice removes nothing more |
| EmojiLimit.GetMaxSize | index.ts:346-357 | tiers 1, 2, 3 have 100, 150, 250 slots; every other value gets the fallback 50, which is the minimum |
| EmojiLimit.MaxSizeGrowsWithTier | index.ts:346-357 | each named tier has strictly more slots than every lower tier |
| EmojiLimit.EmojiSlotsFull | index.ts:523 | the slots are full exactly when the emoji count reaches the tier's limit: never below 50 emojis, always from 250 on |
| EmojiLimit.SlotsFullAtDefault | index.ts:523 | outside tiers 1-3 the slots are full from 50 emojis on |
| LegacyKeyframes.Candidates | index.ts:202-212 | ten candidate positions; candidate k is the frame count times k/10, rounded down |
| LegacyKeyframes.KeepInRange | index.ts:213 | keeps exactly the candidates that are valid frame indices |
| LegacyKeyframes.CandidatesInRange | index.ts:202-213 | for a non-empty animation every candidate is already a valid index, so the filter removes nothing |
| LegacyKeyframes.KeyframeIndices | index.ts:199-214 | empty for no frames; otherwise starts at 0, strictly increasing, at most ten, all valid indices, and holding exactly the candidate positions |
| Pagination.FinitePages | index.ts:123-127 | exactly the button values that parse to a number |
| Pagination.CurrentEntry | index.ts:118-121 | the current page contributes itself unless it is missing, NaN or 0 |
| Pagination.MergePages | index.ts:117-132 | strictly increasing, holding exactly the parsed button pages and the current page when truthy |
| Pagination.MergeIgnoresButtonOrder | index.ts:123-132 | the page list depends only on which numbers appear, not on button order or repeats |
| Announcements.FirstRunFrom | index.ts:565-566 | finds the leftmost run of ten `=` at or after a position, or reports there is none |
| Announcements.Truncate | index.ts:565-567 | a message with no run is unchanged; otherwise it is cut where the first run starts and trimmed at the end |
| Announcements.TruncateLeavesNoRun | index.ts:565-567 | the result is a prefix with no run left, and after a cut it does not end in white space |
| Announcements.TruncateIdempotent | index.ts:565-567 | cutting a cut message changes nothing |
| Sanitize.RemoveDisallowed | index.ts:190-191 | no white space, `<`, `\|`, `\`, `/` or `>` remains |
| Sanitize.RemoveDisallowedKeepsAllowed | index.ts:190-191 | every other character survives exactly as often as it occurred |
| Sanitize.Sanitize | index.ts:188-192 | the sanitised name holds no disallowed character and every allowed character of the decancered name, as often as it occurred |
| Sanitize.RemoveDisallowedConcat | index.ts:190-191 | removal distributes over concatenation, so it keeps the order of what it keeps |
| Sanitize.RemoveDisallowedKeepsClean | index.ts:190-191 | text with nothing disallowed is unchanged |
| Sanitize.RemoveDisallowedIdempotent | index.ts:188-192 | sanitising twice removes nothing more |
| ThinkReply.FindTag | index.ts:627 | finds the first case-insensitive occurrence of a tag at or after a position, or reports there is none |
| ThinkReply.ThinkAnswer | index.ts:627 | no match exactly when no opening tag is followed by a closing tag; a match captures what follows the first closing tag after the first opening tag |
| ThinkReply.Reply | index.ts:627 | a non-empty captured answer is the reply; otherwise the fallback content, or ":skull:" when that is null |
| ThinkReply.AnswerIsSuffix | index.ts:627 | the captured answer is a tail of the content |
| ThinkReply.DirectReply | index.ts:630 | without tool calls the reply is the text after the think block when that is non-empty, otherwise the whole content, and ":skull:" when the content is null; always a tail of the content |
| ThinkReply.ToolReply | index.ts:627 | after tool calls the reply is the text after the second response's think block when that is non-empty; when the second response is null, has no think block or has nothing after it, the reply is the FIRST response's content, or ":skull:" when that is null |
| ThinkReply.AnswerAfterThoughts | index.ts:627 | opening tag, thoughts without `<`, closing tag and a non-empty answer give back exactly the answer, in any tag letter case |
| Backoff.RetriedAfter | index.ts:370-384 | a thrown value that is neither an `Error` nor carries `error` is never retried, nor is any failure after five retries, nor one whose truthy status is neither 429 nor 5xx; an error without status, or with status 429 or 5xx, is retried while retries remain |
| Backoff.BackoffDelay | index.ts:385 | no wait before the first retry; before retry a ≥ 2, at least 250·2^(a-1) and under that plus 100 ms |
| Backoff.BackoffDelayGrows | index.ts:385 | each wait is longer than the one before, whatever the jitter |
| Backoff.CallWithBackoff | index.ts:363-389 | 1 to 6 calls; every call but the last failed retryably; success exactly when the last call completed, with its response; a failure is the last thrown value and was not retryable; the waits lie within their bounds |
| Backoff.WaitsTotalBound | index.ts:358-389 | all waits of one request add up to less than 7.9 seconds |
| Backoff.WaitsBelowCeiling | index.ts:385 | waits within their bounds stay below the sum of the upper bounds |
| Backoff.CeilingGrows | index.ts:358-385 | the sum of the upper bounds grows strictly with each retry and is 7900 ms after five retries, which bounds every earlier sum |

## Left out

- Pixel decoding and the libraries `gif-frames`, `sharp-apng` and `sharp`. Their results are parameters.
- `streamToBuffer` (`splitGif.ts:26-33`). It only concatenates stream chunks, so the model takes each frame's bytes as given.
- Floating-point rounding of the targets. The targets `(i / 9) * totalDuration` are exact rationals, with no double rounding.
- LegacyKeyframes.Candidates: models `Math.floor(total * 0.k)` as the exact `total * k / 10`. The two differ when `total * k` is a multiple of 10 and the double product rounds down. The first case is 90 frames with k = 7: `90 * 0.7` is `62.99999999999999` in doubles, so the source asks for frame 62 where the model has 63. Below 300 frames the only other cases are 170 and 180 frames, again with k = 7. The proved properties of the index list (starts at 0, strictly increasing, in range, at most ten) hold either way.
- Non-integer delays. The model takes APNG delays as whole milliseconds, while the decoder's `delay` entries are JavaScript numbers and may have a fractional part.
- `parseInt` results that are not safe integers. The model keeps only finite integers and NaN.
- `Math.random()` and `setTimeout`. The jitter is a parameter in [0, 1), and the model records each wait without sleeping.
- Backoff.CallWithBackoff: a response body carrying an `error` key (`index.ts:367`) is thrown by the function itself. The model receives it as a `Failed` outcome of the call.
- Keyframes.PadWithLast: requires a non-empty list. The source would push `undefined` for an empty one. Its only caller passes the ten selected images, so in the source the padding loop never runs.
- Keyframes.TenTenthSecondFrames: proved for a common delay of 100 ms, the delay both a 10-centisecond GIF frame and a defaulted APNG frame get. It is not proved for every common delay.
- Everything else in `index.ts`: Discord events, messages, the OpenAI client and tool dispatch, fetch, JSDOM scraping, MediaWiki search, image caching and the HTTP server. These are I/O around the modelled helpers.
- `types/gif-frames.d.ts`: type declarations only.
