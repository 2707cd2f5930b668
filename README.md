# Church-training app: quiz engine, PCM decoder and textbook renderer in Dafny

This project models the parts of a mobile church-training web application
that hold real logic.

- **The quiz** (`components/Quiz.tsx`). The user walks through a fixed list of
  questions. For each one they pick an option, submit it, and go on. Each
  submission appends one answer record. After the last question a report
  shows the score, a three-tier grade, and a review of the wrong answers,
  each looked up against its question.
- **The podcast audio pipeline** (`App.tsx`). A speech-synthesis payload is
  copied from a binary string into bytes. The bytes are read as signed
  16-bit samples and split into one scaled array per channel.
- **The play/stop toggle** of the podcast list (`App.tsx`).
- **The textbook view** (`App.tsx`). The lesson is picked by id, falling back
  to the first lesson. Its text is split into lines, and each line becomes a
  heading, a bullet, a paragraph or nothing.

Files and modules:

| file | module | models |
|---|---|---|
| common.dfy | `Common` | `Option`, `Result`, `Array.prototype.find` (`FindFirst`) and `filter` (`Filter`) |
| quiz.dfy | `Quiz` | `QuizQuestion` and `UserAnswer` shapes, score, grade, wrong answers, review; class `QuizSession` for the component state |
| pcm.dfy | `Pcm` | `decodeBase64` after `atob`, the `Int16Array` view, scaling, de-interleaving, `decodeAudioData`; class `AudioBuffer` for `createBuffer` |
| podcast.dfy | `Podcast` | class `PodcastPlayer`: `handlePlayPodcast` split at the request's `await`, plus `onended` |
| jsstring.dfy | `JsString` | `trim`, `startsWith`, `indexOf`, `replace` (first occurrence), `split`/`join` on one character |
| textbook.dfy | `Textbook` | lesson lookup with fallback, line classification, rendering of a lesson text |

Modelling choices:

- **Quiz guards.** The quiz handlers have no guards of their own beyond the
  `selectedAnswer === null` check. The rendering supplies the rest:
  - Submit is shown only while the answer is unchecked.
  - Next is shown only once it is checked.
  - Options are disabled after checking.
  - Nothing of the question view is shown once the quiz is finished.

  These guards are the `requires` clauses of `SelectAnswer`, `CheckAnswer` and
  `Next`. `QuizSession.Valid` is the invariant those handlers keep:
  - `|userAnswers| == currentStep + (checked ? 1 : 0)`;
  - record `k` belongs to question `k`;
  - once finished, every question has its record.
- **Grade thresholds** are the constants 9 and 7, as in the code.
- **Audio.** Bytes are read as little-endian 16-bit values. The code uses the
  host byte order of `Int16Array`, so little-endian is an assumption of the
  model. Scaled samples are exact reals `s / 32768`, not 32-bit floats. The
  planar buffer is an `array2<real>`, indexed by channel and then frame.
  `createBuffer` allocates it zero-filled.
- **Decode failures.** The code has no error values of its own; the
  failures are the platform's exceptions, modelled as `DecodeError`:
  - an odd byte length makes `new Int16Array` throw;
  - zero channels, or a frame count of zero, makes `createBuffer` throw.
- **Partial frames.** A sample count not divisible by the channel count is
  not rejected. `frameCount` is a floating-point quotient (App.tsx:28), and
  `createBuffer` truncates it. The loop bound at App.tsx:32 stays
  fractional, and typed-array writes past the end of a channel are ignored.
  So a trailing partial frame is dropped. `FrameCount` models this.
- **Podcast request split.** `handlePlayPodcast` has two `await`s. It is
  split at the request's `await` (App.tsx:50):
  - `Press` covers lines 40-47;
  - `Resume` covers lines 63-81, taking the response as a parameter.
    This includes the decode `await` at App.tsx:69, which resumes with no
    user input in between, so it is modelled as a plain call;
  - `PlaybackEnded` is the `onended` callback.
- **Quiz review lookup.** The lookup of a reviewed answer's question is
  asserted non-null in the code. So `Review` requires that every wrong
  answer's id is found. `RecordedAllFound` proves this always holds for the
  records a session makes.

## Model

| member | source | states |
|---|---|---|
| Common.FindFirst | components/Quiz.tsx:109 | `find` stops at the first element that satisfies the predicate; it finds nothing exactly when no element does |
| Common.Filter | components/Quiz.tsx:48 | `filter` keeps only elements that satisfy the predicate, drawn from the input and never more than it holds |
| Common.FilterAppend | components/Quiz.tsx:62 | filtering preserves order: filtering a concatenation concatenates the filtered parts |
| Common.FilterKeeps | components/Quiz.tsx:62 | every element satisfying the predicate is kept |
| Common.FilterComplement | components/Quiz.tsx:48-62 | a predicate and its negation split a list into parts whose lengths add up to the whole |
| Quiz.Score | components/Quiz.tsx:48 | the score never exceeds the number of records |
| Quiz.ScoreAppend | components/Quiz.tsx:25-35 | appending a record raises the score by 1 exactly when the record is correct |
| Quiz.ScoreCountsCorrect | components/Quiz.tsx:48 | the score equals the number of positions whose record has `isCorrect` |
| Quiz.GradeOf | components/Quiz.tsx:61 | score >= 9 gives the highest tier, 7 <= score < 9 the middle tier, anything lower the lowest, each both ways |
| Quiz.GradeMonotone | components/Quiz.tsx:61 | a higher score never earns a lower tier |
| Quiz.Label | components/Quiz.tsx:61 | each of the three report labels names exactly one tier, so the label shown tells the tier |
| Quiz.WrongAnswers | components/Quiz.tsx:62 | every listed record is incorrect and comes from the answers |
| Quiz.WrongAnswersComplete | components/Quiz.tsx:62 | every incorrect record is listed |
| Quiz.WrongAnswersAppend | components/Quiz.tsx:62 | wrong answers keep recording order |
| Quiz.ScorePlusWrong | components/Quiz.tsx:48-62 | score + number of wrong answers == number of records |
| Quiz.FindQuestion | components/Quiz.tsx:109 | returns the first question with the id, and nothing exactly when no question has it |
| Quiz.Review | components/Quiz.tsx:108-123 | one review item per wrong answer, in order, each paired with the first question carrying that answer's id, as `find` returns it |
| Quiz.RecordedAllFound | components/Quiz.tsx:109 | records made in question order always find their question, so the non-null assertion holds |
| Quiz.ReviewShowsWrongChoice | components/Quiz.tsx:108-120 | with distinct ids, each review shows the question answered: the chosen option exists and is not the correct one |
| Quiz.QuizSession.constructor | components/Quiz.tsx:14-18 | initial state: step 0, no selection, unchecked, no records, not finished |
| Quiz.QuizSession.SelectAnswer | components/Quiz.tsx:186-190 | allowed only before checking and only for an existing option; sets the selection; nothing else changes |
| Quiz.QuizSession.CheckAnswer | components/Quiz.tsx:22-36 | with no selection nothing changes; otherwise: sets checked; appends exactly one record (the question's id, the selection, selection == correct answer); keeps earlier records; the score never drops |
| Quiz.QuizSession.Next | components/Quiz.tsx:38-46 | before the last step: step + 1, selection and checked flag cleared; on the last step: finished, with step and records unchanged; once finished there is one record per question |
| Quiz.QuizSession.FinalReport | components/Quiz.tsx:60-62 | the score is the number of correct records; the grade is its tier; the review lists exactly the wrong answers, in order; score + review count == number of questions |
| Quiz.FinishedRecordsEveryQuestion | components/Quiz.tsx:38-46 | a finished session has one record per question, and record k carries question k's id |
| Pcm.CharCodes | App.tsx:19-23 | byte i is character code i modulo 256; same length as the string |
| Pcm.BinaryString | App.tsx:18 | the binary string of a byte sequence has those bytes as character codes |
| Pcm.BinaryStringOfCharCodes | App.tsx:18-23 | copying the codes of a binary string (all codes below 256) loses nothing |
| Pcm.CharCodesOfBinaryString | App.tsx:18-23 | every byte sequence is the copy of some binary string |
| Pcm.DecodeBase64 | App.tsx:17-24 | a new array whose contents are the character codes of the input |
| Pcm.LittleEndianRoundTrip | App.tsx:27 | a 16-bit value survives conversion to little-endian bytes and back |
| Pcm.LittleEndianBytesRoundTrip | App.tsx:27 | a byte pair survives conversion to a 16-bit value and back |
| Pcm.FromLittleEndian | App.tsx:27 | one `Int16Array` element: congruent modulo 65536 to lo + 256 * hi, and negative exactly when the high byte's top bit is set |
| Pcm.Int16Samples | App.tsx:27 | 2n bytes give n samples; sample k is built from bytes 2k and 2k+1 |
| Pcm.Int16Bytes | App.tsx:27 | the inverse view: n samples give 2n bytes |
| Pcm.SamplesOfBytes | App.tsx:27 | the sample view of a sample sequence's bytes gives the samples back |
| Pcm.BytesOfSamples | App.tsx:27 | the byte image of an even-length byte sequence's samples gives the bytes back |
| Pcm.Scale | App.tsx:33 | every scaled sample v has -1 <= v < 1, and v * 32768 is the sample |
| Pcm.ScaleEndpoints | App.tsx:33 | -32768 maps to exactly -1, 32767 to 32767/32768 (< 1), 0 to 0 |
| Pcm.ScaleAll | App.tsx:33 | element k of the scaled stream is sample k scaled |
| Pcm.Channel | App.tsx:32-33 | one pass of the inner loop: frameCount entries, entry i being sample i * numChannels + c scaled, always in range |
| Pcm.Deinterleave | App.tsx:30-34 | exactly numChannels channels, each with exactly frameCount entries |
| Pcm.InterleaveDeinterleave | App.tsx:30-34 | interleaving the channels gives the scaled stream back, so channel c frame i is sample i*n + c |
| Pcm.MonoDeinterleave | App.tsx:69 | with one channel, the buffer is the scaled samples in their own order |
| Pcm.StereoDeinterleave | App.tsx:30-34 | [L0, R0, L1, R1] becomes channel 0 = [L0, L1] and channel 1 = [R0, R1] |
| Pcm.FrameCount | App.tsx:27-29 | odd byte length, no channels, and zero frames each fail; on success: frames > 0, frames * channels * 2 <= bytes < (frames + 1) * channels * 2, with equality when the samples divide evenly |
| Pcm.AudioBuffer.constructor | App.tsx:29 | a zero-filled buffer of the requested channel count, length and sample rate |
| Pcm.DecodeAudioData | App.tsx:26-37 | fails exactly as FrameCount does; otherwise a fresh buffer whose channels are the de-interleaved, scaled little-endian samples |
| Podcast.PodcastPlayer.constructor | App.tsx:11-12 | nothing is playing and nothing is being generated |
| Podcast.PodcastPlayer.Press | App.tsx:39-47 | pressing the playing episode clears the mark and sends no request; pressing any other marks it and starts generating |
| Podcast.PodcastPlayer.Resume | App.tsx:63-81 | request errors and decode errors clear the mark; no audio keeps it; decoded audio keeps it and yields a 24 kHz mono buffer of the scaled payload samples; generating always ends |
| Podcast.PodcastPlayer.PlaybackEnded | App.tsx:73 | the end of playback clears the mark |
| Podcast.PodcastClip | App.tsx:69 | a non-empty even payload decodes to a single channel holding its samples, in payload order |
| JsString.TrimStart | App.tsx:298 | drops exactly the leading whitespace |
| JsString.TrimEnd | App.tsx:298 | drops exactly the trailing whitespace |
| JsString.Trim | App.tsx:298 | neither end of the result is whitespace; the result is empty exactly when the line is all whitespace |
| JsString.TrimIsMiddle | App.tsx:298 | `trim` returns the line with exactly its leading and trailing whitespace removed: a middle slice whose prefix and suffix are all whitespace |
| JsString.StartsWithIndexOf | App.tsx:298-308 | `startsWith` holds exactly when the search that `indexOf` does finds the prefix at position 0 |
| JsString.StartsWithCharwise | App.tsx:298-308 | `startsWith` holds exactly when the prefix fits and matches the first characters one by one |
| JsString.IndexOf | App.tsx:303-312 | the search that `replace` does at lines 303 and 312 (the code never calls `indexOf` itself): -1, or a position where the pattern occurs |
| JsString.IndexOfIsFirst | App.tsx:303 | no earlier position holds the pattern, and -1 comes back exactly when it occurs nowhere |
| JsString.ReplaceFirst | App.tsx:303-312 | `replace(p, '')` never lengthens the string |
| JsString.ReplaceFirstLength | App.tsx:303-312 | `replace(p, '')` shortens the string by the length of p exactly when p occurs |
| JsString.ReplaceFirstAt | App.tsx:303 | when the first occurrence is at i, `replace(p, '')` cuts out exactly positions i to i + length of p |
| JsString.ReplaceFirstAbsent | App.tsx:303 | with no occurrence, `replace(p, '')` returns the string unchanged |
| JsString.ReplaceFirstCutsAtIndexOf | App.tsx:303 | `replace(p, '')` cuts out the occurrence that `indexOf` finds, and leaves the string alone when there is none |
| JsString.TrimIgnoresLeading | App.tsx:303 | leading whitespace does not change the trimmed text |
| JsString.TrimIgnoresTrailing | App.tsx:303 | trailing whitespace does not change the trimmed text |
| JsString.ReplaceFirstAfterTrim | App.tsx:298-303 | when the trimmed line starts with the marker, removing the line's first marker and trimming equals cutting the marker from the trimmed line and trimming |
| JsString.Split | App.tsx:297 | `split` yields at least one piece, and no piece contains the separator |
| JsString.JoinSplit | App.tsx:297 | joining the pieces with the separator restores the text |
| JsString.SplitJoin | App.tsx:297 | splitting joined separator-free pieces restores the pieces |
| Textbook.CurrentLesson | App.tsx:273 | the first lesson with the selected id; the first lesson when none has it |
| Textbook.ClassifyLine | App.tsx:297-317 | nothing exactly for all-whitespace lines; block text is trimmed; paragraphs are never empty |
| Textbook.ClassifyByTrimmedLine | App.tsx:298-317 | in this order: `##` prefix gives a heading (even if the line has a `-`) with the trimmed rest; `-` prefix gives a bullet with the trimmed rest; blank gives nothing; anything else gives its trimmed text |
| Textbook.Blocks | App.tsx:297-318 | at most one block per line, each with trimmed text |
| Textbook.BlocksAppend | App.tsx:297-318 | blocks follow line order |
| Textbook.RenderTextbook | App.tsx:297-318 | `split('\n').map(...)`: at most one block per line, each with trimmed text |
| Textbook.RenderSingleLine | App.tsx:297-318 | a text without a newline renders as its one classified line, or as nothing when the line is blank |
| Textbook.RenderLineByLine | App.tsx:297-318 | the rendering of two texts joined by a newline is the first's blocks followed by the second's |

## Left out

- All JSX, styling, and layout are left out, as are the progress bar width
  and the percentage formatted with `toFixed` (floating point formatting).
- Page navigation in `Layout.tsx` and the view switch of `App.tsx` are not
  modelled. They only compare the active view.
- The restart button of the quiz report is left out. It calls
  `window.location.reload`, a browser call.
- The closing-feedback fetch of the quiz is left out. It is an
  asynchronous generative-AI call, with its loading state, and
  `geminiService.ts` is not part of this model.
- The speech-synthesis request itself is left out: the prompt text, the SDK
  call, and the voice settings. It is a network call. Its outcome is the
  `SynthesisResponse` parameter of `Resume`. `atob` rejecting the payload
  folds into `RequestFailed`, since it lands in the same `catch`.
- The `console.error` logging in the podcast `catch` (App.tsx:77) is left
  out. It is console output and changes no state.
- `atob` itself is left out, because it is a browser built-in. `DecodeBase64`
  takes its output, a binary string.
- `DecodeBase64` keeps character codes modulo 256. Dafny characters are
  Unicode scalar values, so characters above U+FFFF are not UTF-16 code unit
  pairs as in JavaScript. This never matters, because `atob` output is below 256.
- `JsString` works on Unicode scalar values, not UTF-16 code units. This does
  no harm: every whitespace character `trim` removes, and every marker that
  `startsWith`, `replace` and `split` look for (`##`, `-`, newline), lies in
  the Basic Multilingual Plane. Each of them is one code unit in JavaScript
  and one character here. Only indices can differ, and only on lines with
  characters outside that plane; every resulting string is the same.
- Audio playback is left out: `createBufferSource`, `connect` and `start`
  are platform audio calls. `AudioContext` creation and reuse are left out
  for the same reason.
- IEEE single-precision rounding of `/ 32768.0` and of the `Float32Array`
  store is not modelled. Samples are exact reals.
- Host byte order of `Int16Array` is not modelled. Little-endian is assumed.
- `createBuffer` has implementation limits on the channel count (at least
  32 must be supported) and on the sample rate. These limits are not
  modelled, since they depend on the implementation. Only zero channels and
  zero frames fail.
- `Podcast.PodcastPlayer.Resume`: when a second episode is pressed while a
  request is pending, the pending request and the button interleave. The
  model allows any order of `Press` and `Resume` calls, but it does not track
  which request a response belongs to.
- Question ids are not checked to be distinct, and neither is the
  correct-answer index checked against the options. The source does not
  check either. `ReviewShowsWrongChoice` assumes distinct ids.
