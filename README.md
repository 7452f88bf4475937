# Speech-to-sign core in Dafny

A model of the text-to-sign part of a speech-to-sign-language application.

**The sentence compiler (`SignLanguageCompiler`)** turns a sentence into one video:
- It keeps only the alphanumeric and whitespace characters and splits the result into words.
- It looks each word up as a sign asset under the word's capitalised name. The candidates are `signs_dir/Name.ext`, one for each of `.mp4`, `.jpg`, `.png` and `.gif`.
- A word with no asset is spelled letter by letter. Each letter's asset becomes a clip: a 0.5 s image, or the asset's own video when it is an `.mp4`. A letter with no asset raises an error.
- The collected clips are concatenated and rendered at 30 fps with libx264 and no audio. Then the final video is closed, followed by each collected clip. The letter clips inside a spelled word are not closed one by one.

**The backend's keyword matcher** picks the video URL for a transcript. The first key of a fixed four-entry mapping (in insertion order) that occurs in the text as a substring wins. With no match, the default video is served.

## Files and how the model is built

- `wrappers.dfy`: `Option` and `Result`.
- `pystr.dfy` (module `PyStr`): the Python string builtins the compiler uses, defined over ASCII, with lemmas about them:
  - `isalpha`, `isalnum`, `isspace`, `lower` and `capitalize`;
  - `split()`: `Split(' '.join(ws)) == ws` for non-empty words without whitespace, any non-empty run of whitespace ends a word, and concatenating the words gives the input without its whitespace;
  - `endswith` and the `in` substring test;
  - `os.path.join`, modelled as `posixpath.join`.
- `text_to_sign.dfy` (module `TextToSign`):
  - Specification functions: `Resolve`, `CreateClip`, `Spell`, `WordClip`, `SentenceClips` and `Compile`, with lemmas stating what they promise.
  - The class `SignLanguageCompiler`, whose loop methods are each proved equal to the corresponding specification function: `FindFile`, `SpellWord`, `CompileSentence` with its two loops `CollectClips` and `CloseAll`.
  - The entry point `MainSign`.
- `backend.dfy` (module `Backend`): `SIGN_VIDEO_MAPPING` and `map_text_to_asl_video`.

How the environment is modelled:
- **Filesystem.** It is a parameter `files: set<string>` of the paths that exist, so `os.path.exists(p)` is `p in files`.
- **Extension order.** Python leaves unspecified the order in which the set `{'.mp4', '.jpg', '.png', '.gif'}` is iterated. The model gives each compiler object an arbitrary but fixed order (`extOrder: ExtOrder`, any listing of the four extensions, each exactly once).
  - The order can change which file is shown. `OrderChangesFile` gives an example: with both `Hello.mp4` and `Hello.jpg` present, the extension tried first wins.
  - `CompileOrderFree` proves the order never changes whether a compile fails, or with which error.
- **Clips.** A clip is a value naming what moviepy would decode: `Video(path)`, `Image(path, durationMs)` or `Concat(parts)`. The render is a `RenderRequest` record with the `write_videofile` arguments, and `Compiled.closed` lists, in order, the clips that are closed.
- **Durations.** They are integer milliseconds: 1.0 s is 1000 and 0.5 s is 500.
- **Errors.** The `ValueError`s are `Result` errors: `LetterNotFound(letter)` and `NoValidClips`.

## Model

| member | source | states |
|---|---|---|
| TextToSign.SignLanguageCompiler.constructor | text_to_sign.py:7-9 | the compiler keeps the given asset directory; its extension order lists exactly the four supported extensions |
| TextToSign.ExtOrderMembers | text_to_sign.py:9 | any iteration order of the extension set visits exactly the four supported extensions |
| TextToSign.SignLanguageCompiler.FindFile | text_to_sign.py:11-17 | the loop returns the first existing candidate in the set's order, which is a capitalised-name candidate of some supported extension that exists; it returns None exactly when no supported extension's candidate exists |
| TextToSign.ResolveSpec | text_to_sign.py:11-17 | a found asset is `join(signs_dir, Name + ext)` for a supported ext and exists; nothing is found iff no candidate exists |
| TextToSign.FirstExistingSpec | text_to_sign.py:13-17 | the first extension (in order) whose candidate exists wins; None iff none exists |
| TextToSign.FirstExistingByCapitalize | text_to_sign.py:12-16 | lookup depends on the name only through `name.capitalize()` |
| TextToSign.ResolveIgnoresCase | text_to_sign.py:12 | names equal up to letter case find the same asset |
| TextToSign.HelloResolvesAlike | text_to_sign.py:12-14 | "HELLO", "hello" and "hElLo" find the same asset, and a found one is `signs_dir/Hello.ext` |
| TextToSign.HelloCandidate | text_to_sign.py:12-14 | the candidate for "hello" under "signs/" is `signs/Hello` followed by the extension |
| TextToSign.FirstCandidateWins | text_to_sign.py:13-16 | when the first extension's candidate exists, `find_file` returns it without trying the others |
| TextToSign.HelloVideoFirst | text_to_sign.py:11-17 | with both `Hello.mp4` and `Hello.jpg` present and ".mp4" iterated first, "hello" finds `signs/Hello.mp4` |
| TextToSign.HelloImageFirst | text_to_sign.py:11-17 | with the same files and ".jpg" iterated first, "hello" finds `signs/Hello.jpg` |
| TextToSign.OrderChangesFile | text_to_sign.py:9-16 | two iteration orders of the extension set can find different files for the same word and the same files |
| TextToSign.CreateClip | text_to_sign.py:19-24 | a video clip iff the path ends in ".mp4", else an image of the requested duration; the path is kept |
| TextToSign.CandidateClipKind | text_to_sign.py:19-24 | a candidate of a supported extension opens as a video exactly for ".mp4" |
| TextToSign.ResolvedClipKind | text_to_sign.py:42-45 | a found asset becomes a video exactly when it is the ".mp4" candidate |
| TextToSign.SignLanguageCompiler.SpellWord | text_to_sign.py:26-35 | the letter loop returns exactly what `Spell` specifies |
| TextToSign.LetterClipsOk | text_to_sign.py:28-34 | a successful spelling has one clip per letter, in order: `create_clip(asset, 0.5)` of that letter's own asset, which is a 0.5 s image, or the asset's own video for an `.mp4` |
| TextToSign.LetterClipsErr | text_to_sign.py:29-32 | spelling raises iff some letter has no asset, and then for the first such letter |
| TextToSign.SpellNoLetters | text_to_sign.py:35 | a word without letters spells to None, with no error |
| TextToSign.SpellSpec | text_to_sign.py:26-35 | `spell_word` fails iff a letter has no asset, returns None iff the word has no letters, and otherwise returns the concatenation of the letter clips |
| TextToSign.LetterClipsErrIsLetter | text_to_sign.py:31-32 | spelling only ever raises "Letter not found" |
| TextToSign.Message | text_to_sign.py:32 | the error text is "Letter not found: <letter>" exactly for a missing letter (the other error, line 53, has a different text) |
| TextToSign.SignLanguageCompiler.ClipForWord | text_to_sign.py:42-48 | one word's clip is its own asset's clip, else its spelling |
| TextToSign.WordDropped | text_to_sign.py:42-50 | a word contributes nothing, without error, iff it has no asset and no letters |
| TextToSign.WordClipErrIsLetter | text_to_sign.py:42-48 | a word can only fail with a missing letter |
| TextToSign.SignLanguageCompiler.CollectClips | text_to_sign.py:40-50 | the word loop builds exactly the list `SentenceClips` specifies, or lets its error escape |
| TextToSign.CollectErr | text_to_sign.py:41-50 | the loop fails iff some word fails, and with the first failing word's error |
| TextToSign.CollectNothing | text_to_sign.py:49-50 | nothing is collected, without error, iff every word yields None |
| TextToSign.CollectAll | text_to_sign.py:49-50 | when every word yields a clip, all of them are collected in order |
| TextToSign.CollectAppend | text_to_sign.py:41-50 | collecting two runs of results is collecting the first, then the second, and the first error wins |
| TextToSign.CollectAlike | text_to_sign.py:41-50 | results that fail, drop and keep alike collect with the same failure, the same error and the same number of clips (the clips themselves may differ) |
| TextToSign.SentenceClipsStep | text_to_sign.py:41-50 | one loop iteration: a word's error aborts; otherwise its clip, if any, precedes the rest |
| TextToSign.SentenceClipsAppend | text_to_sign.py:41-50 | the clips of a sentence are those of its first words followed by those of the rest: no reordering, no deduplication |
| TextToSign.WordClipsAppend | text_to_sign.py:41 | the per-word results of a concatenation are the concatenated results |
| TextToSign.DroppedWordContributesNothing | text_to_sign.py:49-50 | inserting a word that yields nothing changes nothing |
| TextToSign.SentenceClipsAllDirect | text_to_sign.py:41-50 | when every word has an asset, there is one clip per word, in word order: `create_clip(asset)`, which is a 1.0 s image, or the asset's own video for an `.mp4` |
| TextToSign.SentenceClipsErr | text_to_sign.py:41-50 | the loop aborts iff some word fails, with the first such word's error |
| TextToSign.SentenceClipsErrIsLetter | text_to_sign.py:41-50 | the loop only ever raises "Letter not found" |
| TextToSign.SentenceClipsNothing | text_to_sign.py:49-52 | the loop yields an empty list, without error, iff every word yields None |
| TextToSign.TokensAlnum | text_to_sign.py:38 | every word is non-empty and wholly alphanumeric |
| TextToSign.SanitizeWithoutSpaces | text_to_sign.py:38 | sanitising, then deleting whitespace, keeps exactly the alphanumeric characters |
| TextToSign.TokensInOrder | text_to_sign.py:38 | the words, concatenated, are exactly the sentence's alphanumeric characters in their original order |
| TextToSign.TokensOfDont | text_to_sign.py:38 | "don't" is the single word "dont" |
| TextToSign.SanitizeJoinWords | text_to_sign.py:38 | sanitising leaves a space-joined list of alphanumeric words unchanged |
| TextToSign.TokensOfJoinWords | text_to_sign.py:38 | tokenising undoes space-joining non-empty alphanumeric words |
| TextToSign.SignLanguageCompiler.CompileSentence | text_to_sign.py:37-65 | the method returns exactly what `Compile` specifies: the render and the closing order, or the raised error |
| TextToSign.SignLanguageCompiler.CloseAll | text_to_sign.py:63-65 | the final video is closed first, then every clip in order |
| TextToSign.CompileRender | text_to_sign.py:52-65 | a successful compile renders the concatenation of the collected clips (never empty) to the output path at 30 fps, libx264, no audio, and closes the final video and then each clip |
| TextToSign.CompileNoValidClips | text_to_sign.py:52-53 | "No valid clips were created" is raised iff every word yields nothing |
| TextToSign.CompileNothing | text_to_sign.py:38-53 | "" and "!!!" raise NoValidClips |
| TextToSign.SpellLetterDigit | text_to_sign.py:26-35 | a word of a letter and a digit with no asset is spelled from its letter alone |
| TextToSign.SentenceClipsLettersAndDigits | text_to_sign.py:41-50 | ["a1", "b2"] with no word assets gives one spelled clip per word |
| TextToSign.CompileLettersAndDigits | text_to_sign.py:37-54 | "a1 b2" renders the spelled clips of a and of b, in order |
| TextToSign.UnspellableWordAborts | text_to_sign.py:28-48 | one word that has no asset and cannot be spelled aborts the whole compile with "Letter not found" |
| TextToSign.LetterClipsOrderFree | text_to_sign.py:26-35 | the order `find_file` tries extensions in (line 13) does not affect whether spelling fails, its error, or its length |
| TextToSign.WordClipOrderFree | text_to_sign.py:42-49 | the extension order does not affect whether a word fails, is dropped or is kept |
| TextToSign.SentenceClipsOrderFree | text_to_sign.py:41-50 | the extension order does not affect whether the loop fails, its error, or how many clips it collects |
| TextToSign.CompileOrderFree | text_to_sign.py:37-53 | the extension order does not affect whether a compile fails, or its error |
| TextToSign.MainSign | text_to_sign.py:67-73 | compiles with "signs/" and "output_sign_language.mp4" and returns that path; fails, with the same error, iff the compile does, whatever the extension order |
| PyStr.Lower | text_to_sign.py:12 | lower-casing keeps the length and maps every character through the ASCII lower-case map |
| PyStr.CapitalizeAt | text_to_sign.py:12 | `capitalize` upper-cases the first character and lower-cases the rest, keeping the length |
| PyStr.CapitalizeIgnoresCase | text_to_sign.py:12 | strings equal up to case capitalise alike |
| PyStr.CapitalizeIdempotent | text_to_sign.py:12 | capitalising twice is capitalising once |
| PyStr.LowerUnchanged | text_to_sign.py:12 | `lower` leaves a string without upper-case letters unchanged |
| PyStr.CapitalizeFirst | text_to_sign.py:12 | a string with no upper-case letter after its first capitalises by upper-casing the first character alone |
| PyStr.Filter | text_to_sign.py:38 | the generator expression keeps only elements satisfying the test |
| PyStr.FilterAppend | text_to_sign.py:38 | filtering distributes over concatenation |
| PyStr.WordLength | text_to_sign.py:38 | a word of `split()` ends at the first whitespace character |
| PyStr.SplitWords | text_to_sign.py:38 | `split()` yields non-empty words free of whitespace and made of the input's characters |
| PyStr.SplitFlatten | text_to_sign.py:38 | the words of `split()`, concatenated, are the input with its whitespace removed |
| PyStr.SplitJoinWords | text_to_sign.py:38 | `split()` undoes joining non-empty words without whitespace with single spaces |
| PyStr.SplitSkipsSpace | text_to_sign.py:38 | leading whitespace, however long, yields no word |
| PyStr.SplitAtSeparator | text_to_sign.py:38 | any non-empty run of whitespace ends a word: the word before it comes out whole, and the run adds nothing |
| PyStr.SplitTabAndDoubleSpace | text_to_sign.py:38 | "a\tb" and "a  b" both split into ["a", "b"] |
| PyStr.PathJoinEnds | text_to_sign.py:14 | `os.path.join(dir, file)` ends with `file`, and starts with `dir` unless `file` is absolute |
| PyStr.PathJoinUnderDir | text_to_sign.py:14 | joining a relative file onto a directory ending in "/" appends it as it is |
| PyStr.ContainsIff | backend.py:66 | `word in text` holds iff some slice of the text equals the word |
| PyStr.NotContainsMissingChar | backend.py:66 | a word with a character absent from the text is not in it |
| Backend.FirstMatchSpec | backend.py:65-67 | the loop returns the video of the first key, in insertion order, contained in the text, or nothing iff no key is contained |
| Backend.FirstMatchWins | backend.py:65-67 | when the key at i is the first contained one, its video is returned |
| Backend.MapTextToAslVideo | backend.py:63-68 | the URL is "/get_video/" followed by the default video or by one of the mapping's videos |
| Backend.DefaultIffNoKey | backend.py:63-68 | "/get_video/default.mp4" is returned iff no key occurs in the text |
| Backend.FirstKeyWins | backend.py:65-67 | the first key in insertion order that occurs decides the video |
| Backend.HelloBeatsYes | backend.py:13-18 | "yes hello" gives hello.mp4, since "hello" precedes "yes" |
| Backend.NoMatchesInsideKnow | backend.py:66 | matching is by substring: "i know" gives no.mp4 |
| Backend.ThankMatchesThanks | backend.py:66 | "thanks" gives thank_you.mp4 |
| Backend.CaseSensitive | backend.py:63-68 | "Hello" matches no key and gives the default video |

## Left out

- Media work is left out: moviepy decoding, `concatenate_videoclips`, the encoder and the files it writes. A clip is a value naming what would be decoded, and the render is a request record. `concatenate_videoclips` is the `Concat` constructor.
- Clip truthiness: `if clip:` is taken to be true for every moviepy clip. Only `None` is falsy. The truth value moviepy gives a clip object is not part of this model.
- `if sign_path:` is modelled as `is not None`. This matches the code because a found path always ends in a non-empty extension, so it is never the empty string.
- Character classes, `lower`, `capitalize` and `split()` are modelled on ASCII, plus the ASCII separators 0x1C–0x1F that Python counts as whitespace. Non-ASCII letters, digits and whitespace are not covered, and neither are Unicode case mappings that change a string's length.
- `posixpath.join` is modelled for two components only, which is the only form the compiler uses.
- `os.path.join` is modelled as the POSIX join. On Windows it is `ntpath.join`. The two agree for the directory `"signs/"` that `main_sign` uses, but differ for a directory ending in a backslash or a file name starting with one, and `ntpath`'s drive letters are not modelled.
- Exceptions while rendering or closing are not modelled: clips left open on an exception path, and errors moviepy raises for unreadable files. A compile aborted by `LetterNotFound` closes nothing.
- `main_sign`'s ten `print(text)` calls and its unused local `sentence` are output and dead code; they are not modelled. The call `main_sign()` with no argument under `__main__` is not modelled either.
- The missing-letter case follows the code. One could read `if clip:` as skipping a word that cannot be spelled, but `spell_word` raises before returning, and `compile_sentence` does not catch the `ValueError`. So the whole compile aborts (see `UnspellableWordAborts`).
- Not modelled from backend.py:
  - the FastAPI app, the `/ws` WebSocket loop and its connection set;
  - `transcribe_audio` (Whisper inference and a temporary file);
  - the `/get_video/{filename}` file route.

  These are network, I/O and model inference. Only the pure `map_text_to_asl_video` and its mapping are modelled.
- app.py and speech_to_text.py (the UI and the microphone capture) are not part of this model.
- Backend.MapTextToAslVideo: its own ensures only bounds the URL's shape. The exact choice (first key wins, default iff no key) is stated by `FirstKeyWins` and `DefaultIffNoKey`.
- TextToSign.SentenceClipsOrderFree, TextToSign.CompileOrderFree: under a different extension order, a word's asset may be a different file (say `Hello.jpg` instead of `Hello.mp4`). So these lemmas state agreement of failure, error and clip count, not equality of the clips.
