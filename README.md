# whatsapp-to-mp3: the classifier and the session controller, in Dafny

whatsapp-to-mp3 is a single-page browser tool. A user picks or drops an audio file, usually
a messaging-app voice note in an OPUS, OGG or M4A container, and clicks *Convert*. The page
loads an in-browser FFmpeg engine, converts the file to MP3, and offers the result for
playback and for download. All of the page's logic lives in `main.js`. This project models
that logic and proves properties of it.

- `Wrappers`: `Option`, which stands for JavaScript's `null`.
- `JsString`: the string built-ins `main.js` uses, over `seq<char>`. These are `toLowerCase`
  (ASCII letters only), `endsWith`, `includes`, `trim` (over ECMAScript's whitespace set)
  and `split(".").pop()` (the text after the last dot, found with the helper
  `LastIndexOf`). The two `replace` calls of `safeBaseName` are regular expressions, and
  `Classifier` models them.
- `Classifier`: three pure helpers. `isProbablyWhatsAppVoice` is a predicate on a file's
  name and declared type. `inferInputExt` picks the staging extension for the engine.
  `safeBaseName` builds the download's base name: the regular expression `/\.[^/.]+$/` is
  `StripLastExt`, and the character class `/[^\w\- ]+/g` is `Sanitize`.
- `Controller`: the page state that `setSelected` and the convert button's click handler
  update.
  - `SessionState` is a value record of that state, and `Select`, `Attempt` and
    `ConvertStep` are the specification functions over it.
  - `Run` folds a sequence of user actions over that state.
  - `Session` is a class holding the same fields. Its methods `SetSelected` and `Convert`
    (with their helpers) update the fields in place, and each is proved to produce the
    state its specification function gives.

Object URLs are opaque tokens drawn from a counter. The set of URLs that were created and not
yet revoked is kept beside the page state. The results of the engine's foreign calls are
inputs: `loadOk` says whether `load` succeeds, and an `Outcome` says how
write/exec/read ends.

Three behaviours of `main.js` deserve a note. The model keeps each of them as written:

- A failed engine load is never retried. `ensureFFmpeg` stores `new FFmpeg()` in the
  global at line 136, before `load` runs at line 146. When `load` throws, the unloaded
  instance stays cached, and the `if (ffmpeg) return ffmpeg` of line 134 hands it to every
  later click. The model assumes the engine library rejects calls on an instance that was
  never loaded; the library is not part of this model. `FirstLoadFailure` and
  `FailedLoadIsPermanent` state the consequence.
- A second conversion leaks the first result's object URL. Line 197 overwrites
  `lastObjectUrl` without revoking the URL it held. Only `setSelected` revokes (lines
  79-82), and its comment at line 78 shows that the previous preview was meant to be
  cleared. So converting the same selection twice leaves a URL live that nothing refers
  to. `SecondConversionLeaks`, `LeakedStaysLeaked` and `TwoConversionsLeaveTwoLiveUrls`
  state this.
- `inferInputExt` treats a name as having no extension only when the trimmed candidate is
  empty or equals the whole name (`ext === name`, line 53). So a dotless name whose
  non-blank text has whitespace around it is taken as its own extension, and the declared
  type is ignored (`InferPaddedName`). An all-blank name still trims to `""` and falls back
  to the type.

## Model

| member | source | states |
|---|---|---|
| JsString.LowerChar | main.js:32-33 | an ASCII capital becomes the letter 32 code points above it, its small letter; every other character is kept |
| JsString.ToLowerCase | main.js:32-33 | lower-casing keeps the length and maps each character by `LowerChar`: ASCII capitals to their small letters, everything else unchanged |
| JsString.LowerCaseHasNoUpper | main.js:32-33 | a lower-cased string contains no ASCII capital |
| JsString.LowerCaseOfLower | main.js:47-48 | lower-casing a string without capitals changes nothing |
| JsString.LowerCaseIdempotent | main.js:47-48 | lower-casing twice is lower-casing once |
| JsString.LowerCaseConcat | main.js:47-48 | lower-casing distributes over concatenation |
| JsString.EndsWith | main.js:35 | definition of `endsWith`: the string ends with the suffix; `EndsWithInLowerIff` states its case-insensitive use |
| JsString.Includes | main.js:37-41 | definition of `includes` as a scan from the left; `IncludesIffOccurs` states what it finds |
| JsString.OccursImpliesIncludes | main.js:37-41 | `includes` finds every occurrence of the substring |
| JsString.IncludesImpliesOccurs | main.js:37-41 | what `includes` finds is an occurrence at some index |
| JsString.IncludesIffOccurs | main.js:37-41 | `includes(s, w)` holds exactly when `w` occurs at some index of `s` |
| JsString.LeadingWhiteSpace | main.js:50 | counts exactly the whitespace run at the start of the string |
| JsString.TrailingWhiteSpace | main.js:50 | counts exactly the whitespace run at the end of the string |
| JsString.Trim | main.js:50 | definition of `trim`: drop the leading, then the trailing whitespace run; `TrimSpec` states its meaning |
| JsString.TrimSpec | main.js:50 | `trim` gives a slice with only whitespace outside it; the slice neither starts nor ends with whitespace, and all its characters come from the input |
| JsString.TrimOfTrimmed | main.js:157 | a string with no whitespace at either end is left unchanged by `trim` |
| JsString.TrimIdempotent | main.js:157 | trimming twice is trimming once |
| JsString.LastIndexOf | main.js:50 | gives -1 or the index of a `c`, and no `c` follows that index |
| JsString.AfterLastDot | main.js:50 | definition of `split(".").pop()` as the text after the last dot; `AfterLastDotHasNoDot` and `AfterLastDotOfDotted` state its meaning |
| JsString.AfterLastDotHasNoDot | main.js:50 | `split(".").pop()` never contains a dot |
| JsString.AfterLastDotOfDotted | main.js:50 | for `p + "." + e` with a dotless `e`, the last dot is the one after `p` and `pop()` gives `e` |
| Classifier.OccursInLowerIff | main.js:32-41 | for a lower-case word, an occurrence in the lower-cased string is a case-insensitive match |
| Classifier.IncludesInLowerIff | main.js:37-41 | `includes` on the lower-cased type holds exactly when the word occurs ignoring case |
| Classifier.EndsWithInLowerIff | main.js:35 | `endsWith` on the lower-cased name holds exactly when the name ends with the suffix ignoring case |
| Classifier.IsProbablyWhatsAppVoice | main.js:31-44 | definition of the heuristic over the lower-cased name and type; `VoiceHeuristicExactly` states its meaning |
| Classifier.VoiceHeuristicExactly | main.js:31-44 | a file is a probable voice note exactly when its name ends with `.opus`, `.ogg` or `.m4a`, or its type contains `ogg`, `opus`, `mp4`, `aac` or `audio`, all ignoring case |
| Classifier.VoiceBySuffixExample | main.js:35 | `Voice.M4A` is judged a voice note whatever its type |
| Classifier.VoiceByTypeExample | main.js:36-41 | any file typed `video/MP4` is judged a voice note: the type test accepts any `mp4`, video included |
| Classifier.NotVoiceExample | main.js:31-44 | `notes.txt` with an empty type is not judged a voice note |
| Classifier.NameExt | main.js:50 | the trimmed text after the last dot contains no dot |
| Classifier.LacksNameExt | main.js:53 | definition of the test "the candidate is empty or is the whole name"; `InferDotlessName` and `InferPaddedName` state when it holds |
| Classifier.MimeExt | main.js:54-58 | the type-derived extension is one of `ogg`, `opus`, `m4a`, `aac`, `audio` |
| Classifier.NormalizeExt | main.js:62-63 | `oga` becomes `ogg`, `mp4` becomes `m4a`, and every other extension is kept; neither `oga` nor `mp4` is ever returned |
| Classifier.Whitelisted | main.js:62-67 | definition of normalising and then whitelisting a candidate; `InferFromName` and `InferDottedName` state its use |
| Classifier.InferInputExt | main.js:46-70 | the staging extension is always one of the whitelisted seven |
| Classifier.InferFromMimeType | main.js:52-59 | with no usable name extension, the type decides in the order ogg, opus, mp4 (as m4a), aac, else `audio` |
| Classifier.InferFromName | main.js:50-53 | with a name extension, the result is the normalised, whitelisted extension, whatever the declared type |
| Classifier.InferIgnoresCase | main.js:47-48 | files whose names and types agree ignoring case get the same extension |
| Classifier.AllowedExtsArePlain | main.js:66 | every whitelisted extension is a non-empty word of lower-case letters and digits, which normalisation leaves unchanged |
| Classifier.NameExtOfDotted | main.js:50 | the name extension of `p + "." + e`, for a plain `e`, is `e` |
| Classifier.ClassifyStagingName | main.js:171-172 | the staging name `input.<ext>` is classified back as `<ext>` whatever its type |
| Classifier.StagingNameRoundTrip | main.js:171-172 | classifying a file's staging name reproduces the file's own extension |
| Classifier.InferNormalisesOgaExample | main.js:62 | `VOICE.OGA` maps to `ogg` |
| Classifier.InferNormalisesMp4Example | main.js:63 | `clip.Mp4` maps to `m4a` |
| Classifier.InferDottedName | main.js:50-67 | a name `p.e`, where `e` lower-cases to an extension word, gets `e` normalised and whitelisted, whatever `p` and the type |
| Classifier.InferNormalisesDotted | main.js:47-63 | a name ending in `.oga` or `.mp4`, in any case, gets `ogg` or `m4a` respectively, whatever precedes the dot and whatever the type |
| Classifier.InferUnknownExample | main.js:66-67 | `clip.xyz` maps to `audio`, whatever the type |
| Classifier.InferEmptyExample | main.js:53-58 | an empty name with an empty type maps to `audio` |
| Classifier.InferDotlessName | main.js:50-53 | a dotless name without surrounding whitespace falls back to the type, exactly as an absent name does |
| Classifier.InferWithoutNameExt | main.js:53-59 | with no name extension the name plays no part: the result equals that of a nameless file with the same type |
| Classifier.InferPaddedName | main.js:50-53 | a dotless name with a leading space counts as its own extension, so the type is ignored |
| Classifier.MimeFallbackAgreesWithHeuristic | main.js:31-59 | with no name extension, a file the voice heuristic rejects gets `audio` |
| Classifier.StripLastExt | main.js:156 | the result is the input, or a prefix that a dot-led extension of dotless, slash-free text completes |
| Classifier.StripLastExtIffMatch | main.js:156 | the extension is removed exactly when the name ends in `.` followed by at least one character that is neither `.` nor `/` |
| Classifier.StripLastExtWithoutDot | main.js:156 | a dotless name is kept whole |
| Classifier.StripLastExtOfDotted | main.js:156 | `p + "." + e`, for a non-empty `e` free of dots and slashes, becomes `p` |
| Classifier.Sanitize | main.js:157 | sanitising never lengthens; it leaves only word characters, `-` and spaces, and keeps a clean string unchanged |
| Classifier.SanitizeConcat | main.js:157 | the global replace acts on each piece of a concatenation separately |
| Classifier.SanitizeDropsOne | main.js:157 | a disallowed character between clean pieces is simply removed |
| Classifier.FallbackNameIsClean | main.js:157 | `voice-note` is a clean base name |
| Classifier.TrimmedNameIsClean | main.js:157 | trimming a sanitised name keeps it clean and leaves no space at either end |
| Classifier.SafeBaseName | main.js:155-158 | the base name is non-empty, consists of word characters, `-` and spaces, and neither starts nor ends with a space |
| Classifier.SafeBaseNameOfClean | main.js:155-158 | a clean name without surrounding spaces is its own base name |
| Classifier.SafeBaseNameIdempotent | main.js:155-158 | deriving a base name from a base name changes nothing |
| Classifier.SafeBaseNameExample | main.js:155-158 | `My Voice! Note.m4a` becomes `My Voice Note` |
| Classifier.SafeBaseNameFallbackExample | main.js:157 | `####.opus` becomes `voice-note` |
| Classifier.SafeBaseNameEmptyExample | main.js:156 | an empty filename becomes `voice-note` |
| Classifier.SafeBaseNameInnerDotExample | main.js:156-157 | `a.b.c` loses only its last extension and then its inner dot, becoming `ab` |
| Controller.ClampPercent | main.js:139 | the bar width is within [0, 100], equals the input inside that range, and is 0 or 100 outside it |
| Controller.ClampMonotone | main.js:139 | more progress never shows as a narrower bar |
| Controller.DownloadLink.FileName | main.js:201 | definition of the `download` attribute, `safeBaseName(name) + ".mp3"`; `DownloadLinkIsClean` states its shape |
| Controller.EnsureEngine | main.js:133-153 | a cached instance is kept as it is; otherwise one is stored, loaded exactly when `load` succeeds |
| Controller.EngineReturns | main.js:133-153 | definition of when `ensureFFmpeg` returns: a cached instance, or a successful `load`; `Session.EnsureFFmpeg` is proved against it |
| Controller.Initial | main.js:16-18 | definition of the page before any event: the three globals `null`, the button disabled, nothing live; `InvInitial` states that it is valid |
| Controller.Select | main.js:72-85 | sets the file; disables the button exactly when there is none; clears the URL, the player, the panel and the bar; revokes the last URL and no other; the engine, the download link and the URL counter stay as they were |
| Controller.Attempt | main.js:166-209 | definition of the `try` block and its `catch`; `ConvertStep`'s contract states its outcomes |
| Controller.ConvertStep | main.js:160-213 | without a file nothing changes. Otherwise the file is kept and the button ends enabled. A success puts one fresh URL in `lastObjectUrl`, the player and the download link, registers it as live, and shows the bar at 100. A failure leaves the URL, the player, the link and the live set as they were, and the panel hidden |
| Controller.InvInitial | main.js:16-18 | the initial page satisfies the session invariant |
| Controller.StepKeepsInv | main.js:72-213 | each action keeps the invariant, and a new URL is never one already live |
| Controller.RunKeepsInv | main.js:72-213 | every sequence of actions keeps the invariant |
| Controller.ReachableStatesAreValid | main.js:74 | in every reachable state the button is disabled exactly when no file is selected |
| Controller.SecondConversionLeaks | main.js:196-197 | a successful click over an existing result leaks exactly that result's URL |
| Controller.LeakedStaysLeaked | main.js:79-82 | no later action revokes a leaked URL |
| Controller.TwoConversionsLeaveTwoLiveUrls | main.js:196-197 | two back-to-back successful conversions leave two live URLs, one of them leaked |
| Controller.EngineIsSettled | main.js:134 | once an instance is stored, no action replaces it |
| Controller.FailedLoadIsPermanent | main.js:134-149 | after a failed load, no later click creates an object URL |
| Controller.FirstLoadFailure | main.js:136-149 | a failed first load caches an unloaded instance, and a retry with a working network still cannot succeed |
| Controller.DownloadLinkIsClean | main.js:201 | a successful click's download name is a non-empty clean base name followed by `.mp3` |
| Controller.Session.constructor | main.js:16-18 | the page starts in the initial state, which satisfies the invariant |
| Controller.Session.ResetUI | main.js:25-29 | hides the panel, empties the bar, and changes nothing else |
| Controller.Session.OnProgress | main.js:138-141 | sets the bar to the clamped percentage and changes nothing else |
| Controller.Session.CreateObjectUrl | main.js:196 | hands out the next token and registers it as live |
| Controller.Session.RevokeObjectUrl | main.js:80 | removes the URL from the live set and changes nothing else |
| Controller.Session.SetSelected | main.js:72-85 | updates the fields to `Select` of the old state and keeps the invariant |
| Controller.Session.EnsureFFmpeg | main.js:133-153 | returns without throwing exactly when an instance was cached or `load` succeeds; the engine field becomes `EnsureEngine` of the old one |
| Controller.Session.PresentResult | main.js:197-204 | points the last URL, the player and the link at the new URL, shows the panel, and fills the bar |
| Controller.Session.TryConvert | main.js:166-209 | reports success exactly when the engine ends loaded and the conversion produces output; the new state is `Attempt` of the old one |
| Controller.Session.Convert | main.js:160-213 | reports success as `Succeeds`; the new state is `ConvertStep` of the old one, and the invariant is kept |

## Left out

- Logging: `log`, the log element, `console.error`, and the log clearing in `resetUI` are not modelled. The messages carry no state that any routine reads.
- The advisory and iPhone hints in `setSelected` (main.js:87-98) only write log text, so they are left out. The advisory's test is `IsProbablyWhatsAppVoice`, which is modelled. The iPhone hint's own extra test at main.js:95, a name ending in `.m4a` or a type containing `mp4`, is not modelled.
- The file-input `change` listener and the drag-and-drop listeners (main.js:101-131) are left out. They only pass the first file, or `null`, to `setSelected`; the model's `Choose` event is that call. The `dragover` styling is not modelled.
- The FFmpeg engine is foreign code: `load`, `toBlobURL`, `fetchFile`, `writeFile`, `exec`, `readFile` and the `new Blob`. Their results enter as the `loadOk` and `Outcome` parameters.
- The quality selector (main.js:169) is left out, because its value is only passed to `exec`.
- Object URLs are opaque counter tokens. Blob contents and browser memory are not modelled.
- Progress values are the already-rounded integers `Math.round(progress * 100)`. Floating point, rounding and `NaN` are not modelled.
- Progress events during a successful conversion are not modelled: line 204 overwrites the bar with 100. On failure only the last event matters, and `Outcome.Failed` carries it.
- Concurrency: the click handler runs to completion as one step. A file chosen while a conversion is awaiting is not modelled, and neither is a second handler run. The button's in-flight `disabled = true` is visible only inside `Session.Convert`.
- `toLowerCase` is modelled for ASCII letters only. Unicode case mapping is not modelled.
- A file's name and type are always strings. A missing property is the empty string, which `file?.name || ""` yields too.
- The page markup (index.html) is not part of this model. The button is taken to start disabled.
- `Controller.DownloadLink` keeps the source file rather than the `download` string. `FileName()` computes that string.
- The file size shown in the log (`Math.round(size / 1024)`) is not modelled.
