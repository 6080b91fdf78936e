# TechSkyline site logic in Dafny

A functional model of the logic inside the TechSkyline internship site's React components,
with proofs about it. It has three parts:

- **Career coach** (`components/CareerCoach.tsx`)
  - The milestone extractor turns `[SKILL: name]` tags in a model answer into chips. It removes the tags from the displayed text.
  - The tracked-skill list grows when a chip is clicked and shrinks when a trash button is clicked.
  - The conversation transcript gets a user turn and a model turn when a question is sent. The streamed answer is folded into the model turn.
- **Intern dashboard** (`components/Dashboard.tsx`)
  - A checklist of twelve task keys over three tracks.
  - The rounded completion percentage.
  - The certificate button, which unlocks at 80%.
  - The label shown for each task key.
- **Cloud-lab launcher** (`components/LiveLabs.tsx`)
  - A state machine with three states: idle, loading and active.
  - A 400 ms interval advances the boot progress by 10 per firing and brings the lab online once it has seen 100.
  - A terminal log is kept. Each log line is a `LogLine` value named by what wrote it; `LiveLabs.Text` spells out the exact text the component writes.
  - The screen shown depends on the state.
  - The memory figure in the session header is derived from the lab's `specs` text.

Modules:

- `Strings` holds JavaScript's `trim`, `split` and `join` for one-character separators. Whitespace is JavaScript's WhiteSpace and LineTerminator set, the same set `\s` matches.
- `SkillTags` holds the regular expression `/\[SKILL:\s*([^\]]+)\]/g`. It is modelled as the unique cut of the text into kept characters and matched tags. Its results are:
  - the `exec` loop's trimmed captures
  - the `replace(...).trim()` text
- `SkillRegistry` holds `handleAddSkill` and `handleRemoveSkill`.
- `Transcript` holds `handleSend` run over the fragments the guidance stream delivers. It also holds which fragments the guidance service passes on.
- `Dashboard` holds the checklist, the percentage, the certificate gate and the task labels.
- `LiveLabs` holds the launcher as a step function over three events:
  - start pressed
  - an interval firing
  - terminate pressed

Two behaviours of the code are worth stating plainly:

- The displayed text can still hold a tag (`SkillTags.CleanTextMayHoldTag`). Deleting a matched span can join its neighbours into a new tag.
- Removing a skill filters out every occurrence of it (`SkillRegistry.Remove`).

## Model

| member | source | states |
|---|---|---|
| Strings.Trim | components/CareerCoach.tsx:72 | `trim` gives text with no whitespace at either end, obtained from the input by removing only whitespace on both sides |
| Strings.TrimOfPadded | components/CareerCoach.tsx:75 | whatever trimmed text sits between two runs of whitespace is exactly what `trim` returns, so the characterisation in `Trim`'s contract determines it |
| Strings.TrimIdempotent | components/CareerCoach.tsx:75 | trimming twice is trimming once |
| Strings.Split | components/LiveLabs.tsx:113 | `split` returns at least one piece and no piece contains the separator |
| Strings.JoinSplit | components/Dashboard.tsx:77 | joining the pieces of a split with the same separator gives the original text back |
| Strings.SplitJoin | components/Dashboard.tsx:77 | splitting the join of a non-empty list of separator-free pieces, empty ones included, gives the pieces back |
| Strings.SplitTail | components/Dashboard.tsx:77 | dropping the first piece of a split (`slice(1)`) is splitting the text after the first separator |
| SkillTags.TagAtExact | components/CareerCoach.tsx:68 | a match starts at a position exactly when `[SKILL:`, a non-empty `]`-free body and the first following `]` are there |
| SkillTags.TagAt | components/CareerCoach.tsx:68 | a body is returned exactly when the text begins with `[SKILL:`, a non-empty `]`-free body and `]`, and it is then the only body that fits |
| SkillTags.Capture | components/CareerCoach.tsx:68-72 | capture group 1 is a non-empty suffix of the body, all it skipped is whitespace, and it starts with non-whitespace unless only the last character is left, as the greedy `\s*` requires |
| SkillTags.Parse | components/CareerCoach.tsx:68-73 | the scan cuts the text into kept characters and matched tags that reassemble into the text, with no kept character starting a match |
| SkillTags.ParseUnique | components/CareerCoach.tsx:68-73 | that cut is unique: any valid cut of a text is the scan's cut, so leftmost matching with resume-after-match and step-by-one on failure is fully determined |
| SkillTags.CaptureTrim | components/CareerCoach.tsx:72 | the capture group of `\s*([^\]]+)` (greedy whitespace that leaves at least one character), once trimmed, equals the trimmed body |
| SkillTags.Scan | components/CareerCoach.tsx:69-75 | over a valid cut, the names are the trimmed tag bodies in order, one per tag, and the kept text is exactly the non-tag characters |
| SkillTags.Extract | components/CareerCoach.tsx:68-75 | every extracted name and the displayed text have no whitespace at either end, and the displayed text is no longer than the input |
| SkillTags.ExtractMeaning | components/CareerCoach.tsx:68-75 | for the text's valid cut, the chips are the trimmed tag bodies left to right, their number equals the number of deleted spans, and the displayed text is the kept characters trimmed |
| SkillTags.NoChipsIffNoMatch | components/CareerCoach.tsx:68-75 | no chips appear if and only if the pattern matches at no position, and then the displayed text is the whole text trimmed |
| SkillTags.DuplicateTagsBothExtracted | components/CareerCoach.tsx:71-73 | two identical tags yield the name twice: the extractor keeps duplicates |
| SkillTags.CleanTextMayHoldTag | components/CareerCoach.tsx:75 | deleting a matched span can join its neighbours into a new tag, so the displayed text can still match the pattern |
| SkillTags.RenderMessageContent | components/CareerCoach.tsx:65-75 | user turns are shown verbatim; a model turn is annotated with the trimmed tag bodies of its text's unique valid cut as chips and, as the displayed text, that cut's kept characters trimmed |
| SkillRegistry.Add | components/CareerCoach.tsx:30-34 | the list gains the skill at the end if and only if it was absent, keeps its old entries as a prefix, and stays duplicate-free |
| SkillRegistry.AddIdempotent | components/CareerCoach.tsx:30-34 | adding the same skill twice is adding it once |
| SkillRegistry.Remove | components/CareerCoach.tsx:36-38 | every occurrence of the skill is gone and every other name keeps its multiplicity |
| SkillRegistry.RemoveConcat | components/CareerCoach.tsx:37 | removal distributes over concatenation, so the kept names stay in their original relative order |
| SkillRegistry.RemoveUnique | components/CareerCoach.tsx:37 | in a duplicate-free list, removal takes out exactly the one slot holding the name |
| SkillRegistry.RemoveKeepsNoDuplicates | components/CareerCoach.tsx:37 | removal keeps a duplicate-free list duplicate-free |
| SkillRegistry.RemoveUndoesAdd | components/CareerCoach.tsx:30-38 | adding an absent skill then removing it gives the original list |
| SkillRegistry.RemoveThenAddMovesToEnd | components/CareerCoach.tsx:30-38 | removing a skill and adding it again leaves it as the last entry |
| SkillRegistry.AddTwiceSingleEntry | components/CareerCoach.tsx:30-34 | clicking a new chip twice leaves exactly one entry for it |
| Transcript.CanSend | components/CareerCoach.tsx:41 | a question can go out exactly when no answer is streaming and the input holds a non-whitespace character |
| Transcript.Send | components/CareerCoach.tsx:41-49 | a blank input or a send while loading changes nothing; otherwise the user turn with the trimmed text and an empty model turn are appended, the input is cleared and loading starts |
| Transcript.ShowAccumulated | components/CareerCoach.tsx:53-59 | a fragment update rewrites the last turn's text to the accumulated text if that turn is the model's, and otherwise leaves the transcript unchanged |
| Transcript.ConcatAppend | components/CareerCoach.tsx:52 | accumulating fragments in two batches gives the same text as accumulating them at once |
| Transcript.Stream | components/CareerCoach.tsx:48-60 | after all fragments arrive, the earlier turns are unchanged and the last turn is the model's, holding the fragments concatenated in order |
| Transcript.Exchange | components/CareerCoach.tsx:40-63 | a completed send grows the transcript by exactly the trimmed question and one model turn holding all fragments, with the input cleared and loading ended; an ignored send changes nothing |
| Transcript.Delivered | services/geminiService.ts:38-44 | every fragment passed on is non-empty, and a failed stream ends with the fixed fallback text |
| Transcript.DeliveredText | services/geminiService.ts:38-44 | skipping missing and empty chunks does not change the accumulated answer: it is every chunk's text in order, then the fallback on failure |
| Transcript.InitialChatIdle | components/CareerCoach.tsx:7-11 | the chat opens with the single welcome turn from the model and nothing can be sent yet |
| Dashboard.Completed | components/Dashboard.tsx:43 | the completed count is at most the number of stored keys and is zero exactly when no stored flag is true; `ToggleCount` gives how it moves |
| Dashboard.Toggle | components/Dashboard.tsx:21-22 | the key's truthiness flips, an absent key counting as false, and every other key's truthiness is unchanged |
| Dashboard.ToggleCount | components/Dashboard.tsx:22-43 | a toggle changes the completed count by exactly one, up when ticking and down when unticking |
| Dashboard.ToggleTwice | components/Dashboard.tsx:22-43 | toggling a key twice restores every key's truthiness and the completed count |
| Dashboard.TotalTasks | components/Dashboard.tsx:42 | the total is zero exactly when every track's task list is empty; `TotalIsTaskCount` gives its value |
| Dashboard.TotalIsTaskCount | components/Dashboard.tsx:42 | the reduced total equals the number of listed task keys |
| Dashboard.TotalIsTwelve | components/Dashboard.tsx:27-42 | the three tracks hold twelve tasks |
| Dashboard.Percent | components/Dashboard.tsx:44 | the percentage r satisfies r - 1/2 <= 100 * completed / total < r + 1/2, which is `Math.round` with halves rounded up |
| Dashboard.PercentIsNearest | components/Dashboard.tsx:44 | no other whole percentage is closer to the exact ratio |
| Dashboard.NoTie | components/Dashboard.tsx:44 | with twelve tasks `100 * c mod 12` is 0, 4 or 8, so the exact ratio is never halfway between two percentages |
| Dashboard.PercentMonotone | components/Dashboard.tsx:43-44 | more completed tasks never show a smaller percentage |
| Dashboard.PercentBounded | components/Dashboard.tsx:42-44 | when only task keys are ticked, at most twelve are completed and the percentage is at most 100 |
| Dashboard.ToggleKeepsTaskKeys | components/Dashboard.tsx:65-71 | ticking the listed checkboxes keeps every ticked key a task key |
| Dashboard.Certificate | components/Dashboard.tsx:104-113 | the button is enabled if and only if the percentage is at least 80, and its caption says so |
| Dashboard.CertificateNeedsTen | components/Dashboard.tsx:44-113 | with twelve tasks the certificate unlocks if and only if at least ten tasks are completed |
| Dashboard.UpperFirst | components/Dashboard.tsx:77 | only the first character of a word changes, to its upper case, and the length is kept |
| Dashboard.Capitalize | components/Dashboard.tsx:77 | the `.map` keeps the number of words and replaces each word, in place, by its form with the first character upper-cased |
| Dashboard.Label | components/Dashboard.tsx:77 | the label is the text after the first `_` with each later `_` turned into a space and each word's first character upper-cased, and it is empty for a key without `_` |
| Dashboard.LabelRespells | components/Dashboard.tsx:77 | the split, capitalise and join expression is the text after the first `_` with each later `_` turned into a space and each word's first character upper-cased, and it is empty for a key without `_` |
| Dashboard.LabelShape | components/Dashboard.tsx:77 | a label is as long as the key after its first `_` and holds no `_` |
| Dashboard.LabelExample | components/Dashboard.tsx:77 | `ai_ml_fundamentals` is shown as `Ml Fundamentals` |
| LiveLabs.StartLab | components/LiveLabs.tsx:59-67 | the lab becomes active and loading, progress restarts at 0, the log holds three lines naming the lab and its instance type, and a new interval is added to those already running |
| LiveLabs.Fire | components/LiveLabs.tsx:69-88 | below 100 a firing adds 10; at 100 or more it keeps 100, activates and stops its own interval; either way the log only grows and gains one boot message |
| LiveLabs.CloseLab | components/LiveLabs.tsx:91-95 | closing goes idle with no lab and an empty log, leaving the progress and the running intervals untouched |
| LiveLabs.ViewOf | components/LiveLabs.tsx:97-240 | the session is shown exactly when active with a lab, the boot screen exactly when loading with a lab, the catalogue otherwise |
| LiveLabs.Enabled | components/LiveLabs.tsx:117-300 | in reachable states a lab can be started exactly when idle (the catalogue's launch button), terminated exactly when active (the session's button), and an interval fires only while loading |
| LiveLabs.Step | components/LiveLabs.tsx:59-95 | a start always begins a boot at 0%, and in reachable states the launcher returns to idle exactly on terminate |
| LiveLabs.InitialInv | components/LiveLabs.tsx:15-18 | the launcher starts in a reachable state showing the catalogue |
| LiveLabs.StepKeepsInv | components/LiveLabs.tsx:59-95 | every enabled event keeps progress a multiple of 10 in 0..100, keeps an idle launcher empty, keeps a loading one with its own interval and one log line per 10%, and keeps an active one at 100% with no interval |
| LiveLabs.ViewFollowsStatus | components/LiveLabs.tsx:97-240 | in reachable states the screen shown is determined by the status alone |
| LiveLabs.CloseLeavesNothingRunning | components/LiveLabs.tsx:91-95 | from a reachable state showing the session, closing leaves no interval running and afterwards only a lab start is enabled |
| LiveLabs.AtMostOneInterval | components/LiveLabs.tsx:69-72 | at most one boot interval runs at any time |
| LiveLabs.LogGrowsWhileLoading | components/LiveLabs.tsx:80-87 | while loading, every event appends to the log and never changes earlier lines |
| LiveLabs.RunWhileLoading | components/LiveLabs.tsx:70-87 | below 100%, each firing adds 10% and exactly its chosen boot message |
| LiveLabs.ActivatesAtHundred | components/LiveLabs.tsx:71-75 | the firing that sees 100% activates the lab, stops the interval and logs the two online lines and one boot message, in either order |
| LiveLabs.RunAppend | components/LiveLabs.tsx:69-88 | firing in two batches is firing once |
| LiveLabs.BootTakesElevenFirings | components/LiveLabs.tsx:59-88 | started from the catalogue, ten firings reach 100% while still booting and the eleventh brings the lab online with sixteen log lines |
| LiveLabs.MemoryLabel | components/LiveLabs.tsx:113 | the figure is the whole specs text or a non-empty text with no whitespace at either end |
| LiveLabs.MemoryLabelMeaning | components/LiveLabs.tsx:113 | the figure is the trimmed text between the first and second `/` when that text is not blank, and the whole specs text otherwise |
| LiveLabs.MemoryLabelOfPair | components/LiveLabs.tsx:113 | specs of the form `size / memory` show the memory part |
| LiveLabs.MemoryLabelGpuLab | components/LiveLabs.tsx:27-113 | `80GB VRAM / 64GB RAM` shows `64GB RAM` |
| LiveLabs.MemoryLabelSharedCluster | components/LiveLabs.tsx:45-113 | `Shared K8s Cluster` has no `/` and is shown unchanged |

## Left out

- Browser storage is not modelled. This covers the `localStorage` reads and writes and the `JSON.parse`/`JSON.stringify` of the tracked skills and the dashboard progress, at components/CareerCoach.tsx:21-28 and components/Dashboard.tsx:12-25. It also covers the stored user name.
- SkillRegistry.Add: keeps the list duplicate-free only when it already was. A list loaded from storage may hold duplicates, and the code does not remove them.
- The guidance service's network call and SDK are not modelled. The stream is taken as a given sequence of chunks plus a failure flag.
- Transcript.Exchange: assumes every guidance call settles. Nothing at components/CareerCoach.tsx:51-62 times out or cancels the call. A stream that never settles leaves `isLoading` true, so sending stays disabled for the rest of the session. `Exchange` cannot represent that run.
- React's batching of state updates is not modelled. `handleSend` is treated as one run over the delivered fragments, and one interval firing as one step.
- LiveLabs.ActivatesAtHundred: leaves the order of the online lines and the last boot message open. The two log updates are queued from different places, and their order depends on when React runs the progress updater.
- Timer periods (400 ms) and the typing indicator are not modelled.
- Scrolling, `window.print` and the `Date`-stamped log display are not modelled.
- `Math.random` is not modelled. It is used twice. It picks the boot message, which is a parameter (`Pick.line`, an index below 5) of each firing. It also sets the width of each tracked skill's progress bar (components/CareerCoach.tsx:225), which is rendering and is left out.
- Dashboard.Toggle: models JavaScript's lookup `progress[key]` for own keys only. An inherited property name such as `toString` reads a function, which is truthy, so the code would store `false` where `Toggle` stores `true`. Only the twelve task keys are passed in (components/Dashboard.tsx:71), so this case never arises.
- Dashboard.UpperFirst: upper-cases ASCII letters only. JavaScript's `toUpperCase` also maps other scripts and can lengthen a string (`ß` becomes `SS`). Every task key is lower-case ASCII.
- Dashboard.Percent: is exact rational rounding, not IEEE floating point. With twelve tasks the exact ratio 25c/3 has fractional part 0, 1/3 or 2/3 (`Dashboard.NoTie` proves `(100 * c) % 12` is 0, 4 or 8), so it is never within 1/6 of a tie, far above floating-point error. That error bound itself is not proved.
- Strings are sequences of Unicode scalar values. JavaScript strings are UTF-16 code units, which differ only for characters outside the Basic Multilingual Plane.
- Rendering is not modelled: the lines of the displayed text (components/CareerCoach.tsx:80-84), the chip's disabled and checked look, and each lab's `tools` and `icon`.
- The presentational and static components are not part of this model: Hero, About, Terms, Footer, Partners, Collaboration, Curriculum, TechStack, SelfLearning and CertificateView.
- The Registration and Contact forms are not part of this model. They are fake submits driven by `setTimeout`.
- The tab switching in App and Navbar is not part of this model.
