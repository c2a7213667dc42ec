# Earcon frenzy: a verified model of the speech rewriting core

Earcon frenzy is an NVDA add-on that plays audio cues ("earcons") in place of, or
around, parts of what the screen reader is about to say. The user configures a list of
rules. Each rule has a regular expression and one of four actions:

- a built-in wave file;
- a custom wave file;
- a beep;
- a prosody change, such as pitch or rate, applied to the matched text.

This project models, in Dafny, the part of `addon/globalPlugins/earconFrenzy.py` that
turns a speech sequence into text pieces and audio commands. It also models the integer
bookkeeping of how long each cue lasts.

- `commands.dfy` (module `Commands`) holds the speech items and commands, the getDuration
  methods, and the construction of a wave file command. The construction scales every
  16-bit sample by the volume with truncating division, in place on the array of
  samples. It then takes a slice that leaves out the leading samples a positive start
  adjustment covers, which is a new list. Packing a sample that no longer fits in 16 bits
  raises, because the code does not clip.
- `rules.dfy` (module `Rules`) holds the rule record and `getSpeechCommand`. It also holds
  `processString` / `processStringInternal`, with the regular expression's matches given
  as a list of spans. The lemmas give the meaning of the output:
  - A sound rule's text pieces spell the string with every kept match cut out, and the
    sound appears once per kept match.
  - A prosody rule's pieces spell the whole string, with each kept match bracketed by the
    change and restore commands.
  - Item by item, each command stands exactly where its match was: the output is the
    text before the match, the sound (or change, matched text, restore), then the next
    piece, with only the empty strings taken out.
  - A skipped match is one whose text is not blank but that the current symbol level
    renders blank. It stays inside the following text piece.
- `postprocess.dfy` (module `PostProcess`) holds `processRule`,
  `postProcessSynchronousCommands` and `eloquenceFix`. These are loops building a new
  sequence, proved against recursive reference functions. The lemmas state the following:
  - No string that renders blank survives.
  - Each maximal run of synchronous commands becomes one chain holding that run in order,
    followed by a break of the chain's duration.
  - Dropping those breaks and expanding the chains gives the input back.
  - eloquenceFix leaves a sequence unchanged when something is still spoken. Otherwise it
    removes exactly the breaks that directly follow a chain.
- `dispatch.dfy` (module `Dispatch`) models the chain command's worker loop and
  `terminate` as a class with a `terminated` flag and a dispatched-so-far index. The k-th
  deadline is the chain's start plus the durations of the members before it. The model
  keeps three details of the code as written:
  - The sleep length is not clamped, so a deadline already past makes `time.sleep` raise
    and the thread ends (`Raised`).
  - Natural completion does not clear the plugin's current chain. The assignment at line
    227 binds a local name.
  - `terminate` stops every member, whether it was dispatched or not.

Two behaviours of the code that the model keeps:

- Scaled samples are not clipped to 16 bits. A volume above 100 that pushes a sample out
  of range makes the packing step raise (`SampleOutOfRange`).
- An enabled rule's `processString` never yields an empty string. A match at the very end
  of the string therefore yields no trailing empty piece (`Rules.ClickTheButton`). A
  disabled rule yields its input as it is, so an empty input gives one empty string.

Abstractions:

- The regex engine is a list of sorted, non-overlapping `(start, end)` spans. For
  `processRule` it is a function from each string to its spans.
- `speech.isBlank` and `speech.isBlank(speech.processText(...))` are two predicates in an
  `Oracle`. The language and the symbol level are folded into the second one.
- `wave.open` is a function from a path to the file's header fields and decoded samples.
- The clock read by the worker thread is a sequence of millisecond readings.

## Model

| member | source | states |
|---|---|---|
| Commands.TruncDiv | addon/globalPlugins/earconFrenzy.py:166-167 | `int(x*volume/100)`: the quotient truncates toward zero. For x >= 0, q*100 is the largest multiple not above x; for x < 0, the smallest not below it |
| Commands.ClipMillis | addon/globalPlugins/earconFrenzy.py:191-193 | `int(1000*frames/rate)` is the whole number of milliseconds m with m*rate <= 1000*frames < (m+1)*rate |
| Commands.WaveDuration | addon/globalPlugins/earconFrenzy.py:190-195 | a wave file's duration is at least clip length minus both adjustments. It is either exactly that or 0 (never negative) |
| Commands.Duration | addon/globalPlugins/earconFrenzy.py:138-139 | a beep's duration is its length; a wave file's duration is never negative; a chain's duration is the sum over its members |
| Commands.SumDurations | addon/globalPlugins/earconFrenzy.py:215-216 | an empty chain lasts 0, and a one-member chain lasts as long as its member |
| Commands.SumDurationsAppend | addon/globalPlugins/earconFrenzy.py:215-216 | a chain's duration is additive over concatenation of its member lists |
| Commands.SumDurationsSnoc | addon/globalPlugins/earconFrenzy.py:215-216 | the duration of the first k+1 members is that of the first k plus member k's |
| Commands.SumDurationsBounds | addon/globalPlugins/earconFrenzy.py:215-216 | with non-negative member durations, the chain lasts at least as long as each member |
| Commands.FramesIn | addon/globalPlugins/earconFrenzy.py:169 | `start*rate//1000` is the number of whole frames that fit in the first start milliseconds |
| Commands.DropPrefix | addon/globalPlugins/earconFrenzy.py:171 | `unpacked[pos:]` has max(0, n-pos) samples, and sample j is input sample pos+j |
| Commands.ScaleAndTrim | addon/globalPlugins/earconFrenzy.py:165-172 | the loop leaves every array cell scaled by the volume, and the kept buffer is the scaled samples without the leading samples of a positive start adjustment |
| Commands.WaveBufferAt | addon/globalPlugins/earconFrenzy.py:166-171 | sample j of the kept buffer is trunc(s*volume/100) of input sample pos+j, where pos is the number of trimmed samples |
| Commands.ScaleKeepsRange | addon/globalPlugins/earconFrenzy.py:166-167 | a volume from 0 to 100 keeps a 16-bit sample in 16 bits and never moves it away from zero |
| Commands.NewWaveFile | addon/globalPlugins/earconFrenzy.py:149-173 | a sample width other than 2 bytes fails with the width in bits. With width 2, the command is built exactly when every kept scaled sample fits in 16 bits, and it holds the scaled, trimmed buffer |
| Commands.NewWaveFileSucceeds | addon/globalPlugins/earconFrenzy.py:158-173 | a 16-bit file with volume 0..100 always loads, and its duration is max(0, clip ms - start - end) from the untrimmed frame count |
| Commands.TextsAppend | addon/globalPlugins/earconFrenzy.py:1014-1018 | the strings and the commands of a concatenated sequence are those of the parts, in order |
| Rules.GetSpeechCommand | addon/globalPlugins/earconFrenzy.py:322-348 | an unknown rule type raises. Only prosody rules get a post command. A beep uses tone and duration, with left = right = volume. A prosody rule uses the offset when one is set, otherwise the multiplier, and is closed by a restore; an empty name raises. A wave rule fails exactly when the file is not 16-bit or a scaled sample overflows. Otherwise its command is the wave file at the rule's path, with the rule's volume and adjustments, the opened file's frame count, rate and channels, and its scaled, trimmed buffer, and it has no post command; a built-in file lives in the sounds directory |
| Rules.NewAudioRule | addon/globalPlugins/earconFrenzy.py:286-302 | building a rule fails exactly when getSpeechCommand raises, with its error. It keeps the fields, and its speechCommand and postSpeechCommand are the pair getSpeechCommand returns, so it has a post command exactly for prosody rules |
| Rules.Skipped | addon/globalPlugins/earconFrenzy.py:364-369 | a blank match is never skipped, and neither is a match the current symbol level still speaks |
| Rules.Internal | addon/globalPlugins/earconFrenzy.py:361-376 | the output is never empty, and it starts and ends with a text piece (the one before the first kept match and `s[index:]`) |
| Rules.InternalCommands | addon/globalPlugins/earconFrenzy.py:370-375 | every command processStringInternal yields is the rule's speechCommand or its postSpeechCommand |
| Rules.NonEmpty | addon/globalPlugins/earconFrenzy.py:354-359 | no empty string remains; the concatenated strings and the commands are unchanged |
| Rules.NonEmptyAppend | addon/globalPlugins/earconFrenzy.py:354-359 | the empty-string filter works on each part of a concatenation separately, so every kept item stays in its order |
| Rules.NonEmptyKeeps | addon/globalPlugins/earconFrenzy.py:354-359 | a sequence without empty strings passes the filter unchanged, so the filter is idempotent |
| Rules.NonEmptySingle | addon/globalPlugins/earconFrenzy.py:355-359 | a single item is dropped exactly when it is the empty string |
| Rules.ProcessString | addon/globalPlugins/earconFrenzy.py:350-359 | a disabled rule yields exactly the single input string, even an empty one. An enabled rule never yields an empty string |
| Rules.KeptMatches | addon/globalPlugins/earconFrenzy.py:363-369 | the matches that survive the skip test are still in order and non-overlapping |
| Rules.InternalIsEmitOfKept | addon/globalPlugins/earconFrenzy.py:361-376 | processStringInternal's output is the layout of the kept matches alone. A skipped match does not advance index, so its text stays in the next text piece |
| Rules.EmitSound | addon/globalPlugins/earconFrenzy.py:370-376 | without a post command, the text pieces spell s from index on with the kept matches cut out, and the pre command appears once per kept match |
| Rules.EmitProsody | addon/globalPlugins/earconFrenzy.py:370-376 | with a post command, the text pieces spell s from index on, and the commands are pre, post once per kept match |
| Rules.EmitSoundAt | addon/globalPlugins/earconFrenzy.py:370-376 | without a post command, item 2k is the text between kept match k-1 and kept match k (from index, up to the end of s), and item 2k+1 is the sound played at kept match k |
| Rules.EmitProsodyAt | addon/globalPlugins/earconFrenzy.py:370-376 | with a post command, item 4k is the text before kept match k, and items 4k+1..4k+3 are the change, the matched text and the restore |
| Rules.ProcessStringLayout | addon/globalPlugins/earconFrenzy.py:350-376 | for an enabled rule, processString's output is exactly that layout of the kept matches with its empty strings removed |
| Rules.GapsLength | addon/globalPlugins/earconFrenzy.py:370-376 | cutting out the kept matches removes exactly the characters they cover |
| Rules.ProcessStringSound | addon/globalPlugins/earconFrenzy.py:350-376 | for an enabled non-prosody rule, the yielded strings spell s without the kept matches, their total length is that of s less the matched characters, and the rule's sound appears once per kept match |
| Rules.ProcessStringProsody | addon/globalPlugins/earconFrenzy.py:350-376 | for an enabled prosody rule, the yielded strings spell s itself, and the commands alternate change, restore, once per kept match |
| Rules.ClickTheButton | addon/globalPlugins/earconFrenzy.py:350-376 | "Click the [button]" with a sound rule matching "[button]" yields "Click the " and then the sound, with no empty trailing piece |
| PostProcess.ProcessRule | addon/globalPlugins/earconFrenzy.py:1011-1019 | the loop computes RuleApplied: each string replaced by what processString yields for it, and each command kept in place |
| PostProcess.RuleAppliedAppend | addon/globalPlugins/earconFrenzy.py:1014-1018 | applying a rule to a concatenation is applying it to each part, in order |
| PostProcess.RuleAppliedDisabled | addon/globalPlugins/earconFrenzy.py:1011-1019 | a disabled rule leaves the whole sequence unchanged |
| PostProcess.RuleAppliedNoEmptyText | addon/globalPlugins/earconFrenzy.py:1014-1018 | after an enabled rule, no empty string is left in the sequence |
| PostProcess.DropBlank | addon/globalPlugins/earconFrenzy.py:1023-1026 | no remaining string renders blank; every command is kept, in order |
| PostProcess.DropBlankAppend | addon/globalPlugins/earconFrenzy.py:1023-1026 | the blank filter works on each part of a concatenation separately, so every kept item stays in its order |
| PostProcess.DropBlankSingle | addon/globalPlugins/earconFrenzy.py:1023-1026 | a single item is dropped exactly when it is a string that renders blank |
| PostProcess.RunLength | addon/globalPlugins/earconFrenzy.py:1029 | the run groupby takes is the longest prefix of synchronous commands: all items before k are synchronous, and item k is not |
| PostProcess.GroupRuns | addon/globalPlugins/earconFrenzy.py:1028-1036 | the output is empty exactly when the input is |
| PostProcess.GroupRunsNoSync | addon/globalPlugins/earconFrenzy.py:1028-1036 | a sequence with no synchronous command comes out unchanged |
| PostProcess.GroupRunsRoundTrip | addon/globalPlugins/earconFrenzy.py:1028-1036 | dropping each chain's break and expanding each chain gives the input back, so every chain holds exactly its run in order and every other item passes through in order |
| PostProcess.GroupRunsShape | addon/globalPlugins/earconFrenzy.py:1029-1036 | every synchronous item of the output is a non-empty chain of synchronous commands, immediately followed by a break of the chain's duration, and the item after that break is not synchronous (the runs were maximal) |
| PostProcess.SpokenTexts | addon/globalPlugins/earconFrenzy.py:1046-1050 | the list is non-empty exactly when some string in the sequence does not render blank |
| PostProcess.EloquenceFix | addon/globalPlugins/earconFrenzy.py:1040-1059 | the two loops compute EloquenceFixed: the input if something is spoken, otherwise the items whose index was not collected as a break after a chain |
| PostProcess.KeptFromIsDropChainBreaks | addon/globalPlugins/earconFrenzy.py:1052-1059 | the index filter equals DropChainBreaks, which removes a break exactly when the item before it in the input is a chain |
| PostProcess.EloquenceFixedCases | addon/globalPlugins/earconFrenzy.py:1046-1059 | with a spoken string left, the sequence is returned unchanged. Otherwise exactly the breaks directly after a chain are removed, and everything else is kept in order |
| PostProcess.PostProcessSynchronousCommands | addon/globalPlugins/earconFrenzy.py:1021-1038 | the filter, the groupby loop and eloquenceFix compute PostProcessed(items) = eloquenceFix(groupRuns(dropBlank(items))) |
| PostProcess.PostProcessedSpoken | addon/globalPlugins/earconFrenzy.py:1021-1038 | when something is spoken, the output is grouped (chains of maximal runs, each followed by its duration's break), and it flattens back to the input without its blank strings |
| PostProcess.PostProcessedSilent | addon/globalPlugins/earconFrenzy.py:1021-1059 | when nothing is spoken, the breaks are gone, and expanding the chains gives back the input without its blank strings |
| Dispatch.Deadline | addon/globalPlugins/earconFrenzy.py:219-224 | the first deadline is the chain's start, and the second is the start plus the first member's duration |
| Dispatch.DeadlineStep | addon/globalPlugins/earconFrenzy.py:224 | each deadline is the previous one plus the duration of the member dispatched in between |
| Dispatch.DeadlineEnds | addon/globalPlugins/earconFrenzy.py:215-224 | the first deadline is the chain's start, and the last is the start plus the chain's getDuration |
| Dispatch.DeadlinesMonotone | addon/globalPlugins/earconFrenzy.py:221-224 | with non-negative durations, deadlines never decrease |
| Dispatch.Trace | addon/globalPlugins/earconFrenzy.py:221-226 | n passes of the loop that each slept leave exactly 2n effects, one dispatch and one sleep per pass |
| Dispatch.TraceInOrder | addon/globalPlugins/earconFrenzy.py:221-226 | member k is the k-th dispatched, followed by a sleep of deadline k+1 minus the clock reading, without clamping |
| Dispatch.Stops | addon/globalPlugins/earconFrenzy.py:235-236 | terminate's effects stop members 0..n-1 in list order |
| Dispatch.Plugin.constructor | addon/globalPlugins/earconFrenzy.py:203 | no chain is current at load |
| Dispatch.ChainCommand.constructor | addon/globalPlugins/earconFrenzy.py:205-208 | a new chain holds its members, is not terminated and has dispatched nothing |
| Dispatch.ChainCommand.Run | addon/globalPlugins/earconFrenzy.py:210-213 | run makes the chain the plugin's current chain |
| Dispatch.ChainCommand.Begin | addon/globalPlugins/earconFrenzy.py:219 | the timestamp starts at the current time |
| Dispatch.ChainCommand.Step | addon/globalPlugins/earconFrenzy.py:220-226 | when terminated, nothing is dispatched and the thread returns. Otherwise the next member is dispatched, the timestamp moves on by its duration to the next deadline, and a sleep of deadline minus now follows, raising when negative. The current chain is untouched either way |
| Dispatch.ChainCommand.Finish | addon/globalPlugins/earconFrenzy.py:227 | running out of members completes the thread without touching the plugin |
| Dispatch.ChainCommand.ThreadFunc | addon/globalPlugins/earconFrenzy.py:218-227 | the loop completes exactly when every clock reading is at or before its member's deadline (or the chain is empty). Otherwise it raises at the first late reading; only an already terminated chain returns early. It dispatches in list order with unclamped sleeps, does nothing when already terminated, and never changes the current chain |
| Dispatch.ChainCommand.Terminate | addon/globalPlugins/earconFrenzy.py:232-237 | sets the flag, stops every member in list order whether dispatched or not, and clears the current chain; the loop's position is unchanged and the chain's invariant is kept |
| Dispatch.TerminateThenStep | addon/globalPlugins/earconFrenzy.py:220-237 | after terminate, the next pass of the loop dispatches nothing and returns |

## Left out

- The thread pool (`ThreadPool`, `Worker`) is concurrency. Its effect is recorded as a
  `Dispatched` event. Interleaving between the worker thread and `terminate` is modelled
  at the granularity of one loop pass (`Step`). `terminate` can also run between the flag
  check (line 221) and `add_task` (line 223) of one pass; member k is then stopped before
  its `run` starts and plays anyway. That interleaving is not modelled.
- The `run()` bodies, `generateBeep` and the wave players' feed/idle/stop calls are
  audio I/O. Dispatching and stopping are recorded only as events.
- Times are whole milliseconds rather than floating-point seconds. The clock is a given
  sequence of readings, and `time.sleep` is recorded as a `Slept` event. A negative
  length ends the thread as the raised `ValueError` would.
- `Commands.ClipMillis`: `int(1000*frames/rate)` is modelled as the exact floor, without
  floating-point rounding.
- `Rules.NewAudioRule`: `re.compile` of the pattern (line 301) runs before
  `getSpeechCommand`, so an invalid pattern raises there first. The model has no pattern
  syntax and does not represent that error.
- Regex compilation and `finditer` are abstracted as spans. Case folding is not modelled
  because `caseSensitive` is stored but the pattern is compiled without flags.
- `speech.processText` and `speech.isBlank` are abstracted as oracle predicates, with the
  language and the symbol level folded in.
- The prosody command class comes from a `getattr` lookup on the name with its first
  letter upper-cased. It is modelled as a `Prosody(name, change)` command: only an empty
  name raises, and an unknown class name is not modelled. The multiplier is an uninterpreted `real`.
- `os.path.join` is modelled as joining with a backslash. Its special case for an
  absolute second part is not modelled.
- `wave.open` is assumed to report a positive frame rate and channel count. A file that
  cannot be opened is not modelled.
- `Commands.Duration`: it is defined only for beeps, wave files and chains of them. A
  chain that holds another kind of command would raise `AttributeError`, and the
  chain's preconditions exclude it.
- `Dispatch.ChainCommand.Terminate`: `Stopped(i)` stands for the call
  `subcommand.terminate()` on member i, whatever kind of command it is. A member can be
  a chain itself: the groupby key at line 1029 accepts a chain, so a chain already in the
  input of `postProcessSynchronousCommands` is wrapped in a new one. Such a member would
  also set its own flag and stop its own members; only its stop event is recorded.
- `PostProcess.PostProcessSynchronousCommands`: `itertools.groupby` is modelled as a
  loop over the items that keeps the current run. The loop in `processRule` appends
  `Expanded(item)`, the same value as its two branches.
- `reloadRules`, the JSON rule file, the settings dialogs, the monkey-patched host hooks,
  `preCancelSpeech` and the debug log are host glue, GUI or file I/O. They are not part
  of this model.
