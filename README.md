# Logger: a debug-gated logging facade, modelled in Dafny

`Logger` (in `app/src/main/java/com/moi/corebase/utils/AppLogger.kt`) is a thin
facade over the Android platform log. It has one entry point per level —
`v`, `d`, `i`, `w`, `e` — each with a tagged form and a form that uses the
default tag `"MyAppDebug"`. Every entry point does nothing in a release build
(`BuildConfig.DEBUG` false) and otherwise forwards one call to the platform
sink. The debug level alone splits messages longer than `MAX_LOG_LENGTH`
(4000 UTF-16 code units) into consecutive slices with `logInChunks`, one sink
call per slice; the other levels forward long messages whole.

The model lives in one module, `Logger` (`logger.dfy`):

- the sink is represented by what it receives: each entry point returns the
  sequence of `Record(level, tag, message, throwable)` values it would hand to
  the sink, in call order, and `[]` for no call at all;
- the build flag is an explicit `debug: bool` parameter;
- strings are `Text = seq<CodeUnit>`, where `CodeUnit` is a 16-bit UTF-16
  code unit (surrogate halves included), which is what `String.length` and
  `substring` count; `DefaultTag` is the code units of `"MyAppDebug"`
  (`AppLogger.kt:15`) and `MaxLogLength` is 4000 (`AppLogger.kt:18`);
- a nullable `Throwable?` is `Option<Throwable>`, `null` being `None`; the
  throwable is an opaque value that is only passed through;
- Dafny has no overloading, so the tag-less overloads are `VDefault`,
  `DDefault`, `IDefault`, `WDefault` and `EDefault`; `e`'s default argument
  `throwable = null` is the default parameter value `None` of `E` and
  `EDefault`.

`logInChunks` is the one piece of imperative code: a `while` loop over a
mutable index. It is the method `LogInChunks`, whose loop appends one record
per iteration and which is proved to produce `Records(level, tag,
Chunks(message))`, where `Chunks` is the specification of the slicing. Its
`logFunction` argument (always `Log::d` in the source) becomes the `level` of
the records it emits. Dafny functions cannot call methods, so the function `D`
emits `Records(Debug, tag, Chunks(message))` directly; the method `DByLoop`
is `d` as written, calling `LogInChunks` on the long branch, and is proved to
emit exactly what `D` describes.

## Model

| member | source | states |
|---|---|---|
| `Logger.Chunks` | app/src/main/java/com/moi/corebase/utils/AppLogger.kt:94-100 | the slices concatenate back to the message exactly, each slice is non-empty and at most 4000 code units, and every slice but the last is exactly 4000 |
| `Logger.ChunksCount` | app/src/main/java/com/moi/corebase/utils/AppLogger.kt:94-100 | a message of length L is cut into exactly ceil(L / 4000) slices (none for the empty message) |
| `Logger.ChunksUnique` | app/src/main/java/com/moi/corebase/utils/AppLogger.kt:95-97 | any cutting into non-empty slices of at most 4000, all full but the last, that reassembles the message is the one `Chunks` gives, so the three properties above characterise the loop's output |
| `Logger.ChunksSnoc` | app/src/main/java/com/moi/corebase/utils/AppLogger.kt:95-99 | one loop step: after a prefix whose length is a multiple of 4000, the slicing of prefix plus the next slice is the old slicing followed by that slice |
| `Logger.LogInChunks` | app/src/main/java/com/moi/corebase/utils/AppLogger.kt:92-101 | the loop emits one record per slice of `Chunks(message)`, in order, with the caller's level and tag, so there are ceil(L / 4000) of them by `ChunksCount`; the emitted messages reassemble the message (loop invariant: the index is a multiple of 4000 and the trace so far is the slicing of the message up to the index) |
| `Logger.D` | app/src/main/java/com/moi/corebase/utils/AppLogger.kt:36-44 | release build: no record; debug build: at least one record, all DEBUG with the caller's tag and no throwable, each at most 4000 code units, and together they reassemble the message |
| `Logger.DebugShortMessage` | app/src/main/java/com/moi/corebase/utils/AppLogger.kt:38-42 | with the flag on, a message of at most 4000 code units (the empty one included) is forwarded in exactly one DEBUG record, tag and message unchanged |
| `Logger.DebugLongMessage` | app/src/main/java/com/moi/corebase/utils/AppLogger.kt:38-39 | with the flag on, a message longer than 4000 gives ceil(L / 4000) >= 2 DEBUG records with the caller's tag, all full but the last, none empty, reassembling the message |
| `Logger.DebugExample4001` | app/src/main/java/com/moi/corebase/utils/AppLogger.kt:96-98 | 4001 code units at DEBUG give a 4000-unit record followed by a 1-unit record |
| `Logger.ReleaseIsSilent` | app/src/main/java/com/moi/corebase/utils/AppLogger.kt:23-87 | with the flag off every entry point, tagged or not and at every level, emits nothing |
| `Logger.OtherLevelsNeverChunk` | app/src/main/java/com/moi/corebase/utils/AppLogger.kt:53-83 | with the flag on, `v`, `i`, `w` and `e` emit exactly one record at their own level with tag and message unchanged, whatever the length; `e` passes its throwable (or its absence) through |
| `Logger.DefaultTagOverloads` | app/src/main/java/com/moi/corebase/utils/AppLogger.kt:15-87 | `DefaultTag` spells `"MyAppDebug"`, each tag-less overload equals its tagged form called with it, and `e` without a throwable is `e` with `None` |
| `Logger.DByLoop` | app/src/main/java/com/moi/corebase/utils/AppLogger.kt:36-44 | `d` with its call to the `logInChunks` loop emits exactly the records `D` describes |
| `Logger.V` | app/src/main/java/com/moi/corebase/utils/AppLogger.kt:23-27 | `v`: one VERBOSE record with tag and message unchanged when the flag is on, none when off (see `OtherLevelsNeverChunk`, `ReleaseIsSilent`) |
| `Logger.VDefault` | app/src/main/java/com/moi/corebase/utils/AppLogger.kt:29-31 | `v(message)`: as `V` with the default tag (see `DefaultTagOverloads`, `ReleaseIsSilent`) |
| `Logger.DDefault` | app/src/main/java/com/moi/corebase/utils/AppLogger.kt:46-48 | `d(message)`: DEBUG records with the default tag reassembling the message when the flag is on, none when off (see `DefaultTagOverloads`, `ReleaseIsSilent`) |
| `Logger.I` | app/src/main/java/com/moi/corebase/utils/AppLogger.kt:53-57 | `i`: one INFO record with tag and message unchanged when the flag is on, whatever the length, none when off (see `OtherLevelsNeverChunk`, `ReleaseIsSilent`) |
| `Logger.IDefault` | app/src/main/java/com/moi/corebase/utils/AppLogger.kt:59-61 | `i(message)`: as `I` with the default tag (see `DefaultTagOverloads`, `ReleaseIsSilent`) |
| `Logger.W` | app/src/main/java/com/moi/corebase/utils/AppLogger.kt:66-70 | `w`: one WARN record with tag and message unchanged when the flag is on, whatever the length, none when off (see `OtherLevelsNeverChunk`, `ReleaseIsSilent`) |
| `Logger.WDefault` | app/src/main/java/com/moi/corebase/utils/AppLogger.kt:72-74 | `w(message)`: as `W` with the default tag (see `DefaultTagOverloads`, `ReleaseIsSilent`) |
| `Logger.E` | app/src/main/java/com/moi/corebase/utils/AppLogger.kt:79-83 | `e`: one ERROR record carrying the given throwable, `None` for null or omitted, when the flag is on, none when off (see `OtherLevelsNeverChunk`, `ReleaseIsSilent`) |
| `Logger.EDefault` | app/src/main/java/com/moi/corebase/utils/AppLogger.kt:85-87 | `e(message, throwable)`: as `E` with the default tag (see `DefaultTagOverloads`, `ReleaseIsSilent`) |

## Left out

- `android.util.Log`: the platform sink is represented only by the records handed to it; logcat formatting, the platform's own truncation and the printing of a throwable's stack trace are not modelled.
- `BuildConfig.DEBUG` is a parameter rather than a process-wide constant; the model does not capture that it is fixed for the life of the process beyond every call taking it as input.
- `Logger.LogInChunks`: does not model Kotlin's 32-bit `Int`. For a message longer than 2147480000 code units, the iteration at `i` = 2147480000 computes `i + MAX_LOG_LENGTH` = 2147484000, which wraps to a negative value and `substring` would throw; the model uses unbounded integers and always completes the slicing.
- Surrogate pairs: slicing is by UTF-16 code unit and may split a pair, as the source does; nothing is claimed about code-point integrity, and the model does not decode code units into characters.
- Concurrency: the object has no mutable state; interleaving of records from concurrent callers at the sink is not modelled.
- Failures inside the platform sink are not modelled; no entry point reports an error to its caller.
