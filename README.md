# Asura builder: a Dafny model of its core

Asura builder is the framework that Mooshak game managers are written against. A game manager drives a match between
player programs. While the match is played, it records a *movie*: a header with sprites and players, then a list of
frames, each with drawn items, per-player messages and per-player statuses (points, a Mooshak classification and
observations). When something fails, the movie says whom to blame.

The repository also holds several smaller pieces, all modelled here:
- two compressors for the movie text, LZ77 and LZW, each run after a per-unit UTF-8 re-encoding;
- the command and action values that players send;
- the line buffer of the JavaScript player wrappers;
- the string handling of the preview server.

The model has one Dafny module per part of the program:

| file | module | models |
|---|---|---|
| wrappers.dfy | `Wrappers` | `Option` and `Result` |
| javatext.dfy | `JavaText` | Java `int` and `char` ranges and wrap-around, `String.valueOf(int)` / `Integer.parseInt`, `indexOf` / `lastIndexOf`, `String.split`, `String.replace`, `equalsIgnoreCase`, and text made of lines each ended by `'\n'` |
| strings.dfy | `Strings` | `Strings.uft8Encode` |
| lz77.dfy | `Lz77` | `LZ77.compress` and `getMatchedLen` |
| lzw.dfy | `Lzw` | `LZW.compress` |
| exceptions.dfy | `Exceptions` | `BuilderException` and `PlayerException`, as values |
| movie_models.dfy | `MovieModels` | `GamePlayerStatus`, `GameMovieFrame`, `GameMovieHeader` and `GameMovie` as classes; `GameFrameItem`, `MooshakClassification` and `SpriteAnchor` as values |
| movie_builder.dfy | `MovieBuilder` | `GameMovieBuilderImpl` |
| messaging.dfy | `Messaging` | `Command` and `PlayerAction` |
| game_manager.dfy | `Manager` | `GameManager` |
| game_server.dfy | `Server` | the string logic of `GameServer` |
| io_processor.dfy | `IO` | `IOProcessor` of both JavaScript wrappers (the ES6 class and the prototype-based copy) |

## How the parts are modelled

**Text.** A Java `char` is a 16-bit code unit (`JavaText.Unit`). In the compressors (`Strings`, `Lz77`, `Lzw`) a Java
`String` is a sequence of such units, and a cast to `char` is taken modulo 0x10000. The other modules (`Manager`,
`Server`, `Messaging`, `IO`) use Dafny's `string`, whose characters are Unicode scalar values; nothing they do
depends on the difference. The `int` arithmetic the code relies on is written out with `Wrap32`.

**Compressors.** Both compressors are methods with loops, proved against specification functions:
- `Lz77.Compress` computes exactly `Lz77.Compressed`, the tokens `TokensFrom` emits, three units each.
- `Lzw.Compress` computes exactly `Lzw.LzwCodes`, a step-by-step reference definition of the LZW rule: on a
  dictionary hit the current string grows and nothing is emitted; on a miss the code of the current string is
  emitted, the longer string is added under the next code and the current string restarts at the unit read.
  `Lzw.LzwCodesMeaning` states what those codes mean, and the round trip goes through a decoder written here,
  `Lzw.DecodeCodes`.

The repository has no decoders. Both decoders in the model are independent reference definitions (`Lz77.Decode`,
`Lzw.DecodeCodes`). The round trip is proved against them.

**Movie recorder.** The recorder is a class over classes, with the same fields the Java objects update in place. A
snapshot on the undo stack holds a new list of items and new maps, but the status map holds the same
`GamePlayerStatus` records as the frame it was taken from: `CopyUtils.deepCopy` returns an object that is neither a
map, a collection, an array nor serializable unchanged. The model keeps exactly that sharing. So a restore brings back
the set of players, but not their points; `MovieBuilder.RestoreKeepsLaterPoints` and
`MovieBuilder.RestoreSharesWithEarlierFrame` show both effects.

**Orchestration.** `GameManager.manage` gets the outcome of building the game state and the outcome of the game as
parameters. The game itself and reflection cannot be seen from here. `manage` catches only `PlayerException` and
`BuilderException` from the game; both are unchecked, and any other runtime exception (`GameEnd.OtherFault`) leaves
`manage` with nothing recorded.

**Preview server.** The request parsing, the image-path rewrite, the command-line checks and the language dispatch
are functions. `sendResponseHeader` is a method writing to an output object.

**Details of the code the model keeps:**
- In LZ77, candidates are scanned from the far end of the window, and a candidate replaces the best only when strictly
  longer, so of equally long matches the earliest (most distant) candidate is kept (LZ77.java:46).
- The doc comment of the per-unit encoding (Strings.java:12) says it encodes into chars 0 to 127. The code produces
  units up to 0xEF (`Strings.EncodeUnit`).

## Model

| member | source | states |
|---|---|---|
| JavaText.Wrap32 | src/main/java/pt/up/fc/dcc/asura/builder/GameServer.java:252-255 | the result is a 32-bit int congruent to the argument modulo 2^32, and equal to it when it fits |
| JavaText.ParseIntOfIntToString | src/main/java/pt/up/fc/dcc/asura/builder/base/messaging/Command.java:73-85 | parsing the decimal form of any int gives that int back |
| JavaText.ParseInt | src/main/java/pt/up/fc/dcc/asura/builder/base/messaging/Command.java:80-83 | a successful parse is a 32-bit value of a non-empty text; the empty text and a single non-digit (a lone sign among them) fail |
| JavaText.PiecesJoin | src/main/java/pt/up/fc/dcc/asura/builder/GameServer.java:166-167 | splitting at a separator and joining with it again gives the text back |
| JavaText.SplitPiecesArePieces | src/main/java/pt/up/fc/dcc/asura/builder/GameServer.java:166-167 | `String.split` on one character gives a prefix of the pieces between separators (the trailing empty ones dropped), none holding the separator |
| JavaText.RemoveAllFirstOccurrence | src/main/java/pt/up/fc/dcc/asura/builder/base/GameManager.java:41 | `replace(pat, "")` removes an occurrence and keeps the text before it |
| JavaText.RemoveAllAbsent | src/main/java/pt/up/fc/dcc/asura/builder/base/GameManager.java:41 | `replace` on a text without the pattern changes nothing |
| JavaText.TerminatedIsJoin | src/main/java/pt/up/fc/dcc/asura/builder/GameServer.java:172-175 | lines each ended by a line break are the lines joined by line breaks, with one more break |
| Strings.EncodeUnit | src/main/java/pt/up/fc/dcc/asura/builder/base/utils/Strings.java:22-37 | a unit below 0x80 is copied; one below 0x800 becomes a lead unit in [0xC2, 0xE0) and one continuation unit; any other becomes a lead in [0xE0, 0xF0) and two continuations; in every case the payload bits give the unit back, and every unit is below 0xF0 |
| Strings.EncodeAppend | src/main/java/pt/up/fc/dcc/asura/builder/base/utils/Strings.java:21-38 | the encoding of a concatenation is the concatenation of the encodings |
| Strings.EncodeLength | src/main/java/pt/up/fc/dcc/asura/builder/base/utils/Strings.java:21-38 | the output is between one and three times as long as the input |
| Strings.EncodeBelowF0 | src/main/java/pt/up/fc/dcc/asura/builder/base/utils/Strings.java:21-38 | no output unit reaches 0xF0, so none is the LZ77 end marker 0xFF |
| Strings.DecodeEncode | src/main/java/pt/up/fc/dcc/asura/builder/base/utils/Strings.java:17-41 | the encoding is lossless: decoding it gives every original unit back |
| Strings.Uft8Encode | src/main/java/pt/up/fc/dcc/asura/builder/base/utils/Strings.java:17-41 | the loop appends each unit's encoding in order, so it returns the encoding of the whole text |
| Lz77.WindowStartOfNonNegative | src/main/java/pt/up/fc/dcc/asura/builder/base/utils/compression/LZ77.java:43 | for a non-negative window the 32-bit subtraction does not wrap: the window holds at most w positions before i |
| Lz77.CommonRunMeaning | src/main/java/pt/up/fc/dcc/asura/builder/base/utils/compression/LZ77.java:72-75 | the run counted is a common prefix of the two ranges, and it stops only at a differing unit or at the bound |
| Lz77.MatchedLenMeaning | src/main/java/pt/up/fc/dcc/asura/builder/base/utils/compression/LZ77.java:71-77 | `getMatchedLen` returns a common prefix length that ends at a mismatch; it is 0 exactly when the range is empty, the first units differ, or the whole range matches |
| Lz77.GetMatchedLen | src/main/java/pt/up/fc/dcc/asura/builder/base/utils/compression/LZ77.java:71-77 | the loop returns what `MatchedLen` specifies |
| Lz77.CandidateLenMeaning | src/main/java/pt/up/fc/dcc/asura/builder/base/utils/compression/LZ77.java:44-45 | the reported length of a candidate is between 1 and i - s, and those units at s equal the units at i |
| Lz77.ScanWindowFound | src/main/java/pt/up/fc/dcc/asura/builder/base/utils/compression/LZ77.java:38-55 | `found` is set exactly when some position of the window holds the unit at i |
| Lz77.ScanWindowLongest | src/main/java/pt/up/fc/dcc/asura/builder/base/utils/compression/LZ77.java:46-48 | no candidate of the window reports more than the chosen length |
| Lz77.ScanWindowEarliest | src/main/java/pt/up/fc/dcc/asura/builder/base/utils/compression/LZ77.java:43-46 | every candidate before the chosen one reports strictly less: ties keep the most distant start |
| Lz77.FindMatch | src/main/java/pt/up/fc/dcc/asura/builder/base/utils/compression/LZ77.java:37-56 | the inner loop computes the window scan, and the unit after the match or 0xFF at the end |
| Lz77.TokensFromStep | src/main/java/pt/up/fc/dcc/asura/builder/base/utils/compression/LZ77.java:35-65 | the output from position i is that position's three units followed by the output from where its token ends |
| Lz77.Units | src/main/java/pt/up/fc/dcc/asura/builder/base/utils/compression/LZ77.java:59-65 | every token is three units, so the output length is a multiple of 3 |
| Lz77.EmitToken | src/main/java/pt/up/fc/dcc/asura/builder/base/utils/compression/LZ77.java:58-65 | one outer-loop step extends the output by the token at i and moves past it |
| Lz77.CompressUnits | src/main/java/pt/up/fc/dcc/asura/builder/base/utils/compression/LZ77.java:32-68 | the outer loop outputs the units of every token from position 0 |
| Lz77.Compress | src/main/java/pt/up/fc/dcc/asura/builder/base/utils/compression/LZ77.java:20-69 | `compress` with window 8192 by default compresses the per-unit UTF-8 encoding of its input |
| Lz77.TokenShape | src/main/java/pt/up/fc/dcc/asura/builder/base/utils/compression/LZ77.java:43-65 | every token is a literal (0, 0, in[i]), or a match (d, L, c) with 1 <= d within the window, 1 <= L <= d, i + L <= n, the L units at i equal to those at i - d, and c = in[i + L] or 0xFF at the end |
| Lz77.TokenIsLiteralIff | src/main/java/pt/up/fc/dcc/asura/builder/base/utils/compression/LZ77.java:43-65 | a literal is emitted exactly when no window position holds the unit at i |
| Lz77.TokenIsFirstLongest | src/main/java/pt/up/fc/dcc/asura/builder/base/utils/compression/LZ77.java:43-53 | when a window position holds the unit, a match is emitted that is at least as long as every candidate, and strictly longer than every earlier one |
| Lz77.DistanceWithinWindow | src/main/java/pt/up/fc/dcc/asura/builder/base/utils/compression/LZ77.java:43-47 | with a non-negative window, no distance exceeds the window size |
| Lz77.FitsUnits | src/main/java/pt/up/fc/dcc/asura/builder/base/utils/compression/LZ77.java:59-60 | when the window fits a char or the input is at most 0x10000 units, the casts of distance and length lose nothing |
| Lz77.DecodeToken | src/main/java/pt/up/fc/dcc/asura/builder/base/utils/compression/LZ77.java:10-15 | decoding a valid token appends its expansion to what was decoded before |
| Lz77.ExpansionAt | src/main/java/pt/up/fc/dcc/asura/builder/base/utils/compression/LZ77.java:10-15 | each token reconstructs the slice of the input it covers, the matched units and the unit after them |
| Lz77.TokensFromCovers | src/main/java/pt/up/fc/dcc/asura/builder/base/utils/compression/LZ77.java:35-62 | the tokens from position i cover the rest of the input, each starting where the previous one ended |
| Lz77.DecodeCovers | src/main/java/pt/up/fc/dcc/asura/builder/base/utils/compression/LZ77.java:10-15 | decoding a covering token stream after the input's first i units gives the whole input |
| Lz77.RoundTrip | src/main/java/pt/up/fc/dcc/asura/builder/base/utils/compression/LZ77.java:23-69 | decoding the compressed text gives back the encoded text exactly, whenever the casts to char lose nothing |
| Lz77.MatchedLenVersusIntended | src/main/java/pt/up/fc/dcc/asura/builder/base/utils/compression/LZ77.java:71-77 | the code as written agrees with the longest common prefix, except that it answers 0 on a full match |
| Lz77.FullMatchReportedAsOne | src/main/java/pt/up/fc/dcc/asura/builder/base/utils/compression/LZ77.java:71-77 | on "abab" the second "ab" is reported as a match of length 1 |
| Lz77.IntendedMatchedLen | src/main/java/pt/up/fc/dcc/asura/builder/base/utils/compression/LZ77.java:71-77 | the corrected length never exceeds the compared range |
| Lz77.IntendedMatchedLenIsLongest | src/main/java/pt/up/fc/dcc/asura/builder/base/utils/compression/LZ77.java:71-77 | the corrected length is the longest common prefix of the two ranges, including the whole range |
| Lzw.SeededMeaning | src/main/java/pt/up/fc/dcc/asura/builder/base/utils/compression/LZW.java:25-26 | a single unit is seeded exactly when some code below the size casts to it |
| Lzw.Seed | src/main/java/pt/up/fc/dcc/asura/builder/base/utils/compression/LZW.java:23-26 | the seeding loop builds exactly `Lzw.Seeds(dictSize)`: code i is filed under the unit `(char) i`, so past 0x10000 a later code overwrites the seed of the unit it casts to; that each unit is filed under its own value holds only up to 0x10000 seeds (`Lzw.SeedsMeaning`) |
| Lzw.SeedsKeys | src/main/java/pt/up/fc/dcc/asura/builder/base/utils/compression/LZW.java:23-26 | the seeded keys are single units, each under a code below the size that casts to it, and a unit is a key exactly when it is below the size |
| Lzw.SeedsMeaning | src/main/java/pt/up/fc/dcc/asura/builder/base/utils/compression/LZW.java:23-26 | with at most 0x10000 seeds every key is a single unit below the size filed under its own value |
| Lzw.Reached | src/main/java/pt/up/fc/dcc/asura/builder/base/utils/compression/LZW.java:28-40 | every state the loop reaches keeps the loop invariant (emitted strings plus w spell the input read, w is a key, each code was known when emitted, each added string is one code's string plus the next one's first unit); a run that stopped has met a unit without a seed |
| Lzw.LzwCodesMeaning | src/main/java/pt/up/fc/dcc/asura/builder/base/utils/compression/LZW.java:23-45 | the reference codes fail exactly when some unit has no seed; otherwise their strings spell the input, each was known when emitted, each added string is the previous code's string plus the next one's first unit, and there is one code more than added strings for a non-empty input |
| Lzw.RepeatedUnitCodes | src/main/java/pt/up/fc/dcc/asura/builder/base/utils/compression/LZW.java:28-45 | a unit c below the size repeated four times gives exactly the codes c, n (the first added code, for cc) and c |
| Lzw.Consume | src/main/java/pt/up/fc/dcc/asura/builder/base/utils/compression/LZW.java:29-39 | one turn of the loop: on a hit w grows to w + c and nothing is emitted; on a miss the code of w is emitted as a char, w + c is added under the next index and w restarts at c; it fails exactly where w is not a key; this is the reference step `Step` |
| Lzw.Scan | src/main/java/pt/up/fc/dcc/asura/builder/base/utils/compression/LZW.java:28-40 | the loop over every unit ends in the state the reference fold `Steps` reaches, with one char per emitted code, or fails exactly when that fold fails |
| Lzw.Flush | src/main/java/pt/up/fc/dcc/asura/builder/base/utils/compression/LZW.java:42-45 | an empty w emits nothing; a w that is a key appends exactly its code; a w that is not a key fails; this is the reference end `Finish` |
| Lzw.EmptyEnd | src/main/java/pt/up/fc/dcc/asura/builder/base/utils/compression/LZW.java:28-47 | when w is empty at the end, the input was empty and nothing was emitted |
| Lzw.CompressUnits | src/main/java/pt/up/fc/dcc/asura/builder/base/utils/compression/LZW.java:23-47 | the compressor emits exactly the reference codes `LzwCodes`, one char each, and fails (null unboxing) exactly when some unit has no seed; the codes spell the input and each was known when emitted |
| Lzw.Compress | src/main/java/pt/up/fc/dcc/asura/builder/base/utils/compression/LZW.java:12-47 | `compress` emits exactly the reference codes of the per-unit UTF-8 encoding, with 256 seeds unless a size is given; it fails exactly on an unseeded unit, and its codes decode back to that encoding |
| Lzw.TableIsAdded | src/main/java/pt/up/fc/dcc/asura/builder/base/utils/compression/LZW.java:33-38 | a decoder rebuilds, from the codes alone, the strings the compressor added, in the order they were added |
| Lzw.DecodeOfCompressed | src/main/java/pt/up/fc/dcc/asura/builder/base/utils/compression/LZW.java:28-47 | the emitted codes decode to the compressed input |
| Lzw.CompressedDecodes | src/main/java/pt/up/fc/dcc/asura/builder/base/utils/compression/LZW.java:35-45 | the output units decode to the encoded text whenever no code passes 0xFFFF, and the text is recovered from it |
| Lzw.NeverFailsFromF0 | src/main/java/pt/up/fc/dcc/asura/builder/base/utils/compression/LZW.java:15-31 | with a dictionary of at least 0xF0 codes (the default 256 among them), every encoded unit is seeded, so the compressor never fails |
| Lzw.ToUnitOfWrap32 | src/main/java/pt/up/fc/dcc/asura/builder/base/utils/compression/LZW.java:23-35 | the 32-bit wrap of the code counter does not change an emitted char |
| MovieModels.GamePlayerStatus.constructor | src/main/java/pt/up/fc/dcc/asura/builder/base/movie/models/GamePlayerStatus.java:11-16 | a new status has 0 points, no classification and no observations |
| MovieModels.GamePlayerStatus.SetPoints | src/main/java/pt/up/fc/dcc/asura/builder/base/movie/models/GamePlayerStatus.java:22-24 | only the points change |
| MovieModels.GamePlayerStatus.SetClassification | src/main/java/pt/up/fc/dcc/asura/builder/base/movie/models/GamePlayerStatus.java:36-38 | only the classification changes |
| MovieModels.GamePlayerStatus.SetObservations | src/main/java/pt/up/fc/dcc/asura/builder/base/movie/models/GamePlayerStatus.java:44-46 | only the observations change |
| MovieModels.GameMovieFrame.constructor | src/main/java/pt/up/fc/dcc/asura/builder/base/movie/models/GameMovieFrame.java:16-21 | a new frame has no items, no statuses and no messages |
| MovieModels.GameMovieFrame.AddItem | src/main/java/pt/up/fc/dcc/asura/builder/base/movie/models/GameMovieFrame.java:56-58 | exactly one item is appended at the end; the rest is unchanged |
| MovieModels.GameMovieFrame.SetItems | src/main/java/pt/up/fc/dcc/asura/builder/base/movie/models/GameMovieFrame.java:27-29 | only the items are replaced |
| MovieModels.GameMovieFrame.SetMessages | src/main/java/pt/up/fc/dcc/asura/builder/base/movie/models/GameMovieFrame.java:43-45 | only the messages are replaced |
| MovieModels.GameMovieFrame.SetStatus | src/main/java/pt/up/fc/dcc/asura/builder/base/movie/models/GameMovieFrame.java:35-37 | the status map becomes the given one, with the very records it holds; items and messages are unchanged |
| MovieModels.GameMovieFrame.GetStatus | src/main/java/pt/up/fc/dcc/asura/builder/base/movie/models/GameMovieFrame.java:84-91 | never null; a present player's record is returned with the map unchanged; an absent player gets one fresh default record, which is inserted; no other status changes |
| MovieModels.PutKeepsOrder | src/main/java/pt/up/fc/dcc/asura/builder/base/movie/models/GameMovieHeader.java:19-20 | `put` on an insertion-ordered map stores the value, appends a new key at the end and keeps an existing key in its place |
| MovieModels.GameMovieHeader.constructor | src/main/java/pt/up/fc/dcc/asura/builder/base/movie/models/GameMovieHeader.java:15-24 | a new header has no title or background, zero width, height and fps, empty sprite and player maps and a centred anchor |
| MovieModels.GameMovieHeader.SetTitle | src/main/java/pt/up/fc/dcc/asura/builder/base/movie/models/GameMovieHeader.java:30-32 | only the title changes |
| MovieModels.GameMovieHeader.SetBackground | src/main/java/pt/up/fc/dcc/asura/builder/base/movie/models/GameMovieHeader.java:38-40 | only the background changes |
| MovieModels.GameMovieHeader.SetWidth | src/main/java/pt/up/fc/dcc/asura/builder/base/movie/models/GameMovieHeader.java:46-48 | only the width changes |
| MovieModels.GameMovieHeader.SetHeight | src/main/java/pt/up/fc/dcc/asura/builder/base/movie/models/GameMovieHeader.java:54-56 | only the height changes |
| MovieModels.GameMovieHeader.SetAnchorPoint | src/main/java/pt/up/fc/dcc/asura/builder/base/movie/models/GameMovieHeader.java:78-80 | only the anchor changes |
| MovieModels.GameMovieHeader.SetFps | src/main/java/pt/up/fc/dcc/asura/builder/base/movie/models/GameMovieHeader.java:86-88 | only the frame rate changes |
| MovieModels.GameMovieHeader.PutSprite | src/main/java/pt/up/fc/dcc/asura/builder/base/movie/models/GameMovieHeader.java:19 | a sprite is put into the ordered sprite map, and nothing else changes |
| MovieModels.GameMovieHeader.PutPlayer | src/main/java/pt/up/fc/dcc/asura/builder/base/movie/models/GameMovieHeader.java:20 | a player is put into the ordered player map, and nothing else changes |
| MovieModels.GameMovie.constructor | src/main/java/pt/up/fc/dcc/asura/builder/base/movie/models/GameMovie.java:15-19 | a new movie has a default header and no frames |
| MovieBuilder.PushThenPop | src/main/java/pt/up/fc/dcc/asura/builder/base/movie/GameMovieBuilderImpl.java:93-96 | a push is never refused, never leaves more than 15 snapshots, puts the new one on top, and drops the oldest when the stack was full |
| MovieBuilder.PushAllKeepsNewest | src/main/java/pt/up/fc/dcc/asura/builder/base/movie/GameMovieBuilderImpl.java:93-96 | after any run of pushes the stack holds the newest 15 snapshots, oldest first |
| MovieBuilder.ReevaluateAllMeaning | src/main/java/pt/up/fc/dcc/asura/builder/base/movie/GameMovieBuilderImpl.java:175-180 | marking every listed player sets each one to REQUIRES_REEVALUATION with the message as observations and its points kept, adds missing ones, and leaves the others untouched |
| MovieBuilder.ExceptMeaning | src/main/java/pt/up/fc/dcc/asura/builder/base/movie/GameMovieBuilderImpl.java:194-197 | the players other than the culprit are exactly the listed ones different from it |
| MovieBuilder.GameMovieBuilderImpl.constructor | src/main/java/pt/up/fc/dcc/asura/builder/base/movie/GameMovieBuilderImpl.java:27-30 | a new recorder has a fresh default movie, no current frame and an empty stack |
| MovieBuilder.GameMovieBuilderImpl.SetTitle | src/main/java/pt/up/fc/dcc/asura/builder/base/movie/GameMovieBuilderImpl.java:33-35 | only the header's title changes |
| MovieBuilder.GameMovieBuilderImpl.SetBackground | src/main/java/pt/up/fc/dcc/asura/builder/base/movie/GameMovieBuilderImpl.java:38-40 | only the header's background changes |
| MovieBuilder.GameMovieBuilderImpl.SetWidth | src/main/java/pt/up/fc/dcc/asura/builder/base/movie/GameMovieBuilderImpl.java:43-45 | only the header's width changes |
| MovieBuilder.GameMovieBuilderImpl.SetHeight | src/main/java/pt/up/fc/dcc/asura/builder/base/movie/GameMovieBuilderImpl.java:48-50 | only the header's height changes |
| MovieBuilder.GameMovieBuilderImpl.AddSprite | src/main/java/pt/up/fc/dcc/asura/builder/base/movie/GameMovieBuilderImpl.java:53-55 | the sprite is put into the header's ordered sprite map |
| MovieBuilder.GameMovieBuilderImpl.AddPlayer | src/main/java/pt/up/fc/dcc/asura/builder/base/movie/GameMovieBuilderImpl.java:58-60 | the player, with its possibly null name, is put into the header's ordered player map |
| MovieBuilder.GameMovieBuilderImpl.SetFps | src/main/java/pt/up/fc/dcc/asura/builder/base/movie/GameMovieBuilderImpl.java:63-65 | only the header's frame rate changes |
| MovieBuilder.GameMovieBuilderImpl.SetSpriteAnchor | src/main/java/pt/up/fc/dcc/asura/builder/base/movie/GameMovieBuilderImpl.java:68-70 | only the header's anchor changes |
| MovieBuilder.GameMovieBuilderImpl.SaveFrame | src/main/java/pt/up/fc/dcc/asura/builder/base/movie/GameMovieBuilderImpl.java:78-97 | pushes a snapshot of the current items, of the status map only when asked (a new map holding the same records, not copies of them) and of the messages only when asked, keeping the newest 15 |
| MovieBuilder.GameMovieBuilderImpl.SaveFrameDefault | src/main/java/pt/up/fc/dcc/asura/builder/base/movie/GameMovieBuilderImpl.java:73-75 | `saveFrame()` pushes the same snapshot as `saveFrame(true, true)`: the items, the status map of the same records and the messages |
| MovieBuilder.GameMovieBuilderImpl.RestoreFrame | src/main/java/pt/up/fc/dcc/asura/builder/base/movie/GameMovieBuilderImpl.java:100-114 | on an empty stack nothing changes; otherwise the newest snapshot is popped, the items always come back, a saved status map is installed with its very records (so each player shows what its record holds now), and the messages come back only when saved |
| MovieBuilder.GameMovieBuilderImpl.AddFrame | src/main/java/pt/up/fc/dcc/asura/builder/base/movie/GameMovieBuilderImpl.java:117-120 | one new empty frame is appended and becomes current, so the current frame stays the last one |
| MovieBuilder.GameMovieBuilderImpl.AddItem | src/main/java/pt/up/fc/dcc/asura/builder/base/movie/GameMovieBuilderImpl.java:123-125 | the current frame gains one item, with no rotation and no scale |
| MovieBuilder.GameMovieBuilderImpl.AddRotatedItem | src/main/java/pt/up/fc/dcc/asura/builder/base/movie/GameMovieBuilderImpl.java:128-130 | the current frame gains one rotated item |
| MovieBuilder.GameMovieBuilderImpl.AddScaledItem | src/main/java/pt/up/fc/dcc/asura/builder/base/movie/GameMovieBuilderImpl.java:133-135 | the current frame gains one rotated and scaled item |
| MovieBuilder.GameMovieBuilderImpl.AddMessage | src/main/java/pt/up/fc/dcc/asura/builder/base/movie/GameMovieBuilderImpl.java:138-140 | the player's message in the current frame is set, and nothing else changes |
| MovieBuilder.GameMovieBuilderImpl.SetPoints | src/main/java/pt/up/fc/dcc/asura/builder/base/movie/GameMovieBuilderImpl.java:143-145 | only that player's points change in the current frame, its status being created when missing |
| MovieBuilder.GameMovieBuilderImpl.SetClassification | src/main/java/pt/up/fc/dcc/asura/builder/base/movie/GameMovieBuilderImpl.java:148-150 | only that player's classification changes in the current frame |
| MovieBuilder.GameMovieBuilderImpl.SetObservations | src/main/java/pt/up/fc/dcc/asura/builder/base/movie/GameMovieBuilderImpl.java:153-155 | only that player's observations change in the current frame |
| MovieBuilder.GameMovieBuilderImpl.WrongAnswer | src/main/java/pt/up/fc/dcc/asura/builder/base/movie/GameMovieBuilderImpl.java:158-167 | a frame is created when there is none; the player ends with WRONG_ANSWER, the message and 0 points, and no other status changes |
| MovieBuilder.GameMovieBuilderImpl.MarkReevaluation | src/main/java/pt/up/fc/dcc/asura/builder/base/movie/GameMovieBuilderImpl.java:177-179 | one player is set to REQUIRES_REEVALUATION with the message, its points kept |
| MovieBuilder.GameMovieBuilderImpl.MarkAll | src/main/java/pt/up/fc/dcc/asura/builder/base/movie/GameMovieBuilderImpl.java:175-180 | the loop marks every listed player |
| MovieBuilder.GameMovieBuilderImpl.FailedEvaluation | src/main/java/pt/up/fc/dcc/asura/builder/base/movie/GameMovieBuilderImpl.java:170-181 | a frame is created when there is none; every header player ends REQUIRES_REEVALUATION with the message and its points kept; no other status changes |
| MovieBuilder.GameMovieBuilderImpl.Blame | src/main/java/pt/up/fc/dcc/asura/builder/base/movie/GameMovieBuilderImpl.java:189-192 | the culprit gets the exception's classification, 0 points and the message |
| MovieBuilder.GameMovieBuilderImpl.MarkAllBut | src/main/java/pt/up/fc/dcc/asura/builder/base/movie/GameMovieBuilderImpl.java:194-202 | the loop marks every listed player except the culprit |
| MovieBuilder.GameMovieBuilderImpl.FailedEvaluationOf | src/main/java/pt/up/fc/dcc/asura/builder/base/movie/GameMovieBuilderImpl.java:184-203 | a frame is created when there is none; the culprit is blamed, every other header player is marked for re-evaluation with the same message, and no other status changes |
| MovieBuilder.RestoreKeepsLaterPoints | src/main/java/pt/up/fc/dcc/asura/builder/base/movie/GameMovieBuilderImpl.java:78-114 | one point, a save, seven points, a restore: the player still has 7 points, since the snapshot holds the record the second change wrote to |
| MovieBuilder.RestoreSharesWithEarlierFrame | src/main/java/pt/up/fc/dcc/asura/builder/base/movie/GameMovieBuilderImpl.java:78-120 | one point, a save, a new frame, a restore, five points: the first frame shows 5 as well, since both frames now hold the same record |
| Messaging.Command.GetAsString | src/main/java/pt/up/fc/dcc/asura/builder/base/messaging/Command.java:55-67 | fails with "not defined" exactly when the index is past the end, and with the uncaught index error exactly when it is negative; otherwise it is the argument's string form |
| Messaging.Command.GetAsInt | src/main/java/pt/up/fc/dcc/asura/builder/base/messaging/Command.java:73-85 | an index past the end fails with "not defined", a negative one with the uncaught index error; otherwise it is the parse of the string form, or "not an int" |
| Messaging.Command.GetAsBoolean | src/main/java/pt/up/fc/dcc/asura/builder/base/messaging/Command.java:127-139 | fails exactly when the index is past the end ("not defined") or negative (the uncaught index error); otherwise true exactly when the string form equals "true" ignoring case |
| Messaging.Command.GetAsFloat | src/main/java/pt/up/fc/dcc/asura/builder/base/messaging/Command.java:91-103 | an index past the end fails with "not defined", a negative one with the uncaught index error; an unparsable form fails with "not a float" |
| Messaging.AccessorsShareIndexCheck | src/main/java/pt/up/fc/dcc/asura/builder/base/messaging/Command.java:55-139 | every accessor fails with the same "not defined" exception past the end, and with the same uncaught index error below zero |
| Messaging.GetAsIntRoundTrip | src/main/java/pt/up/fc/dcc/asura/builder/base/messaging/Command.java:73-85 | an argument holding an int, or its decimal text, reads back as that int |
| Messaging.GetAsIntRejects | src/main/java/pt/up/fc/dcc/asura/builder/base/messaging/Command.java:80-83 | a form that is not a decimal int gives "not an int" |
| Messaging.GetAsBooleanRoundTrip | src/main/java/pt/up/fc/dcc/asura/builder/base/messaging/Command.java:127-139 | a Boolean reads back as itself, a null as false, and "TRUE" as true |
| Messaging.PlayerAction.constructor | src/main/java/pt/up/fc/dcc/asura/builder/base/messaging/PlayerAction.java:12-16 | a new action has no command and no messages |
| Messaging.PlayerAction.Log | src/main/java/pt/up/fc/dcc/asura/builder/base/messaging/PlayerAction.java:18-20 | the message is appended at the end, and the command is unchanged |
| Messaging.PlayerAction.SetCommand | src/main/java/pt/up/fc/dcc/asura/builder/base/messaging/PlayerAction.java:26-28 | only the command is replaced |
| Messaging.ActionTextReadsBack | src/main/java/pt/up/fc/dcc/asura/builder/base/messaging/PlayerAction.java:34-40 | the text starts with the command part and ends with "]]", and when no message holds a comma, the messages can be read back from it by splitting at commas |
| Manager.GameNameOfManagerClass | src/main/java/pt/up/fc/dcc/asura/builder/base/GameManager.java:40-42 | a manager class named `<game>Manager` gives the game name `<game>` |
| Manager.GameNameWithoutSuffix | src/main/java/pt/up/fc/dcc/asura/builder/base/GameManager.java:40-42 | a class name without "Manager" is the game name as it is |
| Manager.GameManager.GetMinPlayersPerMatch | src/main/java/pt/up/fc/dcc/asura/builder/base/GameManager.java:49-51 | one player is the default minimum |
| Manager.GameManager.GetMaxPlayersPerMatch | src/main/java/pt/up/fc/dcc/asura/builder/base/GameManager.java:58-60 | by default no int is above the maximum |
| Manager.GetName | src/main/java/pt/up/fc/dcc/asura/builder/base/GameManager.java:179-188 | the three failures in order (null action, no arguments, a first argument that is not a string); it succeeds exactly otherwise, with the first argument |
| Manager.UnnamedStep | src/main/java/pt/up/fc/dcc/asura/builder/base/GameManager.java:84-85 | registering the next player id, which is not yet registered, puts it last with a null name |
| Manager.ReevaluatedFromScratch | src/main/java/pt/up/fc/dcc/asura/builder/base/GameManager.java:84-87 | marking players in a frame with no statuses gives each a default status marked for re-evaluation |
| Manager.GameManager.constructor | src/main/java/pt/up/fc/dcc/asura/builder/base/GameManager.java:33 | a manager starts without a recorder |
| Manager.GameManager.Manage | src/main/java/pt/up/fc/dcc/asura/builder/base/GameManager.java:75-98 | always a fresh recorder. A state class that is not a `GameState` escapes as an exception and records nothing. A failed construction registers every player unnamed and marks them all for re-evaluation in one frame. Otherwise a `PlayerException` or `BuilderException` from the game is recorded as its kind requires, and any other runtime exception escapes with its message and records nothing |
| Manager.GameManager.RegisterUnnamed | src/main/java/pt/up/fc/dcc/asura/builder/base/GameManager.java:84-85 | the loop registers every player id, in order, with a null name |
| Manager.GameManager.RecordCreationFailure | src/main/java/pt/up/fc/dcc/asura/builder/base/GameManager.java:82-88 | after the catch the header lists every player and the only frame marks each one for re-evaluation with the exception's message |
| Manager.GameManager.Route | src/main/java/pt/up/fc/dcc/asura/builder/base/GameManager.java:91-97 | a `PlayerException` goes to the blaming overload, a `BuilderException` to the systemic one, and a normal end or an uncaught runtime exception changes nothing |
| Manager.GameManager.GetGamePlayerStatus | src/main/java/pt/up/fc/dcc/asura/builder/base/GameManager.java:119-134 | before `manage` (no recorder) a `NullPointerException`; otherwise null exactly when there are no frames, and else the player's record in the last frame, created when missing |
| Server.GetRequest | src/main/java/pt/up/fc/dcc/asura/builder/GameServer.java:161-168 | "/" without a request line; an error (None) for a line with fewer than two space-separated tokens; otherwise a target free of spaces and '?' |
| Server.GetRequestOfRequestLine | src/main/java/pt/up/fc/dcc/asura/builder/GameServer.java:161-168 | for a request line "verb path?query version", the target is the path |
| Server.GetExtension | src/main/java/pt/up/fc/dcc/asura/builder/GameServer.java:184-190 | null exactly when there is no '.'; otherwise the dot-free suffix after the last '.' |
| Server.GetExtensionOf | src/main/java/pt/up/fc/dcc/asura/builder/GameServer.java:184-190 | the extension of "base.ext" is ext |
| Server.ReplaceSlash | src/main/java/pt/up/fc/dcc/asura/builder/GameServer.java:65-66 | with a separator other than '/', no '/' is left, and a text without '/' is unchanged |
| Server.ReplaceSlashBySlash | src/main/java/pt/up/fc/dcc/asura/builder/GameServer.java:65-66 | replacing '/' by "/" changes nothing, which is why the code skips it |
| Server.ResourceTargetMeaning | src/main/java/pt/up/fc/dcc/asura/builder/GameServer.java:65-71 | for every target and separator, the target with '/' rewritten to the separator is moved under `sep images sep` exactly when the text after its last '.' is png, svg, jpg, jpeg or gif, and is otherwise only rewritten; skipping the rewrite on a '/' system changes nothing; a separator without '/' leaves no '/' |
| Server.ResourceTargetOnSlashSystem | src/main/java/pt/up/fc/dcc/asura/builder/GameServer.java:68-71 | on a '/' system "x.png" becomes "/images/x.png", and "x.html" stays as it is |
| Server.Output.Write | src/main/java/pt/up/fc/dcc/asura/builder/GameServer.java:172-175 | writing appends to the output |
| Server.FieldLines | src/main/java/pt/up/fc/dcc/asura/builder/GameServer.java:173-174 | one line per field name; what each line holds is stated by `Server.FieldLineAt` |
| Server.FieldLineAt | src/main/java/pt/up/fc/dcc/asura/builder/GameServer.java:173-174 | the line of each field is `name: value`, with "null" for a null value |
| Server.WriteFields | src/main/java/pt/up/fc/dcc/asura/builder/GameServer.java:173-174 | the loop writes one terminated field line per key, in insertion order |
| Server.SendResponseHeader | src/main/java/pt/up/fc/dcc/asura/builder/GameServer.java:170-176 | writes the status line, the field lines in insertion order and an empty line, each ended by '\n' |
| Server.HeaderTextLines | src/main/java/pt/up/fc/dcc/asura/builder/GameServer.java:170-176 | read back by lines, the header is the status line, one line per field, a blank line and nothing after |
| Server.IntToStringIsDigits | src/main/java/pt/up/fc/dcc/asura/builder/GameServer.java:172 | the status code's text holds no line break |
| Server.CheckArgs | src/main/java/pt/up/fc/dcc/asura/builder/GameServer.java:241-258 | the usage message exactly when there are fewer than 2 arguments or the rest is not triples; too few players exactly when well shaped and below the 32-bit `min*3+2`; too many exactly when well shaped, not too few and above the 32-bit `max*3+2`; proceeding exactly otherwise, and then, when the bounds do not wrap, the player count lies between the minimum and the maximum |
| Server.DefaultBoundsAcceptEveryShape | src/main/java/pt/up/fc/dcc/asura/builder/GameServer.java:252-258 | with the default bounds every well-shaped line with at least one player proceeds |
| Server.DefaultBoundsRefuseNoPlayer | src/main/java/pt/up/fc/dcc/asura/builder/GameServer.java:252-254 | with the default bounds a line with no player is refused as too few |
| Server.ReadPlayers | src/main/java/pt/up/fc/dcc/asura/builder/GameServer.java:263-266 | the loop reads one (language, program, player id) triple per player, from index 2 on, with the program path placed under the game slug `args[0]` and the separator |
| Server.LanguageOf | src/main/java/pt/up/fc/dcc/asura/builder/GameServer.java:205-217 | "java" selects Java; "js", "javascript" and "es6" select JavaScript; anything else fails with "Language not found!" |
| IO.CutLine | src/main/resources/wrappers/es6/IOProcessor.js:88-91 | the line and the rest make up the buffer; without a '\n' the line is empty and the buffer is kept; otherwise the line ends at the first '\n' |
| IO.CutWrittenLine | src/main/resources/wrappers/js/IOProcessor.js:84-87 | a line written with its '\n' is cut back whole, and what follows is kept |
| IO.IOProcessor.constructor | src/main/resources/wrappers/es6/IOProcessor.js:12-14 | the buffer starts empty |
| IO.IOProcessor.Readline | src/main/resources/wrappers/es6/IOProcessor.js:83-94 | standard input is read exactly when the buffer is empty, and the line returned and the buffer kept are the cut of the buffer |
| IO.IOProcessor.Writeln | src/main/resources/wrappers/es6/IOProcessor.js:101-104 | writes the message followed by exactly one '\n' |
| IO.ReadBackWritten | src/main/resources/wrappers/js/IOProcessor.js:79-100 | what a run of `writeln` calls writes, with no line break in any message, is read back by `readline` message by message, each with its '\n' |
| IO.WritelnRun | src/main/resources/wrappers/js/IOProcessor.js:97-100 | a run of `writeln` calls writes the messages, each ended by '\n' |

The prototype-based wrapper (src/main/resources/wrappers/js/IOProcessor.js) does the same as the
ES6 class, line for line. `IO.IOProcessor` models both.

## Left out

- `GameManager.Streamer`: process streams, a reader thread and timeouts. This is input, output and concurrency.
- The abstract `manage(GameState, Map)` of each game: not part of this model. `Manager.GameManager.Manage` has the
  game record nothing before it ends; `Manager.GameManager.Route` states the routing for a recorder in any state.
- `initializeGameState` class loading and instantiation by reflection: its outcome is the parameter `init`.
- `getGameMovie`, `getGameMovieString`, `exportGameMovie`, and the recorder's `getMovie`, `toString` and `toFile`:
  JSON serialisation through Gson, which is not part of this model. The movie is the field `movie`.
- `CopyUtils`: only what it does to a frame is modelled. The item list and the maps are new, and the
  `GamePlayerStatus` records in the status map are the same objects (`MovieBuilder.Snapshot` holds them).
- `Json`, `JsonObject`, the `Compression` choice and the wiring of the compressors: not part of this model.
- `FileUtils`, `Language` and its subclasses: file system walks, the compiler and process creation. Only the slug
  dispatch is modelled (`Server.LanguageOf`).
- The `GameServer` socket loop, date formatting, `openUrl`, file copying and reflection in `getGameManager` /
  `getGameState`. The file-system separator is a parameter.
- `Server.ReadPlayers`: the program path is `args[0] + sep + args[i+1]`. The joining of `Paths.get` is modelled,
  but not its normalisation: an empty part or repeated and trailing separators are not removed.
- `getBytes` on the response header: the model writes the text (`Server.SendResponseHeader`), not its bytes.
- Both `PlayerWrapper.js` files: template hooks and a start-up script.
- `readUntilByte` in both `IOProcessor.js` files: the blocking read is the parameter `read` of `IO.IOProcessor.Readline`.
- `Command.getAsFloat` and `getAsDouble` parsing: floating-point parsing is a parameter (`parsed`). `getAsDouble`,
  which is the same index check and parse-or-fail with "not a double", is not a separate member.
- `Command.setName` and `setArgs`: `Command` is a value, and a new value replaces it.
- `PlayerAction.toString` and `Command.toString`: they call `Arrays.toString` and `Object.toString` on arguments.
  The model gives each argument kind its string form (`Messaging.Form`).
- `GameState` and `StateUpdate`: no behaviour in the repository files.
- Player ids come as a sequence in the iteration order of the `HashMap` of processes. That order is a parameter, and
  `Manager.GameManager.Manage` requires the ids to be distinct, as map keys are.
- `Manager.GetName`: requires the action to have a command. A null command throws `NullPointerException` in the
  source; that path is not modelled.
- `Manager.GameManager.GetGameName` has no contract of its own. The game-name properties are the lemmas
  `Manager.GameNameOfManagerClass` and `Manager.GameNameWithoutSuffix`. `replace` makes one left-to-right pass, so
  "ManaManagerger" gives "Manager"; that case is not stated.
- Builder operations that dereference a null current frame (`saveFrame`, `addItem`, `addMessage` and the status
  setters before the first `addFrame`) throw `NullPointerException` in the source. The model requires a current
  frame for them.
- `Server.CheckArgs`: the bounds `min*3+2` and `max*3+2` are computed in 32-bit arithmetic (`Wrap32`), and the
  contract states each verdict exactly in terms of those wrapped bounds. With the default maximum,
  `Integer.MAX_VALUE*3+2` wraps to `Integer.MAX_VALUE`, so the maximum check never refuses. Only the reading in
  terms of player counts (minimum <= players <= maximum) is stated just for bounds that do not wrap.
- `Server.GetRequest`: an out-of-range `parts[1]` (or an empty first piece) throws `ArrayIndexOutOfBoundsException`
  in the source; the model returns None there instead of requiring the line to be well formed.
- `Lzw.CompressedDecodes`: the `(char)` cast of codes from 0x10000 on loses information, so decoding is proved only
  while the dictionary size plus the number of codes stays within 0x10000.
- `Lzw.CompressUnits`: `(int) args[0]` on a non-`Integer` argument throws `ClassCastException`. The argument is
  typed as an int.
- `Lz77.Compress`: the same `(int) args[0]` cast (LZ77.java:26) throws `ClassCastException` on a non-`Integer`
  argument. The window argument is typed as an int.
- `JavaText.ParseInt`: `Integer.parseInt` reads every Unicode decimal digit through `Character.digit`, so "١٢"
  (Arabic-Indic digits) parses as 12 in the source. The model accepts only '0' to '9' and fails on other digits.
- `Lz77.RoundTrip`: proved when the casts of distance and length to `char` lose nothing (a window below 0x10000, or
  input of at most 0x10000 units), which covers the default window.

## Findings

| source | as written | input that shows it | evidently intended | confidence | as-written member | corrected member |
|---|---|---|---|---|---|---|
| src/main/java/pt/up/fc/dcc/asura/builder/base/utils/compression/LZ77.java:71-77 | `getMatchedLen` returns 0 when every compared unit matches, so `compress` reports such a full match as length 1 | "abab": at position 2 the candidate at 0 matches "ab" fully, yet the token is (2, 1, 'b') instead of (2, 2, 0xFF) | return the number of matching units, `n`, after the loop | not executed | Lz77.FullMatchReportedAsOne | Lz77.IntendedMatchedLenIsLongest |

The compressor model (`Lz77.Compress`) keeps the code as written, because its output is what the program produces.
`Lz77.RoundTrip` shows that the shortened matches still decode correctly: the defect costs compression, not
correctness. `Lz77.MatchedLenVersusIntended` relates the two definitions on all inputs.
