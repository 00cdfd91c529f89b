# Text chunking of the RAG seeding utility

The seeding console application generates an employee handbook with a chat
model, cuts the text into chunks, embeds each chunk and uploads one search
document per chunk. This project models the one piece of local logic in that
pipeline, the static local function `ChunkText(string text, int maxChunkSize)`,
and proves what its loop guarantees.

`ChunkText` keeps a cursor `start`. Each iteration proposes a cut at
`start + maxChunkSize`, clamped to the text length. If that cut is inside the
text, it asks `LastIndexOf('.', end)` and `LastIndexOf('\n', end)` for the last
sentence end and, when one lies at or after `start`, moves the cut to just
after it. The piece `text[start..end]` is trimmed and appended, and the cursor
moves to the cut.

- `strings.dfy`, module `Strings`: the .NET operations the loop calls.
  `IsWhiteSpace` is `char.IsWhiteSpace`. `Trim` is `String.Trim()`, built from
  `LeadingWhiteSpace` and `TrimEnd`. `LastIndexOf` is
  `String.LastIndexOf(char, int)`, which searches backward from `startIndex`
  inclusive and throws `ArgumentOutOfRangeException` for an index outside a
  non-empty string. The exception is the `ArgumentOutOfRange` case of `Result`.
- `chunking.dfy`, module `Chunking`: `CutAt` is one iteration's cut and
  `Pieces` the reference definition of the whole scan. `ChunkTextSpec` is the
  outcome as a function. `ChunkText` is the loop itself, a method with a
  `while` loop proved equal to `ChunkTextSpec`. The lemmas state the tiling,
  the size bound, the cut rule and the trimming.

Three points the code decides that its names and comments leave open:

- The window is inclusive at its right end. A `'.'` or `'\n'` exactly at
  `start + maxChunkSize` is kept, and that piece is `maxChunkSize + 1` long.
  This can happen for the last piece too (`"ab."` with size 2 gives one piece
  of 3 characters, `SeparatorAtLimitExample`). The parameter's name,
  `maxChunkSize`, suggests no chunk is longer than that; the code allows one
  character more, and the model follows the code.
- A piece that is only white space (a lone `"\n"`) trims to `""`, and the
  empty chunk is kept (`BlankPieceExample`).
- `maxChunkSize` is not checked. A negative size throws on the first
  iteration for non-empty text. A size of 0 terminates only when every
  character is a sentence end; otherwise it cuts an empty piece at the first
  other character and never advances (`ZeroSizeStalls`). `Halts` holds the
  inputs on which the function terminates, by returning or by throwing. That
  it holds exactly those rests on one step, proved as the last `ensures` of
  `CutAt` and restated by `Halts`: for a size of at least 0, a cut fails to
  advance only at a character that is not a sentence end with size 0. The
  only caller passes 200.

`start + maxChunkSize` is a 32-bit `int` sum in the source. It cannot
overflow: a later iteration exists only when `start + maxChunkSize` is below
the text length, and .NET strings are shorter than 2^30 characters. So the
model uses unbounded integers.

## Model

| member | source | states |
|---|---|---|
| `Strings.IsWhiteSpace` | src/Blazor.AI.SeedData/Program.cs:282 | `char.IsWhiteSpace`, the test `Trim` applies: among ASCII characters exactly the space and U+0009..U+000D; every other white-space character lies in U+0085..U+3000 |
| `Strings.LeadingWhiteSpace` | src/Blazor.AI.SeedData/Program.cs:282 | the count of leading characters dropped by `Trim`: all before it are white space, the one at it is not |
| `Strings.TrimEnd` | src/Blazor.AI.SeedData/Program.cs:282 | the result is a prefix of the input; everything dropped is white space; the result does not end with white space |
| `Strings.Trim` | src/Blazor.AI.SeedData/Program.cs:282 | `String.Trim()`: the result is the infix between the leading and the trailing white space, everything cut off is white space, and the result neither starts nor ends with white space |
| `Strings.TrimEmptyIff` | src/Blazor.AI.SeedData/Program.cs:282 | a piece trims to `""` if and only if it is all white space |
| `Strings.LastIndexAtOrBefore` | src/Blazor.AI.SeedData/Program.cs:268-269 | the largest index `j <= i` holding the character, or -1 when none does |
| `Strings.LastIndexOf` | src/Blazor.AI.SeedData/Program.cs:268-269 | `String.LastIndexOf(char, startIndex)`: -1 on an empty string; throws exactly when `startIndex` is outside a non-empty string; otherwise the last occurrence at or before `startIndex`, inclusive |
| `Chunking.CutAt` | src/Blazor.AI.SeedData/Program.cs:263-278 | one iteration's cut lies in `start` .. `start + maxChunkSize + 1`, within the text; it is the text length when the hard limit is past the text; a cut at `start + maxChunkSize + 1` follows a sentence end; the cut does not advance if and only if the size is 0 and `text[start]` is not a sentence end |
| `Chunking.CutAtRule` | src/Blazor.AI.SeedData/Program.cs:266-278 | when the hard limit is inside the text: if the window `[start, start + maxChunkSize]` holds a `'.'` or `'\n'`, the cut is just after the last one; otherwise it is at the hard limit |
| `Chunking.Pieces` | src/Blazor.AI.SeedData/Program.cs:260-285 | the reference definition of the scan; every untrimmed piece is non-empty, because every iteration advances `start` |
| `Chunking.TrimAll` | src/Blazor.AI.SeedData/Program.cs:282 | one chunk per piece |
| `Chunking.TrimAllAt` | src/Blazor.AI.SeedData/Program.cs:282 | the k-th chunk is the k-th piece trimmed, in order |
| `Chunking.Halts` | src/Blazor.AI.SeedData/Program.cs:257-285 | the inputs on which the loop terminates; for a size of at least 0, exactly those on which every iteration's cut lies past its `start` |
| `Chunking.ChunkTextSpec` | src/Blazor.AI.SeedData/Program.cs:255-289 | the outcome of the function on inputs where the loop terminates (`Halts`: any size other than 0, or size 0 when every character is `'.'` or `'\n'`): it throws if and only if the text is non-empty and the size negative, and otherwise returns at most one chunk per character |
| `Chunking.ChunkText` | src/Blazor.AI.SeedData/Program.cs:255-289 | the loop, with its locals `start` and `end` and the growing chunk list, returns exactly `ChunkTextSpec`: the trimmed pieces, or the exception thrown for a negative size |
| `Chunking.PiecesTile` | src/Blazor.AI.SeedData/Program.cs:260-285 | the untrimmed pieces concatenate back to the text: each starts where the previous one ended, with no gap or overlap, and being non-empty only the last reaches the end of the text |
| `Chunking.PiecesBounded` | src/Blazor.AI.SeedData/Program.cs:263-278 | every piece is at most `maxChunkSize + 1` long, and one of that length ends with a sentence end found at the hard limit |
| `Chunking.PiecesCount` | src/Blazor.AI.SeedData/Program.cs:260-285 | there are at most as many pieces as characters after `start`, and none exactly when `start` is at the end of the text |
| `Chunking.FirstPieceCutRule` | src/Blazor.AI.SeedData/Program.cs:266-278 | a piece that does not reach the end of the text ends with a sentence end, or it ends at the hard limit with no sentence end inside it or at the limit |
| `Chunking.PiecesCutRule` | src/Blazor.AI.SeedData/Program.cs:260-285 | every piece but the last ends with `'.'` or `'\n'`, or is exactly `maxChunkSize` long, contains none, and is followed by a character that is not one |
| `Chunking.ChunkTextChunks` | src/Blazor.AI.SeedData/Program.cs:257-288 | on inputs where the loop terminates (`Halts`: any size other than 0, or size 0 when every character is `'.'` or `'\n'`) and the size is at least 0, the function returns normally with at most one chunk per character, one per piece, each the piece trimmed and with no white space at either end |
| `Chunking.ChunkTextOutcome` | src/Blazor.AI.SeedData/Program.cs:257-269 | the function throws if and only if the text is non-empty and the size negative; empty text yields an empty list for any size |
| `Chunking.ZeroSizeStalls` | src/Blazor.AI.SeedData/Program.cs:260-284 | with size 0 and a character that is not a sentence end, the cuts advance by one up to the first such character, where the cut equals `start`, so the loop never ends |
| `Chunking.SeparatorAtLimitExample` | src/Blazor.AI.SeedData/Program.cs:263-277 | `"ab."` with size 2 is one piece of 3 characters, because the `'.'` at the hard limit is found |
| `Chunking.BlankPiecePieces` | src/Blazor.AI.SeedData/Program.cs:260-285 | `"A.\nB"` with size 1 is cut into `"A."`, `"\n"` and `"B"` |
| `Chunking.BlankPieceTrims` | src/Blazor.AI.SeedData/Program.cs:282 | those three pieces trim to `"A."`, `""` and `"B"` |
| `Chunking.BlankPieceExample` | src/Blazor.AI.SeedData/Program.cs:282 | the whitespace-only piece gives an empty chunk, which is kept: the result is `["A.", "", "B"]` |

## Left out

- Chunking.ChunkText: requires `Halts`, because with `maxChunkSize == 0` and a character other than `'.'` or `'\n'` the source never returns normally: it keeps appending empty strings until the list exhausts memory; a terminating Dafny method cannot model that.
- Characters are modelled one Dafny `char` per Unicode scalar value, while .NET counts UTF-16 code units. The model is exact for text whose characters all lie in the Basic Multilingual Plane; it does not capture a character outside it counting twice in `Length`, in `maxChunkSize` and in `LastIndexOf` positions, nor a cut that falls inside a surrogate pair.
- Configuration and user-secret loading, with its throw on a missing setting: I/O.
- Construction of the Azure OpenAI and Azure AI Search clients, deleting and creating the index, the index schema, document upload and the test search: calls into external services with no local logic.
- Generating the handbook and the questions with the chat model, writing and deleting the text files, opening them with `Process.Start`: network, file and process I/O.
- `GetEmbeddingAsync`: a wrapper over the embedding service returning a float vector; its only local rule, an empty vector for null or white-space text, is not modelled.
- The loop that builds one search document per chunk: it depends on `Guid.NewGuid` and remote embeddings.
- `RAGSearchDocument`: a data-transfer class with no behaviour.
- `SearchPlugin` and `TimeInformationPlugin`: adapters over the search service and the system clock.
