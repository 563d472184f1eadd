# symbolicate.py, modelled in Dafny

`symbolicate.py` reads a macOS crash report and writes it back with the raw
addresses of its backtrace lines replaced by symbol names. The script works
in these steps:

1. It finds the `Binary Images:` header and exits with status 1 when there is none.
2. It reads every line after the header that fits the image-entry pattern
   `imageRE` into a `BinaryImage`. Each image has a low and a high address, a
   name, a UUID, a path and the default architecture `x86_64`.
3. It matches every line against the backtrace pattern `btRE`. It appends
   the line's address to the list of every image whose inclusive range holds
   it.
4. For each image that collected addresses, it runs `xcrun atos` once. It
   splits the output on line feeds and pairs the addresses with those lines
   by position, building `addrToSymbol`.
5. It writes every line back. A backtrace line whose address got a symbol
   becomes `prefix + "0x%x" % addr + " " + symbol + "\n"`.

The model is a set of pure functions over the lines read, given as a
`seq<string>`. Each line in the `seq<string>` is as `fileinput` delivers
it: never empty, and ending with its line feed unless it is the last. The two
regular expressions are written out as the backtracking searches Python's
`re` engine performs. Two kinds of lemma show the search matches exactly the
pattern's language:

- a soundness lemma: a match means the line has the pattern's form with the
  returned groups;
- a completeness lemma: every line of that form matches.

Python 2 character classes are used throughout:

- `\s` is `[ \t\n\r\f\v]`.
- `\w` is ASCII letters, digits and `_`.
- `.` is anything but a line feed.

Addresses are `nat`, as Python integers are unbounded.

Modules follow the script's structure:

| file | module | part of the script |
|---|---|---|
| `wrappers.dfy` | `Wrappers` | `Option`, and the keep-the-matches loop `Somes` |
| `chars.dfy` | `Chars` | character classes and greedy runs (`Span`) |
| `hex.dfy` | `Hex` | `"0x%x" % n` and `int(t, 16)` |
| `image_line.dfy` | `ImageLine` | `imageRE.match` |
| `image_table.dfy` | `ImageTable` | `BinaryImage`, `match`, the image-table loop |
| `backtrace.dfy` | `Backtrace` | `btRE.match` |
| `grouping.dfy` | `Grouping` | `addrsByImage` and the grouping loop |
| `resolution.dfy` | `Resolution` | the `atos` arguments, `split("\n")`, the zip into `addrToSymbol` |
| `symbolicate.dfy` | `Symbolicate` | `seek`, the fatal exit, the rewrite loop, the whole run |

Three things outside the program are parameters:

- The `atos` subprocess is a `Resolver`. It maps the argument vector to the
  captured output, or to `None` when `check_output` raises.
- The order in which `dict.items()` visits the images is a sequence of image
  positions. `IsVisitOrder` says it lists every key once. `Resolve`, `Run`
  and `RunSpec` accept only such orders (`IsRunOrder` for a whole run), as
  those are the only orders `dict.items()` can produce.
- Images are keyed by their position in the table. The dictionary is keyed
  by image objects, so two equal entry lines still give two keys.

### Behaviour of the code worth knowing

- **Table stop.** The table loop stops only at a line of length zero
  (symbolicate.py:58-59), and `fileinput` never yields one. Every line but
  possibly the last ends with a line feed, and the last is not empty either.
  So the loop scans to the end of input, skipping every line that is no
  entry. A blank line does not end the table. `TableEnd` models the test as
  written.
- **Address lists.** The grouping loop appends every occurrence of an
  address and does not deduplicate (symbolicate.py:87-90). `GroupCount`
  proves that an address on `n` backtrace lines appears `n` times.
- **Resolver output with the wrong number of lines.**
  - Output with fewer lines than addresses raises part-way through the zip.
    The entries already written stay (`ZipKeys`, `BatchKeys`), and the image
    is warned about.
  - Output with extra lines, such as the empty piece after the last line
    feed, is accepted without a warning.
- **Rewriting twice.** Nothing marks a line as already rewritten, and a
  rewritten line still matches `btRE` (`RewrittenStillMatches`). Whether a
  second rewrite changes it depends on the line:
  - Usually whitespace separates the library token from the address. Then
    `btRE` matches with every greedy run at its longest, and the rewritten
    line matches with the same prefix and the rewritten address. Rewriting
    again gives the same line (`RewriteGreedyIdempotent`).
  - When no whitespace separates the token from the address, the search
    backtracks into the token. After a rewrite the search can then take a
    hex literal inside the symbol as the address. For `0 a0x1 b` and the
    table `{1: "0x2 b", 2: "c"}`, the first rewrite gives `0 a0x1 0x2 b` and
    the second `0 a0x1 0x2 c` (`RewriteTwiceDiffers`).
- **Architectures.** The code reads no architecture from the report: every
  image gets `x86_64` (symbolicate.py:9, 67). It has no other line dialect
  and no debug-symbol lookup.

## Model

| member | source | states |
|---|---|---|
| ImageTable.MatchedAddressCount | symbolicate.py:17-18 | `match` holds for exactly `hiAddr - lowAddr + 1` addresses, both bounds included, and for none when the range is inverted, which nothing prevents |
| Symbolicate.SeekFirst | symbolicate.py:40-46 | `seek` returns `n` only when line `n` (counting from one) is the first line the pattern accepts; it returns `None` exactly when the pattern accepts no line |
| Symbolicate.SeekFromFirst | symbolicate.py:42-46 | the scan from any line on returns the first accepted line at or after it, and nothing exactly when there is none |
| Symbolicate.Seek | symbolicate.py:40-46 | a found position is between 1 and the number of lines, and the pattern accepts the line it names |
| Symbolicate.Run | symbolicate.py:49-53 | the run is the fatal exit exactly when `seek` finds no `Binary Images:` line; the exit has status 1 and the script's message; otherwise as many lines are written as were read |
| Symbolicate.RunSpec | symbolicate.py:102-114 | the exit happens exactly when no line starts with `Binary Images:`; otherwise line `j` written is line `j` read passed through the rewrite with the table the resolution loop built, and the warnings are those of that loop |
| Symbolicate.RewriteLineSpec | symbolicate.py:102-112 | a line changes only when `btRE` matches it and its address has a symbol; then it is the prefix group, the address in `%x` form (which parses back to the same address), a space, the symbol and a line feed |
| Symbolicate.RewrittenStillMatches | symbolicate.py:112 | a rewritten line whose symbol has no line feed still matches `btRE`, so the rewrite is not guarded against being applied twice |
| Symbolicate.RewrittenGreedy | symbolicate.py:112 | a line matched with every greedy run at its longest is rewritten to one that matches the same way, with the same prefix, the `%x` form of the address and the symbol as groups |
| Symbolicate.RewriteGreedyIdempotent | symbolicate.py:102-112 | when `btRE`, if it matches the line, matches it with every greedy run at its longest, and no symbol holds a line feed, rewriting the line twice gives the same line as rewriting it once |
| Symbolicate.RewriteTwiceDiffers | symbolicate.py:102-112 | for the line `0 a0x1 b` and the table `{1: "0x2 b", 2: "c"}`, the first rewrite gives `0 a0x1 0x2 b` and the second `0 a0x1 0x2 c`, so the rewrite is not idempotent in general |
| Symbolicate.RunLines | symbolicate.py:102-114 | a written line differs from the line read only for a backtrace line whose address lies in some image's range; the new line still matches `btRE` |
| Symbolicate.ResolveNoNewline | symbolicate.py:92-98 | no symbol in `addrToSymbol` contains a line feed |
| Symbolicate.TableInRange | symbolicate.py:84-98 | an address gets a symbol only when it lies in the range of some image of the table |
| Symbolicate.ResolvedInRange | symbolicate.py:84-98 | the same, for the table the run builds from the images after the header |
| Symbolicate.RunWarnings | symbolicate.py:92-100 | in a run past the header, image `k` is warned about exactly when it collected addresses and its `atos` call raised or gave fewer lines than addresses |
| Symbolicate.RunResolved | symbolicate.py:92-98 | in a run past the header, the address at position `i` of image `k`'s list maps to line `i` of that image's `atos` output when that position is its last one reached and no image visited later holds the address |
| Symbolicate.RunResolvedLine | symbolicate.py:102-112 | under the same conditions, every backtrace line with that address is written as its prefix group, the address in `%x` form, a space and that output line |
| Symbolicate.Items | symbolicate.py:92 | every entry visited is a key of `addrsByImage`, with that key's image and whole address list |
| Symbolicate.ItemsInOrder | symbolicate.py:92 | when every position in the order is a key, exactly those keys are visited, in that order |
| Symbolicate.VisitsEachImage | symbolicate.py:92 | in an order `dict.items()` may produce, the loop visits every image that collected addresses exactly once |
| Symbolicate.SeekFrom | symbolicate.py:42-45 | a position found from line `i` on lies after `i`, and the pattern accepts the line it names |
| Hex.ParseFormat | symbolicate.py:62-63 | `int("0x%x" % n, 16) == n` for every address |
| Hex.FormatParse | symbolicate.py:112 | a hex literal without leading zeros is exactly what `"0x%x"` writes for its value |
| Hex.FormatHex | symbolicate.py:28 | `"0x%x"` writes `0x` and lower-case hex digits without leading zeros |
| Hex.HexDigits | symbolicate.py:28 | the digits `%x` writes have no leading zero, and are `0` exactly for zero |
| Hex.HexDigitsValue | symbolicate.py:28 | the digits written for `n` have the value `n` |
| Hex.CanonicalHexDigits | symbolicate.py:62-63 | digits without leading zeros are what `%x` writes for their value |
| Hex.DigitChar | symbolicate.py:28 | the digit written for a value below sixteen is a lower-case hex digit of that value |
| Hex.HexRunIsLiteral | symbolicate.py:55 | `0x`, a hex digit and the longest hex run after them form a literal `(0x[0-9a-f]+)` captures |
| ImageLine.MatchImageLine | symbolicate.py:55 | the low and high groups are hex literals, the name and path groups hold no line feed, and the UUID group is a non-empty run of `[0-9A-F-]` |
| ImageLine.MatchImageLineSound | symbolicate.py:55 | a matched line is leading whitespace, the low address, whitespace, `-`, whitespace, the high address, whitespace, the name, whitespace, `<`, the UUID, `>`, whitespace, the path and a line feed, with exactly the returned groups |
| ImageLine.MatchImageLineIff | symbolicate.py:55 | `imageRE` matches a line exactly when the pattern fits it at some positions |
| ImageLine.MatchImageLineComplete | symbolicate.py:55 | every line the pattern fits is matched |
| ImageLine.MatchPath | symbolicate.py:55 | `\s*(.*)\n` matches at a position exactly when a line feed follows it; the path runs up to the first such line feed after the whitespace |
| ImageLine.FindName | symbolicate.py:55 | the lazy name group ends at the first position from which the rest of the pattern fits, and the name before it holds no line feed |
| ImageLine.MatchTail | symbolicate.py:55 | a match of the pattern after the name group is whitespace, `<`, a UUID, `>`, whitespace, a path and a line feed |
| ImageLine.MatchRange | symbolicate.py:55 | a match of the pattern before the name group is two hex literals separated by whitespace and a `-`, with both hex runs and the whitespace after the high literal taken whole, so the name starts at the first character after it that is not whitespace |
| ImageLine.MatchPathTaken | symbolicate.py:55 | the greedy `\s*` before the path gives back only when no line feed follows the whole whitespace run; the path then is the empty text at the last line feed |
| ImageLine.MatchTailTaken | symbolicate.py:55 | a tail match starts the path where the greedy `\s*` after `>` leaves it |
| ImageLine.FindNameTail | symbolicate.py:55 | the tail the lazy name search returns is the tail match at the name end it stopped at |
| ImageLine.MatchImageLineTaken | symbolicate.py:55 | the groups `imageRE` returns are cut at positions where the pattern fits, every greedy run before the name is taken whole, the path starts where the greedy `\s*` leaves it, and no shorter name lets the rest of the pattern fit |
| ImageLine.RangeTakenUnique | symbolicate.py:55 | the positions of the part before the name are fixed by the line once its runs are taken whole |
| ImageLine.TailTakenUnique | symbolicate.py:55 | for one name end, the positions of the part after the name are fixed by the line once the path is taken as the engine takes it |
| ImageLine.EngineShapeUnique | symbolicate.py:55 | the positions the engine takes are the only ones of their kind, so the five groups are determined by the line |
| ImageLine.MatchTailAt | symbolicate.py:55 | once the rest of the pattern fits after a name, it also fits from every later position up to the `<` |
| ImageLine.MatchRangeAt | symbolicate.py:55 | where the pattern fits, the range search succeeds and hands the name search a start no later than the `<` |
| ImageLine.FindNameFrom | symbolicate.py:55 | the lazy name search succeeds from any start that reaches, with no line feed in between, a position where the UUID and path tail fits: it moves past every character but a line feed |
| ImageLine.GroupsForm | symbolicate.py:55 | the groups cut out where the pattern fits rebuild the line with whitespace between them |
| ImageTable.ImageFromLineSpec | symbolicate.py:60-67 | a line gives an image exactly when it has the entry form at some positions, and exactly when it has it at the positions the engine takes; the image is built from groups that rebuild the line, with the architecture `x86_64` |
| ImageTable.ImageFromShape | symbolicate.py:55-67 | at the positions the engine takes, the image's bounds are the two literals there read in base 16, its name, UUID and path are the text of those groups, and its architecture is `x86_64`; as those positions are unique, the line fixes the image |
| ImageTable.TableEnd | symbolicate.py:57-59 | the loop stops at the first line of length zero, or at the end of input when there is none |
| ImageTable.ParseImageTable | symbolicate.py:56-69 | the table has at most one image per line before the stop, each with the default architecture |
| ImageTable.ParseImageTableSpec | symbolicate.py:56-69 | the table holds one image per entry line before the stop, in line order, and nothing else |
| Wrappers.SomesSpec | symbolicate.py:60-69 | the keep-the-matches loop yields exactly the matches, in input order, one per matching position |
| Wrappers.SomesMembers | symbolicate.py:60-69 | every value kept is one of the matches |
| Backtrace.MatchFrame | symbolicate.py:76 | a `btRE` match starts the line with its prefix group, its address group is a hex literal and its suffix has no line feed |
| Backtrace.MatchFrameSound | symbolicate.py:76 | a matched line is the prefix (digits, whitespace, a `[\w.]` token, whitespace), the address, one whitespace character, the suffix and a line feed, with exactly the returned groups |
| Backtrace.MatchFrameComplete | symbolicate.py:76 | every line of that form matches `btRE` |
| Backtrace.FrameAtGroups | symbolicate.py:76 | once the address start is fixed, the address group is the longest hex run and the suffix runs to the next line feed |
| Backtrace.FindAddressFirst | symbolicate.py:76 | whenever some cuts fit, the backtracking search returns fitting cuts, and no fitting cuts come before them in the engine's order: longer digit runs first, then longer gaps, longer tokens and longer trailing whitespace |
| Backtrace.TryDigitsFirst | symbolicate.py:76 | the search over the digit run returns fitting cuts that the engine reaches no later than any fitting cuts with a digit run no longer than the current one |
| Backtrace.TryGapFirst | symbolicate.py:76 | the same at the first whitespace run |
| Backtrace.TryTokenFirst | symbolicate.py:76 | the same at the library token |
| Backtrace.TryTrailingSpaceFirst | symbolicate.py:76 | the search over the second whitespace run returns the longest run, up to its current end, after which the address matches |
| Backtrace.FindAddressIsFirst | symbolicate.py:76 | the cuts the search returns are the first fitting cuts in the engine's order |
| Backtrace.TryDigitsComplete | symbolicate.py:76 | the search over the digit run succeeds whenever some shorter-or-equal run leads to a fit |
| Backtrace.TryGapComplete | symbolicate.py:76 | the search over the first whitespace run succeeds whenever some shorter-or-equal run leads to a fit |
| Backtrace.TryTokenComplete | symbolicate.py:76 | the search over the library token succeeds whenever some shorter-or-equal token leads to a fit |
| Backtrace.TryTrailingSpaceComplete | symbolicate.py:76 | the search over the second whitespace run succeeds whenever the address can start at a position it covers |
| Backtrace.FrameAddressSpec | symbolicate.py:76-81 | a line has an address exactly when it has the backtrace form for some groups; the groups `btRE` returns are those at the first fitting cuts in the engine's order, and the address is the address group of that form read in base 16 |
| Backtrace.GreedyFindAddress | symbolicate.py:76 | when the pattern fits with the digit run, the first whitespace run, the token and the second whitespace run each at their longest, the backtracking search returns exactly those cuts |
| Backtrace.CutsArePieces | symbolicate.py:76 | the cuts the search works with split the prefix group into the pattern's four pieces |
| Backtrace.PiecesAreCuts | symbolicate.py:76 | pieces of a prefix the line starts with are cuts of the line |
| Grouping.AddressesSpec | symbolicate.py:77-81 | the addresses the loop sees are those of the backtrace lines, in line order, once per line |
| Grouping.AddToAt | symbolicate.py:84-90 | for one address, the image loop appends it to the end of the list of each image in range, creating the key if needed, and leaves other lists alone |
| Grouping.GroupFromAt | symbolicate.py:77-90 | from any state where image i's list is absent or non-empty (every state the loop reaches), its list ends as it was followed by the addresses in its range |
| Grouping.GroupLinesAt | symbolicate.py:77-90 | image `i` has a key exactly when some backtrace address lies in its range; its list is those addresses in line order, repeats included |
| Grouping.GroupLinesSpec | symbolicate.py:77-90 | the same for every image at once |
| Grouping.GroupLinesNonEmpty | symbolicate.py:87-90 | every list in `addrsByImage` holds at least one address, since a key is created only when an address is appended |
| Grouping.GroupCount | symbolicate.py:84-90 | every listed address satisfies its image's `match`, and an address on `n` backtrace lines appears `n` times in the list of each image holding it |
| Grouping.Unlisted | symbolicate.py:84-90 | an address outside every image's range is in no list, so no resolver call receives it |
| Grouping.FilterCount | symbolicate.py:86-90 | an image's list keeps each address in its range as often as it occurs, and no other address |
| Grouping.FilterAppend | symbolicate.py:77-90 | the per-image lists keep input order: the selection distributes over concatenation |
| Resolution.AtosArgs | symbolicate.py:20-28 | the command line has eight words before the addresses and one word per address |
| Resolution.AtosArgsRecover | symbolicate.py:21-28 | the command line is `xcrun atos -o`, the path, `-arch`, the architecture, `-l`, the load address, then every address in order, each readable back by `int(..., 16)` |
| Resolution.Split | symbolicate.py:31 | `split("\n")` gives at least one piece |
| Resolution.JoinSplit | symbolicate.py:31 | joining the pieces with line feeds gives the output back |
| Resolution.SplitJoin | symbolicate.py:31 | splitting pieces joined with line feeds gives the pieces back |
| Resolution.SplitPieces | symbolicate.py:31 | no piece holds a line feed |
| Resolution.Reach | symbolicate.py:95-98 | the zip gets as far as the shorter of the two lists |
| Resolution.ZipKeys | symbolicate.py:95-98 | the zip completes exactly when the output has at least as many lines as there are addresses; it adds exactly the addresses before the point where it stops and keeps every other entry |
| Resolution.ZipLast | symbolicate.py:95-98 | an address the zip reached maps to the output line at its last position among those reached |
| Resolution.ZipNoNewline | symbolicate.py:95-98 | when neither the table nor the output lines hold a line feed, no value the zip leaves in the table holds one |
| Resolution.ZipValues | symbolicate.py:95-98 | every value the zip leaves in the table is the entry it had before or one of the output lines the zip reached |
| Resolution.Written | symbolicate.py:93-98 | an image's block writes a prefix of its address list |
| Resolution.ResolveImage | symbolicate.py:93-100 | a warning is added for an image exactly when its block fails |
| Resolution.ResolveImageKeys | symbolicate.py:93-98 | one image's block adds exactly the addresses it wrote and keeps other entries |
| Resolution.BatchKeys | symbolicate.py:92-100 | after the loop, an address has a symbol exactly when some image's block wrote it; a failing image does not stop the others |
| Resolution.BatchLast | symbolicate.py:92-98 | the address at position `i` of an image's list maps to `symbols[i]` when that is its last position reached and no image visited later writes it |
| Resolution.BatchFailed | symbolicate.py:92-100 | a warning names exactly the images whose call raised or whose output had fewer lines than addresses |
| Resolution.BatchSymbolsNoNewline | symbolicate.py:92-98 | starting from a table without line feeds, no symbol the loop leaves in the table holds a line feed |
| Resolution.ResolvedValue | symbolicate.py:92-98 | one image's `try` block leaves each entry as it was or sets it to a line of that image's `atos` output |
| Resolution.BatchValues | symbolicate.py:92-98 | every symbol the loop leaves in the table is the entry it had before or a line of some visited image's `atos` output |

## Left out

- The `xcrun atos` subprocess (symbolicate.py:30) is a foreign process. It is the `Resolver` parameter. The model checks only the command line it is given.
- Reading the input with `fileinput` (symbolicate.py:36-38) is I/O. The model takes the lines read as a `seq<string>` and accepts any strings there, the empty one included, although `fileinput` yields none.
- Writing to standard output (symbolicate.py:114) is I/O. The written lines are returned in `Report.Output`.
- `sys.stderr.write` and `sys.exit(1)` (symbolicate.py:52-53) are I/O. The model returns `Report.Fatal` with the status and the message.
- The warning text (symbolicate.py:100) is left out. It is built with `BinaryImage.__str__` (symbolicate.py:34), which is debug formatting only. The model records the position of each image warned about instead.
- The order `dict.items()` yields (symbolicate.py:92) is unspecified in Python. It is the `order` parameter, and a run takes only orders that list every key of `addrsByImage` once (`IsVisitOrder`). Where image ranges overlap, the image visited last decides, and the model does not say which image that is.
- Symbolicate.Items: on its own it passes over positions in `order` that are not keys rather than ruling them out. Every caller in a run has an order that satisfies `IsVisitOrder`.
- Catching exceptions other than the short-output `IndexError` and a raising `check_output` is left out. The bare `except` (symbolicate.py:99) would also catch failures that cannot occur in this pure model.
- The commented-out debug write (symbolicate.py:68) and the unused variables `symbolicated` and `suffix` (symbolicate.py:82, 85, 108) have no effect and are left out.
- Python's `re` module is not modelled in general. Only the two patterns the script compiles are written out.
- `int(..., 16)` accepts many spellings. It is modelled only on the literals these patterns capture.

