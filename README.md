# Sentence splitter for Chinese text, modelled in Dafny

`main.go` asks for a text file, then breaks its content into one line per
clause. Three steps do the work:

- After every Chinese punctuation mark it inserts a line break.
- It trims every resulting line and drops the lines that are left empty.
- It writes the result next to the input, as `<stem>_sc<ext>`.

This project models those three steps and the path computation. It then
proves what the program promises about them.

The modules follow the program's steps:

- `Strings`: white space as Go's `unicode.IsSpace` defines it,
  `strings.TrimSpace`, and the non-space content of a text.
- `Lines`: `bufio.ScanLines` as a function (`ScanLines`), the scanner as a
  class (`LineScanner`, whose `Scan` moves a position through the input),
  and `strings.Join(lines, "\n")` (`JoinLines`).
- `Splitter`: the regular-expression replacement of main.go:62-65. The
  character class `[，。？：！；、……——]` holds nine distinct characters; the
  doubled `…` and `—` add nothing. A match is one character, so the
  replacement `"$1\n"` puts a `'\n'` after each of them (`Split`).
- `Cleaner`: the blank-line loop of main.go:68-82. It is an imperative
  method (`RemoveEmptyLines`) proved equal to a specification function
  (`Cleaned`), which the lemmas are about.
- `Paths`: `filepath.Dir`, `Base`, `Ext`, `strings.TrimSuffix` and
  `filepath.Join` on '/'-separated paths, and the output path of
  main.go:50-52.
- `Sentencer`: the whole rewrite of a file's content (`Rewrite`) and one
  run of the program without its I/O (`ProcessFile`).

Text is a sequence of code points (`string`). The only characters the
program matches or cuts at are `'\n'`, `'\r'` and the punctuation marks,
and each of these is one code point. So working on code points gives the
same lines as Go's work on UTF-8 bytes.

The model covers `main.go` and nothing else. The punctuation class is the
one written at main.go:62; it does not contain the space character, and
the only lines the cleaner drops are the blank ones (main.go:72).

## Model

| member | source | states |
|---|---|---|
| Strings.IsSpace | main.go:71 | definition of `unicode.IsSpace`, with no contract of its own: the Latin-1 spaces and the other code points with the Unicode White_Space property |
| Strings.TrimLeft | main.go:71 | only bounds the length of what is kept; TrimLeftSuffix states what it keeps |
| Strings.TrimRight | main.go:71 | only bounds the length of what is kept; TrimRightPrefix states what it keeps |
| Strings.TrimSpace | main.go:71 | the trimmed line is empty or starts and ends with a non-space character |
| Strings.TrimSpaceSlice | main.go:71 | the trimmed line is a contiguous piece of the line, and everything cut from either end is white space |
| Strings.TrimSpaceContent | main.go:71 | trimming gives "" exactly when the line is all white space, and keeps every non-space character |
| Strings.TrimLeftSuffix | main.go:71 | cutting leading white space leaves a suffix that starts with a non-space character (or is empty) and removes only white space |
| Strings.TrimRightPrefix | main.go:71 | cutting trailing white space leaves a prefix that ends with a non-space character (or is empty) and removes only white space |
| Strings.TrimSpaceTrimmed | main.go:71 | a line that is already trimmed is left as it is |
| Strings.NonSpaceEmpty | main.go:71-72 | a text has no non-space content exactly when it is all white space |
| Lines.IndexOfNewlineFirst | main.go:70 | the scanner's line ends at the first '\n' of the rest of the input |
| Lines.DropCR | main.go:70 | a line either stays as it is or loses one '\r' at its very end; DropCRExact says which |
| Lines.DropCRExact | main.go:70 | the final '\r' is removed exactly when the line ends with one, and the line is otherwise left unchanged |
| Lines.DropCRKeepsText | main.go:70 | dropping the '\r' loses no non-space character |
| Lines.FindNewline | main.go:70 | the search loop returns the first '\n' at or after the scan position, or the end of the input |
| Lines.LineScanner.constructor | main.go:69 | a new scanner is at the start of its input; the lines still to come are all the lines of the input |
| Lines.LineScanner.Scan | main.go:70 | Scan reports true exactly when a line is left; it then makes that line the current token, moves forward and leaves the other lines for later; at the end of the input it reports false and clears the token |
| Lines.LineScanner.Text | main.go:71 | returns the current token, with no contract of its own |
| Lines.ScanLines | main.go:69-70 | definition of the tokens `bufio.ScanLines` yields, with no contract of its own; ScanLinesCount, ScanLinesHaveNoNewline, ScanLinesKeepText, JoinScanLines and ScanJoinLines state what they are |
| Lines.ScanLinesHaveNoNewline | main.go:69-70 | no scanned line contains '\n' |
| Lines.ScanLinesKeepText | main.go:69-70 | the lines hold all the non-space content of the text, in order |
| Lines.JoinScanLines | main.go:69-70 | in a text without '\r', scanning loses only line breaks: joining the lines with "\n" and putting back a final '\n' the text ended with gives the text again |
| Lines.ScanLinesCount | main.go:69-70 | there is one line per '\n', plus one for a last line that no '\n' ends; a text ending in '\n' gives no empty last line |
| Lines.ScanJoinLines | main.go:69-82 | lines that are non-empty, free of '\n' and not ending in '\r' come back unchanged when their join is scanned |
| Lines.JoinLines | main.go:82 | definition of `strings.Join(lines, "\n")`, with no contract of its own; JoinLinesKeepText, JoinTrimmedLines and JoinScanLines state what it gives |
| Lines.JoinLinesKeepText | main.go:82 | joining keeps the non-space content of the lines, in order |
| Lines.JoinTrimmedLines | main.go:82 | the join of trimmed lines is empty only for no lines; otherwise it is trimmed, and every '\n' in it sits between two non-space characters |
| Splitter.IsPunct | main.go:62 | definition of the regular expression's character class (nine code points), with no contract of its own |
| Splitter.Piece | main.go:65 | definition of what one character becomes under the replacement, with no contract of its own |
| Splitter.Split | main.go:62-65 | the replacement lengthens the text by exactly one character per punctuation mark |
| Splitter.UnsplitSplit | main.go:62-65 | removing the '\n' after each punctuation mark gives back the original text |
| Splitter.SplitAppend | main.go:65 | the replacement works character by character: the split of a concatenation is the concatenation of the splits |
| Splitter.SplitWithoutPunct | main.go:65 | a text without punctuation marks is left unchanged |
| Splitter.SplitBreaksAfterPunct | main.go:62-65 | in the split text every punctuation mark is directly followed by '\n' |
| Splitter.PunctIsNotSpace | main.go:62 | no punctuation mark of the class is white space |
| Splitter.SplitKeepsText | main.go:65 | splitting adds only line breaks: the non-space content is unchanged |
| Cleaner.KeepNonBlank | main.go:70-75 | keeps at most as many lines as it is given; KeepNonBlankSelects states which lines it keeps |
| Cleaner.Cleaned | main.go:68-82 | definition of the cleaned text, with no contract of its own; the Cleaned… lemmas state its properties |
| Cleaner.KeepNonBlankTrimmed | main.go:71-74 | every line the loop keeps is non-empty and trimmed |
| Cleaner.RemoveEmptyLines | main.go:68-82 | the scanning loop followed by the join computes exactly Cleaned of its input |
| Cleaner.KeepNonBlankStep | main.go:70-75 | one iteration keeps the loop invariant: appending the trimmed line when it is not blank leaves exactly the lines still to be kept |
| Cleaner.KeepNonBlankCons | main.go:71-74 | one loop step: the current line, trimmed, is kept if non-empty, ahead of what the rest gives |
| Cleaner.KeepNonBlankAppend | main.go:70-75 | filtering two runs of lines one after the other keeps the first run's lines before the second's |
| Cleaner.KeepNonBlankOfTrimmed | main.go:71-74 | lines that are already trimmed and non-empty are all kept, unchanged |
| Cleaner.KeepNonBlankHasNoNewline | main.go:71-73 | trimming never brings a '\n' into a kept line |
| Cleaner.KeepNonBlankKeepsText | main.go:71-74 | trimming and dropping blank lines loses no non-space character |
| Cleaner.KeepNonBlankSelects | main.go:70-75 | the k-th kept line is the trimmed line at the k-th non-blank position; these positions increase (order is kept); a line is dropped exactly when it is blank |
| Cleaner.CleanedLines | main.go:69-82 | scanning the cleaned text gives back exactly the kept lines |
| Cleaner.CleanedShape | main.go:68-82 | the cleaned text is empty or trimmed; it never ends with '\n' and never holds "\n\n"; both neighbours of every '\n' are non-space |
| Cleaner.CleanedKeepsText | main.go:68-82 | cleaning removes only white space: the non-space content is unchanged |
| Cleaner.CleanedEmpty | main.go:68-82 | the cleaned text is "" exactly when the input is empty or all white space |
| Cleaner.CleanedIdempotent | main.go:68-82 | cleaning an already cleaned text changes nothing |
| Paths.Dir | main.go:50 | definition of `filepath.Dir` on clean '/'-separated paths; its contract only says the result is never empty, and JoinShape and OutputPathPlace state the rest |
| Paths.Base | main.go:51 | definition of `filepath.Base`, with no contract of its own; BaseIsElement and BaseIsStemThenExt state its properties |
| Paths.Ext | main.go:51 | definition of `filepath.Ext`, with no contract of its own; ExtShape states its properties |
| Paths.TrimSuffix | main.go:51 | definition of `strings.TrimSuffix`, with no contract of its own; TrimSuffixThenSuffix states its property |
| Paths.Join | main.go:52 | definition of `filepath.Join` for a single-element name, with no contract of its own; JoinShape states its property |
| Paths.Stem | main.go:51 | the base name without its extension, with no contract of its own |
| Paths.OutputPath | main.go:50-52 | definition of the output path, with no contract of its own; the OutputPath… lemmas state its properties |
| Paths.BaseStartAfterSlash | main.go:50-51 | the last path element starts right after the last '/', and no '/' follows |
| Paths.ExtShape | main.go:51 | the extension is a suffix of the last element: empty or a '.' followed by neither '.' nor '/', and empty exactly when that element has no '.' |
| Paths.ExtIsSuffix | main.go:51 | the extension is a suffix of the last element of the path |
| Paths.ExtChars | main.go:51 | a non-empty extension is a '.' followed by characters that are neither '.' nor '/' |
| Paths.ExtEmptyNoDot | main.go:51 | the extension is empty only when the last element has no '.' |
| Paths.TrimSuffixThenSuffix | main.go:51 | cutting off a suffix the text ends with and putting it back gives the text again |
| Paths.BaseIsElement | main.go:51 | the base name holds no '/' |
| Paths.StemWithoutDot | main.go:51 | without an extension, the stem holds no '.' |
| Paths.BaseIsStemThenExt | main.go:51 | the base name is the stem followed by the extension |
| Paths.ExtOfSuffix | main.go:51 | a path ending in '.' followed by neither '.' nor '/' has that ending as its extension |
| Paths.ExtOfPlainElement | main.go:51 | a last element without '.' gives no extension |
| Paths.JoinShape | main.go:52 | joining a directory with one element gives a path whose directory and base are those two |
| Paths.NewNameShape | main.go:52 | the new base name `stem + "_sc" + ext` is a single element, and has no '.' when the input has no extension |
| Paths.OutputPathPlace | main.go:50-52 | the output lies in the input's directory, and its base name is the input's stem, "_sc" and the input's extension |
| Paths.OutputPathExt | main.go:50-52 | for a non-empty input path the output keeps the input's extension |
| Paths.OutputPathStem | main.go:50-52 | for a non-empty input path the output's stem is the input's stem followed by "_sc" |
| Paths.OutputPathExampleTxt | main.go:50-52 | `a.txt` becomes `a_sc.txt` |
| Paths.OutputPathExampleNoExt | main.go:50-52 | `notes` becomes `notes_sc` |
| Paths.DottedParts | main.go:50-51 | `/home/me/ch.v2.txt` has directory `/home/me`, extension `.txt` and stem `ch.v2` |
| Paths.OutputPathExampleDotted | main.go:50-52 | `/home/me/ch.v2.txt` becomes `/home/me/ch.v2_sc.txt`; only the last '.' starts the extension |
| Paths.OutputPathExampleDotFile | main.go:50-52 | `dir/.bashrc` becomes `dir/_sc.bashrc`; a dot-file is all extension |
| Sentencer.Rewrite | main.go:62-82 | definition of the whole rewrite, the cleaner applied to the split text, with no contract of its own; the Rewrite… lemmas state its properties |
| Sentencer.ProcessFile | main.go:50-82 | one run writes `OutputPath(input)` with `Rewrite(content)`, keeps the directory, names the file stem + "_sc" + ext, keeps all non-space content and ends a line after every punctuation mark |
| Sentencer.RewriteKeepsText | main.go:62-82 | the written text has exactly the non-space characters of the file, in order |
| Sentencer.RewriteEmpty | main.go:62-82 | the written text is empty exactly when the file is empty or blank |
| Sentencer.ScanLinesPunctAtEnd | main.go:65-70 | every line of the split text has its punctuation mark, if any, as its last character |
| Sentencer.KeepNonBlankPunctAtEnd | main.go:71-74 | trimming and dropping lines keeps punctuation marks at line ends |
| Sentencer.JoinPunctAtEnd | main.go:82 | in the join of such lines every punctuation mark is followed by '\n' or ends the text |
| Sentencer.RewriteBreaksAfterPunct | main.go:62-82 | in the written text every punctuation mark ends a line: it is followed by '\n' or is the last character |
| Sentencer.SplitNewlines | main.go:65 | splitting adds one '\n' per punctuation mark |
| Sentencer.SplitLast | main.go:65 | the split text has an unended last line exactly when the original has one that does not end with a punctuation mark |
| Sentencer.SplitLineCount | main.go:65-70 | splitting never lowers the line count; each punctuation mark that is not the text's last character adds one line |
| Sentencer.SplitSentence | main.go:65 | a sentence (punctuation only at its end) gets exactly one '\n', after its end |
| Sentencer.SplitSentences | main.go:65 | a text made of sentences is split into those sentences, each followed by '\n' |
| Sentencer.ScanTerminated | main.go:69-70 | scanning sentences that each end in '\n' gives back the sentences |
| Sentencer.RewriteSentences | main.go:62-82 | a text made of sentences comes out with one sentence per line and no trailing line break |
| Sentencer.RewriteExample | main.go:62-82 | `第一句。第二句！` comes out as `第一句。`, '\n', `第二句！` |

## Left out

- The file dialog, reading and writing files (with mode 0644) and the messages printed to the user are left out. They are I/O. `ProcessFile` takes the chosen path and the file's content as parameters and returns what would be written where.
- The scanner's error path (main.go:76-79) is left out. `bufio.Scanner` fails on a line longer than its 64 KiB token limit, and the model has no such limit, so `Scan` never fails.
- UTF-8 decoding is left out. Text is a sequence of code points, so invalid UTF-8 and the bytes' own lengths are not modelled.
- The regular-expression engine is left out. Only the effect of this one character-class pattern is modelled.
- `filepath.Clean`, which `Dir` and `Join` apply to their results, is left out. Paths are taken to be clean already. The model does not capture trailing slashes, repeated or `.`/`..` elements, or Windows volume names and '\' separators.
- Paths.OutputPathExt: requires a non-empty path. For the empty path Go's `Base` gives ".", so the output name is "._sc", whose extension is not the input's empty one.
- Paths.OutputPathStem: requires a non-empty path, for the same reason.
