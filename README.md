# mgutil bookmark store, modelled in Dafny

mgutil is a small command-line tool. It saves directory bookmarks under an alias in
`~/.mgutil/bookmarks.csv`, removes them, lists them, and opens an iTerm terminal at
the path saved under an alias. This project models its core, which is
`mgutil/src/main.rs`:

- the one-line record format, `alias;type;value` plus a newline, and the lossy
  decoding of a line by splitting at `;`;
- the bookmarks file with its three operations:
  - append one record (`add_bookmark`);
  - load every record in order, where the first line without a `;` aborts the
    whole run (`load_existing_bookmarks`);
  - keep the lines that do not start with `alias;` and rewrite them
    (`remove_bookmark`);
- the ASCII case-insensitive alias lookup behind the `p` command
  (`open_shell_with_path`);
- the command decision in `main` and one whole run: load first, then act.

The modules are:

- `TextLines`: the Rust standard-library behaviour the program relies on.
  - `str::split` gives one segment more than there are separators, never none.
  - `concat` joins with "".
  - `BufRead::lines` splits at `'\n'`. It drops one `'\r'` only in front of a `'\n'`. A
    final piece without a newline is still a line, and empty text has no lines.
  - `writeln!` writes one line and its newline.
- `Codec`: the `Bookmark` struct, the record line, and per-line decoding.
- `BookmarkStore`: the file, modelled as the text it holds, in the class `Store`.
  - The methods `Append`, `Load` and `Remove` change `text` as the Rust functions
    change the file. `Load` and `Remove` use the same loops as the source.
  - Each method is proved against a specification function: `LoadInto`/`DecodeAll`
    for loading, `KeepLines` for removal.
  - The lemmas relate those functions: append then load, remove then load, removing
    twice, removing an alias no line has.
- `Jump`: `eq_ignore_ascii_case` and the match selection. `OpenShellWithPath` is the
  loop, and it returns the values a terminal is opened at, one per match, in order.
- `Cli`: `Dispatch` is the `match` on the command as a pure function to an `Action`.
  `Run` is `main` after argument parsing.

Two properties of the source are proved as they are, rather than changed:

- Removal is a case-sensitive prefix test, while lookup ignores ASCII case
  (`Cli.CaseAsymmetry`, `Cli.DeleteThenOpen`); the model follows the code.
- A value that holds a newline is written as two lines. If the second one has no
  `;`, every later load aborts, including the load before a `d` that could remove it
  (`BookmarkStore.AppendNewlineInValue`).

## Model

| member | source | states |
|---|---|---|
| Codec.Decode | mgutil/src/main.rs:175-178 | a line fails to decode exactly when it holds no `;` (the second `unwrap`), so the empty line fails too; a decoded alias, type and value hold no `;`, and the line starts with the alias and `;` |
| Codec.Record | mgutil/src/main.rs:116-121 | the record line holds the three fields and two separators and nothing else (its length); `Codec.RecordLayout` places each part |
| Codec.DecodeTwoSegments | mgutil/src/main.rs:175-178 | a line with a single `;` decodes to the text before it as alias, the text after it as type, and an empty value, since no segments remain for the join |
| Codec.RecordLayout | mgutil/src/main.rs:116-121 | the record line is the alias, `;`, the type, `;` and the value, at exactly those positions and with nothing else |
| Codec.Encode | mgutil/src/main.rs:116-122 | the text written is the record line followed by one newline |
| Codec.RecordHasDelimiter | mgutil/src/main.rs:116-121 | every record line holds a `;`, so no record written by the program fails to decode |
| Codec.DecodeRecord | mgutil/src/main.rs:175-178 | a record whose alias and type hold no `;` decodes to that alias and type, with the value stripped of every `;` |
| Codec.DecodeEncodeRoundTrip | mgutil/src/main.rs:175-178 | round trip: with no `;` in any field, decoding the record line gives back the bookmark |
| Codec.DecodeLossy | mgutil/src/main.rs:178 | a record with `;`-free alias and type always decodes, and decodes back to the same bookmark if and only if the value holds no `;` |
| Codec.DecodeJoinsValueSegments | mgutil/src/main.rs:178 | `a;path;x;y` decodes to alias `a`, type `path` and value `xy`: the segments after the second are joined with "" |
| Codec.RecordAlias | mgutil/src/main.rs:175-176 | a record whose alias holds no `;` decodes with that alias |
| Codec.StartsWithAliasField | mgutil/src/main.rs:153 | for an alias without `;`, a line starts with the alias and `;` if and only if it decodes with exactly that alias |
| TextLines.Split | mgutil/src/main.rs:175 | `split(';')` yields at least one segment, and no segment holds the separator |
| TextLines.SplitSingle | mgutil/src/main.rs:175-177 | split yields a single segment exactly when the separator is absent, which is when the second `next()` finds nothing |
| TextLines.SplitJoinWith | mgutil/src/main.rs:175 | splitting the parts joined with the separator gives back the parts, when no part holds it |
| TextLines.JoinWithSplit | mgutil/src/main.rs:175 | joining the segments with the separator gives back the line: split loses nothing but the separators |
| TextLines.JoinWith | mgutil/src/main.rs:175 | the reference inverse of `split`: the first part starts the joined text, the separator follows it when there are more parts, and the join of the remaining parts comes after that separator; `TextLines.SplitJoinWith` and `TextLines.JoinWithSplit` tie it to `Split` |
| TextLines.Concat | mgutil/src/main.rs:178 | `join("")` of the remaining segments: the first segment starts the result; `TextLines.ConcatSplit` states the whole result |
| TextLines.RemoveAll | mgutil/src/main.rs:178 | the reference for the value: the text with every `;` removed holds no `;` and is no longer than the text |
| TextLines.ConcatSplit | mgutil/src/main.rs:178 | joining all segments with "" is exactly the text with every separator removed |
| TextLines.StripCr | mgutil/src/main.rs:173 | the `'\r'` that `lines()` drops before a `'\n'`: the result is a prefix of the line, and a plain line is unchanged |
| TextLines.LinesOf | mgutil/src/main.rs:173 | no line read by `lines()` holds a newline |
| TextLines.JoinLines | mgutil/src/main.rs:161-163 | the text written by `writeln!` per line ends with a newline, or is empty |
| TextLines.LinesOfAppend | mgutil/src/main.rs:109-122 | the lines of text that ends with a newline, followed by more text, are its lines followed by the lines of the rest |
| TextLines.LinesOfLine | mgutil/src/main.rs:121-122 | a line without newline and without a final carriage return, written with its newline, reads back as exactly that one line |
| TextLines.LinesOfJoinLines | mgutil/src/main.rs:158-163 | plain lines written one per `writeln!` read back as the same lines, in order |
| BookmarkStore.DecodeAll | mgutil/src/main.rs:173-186 | decoding all lines gives one bookmark per line, or names a line that exists |
| BookmarkStore.DecodeAllOk | mgutil/src/main.rs:176-177 | a load succeeds if and only if every line holds a `;` |
| BookmarkStore.DecodeAllValues | mgutil/src/main.rs:175-184 | after a successful load, position k holds the bookmark that line k decodes to, so file order is kept |
| BookmarkStore.DecodeAllFirstError | mgutil/src/main.rs:176-177 | a failed load names a line without `;`, and every line before it holds one, so it is the first such line |
| BookmarkStore.DecodeAllKeepsError | mgutil/src/main.rs:173-177 | the load aborts: once a line fails, no later line changes the outcome |
| BookmarkStore.DecodeAllStopsAt | mgutil/src/main.rs:176-177 | when the lines before i load and line i does not decode, the load fails at i |
| BookmarkStore.DecodeAllSnoc | mgutil/src/main.rs:184 | one more decodable line pushes its bookmark at the end |
| BookmarkStore.LoadInto | mgutil/src/main.rs:166-187 | a load keeps what the vector already held as its prefix and adds one bookmark per line |
| BookmarkStore.Store.constructor | mgutil/src/main.rs:194-196 | a store starts with the text already in the file, which is empty text for a new file |
| BookmarkStore.Store.Append | mgutil/src/main.rs:109-122 | the file becomes its old text followed by the record and a newline; on newline-terminated text with a plain record, that is exactly one more line after the unchanged old lines |
| BookmarkStore.Store.Load | mgutil/src/main.rs:173-186 | the loop leaves the result `LoadInto` describes: old bookmarks, then one bookmark per line in order, or the first malformed line |
| BookmarkStore.Store.Remove | mgutil/src/main.rs:148-163 | the file becomes the kept lines, each written with its newline; when the old lines are plain, the lines read back are exactly the kept ones |
| BookmarkStore.Pattern | mgutil/src/main.rs:148 | `line_pattern` is the alias followed by exactly one `;` |
| BookmarkStore.KeepLines | mgutil/src/main.rs:151-157 | removal never adds lines |
| BookmarkStore.KeepLinesSnoc | mgutil/src/main.rs:151-157 | each line is examined in turn and kept, at the end, exactly when it does not start with the alias and `;` |
| BookmarkStore.KeepLinesMembers | mgutil/src/main.rs:153 | a line is kept if and only if it was there and does not start with the alias and `;`, so every matching line is removed, not just the first |
| BookmarkStore.KeepLinesAppend | mgutil/src/main.rs:151-157 | removal works line by line and keeps relative order: removing from two parts is removing from each |
| BookmarkStore.KeepLinesNoMatch | mgutil/src/main.rs:153 | when no line starts with the alias and `;`, every line is kept, in order |
| BookmarkStore.KeepLinesIdempotent | mgutil/src/main.rs:153 | removing the same alias twice keeps the same lines as removing it once |
| BookmarkStore.KeepLinesPlain | mgutil/src/main.rs:151-157 | removal keeps only old lines, so lines that were plain stay plain |
| BookmarkStore.KeepLinesByAlias | mgutil/src/main.rs:148-153 | for an alias without `;`, the kept lines are exactly those that do not decode with exactly that alias |
| BookmarkStore.KeepsOtherAlias | mgutil/src/main.rs:148-153 | removing `x` keeps a record of any other `;`-free alias, such as `X` or `xy`: a whole field is matched, case-sensitively |
| BookmarkStore.WithoutAlias | mgutil/src/main.rs:153 | the reference for removal on bookmarks: never longer than the list |
| BookmarkStore.WithoutAliasSnoc | mgutil/src/main.rs:153 | one more bookmark is kept, at the end, exactly when its alias differs |
| BookmarkStore.WithoutAliasMembers | mgutil/src/main.rs:153 | a bookmark is kept if and only if it was there and its alias is not exactly the given one |
| BookmarkStore.Records | mgutil/src/main.rs:116-122 | the record lines of a list of bookmarks: one per bookmark, in order |
| BookmarkStore.RecordsSnoc | mgutil/src/main.rs:116-122 | the record lines of one more bookmark are one more line at the end |
| BookmarkStore.LoadRecords | mgutil/src/main.rs:173-186 | loading the record lines of bookmarks without `;` gives back exactly those bookmarks, in order |
| BookmarkStore.LoadAfterAppend | mgutil/src/main.rs:109-122 | append then load: the bookmarks loaded before, then the appended one |
| BookmarkStore.AppendToEmptyThenLoad | mgutil/src/main.rs:109-122 | appending one bookmark to an empty file and loading gives exactly that bookmark |
| BookmarkStore.AppendNewlineInValue | mgutil/src/main.rs:116-122 | a value holding a newline followed by a `;`-free rest makes every later load fail, at the line after the record |
| BookmarkStore.LinesAfterNewlineInValue | mgutil/src/main.rs:116-122 | such a value is read back as two lines: the record cut at the newline, then the rest |
| BookmarkStore.EncodeSplitValue | mgutil/src/main.rs:116-121 | the text written for such a value is the cut record and the rest, each with its newline |
| BookmarkStore.LinesOfTwo | mgutil/src/main.rs:173 | two plain lines with their newlines read back as those two lines |
| BookmarkStore.DecodeAllSecondFails | mgutil/src/main.rs:176-177 | a load that meets a record and then a line without `;` fails at the second one |
| BookmarkStore.KeepRecords | mgutil/src/main.rs:151-157 | on the record lines of bookmarks, removal keeps exactly the records of the bookmarks whose alias differs, in order |
| BookmarkStore.KeepRecordsStep | mgutil/src/main.rs:151-157 | the inductive step of that: one more bookmark at the end |
| BookmarkStore.LoadAfterRemove | mgutil/src/main.rs:151-186 | remove then load: the bookmarks loaded before, without exactly those of that alias, in order |
| BookmarkStore.LoadAfterRemoveStep | mgutil/src/main.rs:151-186 | the inductive step of that: one more line at the end |
| BookmarkStore.RemoveThenReload | mgutil/src/main.rs:158-163 | after the rewrite, the file reads back as the kept lines and loads as the old bookmarks without that alias |
| BookmarkStore.RemoveTwice | mgutil/src/main.rs:148-163 | when every line read is plain, running the removal twice with the same alias leaves the same text as running it once |
| BookmarkStore.RemoveNoMatch | mgutil/src/main.rs:148-163 | on newline-terminated text of plain lines (a file this program wrote), removing an alias that no line starts with rewrites the same text |
| BookmarkStore.RemoveAddsFinalNewline | mgutil/src/main.rs:161-163 | a last line without a newline gets one on the rewrite even when nothing is removed: a single such line `l` is rewritten as `l` and a newline |
| Jump.EqIgnoreAsciiCase | mgutil/src/main.rs:127 | `eq_ignore_ascii_case` holds if and only if both strings are equal once every ASCII letter is lower-cased |
| Jump.AsciiLower | mgutil/src/main.rs:127 | ASCII upper-case letters map to their lower-case letter, 32 code points higher, and every other character is unchanged |
| Jump.Matches | mgutil/src/main.rs:126-127 | the selection never holds more bookmarks than the list |
| Jump.OpenShellWithPath | mgutil/src/main.rs:125-137 | one launch per matching bookmark, in list order, each at that bookmark's value |
| Jump.MatchesSnoc | mgutil/src/main.rs:126-127 | each bookmark is examined in turn and selected, at the end, exactly when its alias equals the target ignoring ASCII case |
| Jump.MatchesMembers | mgutil/src/main.rs:126-127 | a bookmark is selected if and only if it is in the list and its alias equals the target ignoring ASCII case |
| Jump.MatchesAppend | mgutil/src/main.rs:126 | the selection keeps list order: the matches of two parts are the matches of each, in turn |
| Jump.MatchesIgnoreTargetCase | mgutil/src/main.rs:127 | targets that differ only in ASCII case select the same bookmarks |
| Jump.EqIgnoreAsciiCaseReflexive | mgutil/src/main.rs:127 | every alias matches itself |
| Jump.EqIgnoreAsciiCaseSymmetric | mgutil/src/main.rs:127 | matching ignoring case is symmetric |
| Jump.EqIgnoreAsciiCaseTransitive | mgutil/src/main.rs:127 | matching ignoring case is transitive |
| Cli.Dispatch | mgutil/src/main.rs:48-97 | `sp` with an alias adds a `path` bookmark for that alias holding the given value, else the current directory; `d` and `p` with an alias remove or open it; `l` lists; `sp`, `d` and `p` without an alias only report it; any other command is unknown; each as an if-and-only-if |
| Cli.Run | mgutil/src/main.rs:35-101 | a failed load aborts the run and leaves the file unchanged; otherwise the dispatched action is taken on the loaded bookmarks, `sp` appends, `d` rewrites the kept lines, `p` launches one terminal per match, and every other action leaves the file as it was |
| Cli.DispatchIgnoresValue | mgutil/src/main.rs:48-97 | only `sp` reads the value and the current directory |
| Cli.SaveThenOpen | mgutil/src/main.rs:50-84 | after `sp` saves a bookmark, `p` with the same alias in the next run still launches every earlier match, then the saved bookmark last |
| Cli.DeleteThenOpen | mgutil/src/main.rs:67-84 | after `d x`, `p x` in the next run selects exactly the earlier matches whose alias is not exactly `x`, in their order: a bookmark is selected if and only if it was loaded before, equals `x` ignoring ASCII case, and is not `x` |
| Cli.MatchesWithoutAlias | mgutil/src/main.rs:127-153 | selecting the matches and dropping an exact alias commute, so the order of the two filters does not matter |
| Cli.CaseAsymmetry | mgutil/src/main.rs:127-153 | for aliases that differ only in ASCII case, `d` with one keeps the record of the other, while `p` with one selects the other |

## Left out

- Argument parsing with clap (`Args`, `Args::parse`). `Dispatch` and `Run` take the parsed command, alias and value.
- `env::current_dir` and `home_dir`, and the path of the bookmarks file built from the home directory. The current directory is a parameter, and the file is the `Store` object. The `?` on `current_dir` failing is not modelled.
- `ensure_util_home_folder_exists`, which creates the directory, and the creation of an empty file when none exists. A new file is a `Store` constructed with empty text.
- `File::options`/`File::open` failing, the `unwrap`s on I/O errors, and write errors. These depend on the operating system.
- The separate `File::create` handle that truncates the file before the rewrite. `Store.Remove` sets the text to empty and then writes each kept line, which is what the append-mode handle produces. The window in which the file is truncated but not yet rewritten is not modelled.
- Lines that `lines()` returns as errors, such as invalid UTF-8, which both loops skip. Text is modelled as characters, so every line reads. Because the model works on characters, `eq_ignore_ascii_case` is compared character by character. This agrees with the byte-wise comparison, because ASCII case folding changes only single-byte characters.
- Spawning `open -a iTerm <value>` and waiting for its output, including the panic when it cannot be run. The launches are returned as the list of values a terminal would be opened at.
- Every `println!`/`print!` message, including the listing printed by `l`. For `l`, `Run` returns the loaded bookmarks that would be printed.
- Concurrent runs of the program on the same file: there is no locking.
- BookmarkStore.LoadError: a failed load is a panic of the whole process, with no index. The model returns the index of the failing line, so that the property "it is the first line without `;`" can be stated.
- BookmarkStore.Store.Append: the line view is proved only when the old text ends with a newline and the record is a plain line. Otherwise, for example when the value holds a newline, the new text is still stated exactly, but the lines are not.
- BookmarkStore.Store.Remove: the line view of the result is proved only for plain old lines. For other files, only the text written is stated. For example, text ending in `x\r` with no newline reads as the line `x\r`, which is not plain. It is rewritten as `x\r\n`, and a second removal rewrites that as `x\n`, so on such text the rewrite is not idempotent.
- A value that ends in a carriage return is written by `sp` as `alias;path;value\r` and a newline, and `lines()` reads it back without the `\r`, so that character is lost. The model's round-trip lemmas require the record to be a plain line and do not cover this case.
- An alias that holds `;` given to `d` matches on more than the alias field. For example, `d "x;path"` removes the lines `x;path;...` but keeps `x;cmd;...`, so it removes by alias and type together. This is why `BookmarkStore.KeepRecords`, `BookmarkStore.LoadAfterRemove` and `Cli.DeleteThenOpen` require an alias without `;`; `BookmarkStore.KeepLines` itself models the prefix test for every alias.
- BookmarkStore.RemoveNoMatch: stated only for newline-terminated text. A removal that matches no line still adds a newline after a last line that has none (`BookmarkStore.RemoveAddsFinalNewline`), so on such text it does not rewrite the same text.
