# acngtool: ed-script patcher, control-line scanner and download items

This project models three algorithms of `acngtool`, the command-line companion of
apt-cacher-ng. Each is proved against a specification of its own.

- **The ed-script patcher** (`acngtool patch`). It applies a script in the form `diff -e`
  writes to a base file. The base is split into an entry array, with an empty dummy entry 0
  so that ed's line *n* is entry *n*. The script's `Na`, `N,Mc` and `N,Md` commands edit
  that array in place. A `s/.//` line restores a lone dot that `diff -e` had to double.
  The registers `rangeStart` and `rangeLast` are globals in the source and survive from
  one command to the next. Here they are fields of the class `Patcher.Patcher`.
  - Module `EdScript` states the patcher as values: `Lines`, `Edit`, `Step`, `Run` and
    `Patch`. It proves the whole-script results for appends, deletes, changes and the
    dot fix-up.
  - Module `Patcher` runs the same steps with loops and field updates. Each of its
    methods is proved against those functions.
- **The control-line scanner** of the report item (`acngtool maint`). It appends pieces of
  a response body to a line buffer of 65536 characters and drops what does not fit. It
  cuts out every line that ends at a CR or an LF. It recognises lines of the form
  `<key><number><text>`: messages of the "before error" type are kept, and an "error"
  line writes them out together with itself. Module `ControlLines` specifies this as
  functions. `Items.ReportItem.StoreFileData` runs it in place.
- **The download items and the exit status of `wcat`**: `Setup`, the header hook and the
  end-of-body status change of the print item and of the report item, and the status →
  exit-code decision. These are in module `Items`.

Support modules:
- `CNumbers` models `strtoul` and sscanf's `%lu` over a character sequence, with
  saturation at ULONG_MAX and wrap-around of negated values.
- `Posix` holds the exit and errno values.
- `Seqs` holds two sequence facts.
- `Wrappers` holds `Option`.

## Model

| member | source | states |
|---|---|---|
| CNumbers.ScanUnsigned | tool/main.cc:163 | a conversion exists exactly when a digit follows the leading white space and the optional sign; its digits start right there and end just before the first non-digit; its value is that digit run's number made unsigned by strtoul's rule, with the sign applied, and at most ULONG_MAX |
| CNumbers.ULongOf | tool/main.cc:163 | the converted value is at most ULONG_MAX, equals the magnitude when that fits and no minus sign is given, and saturates at ULONG_MAX on overflow |
| CNumbers.DecimalString | tool/main.cc:286 | the spelling `diff -e` gives a line number is a non-empty run of digits |
| CNumbers.DecimalRoundTrip | tool/main.cc:286 | reading back the decimal spelling of n gives n |
| CNumbers.ScanDecimalString | tool/main.cc:286 | a canonically spelt number followed by a non-digit converts to itself and ends right after its digits |
| EdScript.ConcatAppend | tool/main.cc:495-496 | writing two entry lists one after the other writes their texts one after the other |
| EdScript.NewlineFrom | tool/main.cc:419 | strchr for a newline finds the first newline at or after the start, and none exists before it |
| EdScript.Lines | tool/main.cc:417-430 | splitting a buffer yields only non-empty entries |
| EdScript.ConcatLines | tool/main.cc:417-430 | the entries written back one after another give exactly the buffer that was split |
| EdScript.LinesAreWhole | tool/main.cc:419-424 | every entry except possibly the last is a whole line: its only newline is its last character |
| EdScript.LinesCons | tool/main.cc:419-424 | a whole line at the front of a buffer becomes its first entry, whatever follows |
| EdScript.SingleLine | tool/main.cc:419-424 | a whole line on its own splits into itself |
| EdScript.LinesOfConcat | tool/main.cc:417-430 | whole lines written one after another split back into the same lines, followed by the entries of whatever comes after them |
| EdScript.InitialWritesBase | tool/main.cc:415-430 | the entry array built from the base, with its empty dummy entry, writes back exactly the base |
| EdScript.CommandForms | tool/main.cc:286-290 | both `N,M<op>` and `N<op>` lines parse back to their addresses and operation; the single-address form copies the first address into the last |
| EdScript.ParseCommand | tool/main.cc:286-290 | the command sscanf reads from a command line: both addresses and the character after them when it converts all three, the first address twice and the line's next-to-last character when it converts only one and the line has at least two characters, none otherwise |
| EdScript.AcceptsAsWritten | tool/main.cc:292-293 | the address check as written: both addresses at most the entry count, and the first at most the second |
| EdScript.Accepts | tool/main.cc:292-293 | the corrected address check: both addresses below the entry count, and the first at most the second |
| EdScript.Edit | tool/main.cc:294-310 | the array after an accepted command: for `a` the chunk inserted after entry N, otherwise entries N..M replaced by the chunk |
| EdScript.RangeStartAfter | tool/main.cc:294-305 | the register rangeStart after patchChunk: unchanged by `a`, otherwise advanced once per chunk entry written over the range, at most the range's length |
| EdScript.DotAfter | tool/main.cc:294-310 | ed's current line after a command: the chunk's last line in the edited array, or the command's first address when the chunk is empty |
| EdScript.ApplyCommand | tool/main.cc:284-312 | patchChunk on the pending command and chunk: the edited array, the registers it leaves and the new current line, with the chunk and the command cleared; none when the command does not parse or fails the corrected address check |
| EdScript.FixLastLineAsWritten | tool/main.cc:462-463 | the fix-up as written: entry rangeStart becomes `.` unless rangeStart is 0; none when that entry does not exist |
| EdScript.FixLastLine | tool/main.cc:459-465 | the corrected fix-up: ed's current line becomes `.` unless it is entry 0 or lies past the array |
| EdScript.Step | tool/main.cc:454-488 | one script line: `.` applies the pending command (and is rejected without one); with a command pending any other line joins the chunk; otherwise `s/.//` runs the fix-up, a `w` line is skipped, a line whose character before the newline is `d` is applied at once, and any other line becomes the pending command |
| EdScript.Run | tool/main.cc:437-490 | the script's lines stepped through in order from the given state; none as soon as a step rejects |
| EdScript.Patch | tool/main.cc:408-499 | the text of the entry array after running the script's lines on the base's entries; none when a command is rejected; a chunk still pending at the end is dropped |
| EdScript.AsWrittenAdmitsEndAddress | tool/main.cc:292-293 | the address check as written accepts exactly the commands the corrected address check accepts plus those with an address equal to the entry count; `N,N` with N the entry count is such a command |
| EdScript.EditShape | tool/main.cc:294-310 | an accepted edit keeps the entries before the cut, places the chunk there and keeps the entries after the range in order; its length is the old length minus the range plus the chunk, and its text is the text before, then the chunk, then the text after |
| EdScript.DotIsLastWritten | tool/main.cc:294-310 | after an edit with a non-empty chunk, the entry ed makes its current line holds the chunk's last line |
| EdScript.FixTargetAsWritten | tool/main.cc:462-463 | the register the fix-up reads names ed's current line exactly when the chunk is empty, or the operation is not `a` and the chunk is one entry longer than the replaced range |
| EdScript.FixUpAgreesWithoutChunk | tool/main.cc:459-465 | after a command with an empty chunk, the fix-up as written and the corrected one edit the same entry |
| EdScript.DeleteThenFixUpExample | tool/main.cc:459-465 | with base `a`, `b`, `c` and the script `1,1d`, `s/.//`, both fix-ups leave `.` then `c` |
| EdScript.UnterminatedLastLineOverruns | tool/main.cc:447-452 | as written, after an unterminated last script line the loop resumes at address 1, which passes the loop test yet lies outside the script buffer |
| EdScript.NextLineStart | tool/main.cc:439-452 | where the corrected loop resumes: after the line's newline, or at the end for an unterminated last line; the entries of the rest are that line followed by the entries from there on |
| EdScript.RunSplit | tool/main.cc:437-489 | running two scripts one after the other is running their concatenation |
| EdScript.WriteLinesSkipped | tool/main.cc:466-467 | while no command is pending, lines starting with `w` leave the state as it is |
| EdScript.ScriptWithoutCommands | tool/main.cc:408-499 | a script whose lines all start with `w` writes back the base unchanged |
| EdScript.ChunkCollected | tool/main.cc:474-476 | while a command is pending, every line that does not end the chunk is appended to the chunk, in order |
| EdScript.AppendCommandParsed | tool/main.cc:469-473 | `Na` is a whole line that opens a chunk and parses to an append after line N |
| EdScript.RangeCommandParsed | tool/main.cc:469-473 | `N,Mc` and `N,Md` are whole lines that parse to their addresses; only the `d` form is applied without a chunk |
| EdScript.DeleteCommandParsed | tool/main.cc:472-473 | `N,Md` is applied at once and parses to a delete of lines N..M |
| EdScript.ChangeCommandParsed | tool/main.cc:469-473 | `N,Mc` opens a chunk and parses to a change of lines N..M |
| EdScript.RunCommandWithChunk | tool/main.cc:454-488 | a command line, lines that do not end a chunk, then `.` apply the command to exactly those lines |
| EdScript.RunDelete | tool/main.cc:472-488 | a delete line alone applies the command with an empty chunk |
| EdScript.ScriptOfCommand | tool/main.cc:437-452 | a command line, its chunk and `.` written out split back into those lines, whatever follows |
| EdScript.AppendAfterLine | tool/main.cc:294-295 | the script `Na`, lines, `.` inserts those lines after line N of the base when the base has at least N lines, and is rejected otherwise |
| EdScript.DeleteRange | tool/main.cc:296-310 | the script `N,Md` removes lines N..M of the base when 1 ≤ N ≤ M and the base has M lines, and is rejected when the base has fewer than M lines |
| EdScript.ChangeRange | tool/main.cc:296-310 | the script `N,Mc`, lines, `.` replaces lines N..M of the base by those lines when 1 ≤ N ≤ M and the base has M lines, and is rejected when the base has fewer than M lines |
| EdScript.FixUpAsWrittenMissesAppend | tool/main.cc:459-465 | after an append, the fix-up as written overwrites the line the chunk was appended after and leaves the chunk's last line alone; the corrected fix-up edits that last line |
| EdScript.FixUpAsWrittenExample | tool/main.cc:462-463 | with base `x` and the script `1a`, `..`, `.`, `s/.//`, the fix-up as written leaves `.` then `..`; corrected it leaves `x` then `.` |
| EdScript.EditLastReplaced | tool/main.cc:459-465 | replacing the current line after an edit is the same edit with the chunk's last entry replaced |
| EdScript.ScriptWithDotFix | tool/main.cc:437-465 | a command, its chunk, `.` and `s/.//` written out split back into those lines |
| EdScript.RunCommandThenFix | tool/main.cc:454-488 | a command with its chunk followed by `s/.//` applies the command, then the fix-up |
| EdScript.AppendText | tool/main.cc:294-295 | an append after line n of the base's entry array writes the first n lines, the chunk, then the other lines |
| EdScript.ReplaceText | tool/main.cc:296-310 | a replacement of lines N..M in the base's entry array writes the lines before N, the chunk, then the lines after M |
| EdScript.AppendFixedText | tool/main.cc:459-465 | after an append followed by the fix-up, the text has the chunk with its last line turned into a single dot |
| EdScript.AppendWithDotFix | tool/main.cc:459-465 | the script `Na`, lines, `.`, `s/.//` inserts those lines after line N with the last one turned into `.`, and is rejected when the base is too short |
| Patcher.Patcher.constructor | tool/main.cc:281-282 | the registers start at zero and no entries are loaded |
| Patcher.Patcher.LoadBase | tool/main.cc:415-430 | the entry array becomes the dummy entry followed by the base's lines; the registers are unchanged |
| Patcher.Patcher.ReadCommand | tool/main.cc:286-290 | the registers take what sscanf converts, and the single-address form copies the first address; the command is the parsed one, or none for any other conversion count |
| Patcher.Patcher.PatchChunk | tool/main.cc:284-312 | success exactly when the command parses and passes the corrected address check (`EdScript.Accepts`); the new array, registers and current line are those of the specified edit; on rejection the array is untouched and the registers hold what sscanf stored |
| Patcher.Patcher.Replace | tool/main.cc:296-310 | writing the chunk over the range one entry at a time, then inserting the rest or erasing the leftover range, yields `idx[..start] + chunk + idx[last+1..]`; rangeStart ends advanced by the number of entries overwritten |
| Patcher.WriteOver | tool/main.cc:299-301 | one step of the replacement loop extends the overwritten prefix by one chunk entry |
| Patcher.InsertRest | tool/main.cc:305-306 | inserting the rest of a chunk that outgrew the range completes the replacement |
| Patcher.EraseRest | tool/main.cc:307-308 | erasing what a shorter chunk left of the range completes the replacement |
| Patcher.Patcher.FixLastLine | tool/main.cc:459-465 | the fix-up, corrected, turns ed's current line into `.`: the chunk's last line after an edit with a chunk, otherwise the entry at the command's first address, where the source writes too |
| Patcher.Patcher.ScriptLine | tool/main.cc:454-488 | one script line changes the fields, chunk and pending command exactly as the specified step does, and fails exactly when that step rejects |
| Patcher.Patcher.ApplyScript | tool/main.cc:437-489 | walking the script line by line succeeds exactly when the specified run does, and leaves the entries, registers and current line of that run |
| Patcher.PatchFile | tool/main.cc:408-499 | status -2 when an input cannot be opened; EINVAL when a command is rejected; -3 when the result cannot be opened; otherwise the patched text is written and the status is 0, or -4 when the write fails |
| ControlLines.TerminatorFrom | tool/main.cc:153 | mempbrk finds the first CR or LF at or after the start, and none exists before it |
| ControlLines.FindTerminator | tool/main.cc:153 | the first CR or LF of the buffer, none before it; none at all when the result is absent |
| ControlLines.FirstTerminator | tool/main.cc:153 | a terminator with none before it is the one mempbrk finds |
| ControlLines.TakeLines | tool/main.cc:150-157 | each cut line is free of terminators and was ended by one terminator; the rest has no terminator and is no longer than the buffer |
| ControlLines.TakeLinesRejoin | tool/main.cc:150-157 | the lines, each with its terminator, then the rest spell exactly the buffer |
| ControlLines.RejoinTakeLines | tool/main.cc:150-157 | the cut is the only possible one: terminator-free lines with one terminator each, then a terminator-free rest, are cut back into exactly those parts |
| ControlLines.TakeLinesResume | tool/main.cc:147-157 | cutting x, then its rest followed by y, gives the same lines, terminators and rest as cutting x + y at once |
| ControlLines.CrLfLeavesEmptyLine | tool/main.cc:153-157 | only one terminator is dropped per line, so a line ended by CR LF is followed by an empty line |
| ControlLines.Classify | tool/main.cc:158-166 | only a line that starts with the key is a control line; its text is non-empty, does not start with NUL, and is the line's tail after the key |
| ControlLines.ClassifyFormatted | tool/main.cc:158-179 | the line key + number + text, where the text does not start with a digit, is ignored when the text is empty or starts with NUL, whatever the number; otherwise it is a kept message, an error or ignored according to the number, and carries the text |
| ControlLines.Handle | tool/main.cc:166-179 | one classified line: a kept message is appended to the kept ones; an error writes the kept ones then its own text and forgets the kept ones; anything else changes nothing |
| ControlLines.HandleAll | tool/main.cc:150-181 | the cut lines handled in order, each with the messages the previous ones left; the lines written are collected in order |
| ControlLines.HandleAllKeepsMessages | tool/main.cc:166-179 | no message is lost, repeated or reordered: written lines plus kept ones are the previously kept ones plus the texts of the control lines |
| ControlLines.NoErrorNothingWritten | tool/main.cc:168-170 | without an error line nothing is written and every message text is kept, in order |
| ControlLines.HandleAllAppend | tool/main.cc:150-180 | handling lines in two batches is handling them in one |
| ControlLines.Accepted | tool/main.cc:147-149 | the part of the data taken in is a prefix of it that fits the free space, and is shorter than the data only when it fills the buffer |
| ControlLines.Store | tool/main.cc:141-183 | after a call the buffer holds at most 65536 characters and no terminator |
| ControlLines.StoreDropsExcess | tool/main.cc:147-149 | data beyond the free space is dropped without any effect |
| ControlLines.StoreResumable | tool/main.cc:141-183 | a body that fits the buffer gives the same rest, kept messages and written lines however it is split between two calls |
| Items.StatusAfterData | tool/main.cc:143-146 | a call with no data makes the status Complete; a call with data leaves it unchanged |
| Items.PrintItem.constructor | tool/main.cc:75-79 | the counters start at zero, storing is forbidden and nothing has been printed |
| Items.PrintItem.Setup | tool/main.cc:80-84 | the counters return to zero and the status becomes Inited, which is returned |
| Items.PrintItem.DownloadStartedStoreHeader | tool/main.cc:87-92 | the header is kept and the download goes on |
| Items.PrintItem.StoreFileData | tool/main.cc:93-99 | the written part of the data is appended to standard output; success exactly when all of it was written; end of body on an empty call |
| Items.ReportItem.constructor | tool/main.cc:121-127 | the counters start at zero, storing is forbidden, and the line buffer and the kept messages are empty |
| Items.ReportItem.Setup | tool/main.cc:128-132 | the counters return to zero and the status becomes Inited, which is returned; buffer and messages are kept |
| Items.ReportItem.DownloadStartedStoreHeader | tool/main.cc:135-140 | the header is kept and the download goes on |
| Items.ReportItem.StoreFileData | tool/main.cc:141-183 | always succeeds; the buffer stays within 65536 characters; the new buffer, kept messages and lines written are those of the specified scan; end of body on an empty call |
| Items.ReportItem.HandleLine | tool/main.cc:158-180 | one cut line updates the kept messages and writes lines exactly as its classification prescribes |
| Items.ExitCode | tool/main.cc:802-819 | -2 exactly when the URL does not parse; success exactly for HTTP 200, EIO exactly for 500 and above, EACCES exactly for 400–499, each only while the item is not Complete; failure for everything else, including every Complete item |

## Left out

- The download engine (`dlcon`, its job queue and work loop), `fileitem` internals, `tcpconnect` and the connection factory are not part of this model. Their source is not among the files modelled. `wcat`'s run of the engine is replaced by the item status and HTTP status it leaves, given as inputs to `Items.ExitCode`.
- `wcat`'s `-1` return on the proxy path is not modelled. It depends on the result of `tHttpUrl::SetHttpUrl` for the proxy, and that function is not part of this model. Whether the target URL parses is an input.
- `maint_job` (socket plumbing), password hashing, option parsing, `usage`, `main`'s dispatch and the `printvar`, `cfgdump`, `retest` and `encb64` commands are left out. They are I/O or thin wrappers over code not shown. So are the `#if 0` blocks, which are dead code.
- `test/src/ut_cfg_remap.cc` is left out. It only exercises configuration functions that are not part of this model.
- File I/O in `patch_file` is not performed: opening the inputs, opening the result and the final stream state are boolean parameters of `Patcher.PatchFile`. The `cerr` diagnostics are left out. On a rejected command the tool exits with EINVAL; the model returns EINVAL as the status.
- `Patcher.Patcher.ApplyScript`: says nothing about the fields after a rejected command, because the tool exits at once there.
- Entries are modelled by their text, not as pointer and length into the file buffers. The dummy entry 0 is the empty string.
- The command parse reads only the command's own line. Real `sscanf` skips white space across the newline, so a command line holding only white space can read the next line's number. Such a line is rejected here.
- A `.` line with no pending command is rejected by the model. The source behaves in one of three ways there. Line 488 resets `cmdlen` but not `cmd`, so after a two-address command `patchChunk` reads that old `N,M<op>` text again and applies it a second time with an empty chunk. For example, base `a`, `b`, `c` and the script `1,1d`, `.` leave only `c`. Before any command, `cmd` is null. After a single-address command, `pline[len - 2]` reads before the line, because `len` is 0. Both of those are undefined behaviour.
- A single-address command line shorter than two characters makes the source read the character before the line. The model rejects it.
- `ControlLines.Accepted`: free space is the capacity minus the buffered characters. The buffer class of the source (`acbuf`) is not part of this model. If it does not compact after a drop, its real free space can be smaller.
- The conversion of the control-line number to the line-type enum is modelled as a comparison with the two type values, which are parameters together with the key. The enum's definition and the key's value are not part of this model, and neither is any narrowing of large numbers.
- The lines the report item writes to the error stream are returned as a list. The `endl` that follows each is not modelled.
- `StoreFileData`'s 32-bit `size` argument is modelled as an unbounded length.
- The initial item status is modelled as `Fresh`. The base class constructor that sets it is not part of this model.
- `GetFileFd` and `SendData` of both items return the constants 1 and 0 and are not used by the logic modelled, so they are left out. So are the header hook's size hint, range and freshness arguments, which both items ignore.
- `Items.ExitCode` models the Complete case as written: a Complete item gives `EXIT_FAILURE`. The engine that sets the final status is not part of this model, so the model does not tell whether that is intended.

## Findings

| source | as written | input that shows it | evidently intended | confidence | as-written member | corrected member |
|---|---|---|---|---|---|---|
| tool/main.cc:292 | `rangeStart > idx.size() \|\| rangeLast > idx.size()` accepts an address equal to the number of entries. The corrected check also rejects `N,Ma` whose unused second address equals the entry count, which the source applies in range | base `x` (two entries with the dummy) and script `2d`: entry 2 does not exist, yet the erase runs on it; `2a` inserts past the end | addresses must be below the number of entries | high; not executed | EdScript.AcceptsAsWritten (EdScript.AsWrittenAdmitsEndAddress) | EdScript.Accepts (EdScript.EditShape, EdScript.DeleteRange, Patcher.Patcher.PatchChunk) |
| tool/main.cc:452 | `p=crNext+1` runs after the branch at line 450 set the end-of-script signal, so a null `crNext` makes `p` address 1 | a script whose last line has no newline, such as `1d` without a line feed: the loop goes on reading at address 1 | the loop stops after the unterminated last line | high; not executed | EdScript.NextLineAddressAsWritten (EdScript.UnterminatedLastLineOverruns) | EdScript.NextLineStart (Patcher.Patcher.ApplyScript) |
| tool/main.cc:462-463 | the `s/.//` fix-up edits entry `rangeStart`, which after `a` is the line appended after, and after `c` is usually past the chunk | base `x`, script `1a`, `..`, `.`, `s/.//`: the result is `.` then `..` | the fix-up edits ed's current line, the chunk's last line, giving `x` then `.`; after a command with an empty chunk, `rangeStart` already is ed's current line and both agree | high; not executed | EdScript.FixLastLineAsWritten (EdScript.FixUpAsWrittenExample, EdScript.FixUpAsWrittenMissesAppend, EdScript.FixTargetAsWritten) | EdScript.FixLastLine (EdScript.AppendWithDotFix, EdScript.FixUpAgreesWithoutChunk, EdScript.DeleteThenFixUpExample, Patcher.Patcher.FixLastLine) |
