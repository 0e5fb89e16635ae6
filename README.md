# A verified model of TOTHTOT/rust's core programs

This project is a Dafny model of the programs at the centre of the
TOTHTOT/rust learning repository.

- **The command-line ebook reader** (`project/ebook_reader_cmdline`):
  - the `BookCtrl` pager, which reads a UTF-8 text file line by line in both directions and shows each line in windows as wide as the terminal;
  - the `BookInfo` progress record;
  - the main-menu and hot-key codes;
  - the key loop of `read_book`.
- **The bill-of-materials manager** (`project/bom_manage`, `project/bom_manage_lib`):
  - the command-line tokenizer `get_cmd`;
  - the data-file check;
  - the `Element` setters.
- **The terminal form demo** (`project/cli_test`): its key-driven state machine.
- **The login page of the egui demo** (`project/ele_ds_ui`): `AppState`, `Page` and `User`.
- **The small learning programs**:
  - the shirt `Inventor` (`learn/closures`);
  - `minigrep`'s `Config::new` and `search`;
  - the generic `largest`;
  - the `Summary` trait items and `add` (`learn/trait_lib_1`);
  - the `Copy` swap (`learn/trait_1`);
  - the hash-map demo (`learn/hashmap`);
  - the iterator demo (`learn/iter_test`).

Modules:

- `Wrappers`: `Option` and `Result`.
- `Utf8`: bytes, and UTF-8 as RFC 3629 section 4 defines it.
- `RustText`, for the Rust `str` operations the programs use:
  - `char::is_whitespace`;
  - `trim`;
  - `split_whitespace`;
  - `lines`;
  - `contains`.
- `SeqFilter`: `Iterator::filter`.
- For the ebook reader:
  - `EbookMenu`;
  - `EbookPager`, holding the pure step functions and the `BookCtrl` class, whose methods are proved against them;
  - `EbookProgress`, holding `BookInfo`;
  - `EbookSession`.
- One module per remaining program: `BomCmd`, `BomLib`, `CliForm`, `ClosuresInventory`, `Minigrep`, `GenericLargest`, `TraitSummary`, `TraitSwap`, `HashmapDemo`, `IterDemo` and `EleDsLogin`.

How the Rust code is modelled:

- Code that mutates objects becomes Dafny classes whose methods are proved against pure step functions.
- Expression code becomes functions.
- Rust integer widths are Dafny subset types: `Int32`, `U32` and `U64`, plus `USize` for 64-bit `usize`.

Where the pager's behaviour has consequences the code does not state, the model states them:

- `next_line` never returns when only blank lines remain.
- `cal_progress`'s `file_start_seek - len` overflows when the file ends inside a short undecodable window. That panics in debug builds and wraps to 2^64 − len in release builds.
- `previous_line` loads the line two before the current one. In "A\nB\nC\nD\n", right after "D" was read forward, it loads "B", and "C" is skipped.
- `update_progress` stores `progress_percent` as a fraction between 0 and 1. `cal_progress` and the book list read the same field as a percentage between 0 and 100.
- A window slice outside the line panics.

## Model

| member | source | states |
|---|---|---|
| EbookMenu.ToNumber | project/ebook_reader_cmdline/src/main.rs:60-62 | Menu codes lie in 0..6; code 6 is exactly `Unsupport`. |
| EbookMenu.FromNumber | project/ebook_reader_cmdline/src/main.rs:46-58 | Codes 0..5 map back to a function with that code; exactly the other codes give `Unsupport`. |
| EbookMenu.NumberRoundTrip | project/ebook_reader_cmdline/src/main.rs:46-62 | `from_number(to_number(f)) == f` for every menu function. |
| EbookMenu.ToNumberInjective | project/ebook_reader_cmdline/src/main.rs:60-62 | Distinct menu functions have distinct codes. |
| EbookMenu.TransformKeytype | project/ebook_reader_cmdline/src/main.rs:477-484 | Newline means next line, `B` means previous line and `\` means exit, each both ways; every other byte is unsupported. |
| EbookPager.LineEnd | project/ebook_reader_cmdline/src/main.rs:136-162 | `read_line` stops at the end of the file or just past a newline, and always consumes a byte when one is left. |
| EbookPager.LineEndIsFirstNewline | project/ebook_reader_cmdline/src/main.rs:136-162 | No newline comes before the one that ends the line. |
| EbookPager.SpinsIffRestBlank | project/ebook_reader_cmdline/src/main.rs:172-188 | The forward read loops forever exactly when every byte from the stream position decodes to whitespace. |
| EbookPager.ForwardScanBlankLine | project/ebook_reader_cmdline/src/main.rs:172-188 | A blank line is skipped and the scan continues from the next line. |
| EbookPager.ScanBackFindsThirdNewline | project/ebook_reader_cmdline/src/main.rs:189-239 | Leaving out the byte just before the position, the backward scan stops on the newline that has exactly two newlines between it and that byte. If it reaches the file start, at most two newlines lie behind. |
| EbookPager.BackScanSkipsByteZero | project/ebook_reader_cmdline/src/main.rs:189-239 | A line found backward starts after a newline or at byte 1, never at byte 0, because of `seek(new_position + 1)`. |
| EbookPager.WindowCountIsCeiling | project/ebook_reader_cmdline/src/main.rs:258-313 | A line of r characters takes ceil(r / w) windows of the terminal width w. |
| EbookPager.NextLinesShowWholeLine | project/ebook_reader_cmdline/src/main.rs:289-313 | Consecutive `next_line` windows over a line concatenate to the whole line, and the counters end at 0 remaining. |
| EbookPager.TwentyFiveCharactersInWindowsOfTen | project/ebook_reader_cmdline/src/main.rs:258-283 | Example: a 25-character line at width 10 shows 10, 10 and 5 characters. |
| EbookPager.TailWindowEmptyOnMultiple | project/ebook_reader_cmdline/src/main.rs:321-356 | After a backward read, the window `len / term_width` is empty exactly when the line length is a multiple of the width; otherwise it is the last window. |
| EbookPager.WholeWindowsIsDivisibility | project/ebook_reader_cmdline/src/main.rs:321-356 | Subtracting widths reaches 0 exactly when the length is a multiple of the width. |
| EbookPager.NextStepConsistent | project/ebook_reader_cmdline/src/main.rs:289-313 | `next_line` keeps the window counters within the line. |
| EbookPager.PreviousStepConsistent | project/ebook_reader_cmdline/src/main.rs:321-356 | `previous_line` keeps the counters within the line and always shows a window. |
| EbookPager.NextStepPanicsOnlyAfterFailedRead | project/ebook_reader_cmdline/src/main.rs:289-313 | `next_line` panics only after a failed read at the end of a line; it hangs exactly when the rest of the file is blank. |
| EbookPager.NextStepInsideLine | project/ebook_reader_cmdline/src/main.rs:289-313 | Inside a line, `next_line` leaves the stream position and the line alone and shows the next window. |
| EbookPager.AtLineStartPersists | project/ebook_reader_cmdline/src/main.rs:289-356 | The `at_line_start` flag survives `next_line` calls within the line. |
| EbookPager.BackwardAtStart | project/ebook_reader_cmdline/src/main.rs:189-239 | At position 0 the backward read changes nothing but the raw buffer. |
| EbookPager.RawReadIsLoad | project/ebook_reader_cmdline/src/main.rs:136-162 | A raw read either loads a line with text, reports undecodable bytes or reports a blank line, and moves to the line's end. |
| EbookPager.RawReadThenScan | project/ebook_reader_cmdline/src/main.rs:136-188 | One raw read either completes the forward read or leaves what remains of it unchanged. |
| EbookPager.BackwardReadSkipsALine | project/ebook_reader_cmdline/src/main.rs:189-239 | Example: in "A\nB\nC\nD\n", reading backward from just after "D" loads "B" and leaves the stream after "B\n"; the line "C" is skipped. |
| EbookPager.ReverseReverse | project/ebook_reader_cmdline/src/main.rs:189-239 | Reversing the bytes collected backward twice gives them back in file order. |
| EbookPager.BookCtrl.constructor | project/ebook_reader_cmdline/src/main.rs:109-123 | A new pager opens at the saved progress, with an empty line and zeroed counters. |
| EbookPager.BookCtrl.ReadLineRaw | project/ebook_reader_cmdline/src/main.rs:136-162 | Its new state and result are those of the raw-read step function. |
| EbookPager.BookCtrl.ReadLineForward | project/ebook_reader_cmdline/src/main.rs:170-188 | Its new state and result are those of the forward read. |
| EbookPager.BookCtrl.ReadLineBackward | project/ebook_reader_cmdline/src/main.rs:189-239 | Its new state and result are those of the backward read. |
| EbookPager.BookCtrl.ScanBackBytes | project/ebook_reader_cmdline/src/main.rs:203-225 | The byte-by-byte backward loop ends where ScanBack does, having collected the passed bytes in reverse. |
| EbookPager.BookCtrl.ShowWindow | project/ebook_reader_cmdline/src/main.rs:258-283 | It shows the window of the show step, or panics when the window starts past the line. |
| EbookPager.BookCtrl.NextLine | project/ebook_reader_cmdline/src/main.rs:289-313 | It moves the pager by exactly NextStep. |
| EbookPager.BookCtrl.PreviousLine | project/ebook_reader_cmdline/src/main.rs:321-356 | It moves the pager by exactly PreviousStep. |
| EbookProgress.FoundIsCharacterStart | project/ebook_reader_cmdline/src/main.rs:396-450 | A resolved position is a whole number of 5-byte windows past the candidate and begins a well-formed character inside the file. |
| EbookProgress.FoundIsFirst | project/ebook_reader_cmdline/src/main.rs:396-450 | No earlier window start in that stride begins a character. |
| EbookProgress.FailureLeavesRemainder | project/ebook_reader_cmdline/src/main.rs:396-450 | Failure gives position 0 exactly when the unread tail is a whole number of windows; otherwise `file_start_seek - len` underflows, with len = (size - candidate) mod 5. |
| EbookProgress.CandidatePastEnd | project/ebook_reader_cmdline/src/main.rs:396-450 | At 100 percent the position is 0. |
| EbookProgress.TwoStrayBytesUnderflow | project/ebook_reader_cmdline/src/main.rs:396-450 | Example: two continuation bytes underflow. |
| EbookProgress.SkipsOneWindow | project/ebook_reader_cmdline/src/main.rs:396-450 | Example: starting inside a character, one 5-byte window is discarded and the next character is found. |
| EbookProgress.WindowGrows | project/ebook_reader_cmdline/src/main.rs:396-450 | The probe buffer becomes valid UTF-8 exactly when it holds the first character. |
| EbookProgress.BookInfo.constructor | project/ebook_reader_cmdline/src/main.rs:376-388 | It holds the given title, author, path, progress, size and percentage, and marks the file available. |
| EbookProgress.BookInfo.CalProgress | project/ebook_reader_cmdline/src/main.rs:396-450 | The file size is recorded; the progress is the first character start found, 0 when none is found, unchanged on the overflow; overflow is reported exactly when it happens. |
| EbookProgress.BookInfo.UpdateProgress | project/ebook_reader_cmdline/src/main.rs:459-463 | The saved progress becomes the stream position, and `progress_percent` becomes that position divided by the file size. |
| EbookProgress.Quotient | project/ebook_reader_cmdline/src/main.rs:462 | `a as f32 / b as f32` is finite exactly when b is positive, and then the quotient times b is a. 0 / 0 is NaN; a positive number over 0 is infinity. |
| EbookProgress.PositionQuotientIsFraction | project/ebook_reader_cmdline/src/main.rs:462 | For a position inside a non-empty file, the stored value lies between 0 and 1 and is 1 exactly at the end. It is a fraction, not the percentage that line 399 divides by 100. |
| EbookSession.SessionKeepsConsistent | project/ebook_reader_cmdline/src/main.rs:744-781 | Every key of the reading loop keeps the pager counters in range. |
| EbookSession.SavedProgressIsPosition | project/ebook_reader_cmdline/src/main.rs:744-781 | Unless the reader hung or panicked, the saved progress equals the stream position. |
| EbookSession.StoppedSessionIgnoresLaterKeys | project/ebook_reader_cmdline/src/main.rs:744-781 | Keys after an exit, unsupported key, hang or panic change nothing. |
| EbookSession.PanicOnlyAfterFailedRead | project/ebook_reader_cmdline/src/main.rs:744-781 | A session that panics received at least one next-line key. |
| EbookSession.ReadBook | project/ebook_reader_cmdline/src/main.rs:744-781 | The loop leaves the pager, the progress and the stop reason as the session function does. `progress_percent` is either unchanged along with the progress, or the saved progress over the file size. |
| BomCmd.GetCmdArguments | project/bom_manage/src/main.rs:65-77 | Refusal exactly for blank input, with "Empty input". Otherwise: the program name, then `split_whitespace` of the untrimmed input, as fixed by the RustText.Split lemmas. These are non-empty, whitespace-free words that hold the input's non-whitespace characters in order. |
| BomCmd.TrimKeepsNonWhitespace | project/bom_manage/src/main.rs:66 | `trim` removes only whitespace. |
| BomCmd.ListCommandLine | project/bom_manage/src/main.rs:65-77 | Example: `" ls a\n"` gives `["bom", "ls", "a"]`. |
| BomLib.MagicIsHeaderString | project/bom_manage_lib/src/lib.rs:101-137 | The checked header is "SQLite format 3" followed by a zero byte. |
| BomLib.CheckDatafileAccepts | project/bom_manage_lib/src/lib.rs:101-137 | Accepted exactly when the file is readable with the 16-byte SQLite header; each error message corresponds to exactly one failure. |
| BomLib.OnlyHeaderMatters | project/bom_manage_lib/src/lib.rs:101-137 | Bytes after the first 16 do not affect the verdict. |
| BomLib.Element.constructor | project/bom_manage_lib/src/lib.rs:32-38 | It holds the given fields. |
| BomLib.Element.ModifyDescribe | project/bom_manage_lib/src/lib.rs:263 | It sets the description and returns the same element, for chaining. |
| BomLib.Element.ModifyNumber | project/bom_manage_lib/src/lib.rs:273 | It sets the number and returns the same element. |
| BomLib.ModifyBoth | project/bom_manage_lib/src/lib.rs:263-273 | Chained setters change these two fields and no others. |
| CliForm.KeyStepKeepsValid | project/cli_test/src/main.rs:112-167 | Every key keeps focus and selection in range. |
| CliForm.InputsChangeOnlyByTyping | project/cli_test/src/main.rs:154-166 | A text field changes only while it has focus, by one typed or erased character. |
| CliForm.TypingAppendsToFocusedInput | project/cli_test/src/main.rs:154-160 | A character other than `q` and space is appended to the focused text field and changes nothing else; with the checkboxes focused it changes nothing. |
| CliForm.BackspaceErasesFromFocusedInput | project/cli_test/src/main.rs:161-166 | Backspace on a non-empty focused field removes exactly its last character and changes nothing else; otherwise it changes nothing. |
| CliForm.SpaceTogglesSelectedCheckbox | project/cli_test/src/main.rs:119-124 | Space flips exactly the selected checkbox, and only while the checkboxes have focus. |
| CliForm.BackspaceUndoesTyping | project/cli_test/src/main.rs:154-166 | Backspace undoes a typed character. |
| CliForm.ThreeTabsCycle | project/cli_test/src/main.rs:115-118 | Three Tabs return to the same state. |
| CliForm.DownUpInCheckboxes | project/cli_test/src/main.rs:125-138 | In the checkboxes, Down and Up move the selection within 0..2, and Up undoes Down. |
| CliForm.DownUpMoveFocus | project/cli_test/src/main.rs:125-138 | Outside the checkboxes, Down and Up move focus between the two fields. |
| CliForm.LeftRightOnlyOnButtons | project/cli_test/src/main.rs:139-148 | Left and Right move the button selection only when the second field has focus, clamped to the buttons. |
| CliForm.KeysRead | project/cli_test/src/main.rs:32-167 | The loop reads keys up to and including the first `q`. |
| CliForm.Form.constructor | project/cli_test/src/main.rs:25-30 | The initial state: no boxes checked, empty fields, first focus and button. |
| CliForm.Form.HandleKey | project/cli_test/src/main.rs:112-167 | It quits exactly on `q`; otherwise the state moves by KeyStep. |
| CliForm.Form.Run | project/cli_test/src/main.rs:32-167 | The loop consumes the keys up to the first `q`, and the state is the replay of those keys. |
| ClosuresInventory.FirstIndexIsFirst | learn/closures/src/main.rs:49-62 | The matched index is the first occurrence. |
| ClosuresInventory.RemoveFirstDeletesOne | learn/closures/src/main.rs:49-62 | `remove` takes exactly one shirt of that colour. |
| ClosuresInventory.TakeGivesOneShirt | learn/closures/src/main.rs:49-62 | A colour in stock is given and one shirt of it leaves; otherwise the error, with the stock unchanged. |
| ClosuresInventory.PickFromIsFirstMaximum | learn/closures/src/main.rs:83-118 | The counting scan picks the first colour with the largest positive count, or none when all counts are 0. |
| ClosuresInventory.MostStockedIsFirstMaximum | learn/closures/src/main.rs:83-118 | The most stocked colour is in stock and is the first maximum; none exactly for an empty stock. |
| ClosuresInventory.NoPreferenceGivesMostStocked | learn/closures/src/main.rs:28-38 | Without a preference, a non-empty stock always yields its most stocked shirt. |
| ClosuresInventory.Inventor.constructor | learn/closures/src/main.rs:14-16 | It holds the given stock. |
| ClosuresInventory.Inventor.StoreHaveShirtcolor | learn/closures/src/main.rs:72-74 | True exactly when the colour is in stock. |
| ClosuresInventory.Inventor.GetSelectShirtcolor | learn/closures/src/main.rs:49-62 | Result and new stock are those of Take. |
| ClosuresInventory.Inventor.GetMostStore | learn/closures/src/main.rs:83-118 | None, the process exit, exactly when the stock holds an uncounted colour; otherwise the most stocked colour. |
| ClosuresInventory.Inventor.Getaway | learn/closures/src/main.rs:28-38 | A preference is honoured via Take; without one, the most stocked colour is taken, or the process exits. |
| SeqFilter.FilterIsSubsequence | learn/iter_test/src/main.rs:43-47 | `filter` keeps elements in their order. |
| SeqFilter.FilterMembership | learn/iter_test/src/main.rs:43-47 | An element is kept exactly when it is in the input and passes the predicate. |
| SeqFilter.FilterCounts | learn/iter_test/src/main.rs:43-47 | Each element that passes occurs in the result as often as in the input; every other element does not occur. |
| SeqFilter.FilterSnoc | learn/minigrep_lib/src/lib.rs:51-55 | Pushing while scanning builds the filter. |
| Minigrep.ConfigNew | learn/minigrep_lib/src/lib.rs:21-29 | Success exactly for three arguments, with query and filename from positions 1 and 2; otherwise the error message. |
| Minigrep.MatchingIsExact | learn/minigrep_lib/src/lib.rs:48-58 | The results are exactly the lines containing the query, in file order. A matching line found several times in the file is returned that many times. |
| Minigrep.EmptyQueryFindsEveryLine | learn/minigrep_lib/src/lib.rs:48-58 | An empty query matches every line. |
| Minigrep.Search | learn/minigrep_lib/src/lib.rs:48-58 | The loop returns the matching lines. |
| GenericLargest.Largest | learn/generic_arg/src/main.rs:1-10 | The chosen element is at least every element, and is the first such element. |
| GenericLargest.NumListLargest | learn/generic_arg/src/main.rs:12-15 | The largest of 1..5 is 5. |
| TraitSummary.NewsSummaryIgnoresFields | learn/trait_lib_1/src/lib.rs:1-22 | News items use the default summary "(Read more...)", whatever their fields. |
| TraitSummary.TweetSummaryParts | learn/trait_lib_1/src/lib.rs:39-44 | A tweet summary is the user name, ": ", then the content. |
| TraitSummary.TweetSummaryInjective | learn/trait_lib_1/src/lib.rs:39-44 | For one user, equal summaries mean equal contents. |
| TraitSummary.GetHeadline | learn/trait_lib_1/src/lib.rs:24-28 | It returns the headline. |
| TraitSummary.Add | learn/trait_lib_1/src/lib.rs:46-48 | The sum when it fits in `usize`, None (the overflow panic) exactly otherwise. |
| TraitSummary.AddTwoTwo | learn/trait_lib_1/src/lib.rs:54-58 | `add(2, 2) == 4`. |
| TraitSwap.Cell.constructor | learn/trait_1/src/main.rs:53-54 | A cell holds its value. |
| TraitSwap.Swap | learn/trait_1/src/main.rs:17-22 | The two values are exchanged. |
| TraitSwap.SwapTwice | learn/trait_1/src/main.rs:17-22 | Swapping twice restores both values. |
| TraitSwap.SwapFloats | learn/trait_1/src/main.rs:53-57 | After the swap, a = 2.2 and b = 1.1. |
| HashmapDemo.HashMap.constructor | learn/hashmap/src/main.rs:7 | A new map is empty. |
| HashmapDemo.HashMap.Insert | learn/hashmap/src/main.rs:11-20 | Insert sets the key, leaves the other keys alone and returns the old value. |
| HashmapDemo.HashMap.EntryAddOne | learn/hashmap/src/main.rs:27-28 | `entry().or_insert(0)` then `+= 1` adds one to the count, starting from 0. |
| HashmapDemo.InsertExistingKeepsKeys | learn/hashmap/src/main.rs:20 | Overwriting a key keeps the key set and the size. |
| HashmapDemo.TeamScores | learn/hashmap/src/main.rs:7-21 | The map ends as {Blue: 25, Yellow: 50}, with two entries. |
| HashmapDemo.TallyCountsOccurrences | learn/hashmap/src/main.rs:24-30 | The keys are the distinct words, each mapped to its number of occurrences. |
| HashmapDemo.TallySumsToWordCount | learn/hashmap/src/main.rs:24-30 | The counts sum to the number of words. |
| HashmapDemo.CountWords | learn/hashmap/src/main.rs:24-30 | The loop builds the tally of `split_whitespace`. |
| HashmapDemo.GreetingWords | learn/hashmap/src/main.rs:24-26 | The greeting splits into five words. |
| HashmapDemo.GreetingCounts | learn/hashmap/src/main.rs:24-30 | The counts are hello 2, world 2 and helloworld 1, and nothing else. |
| IterDemo.Map | learn/iter_test/src/main.rs:22-23 | `map` preserves length and applies the closure to each element. |
| IterDemo.AddOneUndone | learn/iter_test/src/main.rs:22-23 | Mapping +1 then -1 returns the list. |
| IterDemo.ListPlusOne | learn/iter_test/src/main.rs:22-25 | `[1, 2, 3]` maps to `[2, 3, 4]`. |
| IterDemo.FiltersKeepExactlyThePassing | learn/iter_test/src/main.rs:43-47 | Both filters keep exactly the matching shirts, in order. |
| IterDemo.BlueShirts | learn/iter_test/src/main.rs:28-43 | The blue shirts are the first and third. |
| IterDemo.SizeTenShirts | learn/iter_test/src/main.rs:28-47 | The size-10 shirts are the first and second. |
| EleDsLogin.AppState.constructor | project/ele_ds_ui/src/app_state.rs:27-36 | The defaults: the login page, no user, empty fields and no error. |
| EleDsLogin.AppState.RenderLoginPage | project/ele_ds_ui/src/login.rs:11-24 | With no click nothing changes. With both fields set, it signs in, goes to Dashboard and clears the fields and the error. Otherwise it sets "Invalid credentials" and leaves all else alone. The dashboard is only ever shown with a user. |
| EleDsLogin.AppState.ClickLogin | project/ele_ds_ui/src/login.rs:11-24 | Signing in succeeds exactly when both fields are non-empty, and exactly then the page is Dashboard with the user set and no error. |
| RustText.TrimIsCore | project/bom_manage/src/main.rs:66 | `trim` gives the input minus leading and trailing whitespace, and starts and ends on non-whitespace. |
| RustText.TrimEmpty | project/bom_manage/src/main.rs:66-69 | The trimmed input is empty exactly when the input is all whitespace. |
| RustText.SplitWhitespace | project/bom_manage/src/main.rs:74 | `split_whitespace` gives non-empty, whitespace-free words that hold the non-whitespace characters in order; there are none exactly for blank input. |
| RustText.SplitAfterBlanks | project/bom_manage/src/main.rs:74 | After leading whitespace, a maximal run of non-whitespace followed by whitespace or by the end is the first word, and splitting goes on after it. |
| RustText.SplitLeadingBlanks | project/bom_manage/src/main.rs:74 | Leading whitespace yields no word. |
| RustText.SplitTrailingBlanks | project/bom_manage/src/main.rs:74 | Trailing whitespace yields no word. |
| RustText.SplitIgnoresTrim | project/bom_manage/src/main.rs:66-74 | Splitting the trimmed line gives the same words as splitting the line itself. |
| RustText.SplitLeadingWord | learn/hashmap/src/main.rs:26 | A word followed by a space splits off as the first token. |
| RustText.Lines | learn/minigrep_lib/src/lib.rs:51 | `lines` gives newline-free lines, at least one for non-empty text. |
| RustText.LinesAtNewline | learn/minigrep_lib/src/lib.rs:51 | The first line is the text before the first newline, minus one `\r` just before that newline; the lines after it follow. |
| RustText.LinesOfLastLine | learn/minigrep_lib/src/lib.rs:51 | Non-empty text without a newline is one line. |
| RustText.LinesJoinBack | learn/minigrep_lib/src/lib.rs:51 | For text without `\r`, joining the lines with newlines, plus any final newline, gives back the text. |
| Utf8.Decode | project/ebook_reader_cmdline/src/main.rs:136-162 | Decoding succeeds exactly on well-formed UTF-8. |
| Utf8.DecodedLength | project/ebook_reader_cmdline/src/main.rs:258-283 | The byte length of a decoded line, `String::len`, is the length of the bytes decoded. |
| Utf8.DecodeSplitAfterNewline | project/ebook_reader_cmdline/src/main.rs:136-162 | Splitting well-formed bytes after a newline gives two well-formed parts whose decodings concatenate. |

## Left out

- The terminal, the keyboard listener thread with its channel, `log`, `serde_json` and the menus' reading of standard input: each key loop takes the sequence of keys it would receive.
- `read_book`'s `to_json` save when the loop ends is left out; the session reports how it ended instead.
- Floating point:
  - `BookInfo::new` and `cal_progress` compute the candidate byte offset from `progress_percent` in `f32`/`f64`;
  - the model receives that offset as an integer.
  - EbookProgress.BookInfo.constructor: does not compute the file size or the progress from a percentage, because both come from the file system and from float arithmetic.
- `String::from_utf8_lossy`:
  - the pager only needs to know whether a line's bytes decode to whitespace;
  - lossy replacement characters are not whitespace;
  - so BlankBytes asks whether the bytes are well formed and decode to whitespace only.
- EbookProgress.BookInfo.UpdateProgress: `progress_percent` is the exact quotient; rounding to `f32` is not modelled. The field holds a fraction where lines 399, 644 and 810 expect a percentage. The model keeps that as written. Reopening a book uses `progress` directly (line 742), so the fraction shows up only in the book list (line 644). Import and set-progress overwrite the field before `cal_progress` reads it (lines 617-621 and 811-812).
- EbookProgress.BookInfo.CalProgress: the release-build wrap of `file_start_seek - len` is not modelled. The overflow is reported and the progress is left unchanged, as the debug-build panic leaves it.
- EbookPager.BookCtrl.constructor: requires a positive terminal width and a saved progress inside the book; the source's file opening and seek are outside the model.
- GetMostStore / Getaway: `process::exit` for an uncounted colour is modelled as `None`.
- ClosuresInventory.Inventor.GetSelectShirtcolor: the `return Ok(color)` after the loop (learn/closures/src/main.rs:58) cannot be reached. The matching index is always found and removed inside the loop, and the model has no such path.
- GenericLargest.Largest:
  - it is modelled on `int` rather than on every `PartialOrd` type;
  - it returns the index of the element rather than a reference;
  - it requires a non-empty list where the source panics on `list[0]`.
- The 32-bit wrap-around of the word counts (`i32`) and of `x + 1` in the iterator demo is not modelled; the counts and the list are far below the limit.
- `rusqlite` and the file system are modelled as the `DataFile` value (missing, unopenable, or readable with these bytes); the database commands of bom_manage are left out.
- bom_manage's `clap` and `rustyline` argument handling is left out, because it is library code.
- cli_test:
  - the drawing in `terminal.draw` is left out;
  - the Enter key only prints, so it is modelled as no change to the state.
- The egui text-edit widgets of the login page are left out: typed text is the `loginUsername` / `loginPassword` state. Label rendering is left out too.
- TraitSwap.SwapFloats: `f64` values are modelled as `real`, since the swap copies values and does no arithmetic.
- ele_ds_ui's dashboard and settings pages are not part of this model; only the login transition between pages is.
- Values make "the input list is not changed" automatic: the filter, `map`, search and tokenizer functions take sequences by value.
- The pager's `Hung` and `Panicked` outcomes stand for a read that never returns and a slice out of bounds. The model reports them rather than looping or aborting.
