# Study desks: a verified model

A desk runs four programs: a kernel parser for the output of `batctl n`, a study system with a schedule file and
a brightness file, an ultrasonic presence sensor, and a light controller for a Yeelight bulb. Desks tell each
other what is being studied, over a mesh network. This project models the parts that carry state and proves
what they keep. `dafny verify dfyconfig.toml` checks it all.

| file | what it models |
|---|---|
| `BatTable.dfy`, `ParseBat.dfy`, `BatTheorems.dfy`, `BatMisread.dfy` | the `parsebat` system call: a one-character reader over a refillable block buffer, the table parser on it, and the grammar it accepts |
| `Text.dfy`, `Decimal.dfy` | C strings, `strcmp`, `fscanf` and `fprintf` conversions, Python's `readline`, `split` and `int`, in-place overwriting |
| `ScheduleSort.dfy`, `ScheduleText.dfy`, `ScheduleStore.dfy` | the schedule file: `re_align`, the printed and scanned form, register, delete, change, and "what am I studying now" |
| `ScheduleQuery.dfy`, `ScheduleHistory.dfy`, `LightScan.dfy` | the predecessor query and the clock strings, whole histories of the file, and the light controller's own scan of it |
| `Sensor.dfy`, `StudyTime.dfy` | the sampling loop as a window machine, and the study-time accumulator it shares with a signal handler |
| `BrightFile.dfy` | the fixed-width brightness file, overwritten in place and looked up from C and from Python |
| `LightSync.dfy` | the messages between sensor, user and light controller, and the commands to the bulb |
| `Peers.dfy` | packets over a lossy, repeating, reordering network, and the table of peers |
| `Bulbs.dfy` | the two dictionaries of the bulb registry |

Where code and comments differ the model follows the code. `parsebat` is documented to fail with -1 but returns
-EINVAL or the code of the failing read. Its two `break` statements outside any loop (kernel/parsebat.c:190 and
192) are taken as jumps to `out`. Bytes are 0 to 255, as with the unsigned `char` of the ARM build. Scanning and
printing follow sections 7.21.6.2 and 7.21.6.1 of ISO/IEC 9899:2011, `strcmp` section 7.24.4.2.

What turned out to need a condition, each proved in both directions or with the failing case:

- The byte after each newline is consumed by a peek, so a `batctl` row with a one-letter interface name and no space
  before it loses its name, and the next word is taken for its MAC. With any text behind the MACs, a table is read back
  exactly when each row asked for has two bytes of leading space and name or happens to repeat its MAC as the next
  column (`TableIsReadIff`); with a last-seen column shorter than a MAC only the names matter (`ShortColumnsReadIff`).
  Otherwise the column, the newline and part of the next line are stored as a MAC, and a row disappears
  (`NamelessSwallowsNext`; `SampleTables` shows it on the row of test/testcase.txt). `SingleRowIff` covers a lone row.
  Names are taken to be shorter than 17 bytes, as interface names are.
- `register_sched` rewrites the schedule without truncating. It leaves no stale tail exactly when the file with the
  new lines was no longer than the rendering of its records (`RegisterLeavesNoTailIff`). Canonical files guarantee
  that (`RegisterRefines`); a blank line in the file is enough to break it (`BlankLineLeavesTail`).
- On a sorted file the light controller and `cur_subject` name the same subject, ties included, exactly when some
  entry has started or the first entry is itself called "NOTHING": before the first entry the C side says "NOTHING"
  and the controller takes that entry (`SameSubjectIff`, `AskBoth`). On an unsorted file they part
  (`UnsortedMisleads`), and `change_sched` can leave one (`ChangeUnsorts`).
- The total study time is exact when the seconds lost between the handler's two clock readings equal those it
  counted while nobody was studying plus those it counted after the OFF reading of a session not yet added
  (`TotalIsStudyTimeIff`, `LateQueryCounts`). With queries only while somebody is studying that means: exactly when
  no handler run saw the second tick over (`StudiedQueriesExactIff`); with agreeing readings, exactly when each query
  between the two OFF statements comes in the second of the OFF reading (`LateQueriesExactIff`).
- In a run under a monotone clock the total goes down exactly when the second OFF statement directly follows a
  handler run that saw the second tick over (`DropsIff`, `MinutesCanDrop`).
- Presence on both sides agrees exactly when an even number of toggling messages was lost or typed in by the user
  (`LockstepIff`).
- Changing a brightness line is an update of that record exactly when the new value prints in three characters or
  the line is the last (`ChangeIsUpdateIff`); four digits eat the first letter of the next line
  (`FourDigitsEatALetter`). The third line of the shipped `light_bright_info.txt` is a byte too long: changing it
  leaves an empty line, and the next change behind it makes the program exit (`ShippedThirdLine`).

## Model

| member | source | states |
|---|---|---|
| ParseBat.Reader.SysRead | kernel/parsebat.c:85-92 | A read delivers a block of at most PIPE_BUF bytes, end of file or a negative code, and takes exactly that off the stream. |
| ParseBat.Reader.ParsebatReset | kernel/parsebat.c:38-43 | After the reset the reader stands for the whole stream of the descriptor, whatever an earlier call left in the buffer. |
| ParseBat.Reader.GetcharFromFd | kernel/parsebat.c:77-97 | The buffered read is a read of the plain cursor over the concatenated bytes, refills included; after a character `offset - 1` is a valid cell holding it; an ended reader keeps its error code. |
| ParseBat.Reader.SkipLines | kernel/parsebat.c:120-129 | Skipping n lines of the buffered stream is skipping n lines of the plain cursor, and stops for good at its end. |
| ParseBat.Reader.StepBack | kernel/parsebat.c:140-142 | `offset--` undoes the last read, also right after a refill. |
| ParseBat.Reader.SkipSpace | kernel/parsebat.c:134-143 | Leaves the plain cursor on the first non-space byte, or ended. |
| ParseBat.Reader.SkipNospace | kernel/parsebat.c:148-157 | Leaves the plain cursor on the first space byte, or ended. |
| ParseBat.Reader.SkipToMac | kernel/parsebat.c:197-222 | The three skips reach the row's MAC or report that the stream ended before it. |
| ParseBat.Reader.ReadMac | kernel/parsebat.c:224-237 | Stores the next 17 bytes and a NUL, touches no other row, and writes the NUL only when all 17 bytes came. |
| ParseBat.Reader.ParseRow | kernel/parsebat.c:196-246 | One pass of the loop reads one row of the pure parser into one row of `devinfo`. |
| ParseBat.Reader.SkipHeader | kernel/parsebat.c:179-193 | Leaves the cursor past two lines and one more byte. |
| ParseBat.Reader.ParseRows | kernel/parsebat.c:195-247 | The row loop returns the pure parser's count or code and stores its MACs in order, NUL-terminated. |
| ParseBat.Reader.Parsebat | kernel/parsebat.c:166-252 | The system call returns what the pure parser returns on the concatenated input, stores exactly its MACs, and leaves all later rows alone; it always halts. |
| BatTheorems.StreamOfBlocks | kernel/parsebat.c:83-94 | Any cut into non-empty blocks amounts to the concatenated bytes and the same ending. |
| BatTheorems.ChunkIndependence | kernel/parsebat.c:83-94 | Two cuts of the same input give the same outcome: return value, MACs and final position. |
| BatTheorems.HeadIsRead | kernel/parsebat.c:197-237 | Every well-formed row head (spaces, name, spaces, 17 MAC bytes) is read and its MAC is the one stored. |
| BatTheorems.ReadHasHead | kernel/parsebat.c:197-237 | Conversely a row that is read begins with a well-formed head carrying that MAC. |
| BatTheorems.CompleteIffHead | kernel/parsebat.c:197-237 | A row is complete if and only if the input begins with a well-formed head. |
| BatTheorems.RowThenIff | kernel/parsebat.c:196-246 | A row is read and the cursor then stands before t if and only if the input is a well-formed head, anything up to a newline, one more byte, and t. |
| BatTheorems.HeaderThenIff | kernel/parsebat.c:179-193 | The header is passed and the cursor stands before t if and only if the input is two lines, one more byte, and t. |
| BatTheorems.StopIsInTheInput | kernel/parsebat.c:195-247 | The row loop stops inside a row if and only if the input, after some number of full rows within the limit, has no well-formed head; it stops at the limit if and only if the input holds that many rows. The parser is not mentioned in either condition. |
| BatTheorems.MacsAreInTheInput | kernel/parsebat.c:195-247 | The row loop stores exactly the MACs of the well-formed heads in front of the input, row by row and up to the limit; the list is determined by the bytes alone. |
| BatTheorems.RowUses | kernel/parsebat.c:196-246 | A counted row uses at least 19 bytes, and 21 when another line follows. |
| BatTheorems.OutcomeAccounted | kernel/parsebat.c:180-252 | For every finite stream, stated on the input: enough rows give the limit; else a read error is returned exactly; else input that breaks off inside a row gives -EINVAL; else the number of MACs. The MACs stored, hence their number, are those of the complete rows behind the header, and none without a header. k rows need 21k+1 bytes. |
| BatTheorems.TableIsRead | kernel/parsebat.c:179-247 | Two header lines, any k rows and an optional unfinished last line are read back: the MACs in row order up to maxdev and their number, or -EINVAL if the last line breaks off before the end of its MAC. |
| BatMisread.SingleRowIff | kernel/parsebat.c:187-237 | The outcome of a lone row, for every limit of at least one, any text behind its MAC, with or without its newline: read if it keeps its name; else the next 17 bytes from the following word on are stored if the line holds as many; else -EINVAL. |
| BatMisread.TableIsReadIff | kernel/parsebat.c:187-246 | For every table whose names are shorter than a MAC and whose MACs hold no blank, with any text behind them, and every limit: the call returns the number of rows asked for and their MACs in order if and only if each of these rows has two bytes before the gap, name and leading space together, or repeats its MAC at the start of the next column. |
| BatMisread.ShortColumnsReadIff | kernel/parsebat.c:187-246 | With last-seen columns shorter than a MAC the condition is on the names alone. |
| BatMisread.NamelessReadsColumn | kernel/parsebat.c:197-237 | A nameless row with a last-seen column reads 17 bytes from that column on as its MAC, over the newline if need be, or is broken if fewer are left. |
| BatMisread.NamelessReadsNext | kernel/parsebat.c:197-237 | A nameless row with nothing behind its MAC reads 17 bytes from the next line's name on, whatever comes after. |
| BatMisread.NamelessSwallowsNext | kernel/parsebat.c:195-246 | The failing tables: a one-letter name without a space, any column shorter than a MAC, and a row behind it. One row is counted, and what is stored is the column, the newline and the start of the next line, and the MAC of neither row. |
| BatMisread.SampleTables | test/testcase.txt:3 | The sample's row is read back; with a nameless row of the same shape in front of it one row is counted and a piece of text is stored in place of a MAC. |
| BatMisread.KernelSpaces | kernel/parsebat.c:103-115 | The parser's `isspace` is that of the C library without the form feed. |
| ScheduleSort.PlaceDate | studysys/schedule.c:410-416 | One inner loop of the first phase is the pass of strict-comparison swaps at position i; it brings the least remaining date there and leaves the cells from n on alone. |
| ScheduleSort.SortByDate | studysys/schedule.c:408-418 | The first phase is the phase of date passes, ends in date order and touches nothing from n on. |
| ScheduleSort.PlaceTime | studysys/schedule.c:422-428 | The inner loop, bounded only by a change of date, stops by index n, is the time pass at i, brings the least time of its date run there and keeps the date order. |
| ScheduleSort.SortTimes | studysys/schedule.c:420-429 | The second phase is the phase of time passes and leaves the records in (date, time) order. |
| ScheduleSort.ReAlign | studysys/schedule.c:404-430 | Given a sentinel at n, `re_align` yields the swap function's result on the first n records, a sorted permutation of them, leaves a sorted array unchanged, and touches nothing from n on. |
| ScheduleSort.RealignedSorts | studysys/schedule.c:404-430 | The two phases of swaps give a sorted permutation of any list. |
| ScheduleSort.RealignedStaysIff | studysys/schedule.c:404-430 | A list is left exactly as it is, order of equal keys included, if and only if it was sorted. |
| ScheduleSort.TiesCanTurn | studysys/schedule.c:404-430 | The sort is not stable: two records with equal keys in front of an earlier one trade places. |
| ScheduleText.LineScansBack | studysys/schedule.c:360-391 | A printed line followed by anything scans back to its record. |
| ScheduleText.RenderScansBack | studysys/schedule.c:349-397 | A printed list followed by any text scans as the list and then that text. |
| ScheduleText.ScannedIsScannable | studysys/schedule.c:360-363 | Whatever the file, each scanned record has blank-free fields within their widths. |
| ScheduleText.RoundTripIff | studysys/schedule.c:349-397 | `txt_read` after `txt_write` returns the same records in the same order if and only if every field is a word that fits its width. |
| ScheduleText.BrokenRecord | studysys/schedule.c:360-363 | A file that breaks off inside a record assigns the words it still has, leaves the other fields, and ends the loop. |
| ScheduleText.RenderLength | studysys/schedule.c:286-288 | Reordering the records does not change the length of the text. |
| Text.NoStaleTailIff | studysys/schedule.c:286-289 | Writing a text over the start of a file leaves exactly that text if and only if the file was no longer. `RegisterLeavesNoTailIff` carries this to the operation. |
| Text.CmpConcat | studysys/schedule.c:777-809 | Comparing concatenations with equally long first parts is comparing pairs. |
| Text.LongWordIsCut | studysys/schedule.c:360-363 | A word longer than its width is cut there, and its rest is the next field. |
| Text.Padded | studysys/schedule.c:385-391 | Padding adds spaces on the side the flag says, up to the width, and never cuts. |
| ScheduleStore.Store.TxtRead | studysys/schedule.c:349-366 | The loop stores exactly the scanned records; the cell behind them holds what the failing `fscanf` assigned, and nothing further changes. |
| ScheduleStore.Store.ReadSorted | studysys/schedule.c:508-509 | After reading and `re_align` the array holds the file's records as the swaps leave them, which is in key order. |
| ScheduleStore.Store.TxtWrite | studysys/schedule.c:375-397 | The file becomes the rendering of the first n records. |
| ScheduleStore.Store.Append | studysys/schedule.c:239-271 | The file grows by the rendering of the new records. |
| ScheduleStore.Records | studysys/schedule.c:247-270 | Each entry becomes a record of the date asked for with that entry's own subject and time, in the order of entry. |
| ScheduleStore.Store.Rewrite | studysys/schedule.c:286-288 | Line by line the file is overwritten from the start, and what lies behind the new text survives. |
| ScheduleStore.Store.RegisterSched | studysys/schedule.c:214-292 | On any file the result, to the byte, is the appended text overwritten by its records as `re_align` orders them: a sorted permutation of all of them. |
| ScheduleStore.RegisteringSteps | studysys/schedule.c:274-288 | What is printed over the appended file is a sorted permutation of its records. |
| ScheduleStore.Store.FirstOn | studysys/schedule.c:565-567 | Finds the first position of the date, which holds an earliest record of it, or shows that there is none. |
| ScheduleStore.Store.ShiftDown | studysys/schedule.c:572-576 | The cells behind i move down by one, the sentinel included. |
| ScheduleStore.Store.RemoveAndWrite | studysys/schedule.c:571-590 | The file becomes the remaining records as `re_align` orders them. |
| ScheduleStore.Store.DeleteSched | studysys/schedule.c:497-599 | The record `re_align` leaves first among those of the date, ties included, goes if it has the subject given, and no other byte of the sorted text changes; otherwise the file stays as it is. |
| ScheduleStore.DeletingSteps | studysys/schedule.c:565-590 | That record is an earliest one of its date, and the file left is a sorted rendering of all the others. |
| ScheduleStore.CleanIsSafeToDelete | studysys/schedule.c:497-590 | Every file with nothing but blanks behind its records meets what `DeleteSched` asks for. |
| ScheduleStore.Store.LastMatch | studysys/schedule.c:659-670 | Finds the last position of the date and subject, which holds a latest such record. |
| ScheduleStore.Store.ChangeSched | studysys/schedule.c:605-718 | The record `re_align` leaves last among those matching, ties included, gets the new subject and time in its place in the sorted list and keeps its date; an empty file is left alone. |
| ScheduleStore.ChangingSteps | studysys/schedule.c:661-708 | That record is a latest one of the date and subject, and all others stay. |
| ScheduleStore.Store.OutputSchedtime | studysys/schedule.c:800-809 | Cell k is the C string built from record k. |
| ScheduleStore.Store.Started | studysys/schedule.c:777-786 | Finds the first key after the clock string: every key before it has started. |
| ScheduleStore.Store.CurSubject | studysys/schedule.c:740-793 | On any readable file: the subject of the last started record after `re_align`, hence of an entry with the greatest key not above now; "NOTHING" exactly when no entry has started. |
| ScheduleQuery.KeyOrderIff | studysys/schedule.c:800-809 | For six-character dates comparing keys is comparing (date, time) pairs. |
| ScheduleQuery.KeyOrder | studysys/schedule.c:800-809 | The sort order never puts a greater key first, not even with dates cut short. |
| ScheduleQuery.NowTimeOrder | studysys/schedule.c:760-770 | Within a century the clock strings are ordered as the times are and differ when the times do. |
| ScheduleQuery.NowTimeIff | studysys/schedule.c:760-770 | A record's key is the clock string of a moment if and only if its digits are that moment's year in the century, month from 1 on, day, hour and minute. |
| ScheduleQuery.StartedIff | studysys/schedule.c:760-786 | A record has started by the string comparison if and only if the moment it names is not in the future. |
| ScheduleQuery.PredecessorAt | studysys/schedule.c:777-792 | In a sorted list the entry before the first later one is the predecessor. |
| ScheduleQuery.CurrentSubjectAnswers | studysys/schedule.c:777-792 | In a sorted list the subject of the last started record is a right answer to the query, and none has started exactly when that prefix is empty. |
| ScheduleQuery.SubjectAtTime | studysys/schedule.c:760-792 | In terms of time: the answer is the subject of a record that is not in the future and that no other such record comes after, or "NOTHING" if and only if all are in the future. |
| ScheduleQuery.KoreanAtSixTwenty | schedule_info.txt:7-8 | On 6 June 2017 at 18:20 the clock string is 1706061820 and the answer between these two lines is Korean. |
| ScheduleQuery.AnswerNeverGoesBack | studysys/schedule.c:777-792 | As the clock advances the selected key never decreases. |
| ScheduleQuery.LaterEntriesDoNotMatter | studysys/schedule.c:777-792 | Entries later than now never change the answer. |
| ScheduleQuery.AnswerExists | studysys/schedule.c:787-792 | Unless nothing has started some entry is the predecessor. |
| ScheduleHistory.RegisterRefines | studysys/schedule.c:214-292 | On a canonical file registering leaves exactly the rendering of the sorted old and new records, with no stale tail; the number of times any record stands there grows by the number of entries with its date, subject and time. |
| ScheduleHistory.RegisterLeavesNoTailIff | studysys/schedule.c:239-289 | On any file, `register_sched` leaves exactly a rendering of all records if and only if the file with the new lines was no longer than that rendering. |
| ScheduleHistory.BlankLineLeavesTail | studysys/schedule.c:286-289 | The failing family: a blank line behind any canonical records is read without harm, and registering leaves a stale tail. |
| ScheduleHistory.DeleteRefines | studysys/schedule.c:508-590 | On a canonical file deleting removes one earliest matching record from the multiset or none, and stays canonical; the record removed has the date and the subject. |
| ScheduleHistory.ChangeRefines | studysys/schedule.c:661-708 | On a canonical file changing takes one record of the date and subject out of the multiset and puts one with that date and the new subject and time in, and stays canonical. |
| ScheduleHistory.HistoryRefines | studysys/schedule.c:214-718 | Every history of operations keeps the file canonical and follows a multiset of records; registrations and effective deletions leave it sorted. |
| ScheduleHistory.AppliedIsEdited | studysys/schedule.c:214-718 | On a canonical file each operation is a function on the list of records: `re_align` of old and new, removal at the first position of the date, update at the last match. |
| ScheduleHistory.AppliedIsStep | studysys/schedule.c:214-718 | The file an operation leaves is one of those its relation on multisets allows, so both kinds of history agree. |
| ScheduleHistory.HistoryIsExact | studysys/schedule.c:214-718 | From a canonical file a history determines every file to the byte, the order of records with equal keys included. |
| LightScan.LineIsThreeWords | esp_lightWifiBulbLanCtrl.py:277-286 | Python's split of a printed line gives date, subject and time. |
| LightScan.ReadsFields | esp_lightWifiBulbLanCtrl.py:277-286 | `readline` and `split` walk a canonical file record by record, and Python's key is the C key. |
| LightScan.ChooseSubject | esp_lightWifiBulbLanCtrl.py:273-311 | The one-pass scan with the clock re-read per line stops at the first line, past the first one, that lies after its sample, and takes the line before it, or the last line. |
| LightScan.ChosenIsLastStarted | esp_lightWifiBulbLanCtrl.py:273-311 | Whatever the order of the lines, the scan takes the last line of the started prefix at its last sample, unless that prefix is empty, and then the first line lies after the sample. |
| LightScan.ScanAgreesIff | esp_lightWifiBulbLanCtrl.py:273-311 | On a sorted file with a clock that never goes back, the entry taken is a predecessor at the last sample if and only if some entry has started; if none has, it is the first entry. |
| LightScan.SameSubjectIff | studysys/schedule.c:740-793 | On a sorted canonical file the scan's subject is the subject `cur_subject` returns at the last sample, entries with equal keys included, if and only if some entry has started or the first is named "NOTHING". |
| LightScan.AskBoth | esp_lightWifiBulbLanCtrl.py:273-311 | Running the Python scan and then `cur_subject` on the same file gives the same subject under exactly that condition. |
| LightScan.ChangeUnsorts | studysys/schedule.c:661-708 | Changing the earlier of two entries of a day to a time after the other leaves a canonical file out of order. |
| LightScan.UnsortedMisleads | esp_lightWifiBulbLanCtrl.py:294-311 | On two lines out of order that have both started the scan takes the second; the query, and `cur_subject`, take the first. |
| Sensor.WindowAt | ultrasonic_wave/ultrasonic_wave.c:107-115 | Decision k depends on samples 11k to 11k+9 only: at least five near. |
| Sensor.DecisionIsCount | ultrasonic_wave/ultrasonic_wave.c:107-115 | Somebody is there by decision k if and only if at least five of its ten samples are near. |
| Sensor.TraceAlternates | ultrasonic_wave/ultrasonic_wave.c:115-150 | ON and OFF strictly alternate starting with ON, and the last one tells the state. |
| Sensor.OneMessagePerChange | ultrasonic_wave/ultrasonic_wave.c:115-150 | As many messages go out as decisions differ from the one before. |
| Sensor.WindowsAppend | ultrasonic_wave/ultrasonic_wave.c:107-151 | Eleven more samples add one decision, fewer add none. |
| Sensor.PresenceSensor.Decide | ultrasonic_wave/ultrasonic_wave.c:107-152 | With `cnt` reused as the sum of the first ten cells, the window's message is the one the reference machine sends. |
| Sensor.PresenceSensor.Sample | ultrasonic_wave/ultrasonic_wave.c:77-156 | For every sequence of distances, near below 80 centimetres, `cnt` stays in 0..10 and the messages sent equal the reference trace. |
| StudyTime.Timer.StartSession | ultrasonic_wave/ultrasonic_wave.c:132 | The ON branch sets the session start. |
| StudyTime.Timer.StopSession | ultrasonic_wave/ultrasonic_wave.c:144-145 | The two OFF statements with any handler runs between them. |
| StudyTime.Timer.Sigusr1Handler | ultrasonic_wave/ultrasonic_wave.c:194-198 | One handler run with its two clock readings: the total grows by the first reading minus the start, and the minutes reported are the full minutes of the total, rounded toward zero. |
| StudyTime.Minutes | ultrasonic_wave/ultrasonic_wave.c:198 | The quotient of C's division by 60, bounded on both sides for both signs. |
| StudyTime.Conservation | ultrasonic_wave/ultrasonic_wave.c:132-198 | Over every legal run the total equals the finished sessions, from ON reading to OFF reading, plus what is already counted of the current one, minus lost ticks, plus seconds counted while away and seconds counted after the OFF reading. The ledger is kept from the events alone. |
| StudyTime.CleanLosesNothing | ultrasonic_wave/ultrasonic_wave.c:194-198 | When the handler's readings agree, and it runs only while somebody studies or in the very second of the OFF reading, nothing is lost and nothing is added. |
| StudyTime.ColumnsGrow | ultrasonic_wave/ultrasonic_wave.c:194-198 | Under a monotone clock lost, away and late seconds only accumulate. |
| StudyTime.TotalIsStudyTimeIff | ultrasonic_wave/ultrasonic_wave.c:132-198 | The total is the time between ON and OFF readings if and only if lost seconds equal away plus late seconds; in clean runs all three are zero. |
| StudyTime.StudiedQueriesExactIff | ultrasonic_wave/ultrasonic_wave.c:132-198 | Under a monotone clock, with queries only while somebody is studying, the total never exceeds the time between ON and OFF readings and equals it if and only if the two readings of every handler run agree. |
| StudyTime.LateQueriesExactIff | ultrasonic_wave/ultrasonic_wave.c:132-198 | Under a monotone clock, with agreeing readings and no query while away, the total never falls short of the time between ON and OFF readings and equals it if and only if each query between the OFF statements comes in the second of the OFF reading. |
| StudyTime.LateQueryCounts | ultrasonic_wave/ultrasonic_wave.c:144-198 | The failing run: a query between the two OFF statements makes a session of 60 seconds count 120. |
| StudyTime.TotalNeverDrops | ultrasonic_wave/ultrasonic_wave.c:144-198 | In every other such run the total and the reported minutes never go down between any two moments. |
| StudyTime.DropsIff | ultrasonic_wave/ultrasonic_wave.c:144-198 | In every legal run under a monotone clock some step lowers the total if and only if the second OFF statement directly follows a handler run whose two readings differ. |
| StudyTime.MinutesCanDrop | ultrasonic_wave/ultrasonic_wave.c:144-198 | A legal run under a monotone clock that reports one minute and later none. |
| Decimal.Fmt03WidthIff | studysys/bright_control.c:158 | `%03d` prints three characters exactly for -99 to 999. |
| Decimal.PrintedIntScansBack | studysys/bright_control.c:57-158 | What `%03d` prints `%d` reads back, for every integer. |
| Decimal.PrintedIntParses | esp_lightWifiBulbLanCtrl.py:243 | What `%03d` prints Python's `int` reads back. |
| Decimal.ParseIntIff | esp_lightWifiBulbLanCtrl.py:212 | A text is the integer v if and only if it is blanks, an optional sign, decimal digits of that value, and blanks. |
| BrightFile.BrightInfo.GetSubjectBright | studysys/bright_control.c:46-68 | Returns the brightness of the first scanned entry with the name, or -1. |
| BrightFile.LookupFirst | studysys/bright_control.c:56-64 | The value found is that of the first entry with the name. |
| BrightFile.LookupUnknown | studysys/bright_control.c:66-67 | An unknown name gives -1. |
| BrightFile.BrightInfo.ChangeSubjectBright | studysys/bright_control.c:115-171 | On any file: says whether the line exists and scans, and overwrites 25 bytes or more at its start, or nothing. |
| BrightFile.OverwriteReplacesIff | studysys/bright_control.c:155-158 | Seeking back and printing replaces just that line if and only if both are equally long or the line ends the file. |
| BrightFile.RenderReadsBack | studysys/bright_control.c:57-64 | The C scan reads a fixed-width file as the records it holds. |
| BrightFile.MalformedEndsScan | studysys/bright_control.c:57-64 | Nothing behind a malformed line is found. |
| BrightFile.ShippedFileReads | light_bright_info.txt:1-5 | The shipped file is read as its five subjects, which are those of the program's table in order. |
| BrightFile.PyFindAgrees | esp_lightWifiBulbLanCtrl.py:231-247 | The Python look-up finds the text of the brightness the C look-up returns, or nothing for an unknown name. |
| BrightFile.PyFindStops | esp_lightWifiBulbLanCtrl.py:231-247 | An empty line ends the Python search, and a line with the name alone makes it raise. |
| BrightFile.LineStartFixed | studysys/bright_control.c:136-142 | The lines of a fixed-width file start every 25 bytes. |
| BrightFile.FgetsCuts | studysys/bright_control.c:135-136 | A line of 1023 characters and more is cut after 1023. |
| BrightFile.ChangesIff | studysys/bright_control.c:136-171 | In a fixed-width file a change takes place if and only if the number is that of a record. |
| BrightFile.ChangeIsUpdateIff | studysys/bright_control.c:136-160 | Changing line i of a fixed-width file takes place, and gives the file with that record updated if and only if the value lies in -99..999 or the line is the last. |
| BrightFile.FourDigitsEatALetter | studysys/bright_control.c:155-158 | A value of four digits costs the next line its first letter. |
| BrightFile.ChangeIsUpdate | studysys/bright_control.c:136-160 | For values of three characters the change also keeps the file's length and its fixed width, so that further changes can follow. |
| BrightFile.ChangeThenLookup | studysys/bright_control.c:46-160 | Afterwards both look-ups give the new value for that subject and the old value for every other. |
| BrightFile.LongLineLeavesBlank | studysys/bright_control.c:144-158 | A line one byte too long that scans is changed, and leaves an empty line behind on which the next change exits. |
| BrightFile.ShippedThirdLine | light_bright_info.txt:1-3 | The shipped file is such a case: changing English and then Science makes the program exit. |
| LightSync.LightController.Sigusr1Handler | esp_lightWifiBulbLanCtrl.py:192-225 | An integer text adds just the command for that brightness, marked manual, and leaves presence alone; any other text adds a toggle and flips presence. |
| LightSync.LightController.SetReqLightBright | esp_lightWifiBulbLanCtrl.py:227-247 | Sends the brightness found for the subject unless a manual one was set; returns -1 for an unknown subject and raises on a malformed line. |
| LightSync.SwitchTextsToggle | esp_lightWifiBulbLanCtrl.py:212-225 | "ON" and "OFF" both take the toggling branch. |
| LightSync.LockstepIff | ultrasonic_wave/ultrasonic_wave.c:107-153 | Over every interleaving, presence at the receiver corrected by the toggles under way equals the sensor's state if and only if lost and stray toggles are even in number. |
| LightSync.DeliveryMeansWhatItSays | esp_lightWifiBulbLanCtrl.py:212-225 | In runs without loss and stray texts a delivered ON leaves somebody here and an OFF nobody, though the receiver only toggles; with nothing under way both sides agree. |
| LightSync.BulbFollows | esp_lightWifiBulbLanCtrl.py:212-247 | Over every run the toggles sent to the bulb follow presence, and no scheduled brightness comes after a manual one. |
| LightSync.TypedNumberReachesBulb | esp_lightWifiBulbLanCtrl.py:192-215 | A number typed by the user, in any run without losses, sets exactly that brightness at the delivery after those already under way. |
| LightSync.StoredBrightIsSent | esp_lightWifiBulbLanCtrl.py:227-247 | A scan that asks for a subject of a fixed-width file sends the brightness of its first line, or nothing once a manual one was set. |
| LightSync.WindowsSendTheTrace | ultrasonic_wave/ultrasonic_wave.c:115-150 | A run of closed windows puts the texts of the sensor's reference trace under way, behind what is there. |
| LightSync.SentIsTheTrace | ultrasonic_wave/ultrasonic_wave.c:115-150 | In every interleaving with deliveries, losses, manual texts and scans, the texts sent by the windows are those of the reference trace of their decisions. |
| LightSync.ReceiptIsTraceInOrder | ultrasonic_wave/ultrasonic_wave.c:107-153 | Without losses and manual texts, what was delivered followed by what is under way is the sensor's trace. |
| Peers.PackRoundTripIff | studysys/comm.c:78-90 | Unpacking a packed value gives it back, receive time aside, if and only if its index fits 8 bits and its time 32. |
| Peers.NetworkOrder | studysys/comm.c:85-90 | The four bytes of the time are sent most significant first. |
| Peers.InformationList.UpdateInfolist | studysys/comm.c:92-101 | Replaces one slot and no other. |
| Peers.InformationList.GetOtherInfo | studysys/comm.c:103-112 | Copies one slot. |
| Peers.InformationList.Receive | studysys/receiver.c:56-65 | A packet replaces its peer's slot, stamped with the time of arrival. |
| Peers.InformationList.PrintOtherInfos | studysys/schedule.c:59-86 | The loop shows the slots received no more than ten seconds ago, in index order. |
| Peers.ShownIff | studysys/schedule.c:73-75 | A row is shown if and only if it is in the table and no more than ten seconds old. |
| Peers.ShownInOrder | studysys/schedule.c:69-81 | The rows shown are the fresh slots, each once, in the order of their index. |
| Peers.TablesAreAuthentic | studysys/comm.c:78-132 | Whatever the network loses, repeats or reorders, every received slot i at every desk is a value desk i built. |
| Peers.BroadcastArrives | studysys/recognizer.c:59-70 | From any authentic state: what desk m broadcasts and the network delivers to desk n, whatever comes between, stands in slot m of desk n with its time, subject and time of arrival until that slot is written again, and is shown if and only if at most ten seconds have passed since. |
| Peers.SlotHoldsLastDelivery | studysys/receiver.c:56-65 | A slot holds the packet delivered last, stamped with the time of that delivery. |
| Peers.RxTimeNeverGoesBack | studysys/receiver.c:64-65 | A slot's receive time never goes back and never lies ahead of the clock. |
| Peers.ShownRowsAreFresh | studysys/schedule.c:69-81 | Once the clock has passed ten seconds every row shown is genuine and at most ten seconds old, and every such slot is shown. |
| Bulbs.BulbRegistry.HandleSearchResponse | originLight.py:110-128 | A response inserts or refreshes one bulb and keeps the dictionaries inverse with ids 1..n. |
| Bulbs.BulbRegistry.Refresh | originLight.py:204-207 | Both dictionaries become empty. |
| Bulbs.BulbRegistry.DisplayBulbs | originLight.py:135-152 | Every bulb is listed exactly once, in the order of its id. |
| Bulbs.RespondKeepsDense | originLight.py:116-128 | One response keeps the dictionaries mutually inverse with dense ids. |
| Bulbs.AlwaysDense | originLight.py:110-207 | After any responses and refreshes they are inverse bijections between the known addresses and 1..n. |
| Bulbs.IdsAreStable | originLight.py:122-128 | Until the next refresh an address keeps its id and an id its address. |
| Bulbs.KnowsWhatItHeard | originLight.py:116-128 | The registry knows exactly the addresses heard since the last refresh, with what each said last. |

## Left out

- Sockets, `select`, multicast search, the regular expressions on search responses and the TCP command to the bulb: a response or a packet is a value, a command an entry in a list.
- Menus, prompts, screen output and the plain listings `check_sched` and `check_sched_date`: what is prompted for is a parameter.
- Scanning `/proc`, `fork`, `exec`, pipes, FIFO opening and ultrasonic pulses: a distance is a parameter. Signals that merge or interrupt each other are not modelled; a message is delivered whole, or lost.
- Files that fail to open, and other failures of the C library: every file exists.
- Kernel address limits, user pointers and mutexes: `sys_read` is an arbitrary source of blocks, and a locked section is one step.
- The fixed address tables `mac2ip`, `index2ip` and `ip2index`, and `getdevinfo` around the parser.
- The one-second pacing of the broadcast loop and the list of neighbours it sends to: a packet once sent may reach any desk at any time.
- Buffer overruns by over-long words and integer overflow: strings and totals are unbounded. The one overrun kept is the eleventh cell of the sensor's array.
- Atomicity: the ON branch of the sensor loop and the two updates of a search response are single steps.
- Python's `int` beyond ASCII digits, such as the underscores that newer versions allow.
- ScheduleStore.Store.RegisterSched: the uninitialised array of the source is a parameter, and its cell behind the records must not hold the greatest date, as `re_align` needs; the same holds for `ChangeSched` and `CurSubject`.
- ScheduleStore.Store.ChangeSched: a date and subject that match no record leave an index uninitialised in the source; callers must name one that is there.
- ScheduleStore.Store.DeleteSched: the zeroed cell behind the records, after the read loop has stored what a broken last line holds, must differ in date from the greatest record both before and after the removal, as the two calls of `re_align` need.
- ScheduleStore.Store.CurSubject: the count passed in is the one the function reads again itself.
- BrightFile.BrightInfo.ChangeSubjectBright: a sixth line that scans has no name in the source's table, so its number must not be given.
- Bulbs.BulbRegistry.DisplayBulbs: the failure to print a field that a response did not mention.
