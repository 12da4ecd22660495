# Verified models of the Oracc C tools

The Oracc tools turn transliterated cuneiform texts into an annotated corpus. This project models five of
their parts in Dafny and proves what each of them is for.

* **The ATF reader** (`AmpSplit`, `ChunkReader`). `ax_read` takes a list of files through one bounded buffer
  and hands out one text at a time; a text starts at an `&` at the start of a line. The buffer is overwritten
  at the end of a text and restored, the file is sought back when a text may be cut off, and the buffer is
  doubled when a text does not fit. `AmpSplit` says the same without buffers: a file is cut at every such
  `&`. The run is proved to give exactly these texts, and exactly when it does is proved too.
* **Ancient numbers** (`NumberSystems`, `InstanceRegistry`, `NumberReading`, `NumberParser`,
  `NumberSegments`, `NumberStream`, `NumberValues`, `Fractions`, `ReadingValues`). A metrological system is a
  chain of units, each so many of the next. The builder makes up signs for each unit and indexes them by
  text; the parser keeps the systems in which a run of tokens can be read; the evaluator adds the signs up
  with its own fractions. `NumberReading` says on values what reading a run comes to, `NumberParser` and
  `NumberStream` are the loops over candidate objects, and `NumberSegments` says where numbers begin and end
  without following the loop. `ReadingValues` joins the builder, the parser and the evaluator.
* **Score layout** (`MultiWidths`, `SourceTiling`, `SourceRanges`, `RomanNumerals`). A score sets source lines
  under a composite line: which columns an entry takes, how wide columns must be when entries span several,
  and on which lines a source is present.
* **Bibliography** (`Bibliography`). People with one last name and entries with the same names and year are
  found by comparing neighbours in sorted order.
* **Text in place** (`TextLines`, `UrlDecode`). A line splitter for three kinds of line end at once, and the
  undoing of percent-encoding.

A C object that is updated in place is a class with those fields, a buffer is an array, and each loop is a
loop with its invariants; a pure comparison or a specification is a function. Pointers into a buffer are
offsets, and a missing one is `None`. Integer widths are written out where the code relies on them
(`Fractions.Wrap`, `Fractions.ToInt`). An opened file is its bytes, a position, and an end-of-file
flag that a short read sets; the consumer of a text leaves the buffer alone between calls.

Where a promise turns out not to hold of the code, the exact condition is proved and an input that shows it:

* a file whose first text start is not in the first bufferful ends the whole run (`ChunkReader.EmittedIsAllTexts`,
  `ChunkReader.OutOfReachLosesTexts`);
* the layout pass counts an entry's columns from its position on its line, not from its composite column, so an
  insertion before it can make a column wider than need be (`MultiWidths.LeastIffNoGap`,
  `MultiWidths.InsertionWidens`);
* a comment at that pass promises a space of padding where a delimiter is empty, but the comparison it explains
  gives none (`MultiWidths.NoExtraSpace`, `MultiWidths.NoSpaceAfter`);
* a line broken off where it is already full passes the count check without tiling the composite
  (`SourceTiling.SourceLine.NewSource`, `SourceTiling.BrokenOffWhenFull`);
* a sign for a fraction of a unit is worth its numerator (`NumberValues.FractionalCounts`,
  `NumberValues.HalfIsWorthOne`);
* steps above one whose unit is a fraction, or above a radix that is a fraction, are not worth what the evaluator
  finds for them, nor is a step under the base whose unit is a fraction of it (`NumberValues.ValuesNp`,
  `NumberValues.EveryNumberRight`, `NumberValues.HalfIsWorthTwo`, `NumberValues.SpanIsWorthThirty`);
* a unit that is a fraction or has an axis is added as a sign without a look whether its text has one
  (`InstanceRegistry.FreshIffNoClash`, `InstanceRegistry.HalfTwice`);
* a radix of one makes two signs of one value (`NumberSystems.UnambiguousIffProper`,
  `NumberSystems.RadixOfOne`);
* the outer loop of the parser never ends on a stream with an NZ token after its first position
  (`NumberStream.EndsIffNoLaterNZ`, `NumberStream.NeverEnds`);
* the array the parser copies its candidates into has no place for the terminator when none was marked,
  as after a token that they all take (`NumberParser.RemoveInvalid`, `NumberParser.NoPlaceLeft`).

## Model

| member | source | states |
|---|---|---|
| AmpSplit.ChunksJoin | bin/ax/ax_reader.c:148-156 | nothing is lost or reordered: the texts joined are everything from the first text start on |
| AmpSplit.ChunksAreWhole | bin/ax/ax_reader.c:92-110 | every text begins with its `&` and contains no second text start |
| AmpSplit.TextsBeginLines | bin/ax/ax_reader.c:97-107 | of a file taken line by line, the texts begin exactly at the bytes 38 that have nothing before them on their line but `fe ff`, `ef bb bf` or nothing at all, and each runs to the beginning of the next or to the end; a last line without a newline gets one |
| AmpSplit.WindowAmp | bin/ax/ax_reader.c:97-104 | looking back only as far as the buffer goes gives the same answer as looking back in the file, for every position after the first of a buffer that begins at a text start |
| AmpSplit.ScanWindow | bin/ax/ax_reader.c:92-110 | scanning the buffer finds the file's next text start, or shows that it lies beyond the buffer |
| ChunkReader.FirstOpenFrom | bin/ax/ax_reader.c:308-324 | names that cannot be opened are passed over |
| ChunkReader.EmittedSkips | bin/ax/ax_reader.c:308-324 | names that cannot be opened add nothing to the run |
| ChunkReader.Reader.SetInput | bin/ax/ax_reader.c:294-325 | opens the first name left that can be opened, at its beginning, and leaves exactly the names after it; no source if there is none |
| ChunkReader.Reader.ReadInput | bin/ax/ax_reader.c:212-234 | the buffer is a window of the newline-terminated file from the old file position to the new one, then two NULs, all within the buffer |
| ChunkReader.Reader.Fill | bin/ax/ax_reader.c:215-230 | a short read closes the file and supplies a missing final newline, otherwise the read stops at the file position |
| ChunkReader.Reader.GetInput | bin/ax/ax_reader.c:236-255 | reads on in an unfinished file from where it stands, or opens the next one that opens; false exactly if there is none |
| ChunkReader.Reader.AmpLine | bin/ax/ax_reader.c:92-110 | scanning for `&` and back to the start of its line finds the first text start from there, byte order marks included |
| ChunkReader.Reader.GrowInput | bin/ax/ax_reader.c:203-210 | twice the room, filled from the text start the file was put back to |
| ChunkReader.Reader.RestoreEnd | bin/ax/ax_reader.c:122-128 | putting the two saved bytes back makes the buffer the window of the file again |
| ChunkReader.Reader.MarkEnd | bin/ax/ax_reader.c:149-156 | two NULs end the text in the buffer, with what they overwrote saved, and the text handed out is the bytes up to there |
| ChunkReader.Reader.FindEnd | bin/ax/ax_reader.c:148-157 | the end found is the file's next text start; if none is found that start lies beyond the buffer, or the text is the last |
| ChunkReader.Reader.Regrow | bin/ax/ax_reader.c:172-178 | going back by the whole buffer length and doubling it keeps the pending text at the front and changes nothing of what is to come |
| ChunkReader.Reader.Reread | bin/ax/ax_reader.c:179-189 | going back by the length of the pending text lands on its start, moves the window on and changes nothing of what is to come |
| ChunkReader.Reader.TakeTo | bin/ax/ax_reader.c:149-156 | the text handed out, followed by what is still to come, is what was to come |
| ChunkReader.Reader.TakeLast | bin/ax/ax_reader.c:157-171 | the same for the last text of a file |
| ChunkReader.Reader.AmpInit | bin/ax/ax_reader.c:117-144 | moving on to the next text, in this file or the next, loses nothing; the internal error branch is never taken |
| ChunkReader.Reader.AmpCont | bin/ax/ax_reader.c:145-192 | the retries end (what is left of the file, less the buffer size, falls), with the pending text or with none to come |
| ChunkReader.Reader.GetAtf | bin/ax/ax_reader.c:114-193 | one call hands out the head of the texts to come and leaves exactly the tail, with the invariant kept; NULL only when there are none |
| ChunkReader.AxRead | bin/ax/ax_reader.c:33-68 | a run hands out, in order, the texts the specification of the run gives for its files and buffer size |
| ChunkReader.ChainIsSplit | bin/ax/ax_reader.c:145-192 | once its first text start is found, a file gives all its texts whatever the buffer size |
| ChunkReader.EmittedIsAllTexts | bin/ax/ax_reader.c:33-68 | a run gives the texts of all its files if and only if no file loses its first text start to the buffer as grown by then |
| ChunkReader.StopsOutOfReach | bin/ax/ax_reader.c:118-121 | otherwise it gives the texts of the files before the first that loses its first text start to the buffer, and no others |
| ChunkReader.BufferDoesNotMatter | bin/ax/ax_reader.c:33-68 | files that begin with `&`, or a byte order mark and `&`, give all their texts with every buffer that holds that much |
| ChunkReader.OutOfReachLosesTexts | bin/ax/ax_reader.c:118-121 | for every buffer size, 8192 included, files of which the first loses its text and the second's as well |
| MultiWidths.SolutionIsUnique | bin/mx/matrix.c:1406-1433 | growing from the given widths, meeting every entry and being least leave one layout only |
| MultiWidths.Layout.MakeList | bin/mx/matrix.c:1434-1447 | an entry is listed with its width and the last column of its complex on its line |
| MultiWidths.LastOfComplex | bin/mx/matrix.c:1439-1443 | that last column is the one after which the line ends or another complex begins |
| MultiWidths.Layout.TerminalMaxwidth | bin/mx/matrix.c:1449-1463 | the most that an entry ending in this column still needs, zero if none needs any |
| MultiWidths.Layout.AdjustMultis | bin/mx/matrix.c:1465-1487 | entries that end here are dropped, the column and its delimiter are taken off those that span it, the rest stay as they are |
| MultiWidths.WaitingAdjusted | bin/mx/matrix.c:1465-1487 | so what each entry has left is always its width less the columns it has been given |
| MultiWidths.NoLess | bin/mx/matrix.c:1423-1428 | no layout that meets the entries ends this column sooner |
| MultiWidths.Solution | bin/mx/matrix.c:1406-1433 | there is such a least layout for all entries and widths |
| MultiWidths.WidenedForNeed | bin/mx/matrix.c:1427-1428 | a column is widened only for an entry that ends in it, and no further than that entry needs |
| MultiWidths.Layout.FixMultis | bin/mx/matrix.c:1406-1433 | the one pass from left to right yields the least layout: it grows from the given widths, meets every entry, and every other layout that does begins each column at least as late |
| MultiWidths.NoExtraSpace | bin/mx/matrix.c:1425-1428 | where a column has no delimiter, all entries that end in it have room for one space more after the pass if and only if the column was wider before than what was left of each of them |
| MultiWidths.NoSpaceAfter | bin/mx/matrix.c:1425-1428 | a line that stops inside its complex, whose text entry fills its column: it gets no space, whatever its width |
| MultiWidths.LaidInPlace | bin/mx/matrix.c:880-883 | on a line as it is laid out an entry's index and its last column are never before its composite column |
| MultiWidths.RunsToEnd | bin/mx/matrix.c:1439-1443 | the last column the pass finds for an entry over several columns that ends its complex is the last it occupies |
| MultiWidths.AlignWidth | bin/mx/pf-align.c:244-262 | the width the printer adds up for an entry is the room from its column on, without the last delimiter |
| MultiWidths.EntryFits | bin/mx/pf-align.c:250-263 | after the pass an entry that runs to the end of its complex, on a line no longer than its composite, has room in the columns it is printed in |
| MultiWidths.Padding | bin/mx/pf-align.c:228-263 | the padding printed after an entry; never negative for an entry in one column, nor for one that runs to the end of its complex on a line no longer than its composite |
| MultiWidths.LeastIffNoGap | bin/mx/matrix.c:1481-1483 | the layout is the least for the columns the entries are printed in, whatever their widths, if and only if no insertion leaves columns between an entry's own and where the pass starts counting that have room, get a delimiter or have an entry end in them |
| MultiWidths.LaidLeast | bin/mx/matrix.c:1481-1483 | so it is for the entries of laid-out lines without such a gap |
| MultiWidths.InsertionWidens | bin/mx/matrix.c:1481-1483 | a laid-out line with an insertion before its entry, for which the pass makes a column 13 wide where 8 would do |
| SourceTiling.SourceLine.CorrespondingCmpCol | bin/mx/matrix.c:1342-1355 | the composite column with that number, or the last |
| SourceTiling.SourceLine.AddColumn | bin/mx/matrix.c:793-912 | a new column is numbered by the counting columns before it and hung on the composite column of that number |
| SourceTiling.SourceLine.AddExtra | bin/mx/matrix.c:666-710 | an insertion takes no column; its width goes to the nearest column on its left that occupies any |
| SourceTiling.SourceLine.Compensate | bin/mx/matrix.c:925-939 | the left of two text entries without a delimiter between them is widened by one, and its column with it if need be |
| SourceTiling.SourceLine.AddFiller | bin/mx/matrix.c:957-998 | one filler for each further column, counted and numbered on |
| SourceTiling.SourceLine.Apocopate | bin/mx/matrix.c:942-952 | the rest of the composite line is taken; the count of columns is that of the composite |
| SourceTiling.SourceLine.AddSpanning | bin/mx/matrix.c:731-764 | an entry over several columns moves both counts on by as many as it says, or as the complex of its composite column has |
| SourceTiling.Composite.CountsComplex | bin/mx/matrix.c:746-747 | from whichever of its columns it is asked for, a maximal stretch of one complex index has as many columns as there are from its first to its last |
| SourceTiling.SpansItsComplex | bin/mx/matrix.c:731-764 | an entry without a number of columns, set where a complex begins, takes with its fillers exactly the columns of that complex |
| SourceTiling.SourceLine.AddItem | bin/mx/matrix.c:663-768 | the entry's column comes next with its kind, its width (two or three more for an `&` and its digits, one for a space) and its columns, then its fillers; the number of counting columns still equals the columns occupied, unless a full line is broken off |
| SourceTiling.SourceLine.NewSource | bin/mx/matrix.c:651-789 | the entries have their columns in order, with only fillers between them; the two counts agree at the end if and only if no full line is broken off; the line tiles the composite if and only if they agree and match it; no composite column gets narrower, none is narrower than a single column under it, and none wider than before or than some column under it |
| SourceTiling.BrokenOffWhenFull | bin/mx/matrix.c:780-789 | a full line broken off: the count check is passed though the last composite column is hit twice |
| SourceTiling.PlacedTiles | bin/mx/matrix.c:900-902 | each composite column is hit by exactly one counting or filler column if and only if there are as many of them as composite columns |
| SourceRanges.PresentIffLine | bin/mx/sources.c:63-67 | a source is in a block exactly when one of its lines is |
| SourceRanges.LastLineCounts | bin/mx/sources.c:63-67 | and it stands there where the last of them stands |
| SourceRanges.NoOverlap | bin/mx/sources.c:97-119 | ranges never overlap, however far apart in the list |
| SourceRanges.OnePartition | bin/mx/sources.c:91-126 | there is only one list of maximal, uniform, ordered ranges for a presence |
| SourceRanges.Extend | bin/mx/sources.c:100-119 | closing a range where the source ends or its place changes keeps the ranges before it maximal |
| SourceRanges.Sources.ClearPresence | bin/mx/sources.c:208-214 | nothing is left of the source before |
| SourceRanges.Sources.SetPresence | bin/mx/sources.c:63-67 | of two lines in one block the later counts |
| SourceRanges.Sources.BuildRanges | bin/mx/sources.c:89-126 | the ranges are exactly the blocks where the source is: each of one face and column, in order, and as long as it can be |
| SourceRanges.Sources.SrcsInLines | bin/mx/sources.c:81-126 | the same for every source from its own lines only |
| SourceRanges.RangesTellLines | bin/mx/sources.c:89-126 | of the lines alone: a block is in a range exactly if a line is in it, and the range has the face and column of the last such line |
| SourceRanges.RangeGoesOn | bin/mx/sources.c:103-107 | and it goes on into the next block exactly if the last lines of the two agree in face and column |
| RomanNumerals.Arabicised | bin/mx/tabloc.c:280-310 | the loop reads the letters from the right, subtracting one smaller than the biggest before it |
| RomanNumerals.LetterValue | bin/mx/tabloc.c:293-302 | what each character is worth, in either case |
| RomanNumerals.EachLetterCounts | bin/mx/tabloc.c:303-307 | of any letters at all, one is taken off if one further right is worth more, and added otherwise |
| RomanNumerals.CaseReadsAlike | bin/mx/tabloc.c:293 | whichever of its letters are lower case, a numeral reads the same |
| RomanNumerals.ReadRoman | bin/mx/tabloc.c:280-310 | the standard form of every n, with any number of M, reads as n |
| RomanNumerals.OthersIgnored | bin/mx/tabloc.c:301-306 | blanks and other characters count for nothing wherever they stand |
| RomanNumerals.ReadsStandardForm | bin/mx/tabloc.c:280-310 | a standard numeral in either case among other characters reads as its number |
| Fractions.Gcd | bin/nx/nx_math.c:63-74 | Euclid's loop gives the greatest common divisor, and the int remainder and result never lose bits |
| Fractions.SumIsExact | bin/nx/nx_math.c:7-41 | every branch of the addition gives the rational sum |
| Fractions.SumBottom | bin/nx/nx_math.c:7-41 | the sum is over the larger denominator where the other divides it, and over their product where neither does |
| Fractions.Num.AddFrac | bin/nx/nx_math.c:7-41 | the addition in place is that sum with the numerator modulo 2^64 |
| Fractions.ProductOfRatios | bin/nx/nx_math.c:43-48 | equal ratios have equal products: what the multiplication in place gives is the product of rational numbers |
| Fractions.Num.Simplify | bin/nx/nx_math.c:76-89 | lowest terms of the same ratio; a fraction with a zero in it stays as it is |
| Fractions.DivNum | bin/nx/nx_math.c:50-61 | rational division, in lowest terms |
| NumberSystems.System.SysAevs | bin/nx/nx_sys_aevs.c:8-63 | finds the base, and gives each step down to it the value the step below gives it over one denominator; steps between base and last are left alone |
| NumberSystems.System.AevsAreScales | bin/nx/nx_sys_aevs.c:25-63 | these values, modulo 2^64 and over one denominator, follow the radices up from the last step; a step above one whose unit is a fraction starts again |
| NumberSystems.Sys.WorthIsRadices | bin/nx/nx_sys_aevs.c:25-63 | what a step is worth in truth: the product of the radices from it down to the base, and under the base the inverse of the radix |
| NumberSystems.Sys.RightIfWhole | bin/nx/nx_sys_aevs.c:50-59 | over plain steps the code's value is the true one if and only if the radices down to the base are whole |
| NumberSystems.Sys.RightAboveFraction | bin/nx/nx_sys_aevs.c:55-58 | above a step whose unit is a fraction it is the true one only if that step's worth happens to be the common denominator's |
| NumberSystems.Sys.RightBelowBase | bin/nx/nx_sys_aevs.c:35-36 | under the base it is the true one if and only if the radix is whole or, where the unit is a fraction, one |
| NumberSystems.BelowTop | bin/nx/ns_build.c:369-389 | signs on steps below a step are together worth less than one of it |
| NumberSystems.ValueBound | bin/nx/ns_build.c:369-389 | a number is worth less than the radix of its top step times its top unit |
| NumberSystems.HigherTop | bin/nx/ns_build.c:369-389 | the number with the higher top step, or with more of the same, is worth more |
| NumberSystems.ValuesDiffer | bin/nx/ns_build.c:369-389 | two numbers of one value are the same signs |
| NumberSystems.UnambiguousIffProper | bin/nx/ns_build.c:383-387 | with whole radices, values tell all numbers apart if and only if every radix below the top is two or more |
| NumberSystems.DigitsReadDown | bin/nx/nx_sys_aevs.c:50-58 | the value of digits is that of their counts read down the steps, each result so many times the next radix and the next count added |
| NumberSystems.RadixOfOne | bin/nx/ns_build.c:383-387 | two signs of one value where a radix is one |
| NumberValues.SetInstAev | bin/nx/nx_values.c:139-158 | the value a sign is given, modulo 2^64 |
| NumberValues.FractionalCounts | bin/nx/nx_values.c:148-153 | that value is the numerator of the count times the unit; it is the count times the unit if and only if the count is whole or the value is nothing |
| NumberValues.HalfIsWorthOne | bin/nx/nx_values.c:148-153 | a half sign that is worth a whole unit |
| NumberValues.SumAevs | bin/nx/nx_values.c:127-137 | the loop adds all signs with the addition above, as long as no sum's own denominator passes an int |
| NumberValues.SumAllIsExact | bin/nx/nx_values.c:127-137 | whatever the denominators, that sum is the exact rational sum as long as no numerator wraps around |
| NumberValues.RightValue | bin/nx/nx_values.c:57-66 | what the code makes of a number is its mixed-radix value if all its signs stand for rightly evaluated steps; where errors cannot make up for each other, if and only if |
| NumberValues.EveryNumberRight | bin/nx/nx_values.c:57-66 | the code gets every whole number of a system right if and only if it evaluates every step of it rightly |
| NumberValues.SumIsTotal | bin/nx/nx_values.c:127-137 | for whole counts the sum is that total modulo 2^64 |
| NumberValues.InstAevs | bin/nx/nx_values.c:112-125 | the system is evaluated first if it has not been; then each sign has count times what its step has |
| NumberValues.ValuesNp | bin/nx/nx_values.c:48-83 | for whole counts and a base that is last or last but one, in lowest terms; the mixed-radix value if all signs stand for rightly evaluated steps, and only then where errors cannot make up for each other |
| NumberValues.OnlyLastStep | bin/nx/nx_sys_aevs.c:35-58 | with whole radices and plain steps down to the base, all signs do if and only if the step under the base is plain, its radix is one, or no sign counts it |
| NumberValues.HalfIsWorthTwo | bin/nx/nx_sys_aevs.c:55-58 | one of a half that is a step under the base comes out as two |
| NumberValues.SpanIsWorthThirty | bin/nx/nx_sys_aevs.c:55-56 | a step over one with a radix of three halves comes out as double |
| NumberValues.WholeRadixValue | bin/nx/nx_values.c:48-66 | with whole radices and plain steps down to the base, the value is the sum of the counts times the radices below them, over the radix under the base, if and only if none of the signs counts a fraction under the base |
| NumberValues.LowestValue | bin/nx/nx_values.c:66 | with the base last it is a whole number: the sum of the counts times the radices below them |
| NumberValues.WorthIsDigits | bin/nx/nx_values.c:48-66 | with whole radices the true value is that of the signs' digits |
| NumberValues.EqualValuesEqualSigns | bin/nx/nx_values.c:48-66 | two numbers of one value are the same counts of the same steps |
| InstanceRegistry.Registry.Append | bin/nx/ns_build.c:163-172 | linking in at ir_last extends the chain, and its error branch is never taken |
| InstanceRegistry.Registry.Register | bin/nx/ns_build.c:158-191 | the registry indexes the list of all instances with the new one at its end |
| InstanceRegistry.Registry.OthersLinked | bin/nx/ns_build.c:163-190 | chains of other texts are not disturbed |
| InstanceRegistry.Registry.Chain | bin/nx/nxp_numbers.c:485-486 | following ir_next from the hashed head gives exactly the instances with that text in the order registered |
| InstanceRegistry.SignTextTells | bin/nx/ns_build.c:349-353 | the text of a made-up sign tells its count and its unit |
| InstanceRegistry.SignTextReads | bin/nx/ns_build.c:344-353 | it is the count in digits, and the unit in parentheses, and reads back to the count |
| InstanceRegistry.PartReads | bin/nx/ns_build.c:289-310 | of a unit such as `1/2(u)` the numbers before and after the slash make the count |
| InstanceRegistry.Builder.AutoInst | bin/nx/ns_build.c:346-367 | a sign is added unless its text has one; a count of eleven or more is fatal |
| InstanceRegistry.Builder.InstFrac | bin/nx/ns_build.c:281-314 | a sign for a unit that is a fraction, with that count, added without a look whether its text has one |
| InstanceRegistry.Builder.WrapupStep | bin/nx/ns_build.c:369-389 | a step with an axis gets a sign named by its unit, and so does a fraction of a unit; another step with a whole radix gets signs for 1 to its radix less one, and for 1 at least, but for texts that have one |
| InstanceRegistry.Builder.Wrapup | bin/nx/ns_build.c:391-398 | the signs of all steps are added in order; it gives up exactly if a step that gets signs by count has a radix above eleven |
| InstanceRegistry.EveryCountHasSign | bin/nx/ns_build.c:381-388 | every count below a whole radix, and one at least, has a sign afterwards, by its digits and the unit in parentheses |
| InstanceRegistry.EveryUnitHasSign | bin/nx/ns_build.c:372-379 | every step with an axis has a sign by its unit, and so has one whose unit is a fraction |
| InstanceRegistry.SignsAreMadeUp | bin/nx/ns_build.c:369-389 | every sign added is a count of a step with a whole radix, or stands for a step by its unit |
| InstanceRegistry.SignsSay | bin/nx/ns_build.c:369-389 | what each sign added says, letter by letter: the unit, for a step with an axis or a fraction and with that count, or else a count below the radix, or one, in digits with the unit in parentheses |
| InstanceRegistry.FreshIffNoClash | bin/nx/ns_build.c:351-353 | the added signs have a text each, none of which was there, if and only if no unit added without a look is a text of the system already |
| InstanceRegistry.HalfTwice | bin/nx/ns_build.c:378-379 | a system given a sign for its half that has the half as a step: two signs with one text |
| NumberReading.StepOkIsLower | bin/nx/nxp_numbers.c:336-362 | with a unit of its own for each step, the test by unit text is that the step is lower |
| NumberReading.TokenBeside | bin/nx/nxp_numbers.c:107-121 | with a number open, a token of type NC or GC goes beside every candidate as a commodity, one of type NA as an association, one of type GW with the determinatives; the number stays open |
| NumberReading.TokenIsDet | bin/nx/nxp_numbers.c:88-106 | an ND token, or the NW token gur, is kept in braces by the candidates whose system has it; if there are none it ends the number |
| NumberReading.TokenIsStep | bin/nx/nxp_numbers.c:131-156 | any other token is taken by the candidates that have a sign of it on a lower step, the first such sign; if there are none it ends the number |
| NumberReading.TokenAlone | bin/nx/nxp_numbers.c:46-85 | with no number open, only a token of type NG or NF that has signs starts one, with a candidate for each sign; another is a result of its own, or dropped if it is of type NZ |
| NumberReading.TokenEnds | bin/nx/nxp_numbers.c:122-130 | an NZ token ends the number, and so does a plain word |
| NumberReading.SurvivorsSpell | bin/nx/nxp_numbers.c:378-462 | all candidates of one number spell the same tokens, steps, tokens beside and determinatives alike |
| NumberReading.SurvivorsRead | bin/nx/nxp_numbers.c:392-462 | every candidate left is a reading of the run down one system that has the run's determinatives |
| NumberReading.ReadingsSurvive | bin/nx/nxp_numbers.c:392-422 | with one sign per system for each of the run's texts no reading is lost by taking the first sign that fits |
| NumberReading.SurvivorsAreReadings | bin/nx/nxp_numbers.c:88-156 | so the candidates left are exactly the readings of the run in systems that have its determinatives |
| NumberReading.SurvivorsInOrder | bin/nx/nxp_numbers.c:317-334 | candidates stay in the order their first signs are registered |
| NumberParser.SysStepOk | bin/nx/nxp_numbers.c:336-362 | true exactly if the unit is found further down the same system |
| NumberParser.CandidatesInst | bin/nx/nxp_numbers.c:480-507 | a new candidate for each sign of the chain, in order |
| NumberParser.TryInst | bin/nx/nxp_numbers.c:398-419 | the first sign that fits is added, or the candidate is marked and otherwise unchanged |
| NumberParser.AddInst | bin/nx/nxp_numbers.c:392-422 | each candidate that can take the token has it, the others are marked and unchanged; zero exactly if none can |
| NumberParser.AddDet | bin/nx/nxp_numbers.c:438-462 | each candidate whose system has the determinative holds it, in braces; the others are marked and unchanged; zero exactly if none has it |
| NumberParser.RemoveInvalid | bin/nx/nxp_numbers.c:317-334 | what is left is the candidates that took the token, in order; there is a place for the terminator if and only if some candidate was marked |
| NumberParser.NoPlaceLeft | bin/nx/nxp_numbers.c:321-330 | a ten and a unit in one system: the candidate left fills the only place |
| NumberParser.TriedIsAttempted | bin/nx/nxp_numbers.c:104-113 | after an extension that no candidate came through every candidate is as it was before it |
| NumberParser.AppendBeside | bin/nx/nxp_numbers.c:378-388 | the token is put beside every candidate, after those already there |
| NumberParser.Parser.StashResult | bin/nx/nxp_numbers.c:558-575 | the number is added to the results with the candidates left, and earlier results are untouched |
| NumberParser.Parser.LastHasS | bin/nx/nxp_numbers.c:291-305 | true exactly if the last result is a number that can be read in the S system of that axis |
| NumberParser.Parser.Open | bin/nx/nxp_numbers.c:46-85 | a token met with no number open starts one, is dropped, or is a result of its own, unless it is joined with the number before it |
| NumberParser.Parser.GoOn | bin/nx/nxp_numbers.c:86-157 | a token met with a number open extends it, or ends it with the candidates unchanged and is met again |
| NumberParser.Parser.Numbers | bin/nx/nxp_numbers.c:31-163 | the loop ends (twice the tokens left, plus one while a number is open, falls) and reads the run as the specification does |
| NumberSegments.ReadAllSegments | bin/nx/nxp_numbers.c:41-163 | the results cut the stream into stretches, each number holding exactly the candidates of its tokens and ending only where none can take the next |
| NumberSegments.OnlySegments | bin/nx/nxp_numbers.c:41-163 | there is no other such cutting: these conditions determine the results |
| NumberSegments.TokensConserved | bin/nx/nx_parse.c:83-92 | the results hold every token once, a determinative in braces, and there are never more results than tokens |
| NumberSegments.TokensInOrder | bin/nx/nx_parse.c:26-51 | without tokens kept beside or determinatives, the results spell the stream in order |
| NumberStream.EndsIffNoLaterNZ | bin/nx/nx_parse.c:26-51 | the loop over the stream comes to its end if and only if no NZ token stands after the first position |
| NumberStream.NeverEnds | bin/nx/nx_parse.c:65-81 | a word and an NZ token, on which it never does |
| NumberStream.FirstTableTells | bin/nx/nx_parse.c:122-134 | the first of the four tables that has a token tells its type, and a token in none is a plain word |
| NumberStream.NextNum | bin/nx/nx_parse.c:94-106 | the first token from there that is not a plain word, or -1 |
| NumberStream.LastNum | bin/nx/nx_parse.c:65-81 | the end of the run of number tokens, all of them typed; the run is never empty at the very beginning |
| NumberStream.NonNums | bin/nx/nx_parse.c:108-120 | one result for each plain word |
| NumberStream.FrontIsBack | bin/nx/nx_parse.c:26-51 | reading from the front is reading as specified |
| NumberStream.RunThenRest | bin/nx/nx_parse.c:38-42 | reading a run by itself and then the rest is reading the stream as one |
| NumberStream.ClearIsEach | bin/nx/nxp_numbers.c:57-72 | a stream has none of the joinings left out exactly if no token has after what the tokens before it read as |
| NumberStream.NxParse | bin/nx/nx_parse.c:16-54 | the results are those of the whole stream read as one, and fit the array allocated for them |
| ReadingValues.OneMoreSystem | bin/nx/ns_build.c:369-398 | a system given some signs and then built keeps one sign per text per system if and only if those have a text each and no unit added without a look is a text already |
| ReadingValues.BuiltIsOneEach | bin/nx/ns_build.c:158-191 | every chain of the registry is of different systems if and only if no two signs registered for one system have one text |
| ReadingValues.MadeUpInAuto | bin/nx/ns_build.c:369-389 | where all signs of a system are made up, so are those of its candidates |
| ReadingValues.CandidateDigits | bin/nx/nxp_numbers.c:336-362 | made-up signs of a candidate are counts on strictly descending steps of its system |
| ReadingValues.SameValueSameSigns | bin/nx/nxp_numbers.c:392-422 | in a system with proper radices two accepted strings of made-up signs have one value if and only if they are the same string |
| ReadingValues.CandidateBound | bin/nx/nxp_numbers.c:392-422 | and each is worth something, but less than its top radix times its top unit |
| ReadingValues.SameReturnSameSigns | bin/nx/nx_values.c:48-66 | the signs of two candidates have one value in base units only if they come from the same string of signs |
| ReadingValues.CandidateValue | bin/nx/nx_values.c:48-66 | what the evaluator returns for the made-up signs of a candidate is the sum of its counts times the radices below them, over the radix under the base, if and only if none counts a fraction under the base |
| Bibliography.NamCmpOrders | bin/bx/bib_sort.c:74-95 | the comparison is an order, equal only for equal last name and key |
| Bibliography.NamCmpByLast | bin/bx/bib_sort.c:74-95 | it goes by the last name and then by the key, byte by byte, a missing one first |
| Bibliography.SameLastsMeet | bin/bx/bib_sort.c:74-95 | in its order people with one last name stand together |
| Bibliography.NeighboursTell | bin/bx/bib_sort.c:113-125 | another person has the same last name if and only if a neighbour has |
| Bibliography.DisambPeople | bin/bx/bib_sort.c:113-125 | a person is marked if and only if another one in the table has the same last name |
| Bibliography.RunsAreNumbered | bin/bx/bib_sort.c:175-191 | entries of a maximal run of equal names and year are numbered 1, 2 and on, a lone entry 0 |
| Bibliography.InARun | bin/bx/bib_sort.c:175-191 | every entry is in one such run |
| Bibliography.ComparedBy | bin/bx/bib_sort.c:127-140 | the names an entry is compared by are its authors, without those its editors, then the authors of its book, then its translators |
| Bibliography.AddPeople | bin/bx/bib_sort.c:142-151 | of two people with one key the last added stays |
| Bibliography.LastNamedStays | bin/bx/bib_sort.c:142-164 | so in the end a key has the person named by it in the last entry that names one, and there in the last list and at the last place |
| Bibliography.CompareNeighbours | bin/bx/bib_sort.c:178-190 | one comparison settles the numbers up to its pair |
| Bibliography.Disambiguate | bin/bx/bib_sort.c:167-193 | every entry gets the number of its place in its run, and the table holds the keys of all people |
| Bibliography.BibDisambiguate | bin/bx/bib_sort.c:166-196 | the whole of it: entries numbered within their runs, and of the people named in them exactly those marked who share a last name with another |
| TextLines.LinesLieBetweenEnds | bin/gx/common.c:42-91 | the lines are the one way to cut the text at NL, CR and CR NL so that no line holds a line end |
| TextLines.LinesCounted | bin/gx/common.c:49-68 | there are as many lines as line ends, and one more when the text does not end in one |
| TextLines.CountAndNormalise | bin/gx/common.c:49-70 | the first pass counts one more than the lines and leaves CR only before NL |
| TextLines.LineEndsAt | bin/gx/common.c:74-88 | the NL the second pass stops at ends the line the first pass counted |
| TextLines.CutStep | bin/gx/common.c:72-88 | a further line is cut off, and those before it stay the C strings they are |
| TextLines.SetupLines | bin/gx/common.c:42-91 | the pointers are the lines of the text in order, each a C string in place, then NULL, and fill exactly what was allocated |
| UrlDecode.DecodesExactlyEncodings | bin/px/cgi_decode_url.c:49-67 | every encoding of s decodes to s, and the well-formed texts that decode to s are its encodings |
| UrlDecode.StrayPercent | bin/px/cgi_decode_url.c:55-64 | a percent sign that two hexadecimal digits do not follow stands for itself |
| UrlDecode.DecodeEncodeAll | bin/px/cgi_decode_url.c:49-67 | round trip with every byte escaped |
| UrlDecode.OneByte | bin/px/cgi_decode_url.c:50-66 | one turn decodes one byte and never reads past the terminator |
| UrlDecode.CgiDecodeUrl | bin/px/cgi_decode_url.c:39-70 | the loop decodes the text, writing never ahead of where it reads, and ends it with NUL |

## Left out

- ChunkReader.AxRead: takes a list of names only; the standard input modes, read errors, the stop flag, the file and line registers and what the consumer does with a text are not part of this model. The size of the first buffer is a parameter, 8192 bytes in the source.
- ChunkReader.Reader.ReadInput: files are not empty and hold no NUL, where the C code reads before the buffer or loses the rest of a window.
- MultiWidths.Padding: the warning for an entry wider than its columns, and the second try with the width of its text alone, are not modelled.
- SourceTiling.SourceLine.NewSource: entries come tokenised, with their widths; `::` lines, note marks, up, down and complex pointers, an explicit delimiter on a broken-off or non-counting entry, and the switch that leaves text entries out of the list for the width pass are not modelled.
- SourceRanges.Sources.SrcsInLines: the printed labels of ranges are places and block numbers here.
- NumberSystems.System.SysAevs: the product of denominators is taken to fit an int, and a base that is not among the steps is excluded, where the C code follows a null pointer.
- NumberSystems.System.AevsAreScales: with more than one step after the base the code leaves the steps between base and last as they were (`NumberSystems.System.SysAevs` states this), and such systems are not claimed to be right.
- NumberValues.ValuesNp: whole counts only (`NumberValues.FractionalCounts` says what becomes of others); the base is the last step or the last but one; what the code reckons must fit its long and its int. The number at the head of a conversion is a parameter; what is printed of the modern value is floating-point text and is not modelled.
- ReadingValues.CandidateValue: in a system with whole radices whose steps down to the base are plain; for other systems see `NumberValues.ValuesNp`.
- InstanceRegistry.Builder.Wrapup: alternative steps, with their denominators, are not modelled. A number in a unit is read as plain digits.
- NumberParser.Parser.Numbers: left out are the tokens that `nxp_implicit_gur` and `nxp_merge_unit` join with the number before them, one that replaces a determinative already taken, and a gur word added to a determinative that several candidates share; which these are depends on what the tokens before them read as, and `NumberReading.Clear` says it. One step node is then shared by several candidates. The data pointers of tokens (which `nxp_append_step` is given even when there are none), the axis fields set on stashing, and the diagnostics are not part of this model.
- NumberParser.RemoveInvalid: the candidates left are a sequence, not an array with a terminator.
- NumberStream.NxParse: streams with an NZ token after the first position are excluded, since it never ends on them.
- Bibliography.Ordered: stands for `hash_vals2` and `qsort`: the same people in the order of `nam_cmp`, by insertion.
- Bibliography.Disambiguate: `ent_cmp` is not an order (a name list that begins another falls through to the year), so entries are taken in the order they are in; the letters printed for the numbers are not modelled. People without a name key are excluded.
- TextLines.SetupLines: the empty text is excluded, where the code reads before it.
- Hash tables and gperf tables are maps, and memory pools and the freeing of memory are not modelled.
- Everything else the repository does: XML, JSON and TeX output, glossaries, the web server and its pages, sign lists, set operations on word lists, option parsing.
