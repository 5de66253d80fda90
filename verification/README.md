# OComment: a verified model

OComment finds comments in source files and plans byte-exact edits that remove or rewrite them. This
project models what stands around its language scanners and proves what the rest of the program leans
on:

- **The incremental document** (`Incremental`, on the scanner interface of `Scanning`). After any run of
  edit batches a document holds what a fresh full scan of its bytes would report, although it only reads
  the bytes again from one safe checkpoint to another. What this asks of a scanner is one predicate,
  `Scanning.Contract`; `SmallLexer` meets it, with line and block comments, quoted strings, and a shebang
  at offset 0 alone.
- **The three layouts**. Every planner is proved equal to a plan that gives each comment its edit, and about
  the plans it is proved that they are sorted and disjoint, what they leave of the text, of its lines and of
  its columns, and which blank lines go. The measures are three. The *outline* (`Outlines`) is the visible bytes
  of a text in order, each with how it is separated from the one before it (touching, by blanks, or by a line
  break); a layout should leave the outline the source has once its removed comments are blanked out
  (`Layouts`, `Seams`, `Fusions`, `Plans`). The *bytes* are what is left after a filter, of the line endings alone
  or of everything that is not white (`Erasures`). The *line number* is counted byte by byte (`LineNumbers`). What
  becomes of lines is read off the source: `Residues` says what each byte of it leaves, where that lands and how it
  is seen there, `Commentwise` what a text is whose comments each leave something of their own, and `LinesLeft` where
  the output then has blank lines. The planners are `Lines` (with `Leavings`, what each byte leaves), `Columns`, and
  `Compact`, `Collapse`, `CompactPlans`, `CompactLeavings`, `CompactTakes`, `CompactFlags` and `CompactLines` (with
  `Arrivals`, `Gaps` and `Removals`: where places of the source come to in the output, and what becomes of the blank
  lines between them). `CompactTakes` says which bytes go with a comment and what a line then ends in, without the
  functions of the planner.
- **Edits and source maps** (`Edits`, `SourceMaps`): one pass equals one edit at a time from the back, and
  the two-way offset map tiles both sides.
- **The transaction over many files** (`Transactions`): a file system whose every operation may fail, with
  the whole history of its states recorded, so that what is promised is promised wherever the process stops.
- **The scanner of declarative profiles** (`Profiles`): a loop proved against a tokenizer, and a tokenizer
  proved to have one reading that no order of the tables changes.
- **The editor's queue and server** (`Serials`, `Extensions`): promises and their reactions as a state
  machine whose event loop picks any reaction that is ready.
- **Smaller loops**: paragraph reflow (`Reflows`), `env -S` (`Envs`), runs of kept comments
  (`KeepBlocks`), Git reference names and pinned versions (`ActionPins`), Unicode escapes
  (`UnicodeEscapes`), and line and character positions (`Positions`, UTF-8 per section 4 of RFC 3629).

What the code changes in place is changed in place here: the incremental document, the file system, the
queue and the extension are classes, and the blank-line pass and the pass over kept comments write to
arrays. The loops of the code are loops here, each proved against a function or a property, and the
theorems are lemmas about those functions. Rust's checked accesses and its integer widths are left as
unbounded numbers unless a row says otherwise.

## Where the code and its promises part

Each of these is a lemma with a concrete input, beside the theorem that says when the promise holds, in nearly all
of them exactly when.

- Two removed comments that touch with a blank at the seam leave their neighbours touching under `lines` and
  `compact` (`Limits.BlankSeamFusesTokens`). For comments that are kept, or removed and no HTML comments, and that
  cut no terminator, the outline is kept if and only if no run of comments *fuses*: they are removed and touch,
  none spans a line break, none stands between two bytes that are not white, and code that stays touches the run
  in front and behind (`Seams.Fuses`, `Lines.LinesKeepOutline`, `CompactPlans.CompactKeepsOutline`). None
  can where every removed comment begins with a visible byte, as in the built-in languages
  (`Seams.InkFirstNeverFuses`); spans that come from outside may.
- Under `columns` a comment that takes up no room, one of zero-width characters alone, leaves nothing, and its
  neighbours touch (`Limits.ThinCommentFusesTokens`). There the outline is kept if and only if no run of such
  comments touches code in front and behind (`Columns.ColumnsKeepOutline`).
- Under `compact` a removal may trim blanks off the end of a rewritten comment, and then the edits overlap
  and cannot be applied (`Limits.TrimmingOverlaps`): if and only if `CompactPlans.TrimsWithin` holds, which reads
  nothing but the source, the comments and the lines to swallow.
- Under `lines` a carriage return and a later line feed are left side by side and become one line ending
  (`Limits.LoneReturnMovesLines`). All the bytes of the line endings are left, in order, but a byte moves up by the
  number of line endings that come together in front of it, which is read off the source and the comments
  (`Leavings.Meetings`). It keeps its line if and only if there is none (`Lines.LineIsKept`), as in every source
  without a lone carriage return. This is said wherever no U+2028 or U+2029 is put together of bytes that stood
  apart (`Residues.NothingForms`), as none is where no run fuses (`Lines.LinesFormNothing`).
- Under `compact` the line feed of a blank line is put behind a carriage return, and the blank line is gone
  (`Limits.BlankLineIsLost`). What each byte of a source leaves (`CompactLeavings.CompactResidue`) is read off the
  source, the comments and the spans of the plan, before anything is applied. Between any two bytes of code,
  whatever stands between them, the output has a blank line if and only if two line endings are left there with
  nothing to see in between, and not just a carriage return and a line feed side by side
  (`LinesLeft.BlankIsLeft`, `CompactLines.CompactLeavesBlanks`). Where the source has a blank line there and no
  other code in between, the last is lost if and only if of its line breaks one carriage return and one line feed
  behind it are left, and nothing in between (`LinesLeft.OnlyPairLeft`, `CompactLines.CompactKeepsGaps`); without
  lone carriage returns one is always left, whatever is in between (`CompactLines.CompactKeepsBlanks`).
- A removal with `before` blank lines above it and `after` below takes a blank line below for every one above, but
  a last blank line without a terminator is never taken: then one more is left (`Limits.UnterminatedBlankStays`,
  `Collapse.RemovalIsLeftWithMax`). Between code the output holds just the larger number, and a line less where a
  carriage return meets a line feed at the seam: there is a blank line if and only if the larger number is more than
  that pair takes (`Removals.RemovalLeavesMax`).
- Under `compact` a blank may be left at the end of a line, where two removed comments with blanks between them ended
  it: the blank in front of the first of them stays (`Limits.TrailingBlankIsLeft`). What a line ends in that a removed
  comment stood last on is the last byte that `lines` leaves something of, but for the blanks that go with that comment
  (`CompactTakes.LineEndsWithLast`). It is never a blank behind code (`CompactTakes.CodeEndsItsLine`).
- Under `compact` every removal has a flag that says whether it may be widened over blank lines, and rewrites have
  none; but an edit is looked up by its place among all edits. So behind a rewritten comment a removal reads the flag
  of one further on, or none. The last removal of a source may then leave a blank line too many
  (`Limits.RewriteLeavesBlankRun`), and a swallowed line, which all layouts are to leave alike, is widened
  (`Limits.SwallowedLineIsWidened`). A removal reads the flag of the one that has as many others in front as it has
  edits in front, which is its own if no comment in front of it is rewritten (`CompactFlags.FlagIsAnothers`). With no
  line swallowed one that takes whole lines is looked at if and only if fewer comments in front of it are rewritten than
  are removed from it on (`CompactFlags.WidenedIfFewRewritten`).
- A rollback journal that an earlier run left behind, and that could not be inspected while the transaction
  was prepared, is put back over the file when the transaction rolls back. From every start on which a journal of
  other content bears the name the transaction will use, for whichever of the files, there are failures after
  which that file's original is nowhere (`Transactions.OverlookedJournalCostsTheFile`). From a start with no such
  journal there are none: an old journal that holds just what its file holds costs nothing, overlooked or not
  (`Transactions.ApplyTransaction`, `Transactions.NoneInTheWay`). Both are said of planned files that are no journals
  of each other, as they are in every run that overlooks no journal (`Transactions.FreeIsSeparate`). That nothing
  but the planned files differs in the end is proved of such runs (`told`), and every run that begins with no journal
  in the way is one.
- A client whose start failed is forgotten and never stopped. If it left its process running, that server is a
  stray, and the next start makes a second one: whenever no work is running there is no server but the one held if
  and only if no stray is still running (`Extensions.Extension.AtMostOneServer`).

## Model

| member | source | states |
|---|---|---|
| Edits.ApplyEdits | rust/ocomment-core/src/transform.rs:376-397 | a sorted, disjoint batch passes all three assertions, and the output is the source with each edited span replaced and every byte in between copied; its length is the allocation that was folded |
| Edits.CapacityIsExact | rust/ocomment-core/src/transform.rs:378-382 | the folded capacity is the exact length of the output: for a sorted batch no subtraction in the fold saturates |
| Edits.ApplyKeepsEnds | rust/ocomment-core/src/transform.rs:384-395 | the bytes in front of the first edit and behind the last one open and close the output unchanged |
| Edits.OnePassIsLastFirst | rust/ocomment-core/src/transform.rs:376-397 | the one pass equals applying the edits one at a time, the last first, each to the whole text |
| SourceMaps.FromEdits | rust/ocomment-core/src/types.rs:2141-2180 | the segments tile the source and the output of the edits in step, the exact ones hold the same bytes on both sides, and the others are the edits and nothing else |
| SourceMaps.SegmentsTile | rust/ocomment-core/src/types.rs:2141-2180 | the tiling, by induction over the edits, from any point of the two sides |
| SourceMaps.OriginalToOutput | rust/ocomment-core/src/types.rs:2186-2199 | the lookup answers with the first segment that holds the offset, or the far end of the last one |
| SourceMaps.OutputToOriginal | rust/ocomment-core/src/types.rs:2204-2217 | the lookup back is the same lookup in the flipped map |
| SourceMaps.FlipTiles | rust/ocomment-core/src/types.rs:2204-2217 | the flipped map tiles the two sides the other way round, so that all that holds of one lookup holds of the other |
| SourceMaps.LandingTotal | rust/ocomment-core/src/types.rs:2186-2199 | a lookup answers exactly for the offsets of its side, the end included, stays on the other side, and takes end to end |
| SourceMaps.LandingMonotone | rust/ocomment-core/src/types.rs:2186-2199 | no two offsets change their order |
| SourceMaps.LandsInSegment | rust/ocomment-core/src/types.rs:2186-2217 | an offset in a copied section lands on its own byte, and one inside a replaced section on the start of the replacement |
| SourceMaps.RoundTrip | rust/ocomment-core/src/types.rs:2186-2217 | an unchanged offset maps to the same byte, and the way back leads to the offset again |
| Positions.LineCheckpoints | rust/ocomment-core/src/incremental.rs:506-521 | the table lists every line start and nothing else, in rising order |
| Positions.LineTableUnique | rust/ocomment-core/src/incremental.rs:506-521 | a source has one such table |
| Positions.LineHoldsNoTerminator | rust/ocomment-core/src/incremental.rs:446-461 | a line without its terminator holds no CR and no LF, exactly one terminator stands between it and the next, and only the last line has none |
| Positions.Walk | rust/ocomment-core/src/incremental.rs:472-493 | the loop over a line's characters finds the boundary the recursive search finds |
| Positions.FindIsExact | rust/ocomment-core/src/incremental.rs:472-493 | the search answers an offset if and only if it is a character boundary with exactly that many code units in front of it |
| Positions.ByteOffset | rust/ocomment-core/src/incremental.rs:436-496 | a position has an offset if and only if the line exists and the offset is a boundary inside it, the terminator excluded, with exactly so many units of the encoding in front of it on the line |
| Incremental.PrefixIsReused | rust/ocomment-core/src/incremental.rs:272-287 | in front of a checkpoint the edited bytes still permit, the full scan of the new bytes finds what the old one found, and behind it what a scan from the checkpoint finds |
| Incremental.TailIsReused | rust/ocomment-core/src/incremental.rs:288-300 | behind the point of convergence the full scan of the new bytes is the old one, moved by the change of length |
| Incremental.RescanToConvergence | rust/ocomment-core/src/incremental.rs:330-413 | old prefix, new window and moved old tail together are the full scan of the new bytes |
| Incremental.RescanToEnd | rust/ocomment-core/src/incremental.rs:321-359 | old prefix and new suffix together are the full scan of the new bytes |
| Incremental.CheckBatch | rust/ocomment-core/src/incremental.rs:241-250 | a batch is taken if and only if it is sorted, disjoint, upright and in bounds |
| Incremental.Splice | rust/ocomment-core/src/incremental.rs:261-270 | the new bytes are the old ones with the batch applied, alike in front of the first change and behind the last |
| Incremental.ChooseWindow | rust/ocomment-core/src/incremental.rs:271-300 | the window that is rescanned, which `WindowIsLeast` describes |
| Incremental.WindowIsLeast | rust/ocomment-core/src/incremental.rs:271-300 | no checkpoint in front of the edit that the new bytes permit is later than the start, which is one of them or the very start; and the point of convergence is a checkpoint behind the edit that is settled on both sides, with no earlier one, or there is none; a report that was not valid is scanned anew from 0 to the end |
| Incremental.SettledFromThirdLine | rust/ocomment-core/src/scanner.rs:6810-6835 | an offset is past the preamble if and only if the third line begins in front of it or at it |
| Incremental.Rescan | rust/ocomment-core/src/incremental.rs:301-414 | what is kept, what is scanned and what is moved make up the full scan of the new bytes; the window ends at the convergence point if the scan gets there |
| Incremental.Revise | rust/ocomment-core/src/incremental.rs:256-423 | comments, diagnostics, contextual report, line table and safe checkpoints of the new revision are those of a full scan; the bytes outside the window are old bytes |
| Incremental.IncrementalDocument.constructor | rust/ocomment-core/src/incremental.rs:131-158 | a new document holds what a full scan of its bytes says |
| Incremental.IncrementalDocument.ApplyChanges | rust/ocomment-core/src/incremental.rs:227-424 | a stale version and a bad batch are refused, each with its own error, and change nothing; every other batch is applied, raises the version, and leaves exactly what a full scan of the new bytes says; the window reported is the window read, begins at the last old checkpoint in front of the edit that the new bytes permit, and ends at the first settled one behind it where the scan comes to it, or else at the end |
| Incremental.Replay | rust/ocomment-core/src/incremental.rs:696-746 | over every run of batches the document ends where a full scan of the bytes the run made would have put it |
| SmallLexer.MeetsContract | rust/ocomment-core/src/incremental.rs:637-695 | one concrete scanner restarts exactly, decides nothing in front of a checkpoint by bytes behind it, and is shifted without change past the preamble |
| Outlines.MarksSay | rust/ocomment-core/src/transform.rs:402-443 | an outline says of each visible byte whether a line break, blanks alone or nothing stands between it and the one before |
| Outlines.InkPlacesHold | rust/ocomment-core/src/transform.rs:402-443 | the places an outline speaks of are all the visible bytes, in order |
| Outlines.FaithfulEditsKeepOutline | rust/ocomment-core/src/transform.rs:402-721 | edits that each take nothing visible and replace the last break or gap they take make a text with the outline of the source without its comments: visible bytes stay on their lines and none newly touch |
| LineNumbers.SurvivorKeepsLine | rust/ocomment-core/src/transform.rs:402-443 | edits that write back the line breaks they take, and put no separator together, move a byte they leave up by the CR, LF pairs they put together in front of it, and leave it on its line if and only if they put together none |
| LineNumbers.PairedSurvivorKeepsLine | rust/ocomment-core/src/transform.rs:402-443 | in a source without lone carriage returns, and with edits that bring none, every byte they leave keeps its line number |
| LineNumbers.LineNumberCounts | rust/ocomment-core/src/transform.rs:757-769 | in every text a line number is the CR and LF bytes in front of a place, less the pairs they make |
| Layouts.NewlineSequence | rust/ocomment-core/src/transform.rs:757-769 | the output is the line terminators of the bytes, as they were written |
| Layouts.NewlinesAreBreaks | rust/ocomment-core/src/transform.rs:757-769 | those terminators show nothing, and there are some if and only if the bytes break a line |
| Layouts.NewlinesAreTheBreaks | rust/ocomment-core/src/transform.rs:757-769 | of bytes that cut no terminator they are exactly the bytes of the line breaks, each in its place |
| Layouts.NewlinesKeepBreaks | rust/ocomment-core/src/transform.rs:757-769 | they hold the very CR and LF bytes of the text, in order |
| Layouts.LineReplacementOf | rust/ocomment-core/src/transform.rs:437-443 | what is left of a comment is its terminators, or one space where it kept two tokens apart |
| Layouts.LineEditIsDiscreet | rust/ocomment-core/src/transform.rs:423-443 | one removal under `lines` takes nothing visible that stays, puts nothing visible there, makes no line break and takes none that was the only one there |
| Seams.MergeApplies | rust/ocomment-core/src/transform.rs:376-397 | edits that touch can be taken for one edit: the batch with every run of them put together makes the same text |
| Seams.MergeIsFaithful | rust/ocomment-core/src/transform.rs:402-712 | put together so, edits of removed comments keep apart what they stand between, unless it is fused by a run of comments of which nothing need be left |
| Seams.TightEditsKeepOutline | rust/ocomment-core/src/transform.rs:402-712 | such edits keep the outline |
| Seams.InkFirstNeverFuses | rust/ocomment-core/src/transform.rs:437-443 | no run of comments fuses anything where each begins with a visible byte |
| Fusions.FusedRunLosesOutline | rust/ocomment-core/src/transform.rs:437-443 | where a run of comments fuses what it stands between, and its edits leave nothing, the outline is lost, whatever the other edits do |
| Lines.LineEditKeepsBreaks | rust/ocomment-core/src/transform.rs:437-443 | one removal under `lines` writes back the line breaks it takes, byte for byte |
| Erasures.EndingsAreKept | rust/ocomment-core/src/transform.rs:376-397 | edits that each write back the carriage returns and line feeds they take leave those of the source, in order |
| Erasures.SolidIsKept | rust/ocomment-core/src/transform.rs:376-397 | edits that each take only white bytes and removed comments, and write only white bytes, leave every other byte |
| Leavings.CommentLeaves | rust/ocomment-core/src/transform.rs:414-443 | read off byte by byte, what a comment leaves under `lines` is what its edit writes |
| Leavings.SpaceKeepsApart | rust/ocomment-core/src/transform.rs:434-443 | a comment of one line leaves a space if and only if there is a byte on either side and neither is white, and otherwise nothing |
| Leavings.PairsLeft | rust/ocomment-core/src/transform.rs:757-769 | of what is left there are as many CR, LF pairs more than of the source as line endings come together |
| Leavings.PairedNeverMeet | rust/ocomment-core/src/transform.rs:757-769 | without lone carriage returns none come together |
| Residues.AppliedIsRest | rust/ocomment-core/src/transform.rs:376-397 | the text edits make is what the bytes of the source leave, one behind the other, and a byte that stays lands behind what those in front of it leave |
| Commentwise.PlanSays | rust/ocomment-core/src/transform.rs:376-397 | the text a plan makes is read comment by comment: every byte outside the comments that are not kept and the swallowed lines, and for each such comment what its edit writes, once |
| Residues.SeenAsItWas | rust/ocomment-core/src/transform.rs:757-769 | where every separator stays or goes whole and none is put together, a byte that stays is seen as it was: visible, blank or part of a line break |
| LinesLeft.BlankLineLeft | rust/ocomment-core/src/transform.rs:552-563 | between two visible bytes that stay there is a blank line if and only if two line endings are left between them with nothing to see in between, and not just one CR, LF pair |
| LinesLeft.TwoLinesApart | rust/ocomment-core/src/transform.rs:560-563 | with nothing to see between two visible bytes there is a blank line between them if and only if they are two lines apart |
| LinesLeft.OnePairIsLeft | rust/ocomment-core/src/transform.rs:757-769 | that the line breaks of a gap have come down to one CR, LF pair is read off what its bytes leave |
| LinesLeft.ClosedLoses | rust/ocomment-core/src/transform.rs:560-563 | a gap that is closed from one place to another loses just the lines that begin in between, and one where a CR, LF pair is put together at the seam |
| Lines.LinesLeaveBytes | rust/ocomment-core/src/transform.rs:402-443 | the text `lines` makes is what the bytes of the source leave, each for itself: rewrites and HTML comments included |
| Lines.LinesSay | rust/ocomment-core/src/transform.rs:402-432 | with any comments, the output is the source in which each rewritten comment is its replacement, each removed HTML comment nothing, every other removed comment its line endings or the one space, and each swallowed line nothing |
| Lines.LinesKeepOutline | rust/ocomment-core/src/transform.rs:402-443 | visible bytes stay on their lines and none newly touch, if and only if no run of comments fuses what it stands between |
| Lines.LinesKeepEndings | rust/ocomment-core/src/transform.rs:402-443 | with no line swallowed, and comments kept or removed and no HTML comments, the CR and LF bytes of the output are those of the source, in order, whatever is cut or fused |
| Lines.LinesKeepSolid | rust/ocomment-core/src/transform.rs:402-443 | HTML comments and swallowed lines included, erasing white space from the output leaves what erasing it and the removed comments from the source leaves |
| Lines.LinesMoveByMeetings | rust/ocomment-core/src/transform.rs:402-443 | wherever no separator is put together, and so beside fused runs too, the bytes of all line breaks are left, and a byte that stays moves up by exactly the number of line endings that come together in front of it |
| Lines.LinesFormNothing | rust/ocomment-core/src/transform.rs:434-443 | no separator is put together where no run of comments fuses |
| Lines.LineIsKept | rust/ocomment-core/src/transform.rs:434-443 | so it keeps its line number if and only if none come together, and always without lone carriage returns |
| Lines.LineEdit | rust/ocomment-core/src/transform.rs:414-428 | the edit of one removal is the plan's |
| Lines.LineEdits | rust/ocomment-core/src/transform.rs:402-432 | one edit for every comment that is not kept, sorted and disjoint whatever the comments; the text, with rewrites and HTML comments, the line endings, the outline and the line numbers that are left, each as in the rows above |
| Columns.AdvanceDisplayColumn | rust/ocomment-core/src/transform.rs:822-846 | the column at the end is the one its units come to, tabs at multiples of 8, line endings at 0 |
| Columns.ColumnReplacement | rust/ocomment-core/src/transform.rs:780-820 | line endings, and as many spaces as the tabs and characters took columns, are left, and the column behind them |
| Columns.UnitTakesColumns | rust/ocomment-core/src/transform.rs:780-846 | how far each unit of a text runs, what it does to the column and what it leaves: a terminator goes back to the first column and stays; a tab runs to the next multiple of 8, a character of several bytes is as wide as it displays, any other byte takes one, and of these spaces are left |
| Columns.FoldJoins | rust/ocomment-core/src/transform.rs:822-846 | a text set behind another begins in the column the other ends in, unless a character reaches across |
| Columns.RoomFolds | rust/ocomment-core/src/transform.rs:780-820 | what a comment leaves takes the columns the comment took |
| Columns.ColumnsAreCarried | rust/ocomment-core/src/transform.rs:450-488 | the pair of cursor and column threaded from one removal to the next is the display column recomputed from the start of the line |
| Columns.SurvivorKeepsColumn | rust/ocomment-core/src/transform.rs:450-488 | edits that leave the room they take keep the display column of every byte they leave |
| Columns.ColumnEdit | rust/ocomment-core/src/transform.rs:463-485 | the edit of one removal, and the column behind it, are the plan's; an HTML comment leaves nothing and moves no column |
| Columns.ColumnsKeepOutline | rust/ocomment-core/src/transform.rs:450-488 | for comments kept, or removed and no HTML comments, that cut no terminator: visible bytes stay on their lines and none newly touch, if and only if no run of comments that take up no room touches code in front and behind |
| Columns.ColumnsSay | rust/ocomment-core/src/transform.rs:450-488 | with any comments, the output is the source in which each rewritten comment is its replacement, each removed HTML comment nothing, every other removed comment the room it took at the column it stood at, and each swallowed line nothing |
| Columns.HtmlTakesNoColumn | rust/ocomment-core/src/transform.rs:448-483 | the column carried to a comment is the display column behind the text in front of it with the removed HTML comments left out, where no comment cuts a character |
| Columns.ColumnsKeepEndings | rust/ocomment-core/src/transform.rs:450-488 | with no line swallowed and no HTML comment removed all CR and LF bytes are left, in order |
| Columns.ColumnsKeepSolid | rust/ocomment-core/src/transform.rs:450-488 | erasing white space from the output leaves what erasing it and the removed comments from the source leaves |
| Columns.ColumnsKeepPlaces | rust/ocomment-core/src/transform.rs:450-488 | with no line swallowed every byte that stays keeps its display column, moves up only by the CR, LF pairs put together in front of it, and without lone carriage returns keeps its line; comments that take up no room included, whatever they fuse |
| Columns.ColumnEdits | rust/ocomment-core/src/transform.rs:450-488 | one edit for every comment that is not kept, sorted and disjoint whatever the comments; the text, with rewrites and HTML comments, the line endings, outline and places that are left, as in the rows above |
| Compact.FirstTerminatorOf | rust/ocomment-core/src/transform.rs:716-726 | the first terminator inside the span, if one lies in it whole |
| Compact.LineTailOf | rust/ocomment-core/src/transform.rs:730-742 | where the blanks behind a comment stop and how wide the terminator there is, or that something else follows |
| Compact.BlankStartOf | rust/ocomment-core/src/transform.rs:746-755 | the blanks in front of a comment, no further back than the floor and never across a terminator |
| Compact.CompactEdit | rust/ocomment-core/src/transform.rs:666-712 | where a removal begins, where it ends and what it leaves; `CompactTakes.PlanTakes` and `LineEndsWithLast` say what that comes to |
| Compact.CompactEditIsTight | rust/ocomment-core/src/transform.rs:666-712 | one `compact` removal takes nothing visible that stays, and writes nothing in its place only where it takes a line break or the end of a line, or where the comment by itself kept nothing apart |
| Collapse.LineStartsOf | rust/ocomment-core/src/transform.rs:626-639 | the starts the loop collects |
| Collapse.LineStartsTable | rust/ocomment-core/src/transform.rs:626-639 | they rise, and are exactly the very start and every place behind a line terminator, the end of a source that ends with one included |
| Collapse.LineIsBlank | rust/ocomment-core/src/transform.rs:644-660 | a line is blank if and only if it holds nothing but white space up to its terminator |
| Collapse.LastOfRemoval | rust/ocomment-core/src/transform.rs:573-590 | a removal is the longest run of edits that touch and may be widened |
| Collapse.WidenedEnd | rust/ocomment-core/src/transform.rs:591-617 | the last edit of a removal ends where the blank lines it must take end |
| Collapse.CollapseCreatedBlankRuns | rust/ocomment-core/src/transform.rs:564-620 | the pass in place makes every edit the widened one and changes nothing else |
| Collapse.CollapsedIsOrdered | rust/ocomment-core/src/transform.rs:564-620 | sorted and disjoint edits stay sorted and disjoint |
| Collapse.CollapsedIsFaithful | rust/ocomment-core/src/transform.rs:564-620 | the pass keeps the outline the edits keep |
| Collapse.CollapsedIsTight | rust/ocomment-core/src/transform.rs:564-620 | and it does so where comments touch |
| Collapse.ClampNeverBites | rust/ocomment-core/src/transform.rs:611-616 | where the next edit is on a line that shows something the clamp changes nothing |
| Collapse.TakesWholeBlankLines | rust/ocomment-core/src/transform.rs:605-617 | a widened edit takes whole blank lines below it, at least one, and nothing else, where the next edit begins a line or is on one that shows something |
| Collapse.BlankStaysBetween | rust/ocomment-core/src/transform.rs:552-563 | of the lines of the source: below any visible byte that stays, with a blank line the edits leave alone somewhere below it, the pass leaves one alone too, no further down, for any chain of removals |
| Collapse.RemovalIsLeftWithMax | rust/ocomment-core/src/transform.rs:560-563 | of the lines of the source: beside a removal alone between visible bytes the pass leaves alone exactly the larger number of blank lines, and one more just when the last of them has no terminator to give |
| Removals.LineNumberIsPlace | rust/ocomment-core/src/transform.rs:592-600 | the place of a line in the table is the number of line boundaries in front of it |
| Gaps.BlankLineStays | rust/ocomment-core/src/transform.rs:552-563 | a blank line between code that edits leave alone is a blank line of the text they make, unless its line feed is put behind a carriage return |
| Arrivals.Arrives | rust/ocomment-core/src/transform.rs:376-397 | up to any place no edit takes, the output is a text that shows what the source shows with its removed comments blanked out |
| Removals.RemovalLeavesMax | rust/ocomment-core/src/transform.rs:560-563 | in the output, the code above a removal and the code below stand exactly the larger number of blank lines apart, with nothing visible in between, less a CR, LF pair put together at the seam; so there is a blank line if and only if the larger number is more than that pair takes |
| CompactPlans.ScanLine | rust/ocomment-core/src/transform.rs:529-537 | the start of the current line, run forward |
| CompactPlans.ScanFindsLine | rust/ocomment-core/src/transform.rs:494-495 | run forward through comment bodies too, it is the real beginning of the line the comment is on |
| CompactPlans.ReachesBack | rust/ocomment-core/src/transform.rs:746-755 | a removal reaches into the rewritten comment in front of it exactly when that one ends in blanks and only blanks stand between |
| CompactLines.AloneGoesWhole | rust/ocomment-core/src/transform.rs:490-492 | the removal of a comment alone on its lines begins and ends with those lines |
| CompactPlans.CompactRemoval | rust/ocomment-core/src/transform.rs:517-546 | the edit of one removal, whether it may be widened, and the state behind it are the plan's |
| CompactPlans.PlanEdits | rust/ocomment-core/src/transform.rs:499-547 | one edit for every comment that is not kept, and one flag for every removal |
| CompactPlans.PlanAtHolds | rust/ocomment-core/src/transform.rs:508-547 | in front of every comment: one edit for each comment that is not kept, sorted and disjoint, the last removal's end carried along, if and only if no removal so far trimmed a rewrite |
| CompactPlans.PlanIsTight | rust/ocomment-core/src/transform.rs:508-547 | the line start threaded along is the real one, and every edit of the plan is as `Compact.CompactEditIsTight` says |
| CompactPlans.OrderedUnlessTrimmed | rust/ocomment-core/src/transform.rs:499-550 | the widened edits are sorted and disjoint if and only if no removal trims a rewritten comment |
| CompactFlags.FlagIsAnothers | rust/ocomment-core/src/transform.rs:573-585 | the flag read for a removal is that of the one with as many others in front as it has edits in front: its own if nothing in front is rewritten, and otherwise one further on or none |
| CompactFlags.WidenedIfFewRewritten | rust/ocomment-core/src/transform.rs:571-590 | with no line swallowed, a removal that takes whole lines is looked at for blank lines if and only if fewer comments in front of it are rewritten than are removed from it on |
| CompactPlans.CompactKeepsOutline | rust/ocomment-core/src/transform.rs:499-550 | visible bytes stay on their lines and none newly touch, if and only if no run of comments fuses what it stands between |
| CompactPlans.CompactKeepsSolid | rust/ocomment-core/src/transform.rs:499-550 | erasing white space from the output leaves what erasing it and the removed comments from the source leaves |
| CompactLeavings.CompactLeavesBytes | rust/ocomment-core/src/transform.rs:490-550 | the text `compact` makes is what the bytes of the source leave, each for itself, and what stays lands behind what is left in front of it |
| CompactLeavings.CompactLeavesAll | rust/ocomment-core/src/transform.rs:490-550 | so with rewrites and HTML comments too, wherever no comment cuts a terminator, swallowed lines are whole and the edits are ordered |
| CompactLeavings.CompactFormsNothing | rust/ocomment-core/src/transform.rs:666-712 | no separator is put together where no run of comments fuses |
| CompactLines.CompactTakesLines | rust/ocomment-core/src/transform.rs:490-492 | every removed comment that is alone on its lines lies with all of them, terminator included, in an edit that leaves nothing |
| CompactTakes.PlanTakes | rust/ocomment-core/src/transform.rs:666-755 | the edits before blank lines are taken back take a byte if and only if it is in a comment that is not kept, on a swallowed line, or goes with a removed comment that ends its line: blanks in front of it, blanks behind it, and the terminator if the line goes or runs together with another |
| CompactTakes.CompactTakesWhatGoes | rust/ocomment-core/src/transform.rs:490-550 | the finished edits take all that goes, and anything else they take is on lines that show nothing |
| CompactTakes.LineEndsWithLast | rust/ocomment-core/src/transform.rs:666-712 | in the output a line that a removed comment stood last on ends, in front of its terminator or of the end, in what `lines` leaves of the last byte it leaves something of, but for the blanks that go with that comment |
| CompactTakes.CodeEndsItsLine | rust/ocomment-core/src/transform.rs:666-712 | so where code stands in front of the comment with blanks between, the line ends in that code and in no blank |
| CompactTakes.CodeKeepsTerminator | rust/ocomment-core/src/transform.rs:666-712 | and where the comment runs over the end of its line, the code is followed at once by the first terminator the comment held |
| CompactLines.CompactKeepsBlanks | rust/ocomment-core/src/transform.rs:552-563 | without lone carriage returns: any two places of code with a blank line somewhere between them in the source land in the output with a blank line between them |
| CompactLines.CompactLeavesBlanks | rust/ocomment-core/src/transform.rs:552-563 | whatever stands in between, any two places of code land in the output with a blank line between them if and only if two line endings are left there with nothing to see in between, and not just one CR, LF pair, which is read off the source, the comments and the spans of the plan |
| CompactLines.CompactKeepsGaps | rust/ocomment-core/src/transform.rs:552-563 | with lone carriage returns too: code with a blank line and no other code in between loses the last of them if and only if one carriage return and one line feed behind it are left of the line breaks there, with nothing left in between |
| CompactLines.CompactNeverClamps | rust/ocomment-core/src/transform.rs:611-616 | the invariant in the code: the blank lines a removal of the plan takes end in front of the next edit of themselves, and it takes whole blank lines only |
| CompactLines.CompactLeavesMax | rust/ocomment-core/src/transform.rs:560-563 | a removal of the plan alone between code leaves, in the output, exactly the larger number of blank lines it stood beside, less a CR, LF pair put together at the seam; with swallowed lines and comments that begin blank too |
| CompactLines.CompactEdits | rust/ocomment-core/src/transform.rs:490-550 | the widened plan; its order, the text that is left, rewrites and HTML comments included, which bytes are taken, what the lines end in, the outline, the lines that go, and the blank lines that stay and go, each as in the rows above |
| Transactions.Prepare | rust/ocomment/src/atomic.rs:27-74 | every state keeps every old entry; it succeeds if and only if the files are as expected and no operation fails but the inspection of a journal, which overlooks one if it is there; then the replacements lie ready; without a failure an error leaves everything as it was |
| Transactions.CommitOne | rust/ocomment/src/atomic.rs:101-128 | one original aside and its replacement in place, if and only if none of its five operations fails; or the original is in its place or in its journal; so at every step |
| Transactions.Install | rust/ocomment/src/atomic.rs:117-127 | the second half of it: the replacement in place if and only if the rename and the flush succeed |
| Transactions.PutBack | rust/ocomment/src/atomic.rs:118-125 | the attempt to put an original back, whose own failure is not looked at |
| Transactions.CommitAll | rust/ocomment/src/atomic.rs:76-92 | all files installed, or a first failure and the files behind it untouched |
| Transactions.RestoreOne | rust/ocomment/src/atomic.rs:132-138 | one original put back from its journal if that is seen, if and only if no operation fails but inspections |
| Transactions.Rollback | rust/ocomment/src/atomic.rs:130-141 | the last first, and it stops at the first operation that fails and is no inspection, with the originals in front as they were; it succeeds if and only if there is none, and then every file up to the failed one is as it was, but for journals that could not be seen |
| Transactions.RestoredIsPutBack | rust/ocomment/src/atomic.rs:130-141 | such files are in their places with no journal left, and nothing else is different |
| Transactions.CleanUp | rust/ocomment/src/atomic.rs:93-97 | while journals are removed every replacement is in its place; it stops at the first operation that fails, removal or flush |
| Transactions.FinishedIsRewritten | rust/ocomment/src/atomic.rs:93-98 | with all journals gone the files hold their replacements and nothing else is different |
| Transactions.FreeIsSeparate | rust/ocomment/src/atomic.rs:61-68 | where no journal is there yet, files that are as they were read are no journals of each other |
| Transactions.NothingIsLeft | rust/ocomment/src/atomic.rs:77-91 | from a clean start, put back and with the temporary files dropped there is nothing that was not there before |
| Transactions.Abandon | rust/ocomment/src/atomic.rs:77-91 | the rollback of a failed commit, the failing file included, with the temporary files dropped; it is rolled back if and only if no operation of the rollback fails but inspections |
| Transactions.Commit | rust/ocomment/src/atomic.rs:76-98 | what a commit ends in: rewritten if and only if none of its operations fails, flushes and clean-up included; put back; or an error with every original or every replacement on the disk |
| Transactions.ApplyTransaction | rust/ocomment/src/atomic.rs:22-99 | from every start with no journal of other content in the way, and in every run that overlooked none, under any failures: at every step each original is in its place or in its journal until journals are removed, and from then on every replacement is in place; success leaves no journal, and a rollback loses no original, failed or not. With no journal overlooked success means rewritten and a rollback put back, and nothing else is different. It is a prepare error if and only if a file is not as it was read or an operation of the preparation fails that is no inspection of a journal, and that changed nothing; otherwise success if and only if none of the seven operations for each file fails from the commit to the end. From a clean start one failure leaves the files rewritten, or everything as it was; under the failures `Loses` names an original is lost |
| Transactions.ScheduleLoses | rust/ocomment/src/atomic.rs:61-68 | from every start with a journal of other content in the way of any one file there are such failures, counted by operation |
| Transactions.OverlookedJournalCostsTheFile | rust/ocomment/src/atomic.rs:130-141 | a run of the whole transaction from any such start that ends with the original of that file neither in its place nor in its journal |
| Profiles.ValidateToken | rust/ocomment-core/src/profile.rs:739-747 | a token is refused if it is empty or holds a line ending, each with its own error |
| Profiles.ValidateProfile | rust/ocomment-core/src/profile.rs:262-335 | no error if and only if the profile is unambiguous; an error is true of the profile, and every check that comes earlier was passed |
| Profiles.CheckRun | rust/ocomment-core/src/profile.rs:387-401 | what follows the token past the run of its last byte, whatever its length, is not forbidden, or nothing follows |
| Profiles.OpenerAt | rust/ocomment-core/src/profile.rs:514-543 | the longest of the openers that match, and none only if none matches |
| Profiles.LongestIsUnique | rust/ocomment-core/src/profile.rs:508-513 | a tie is impossible |
| Profiles.ScanString | rust/ocomment-core/src/profile.rs:561-580 | where a string ends and whether it was closed, as `StringEndsThere` has it |
| Profiles.PlainStringEnds | rust/ocomment-core/src/profile.rs:564-580 | without an escape it ends at the first end token, if and only if it may cross lines or no line ends before |
| Profiles.StringEndsThere | rust/ocomment-core/src/profile.rs:561-580 | for every delimiter: with the text cut from the left into escapes with the byte behind them and single bytes, a string is closed at the first end token that begins a piece and is no escape, if it may cross lines or no piece in front ends a line; otherwise it ends open, at that line or at the end of the source; and in no other way |
| Profiles.EndedWithToken | rust/ocomment-core/src/profile.rs:565-569 | a string that was closed ends with its end token |
| Profiles.ScanLineComment | rust/ocomment-core/src/profile.rs:592-596 | a line comment runs to the end of its line |
| Profiles.ScanBlock | rust/ocomment-core/src/profile.rs:608-628 | where a block ends and at which depth |
| Profiles.BlockIsBalanced | rust/ocomment-core/src/profile.rs:608-628 | it ends where its closers first balance its openers, positively deep at every proper prefix; one that never closes is positively deep throughout |
| Profiles.PiecesSpell | rust/ocomment-core/src/profile.rs:608-628 | the pieces it is balanced over: the longest opener of a nested block that pairs with this closer, the closer itself, or one byte |
| Profiles.NextToken | rust/ocomment-core/src/profile.rs:555-651 | the token at an offset: a string before a comment, a comment before code |
| Profiles.ScanProfile | rust/ocomment-core/src/profile.rs:545-653 | refused if and only if the profile is; otherwise the comments and faults of tokens that tile the source, valid if and only if there is no fault |
| Profiles.ValidMeansEnded | rust/ocomment-core/src/profile.rs:581-653 | there is no fault if and only if every string and every block was closed |
| Profiles.FaultsAreTokens | rust/ocomment-core/src/profile.rs:581-653 | a fault is reported if and only if a string or a block was not closed, with its span and its code |
| Profiles.CommentsAreTokens | rust/ocomment-core/src/profile.rs:592-637 | something is reported as a comment if and only if it is a comment token, with its span and kind; they are not empty, sorted and disjoint |
| Profiles.CommentsAreOutsideStrings | rust/ocomment-core/src/profile.rs:337-341 | no comment lies in a string or across one |
| Profiles.OneReading | rust/ocomment-core/src/profile.rs:508-513 | an accepted profile cuts a source into tokens in one way |
| Profiles.NestedInAnyOrder | rust/ocomment-core/src/profile.rs:487-500 | the longest nested opener does not depend on the order of the table |
| Profiles.AcceptedInAnyOrder | rust/ocomment-core/src/profile.rs:262-335 | a profile is accepted if and only if it is with its tables in any other order |
| Profiles.ScanInAnyOrder | rust/ocomment-core/src/profile.rs:508-513 | with the line, block and string tables permuted an accepted profile is accepted and reads every source into the same tokens |
| Serials.Serial.constructor | editors/vscode/src/serial.ts:10-10 | the queue begins settled and empty |
| Serials.Serial.Run | editors/vscode/src/serial.ts:17-27 | the caller gets the promise of its own work, queued behind everything queued already, and nothing runs yet |
| Serials.Serial.Fire | editors/vscode/src/serial.ts:18-25 | any ready reaction may run next: it starts its work, and then none was running, or it absorbs how the work before ended |
| Serials.Serial.Settle | editors/vscode/src/serial.ts:13-16 | a work that ends settles the promise of the one who asked for it and of nobody else |
| Serials.Serial.OneAtATime | editors/vscode/src/serial.ts:1-9 | in every state works have started in the order they were asked for and never overlapped, and whoever asked for one that ended, and nobody else, is answered with its outcome |
| Serials.Serial.NeverStalls | editors/vscode/src/serial.ts:19-21 | a rejected work does not hold up the queue: while one that was asked for has not ended, one is running or some reaction can run |
| Extensions.Extension.constructor | editors/vscode/src/extension.ts:24-28 | nothing runs and nothing is held |
| Extensions.Extension.Ask | editors/vscode/src/extension.ts:92-100 | every entry point queues exactly once |
| Extensions.Extension.Deliver | editors/vscode/src/extension.ts:96-99 | the event loop starts the next work, which first takes down the client it finds |
| Extensions.Extension.ShutDown | editors/vscode/src/extension.ts:174-186 | the client is forgotten before it is stopped |
| Extensions.Extension.StopSettles | editors/vscode/src/extension.ts:181-185 | a stop that failed goes on like one that did not, and its server is gone or left behind |
| Extensions.Extension.Launch | editors/vscode/src/extension.ts:102-115 | a start with the server switched off ends there |
| Extensions.Extension.ProbeSettles | editors/vscode/src/extension.ts:112-159 | with no binary the work ends and nothing is held; with one a new client is held and being started |
| Extensions.Extension.StartSettles | editors/vscode/src/extension.ts:160-167 | a start that failed is forgotten, its server gone or left behind, and its work still ends well |
| Extensions.Extension.ServerComesUp | editors/vscode/src/extension.ts:160-162 | the process of a client that is being started comes up at any moment before the start settles |
| Extensions.Extension.ServerDies | editors/vscode/src/extension.ts:156-158 | a server may die at any time, and what is said of the others stands |
| Extensions.Extension.AtMostOneServer | editors/vscode/src/extension.ts:92-186 | in every interleaving at most one server lives besides those a failed start or stop left behind; and whenever no work is running there is none but the one held in the client field, if and only if none of those is still running |
| Envs.SplitEnvString | rust/ocomment-core/src/detect.rs:194-243 | the words of a string under the quoting rules, nothing for an unfinished quote or escape |
| Envs.SplitInvertsQuoting | rust/ocomment-core/src/detect.rs:194-243 | words without single quotes, quoted and joined by spaces, come back as they were, empty ones too |
| Envs.SplitsAsMeant | rust/ocomment-core/src/detect.rs:194-243 | a string splits into words if and only if it is spelled of spaces, bare characters, escapes, and quotes that are finished, and then into the words these mean |
| Envs.SplitIsSmaller | rust/ocomment-core/src/detect.rs:194-243 | the words of a string, with one for each, add up to no more than its length and one |
| Envs.SplitShrinks | rust/ocomment-core/src/detect.rs:121-141 | each `-S` leaves strictly less than there was, so the search ends though it starts over |
| Envs.EnvExecutable | rust/ocomment-core/src/detect.rs:114-189 | the command an `env` line names |
| Envs.NamesItsCommand | rust/ocomment-core/src/detect.rs:114-189 | an `env` line names a command if and only if that is the first word behind its options, the values they take and its assignments, or stands behind `--` there, or is named so by the string that `-S` splits in its place |
| Envs.SplitStringIsTransparent | rust/ocomment-core/src/detect.rs:121-126 | a command line quoted word by word behind `-S` names what it names unquoted |
| KeepBlocks.Adjacent | rust/ocomment-core/src/keep_blocks.rs:7-30 | two comments are adjacent if and only if white space alone stands between them, with exactly one line ending in it; the counter stays below 3 |
| KeepBlocks.KeptPatterns | rust/ocomment-core/src/keep_blocks.rs:32-50 | every member gets the least pattern of its whole block, and none if the block has none |
| KeepBlocks.CarryBack | rust/ocomment-core/src/keep_blocks.rs:44-48 | the backward pass in place completes what the forward pass knew |
| KeepBlocks.OneBlock | rust/ocomment-core/src/keep_blocks.rs:32-50 | joined members see one block |
| ActionPins.IsReference | rust/ocomment-core/src/action_pins.rs:9-33 | the pass accepts a name if and only if no byte breaks a rule read off the bytes in front of it |
| ActionPins.RefNameIsGits | rust/ocomment-core/src/action_pins.rs:9-33 | those are Git's rules, component by component, for names of any length |
| ActionPins.IsVersionToken | rust/ocomment-core/src/action_pins.rs:40-55 | a version is a reference name that begins with a number, or has one behind a dash or slash with a plain word in front |
| ActionPins.IsAnnotation | rust/ocomment-core/src/action_pins.rs:57-78 | what annotates a pin, which `AnnotatesJustVersions` describes |
| ActionPins.EverySpellingAnnotates | rust/ocomment-core/src/action_pins.rs:57-78 | whatever the spacing and whatever words follow, a version annotates on its own, behind `pin`, and behind `tag` and `=` |
| ActionPins.AnnotationNamesReference | rust/ocomment-core/src/action_pins.rs:57-78 | some stretch of every annotation is a name Git accepts |
| ActionPins.AnnotatesJustVersions | rust/ocomment-core/src/action_pins.rs:57-78 | a comment annotates if and only if, trimmed, it is a reference name, or it spells a version in one of the three ways |
| UnicodeEscapes.UnicodeEscape | rust/ocomment-core/src/tsx_rules.rs:51-86 | the escape's width and the value its digits have by position, for any number of digits, within 32 bits throughout |
| UnicodeEscapes.ValueAppend | rust/ocomment-core/src/tsx_rules.rs:63-75 | one more digit counts what was there sixteen times |
| UnicodeEscapes.TooLarge | rust/ocomment-core/src/tsx_rules.rs:63-75 | digits that come to more than the last code point are no escape, however many follow |
| Reflows.Join | rust/ocomment-core/src/reflow.rs:185-198 | the held lines, trimmed and joined, as `JoinedLies` has it |
| Reflows.JoinedLies | rust/ocomment-core/src/reflow.rs:185-198 | the lines that are not blank lie in the joined text whole, trimmed and in order, and nothing else does but one space between two of them, or none where both sides of the seam are of a script that writes none |
| Reflows.JoinKeepsInk | rust/ocomment-core/src/reflow.rs:185-198 | joining keeps every character that is not white space |
| Reflows.Sentences | rust/ocomment-core/src/reflow.rs:416-464 | the text cut behind every sentence that another follows, and nowhere else |
| Reflows.CutsAre | rust/ocomment-core/src/reflow.rs:416-464 | the cuts are exactly the ends of the sentences, in rising order |
| Reflows.SentencesKeepInk | rust/ocomment-core/src/reflow.rs:416-464 | cutting keeps every character that is not white space |
| Reflows.SentencesAreStretches | rust/ocomment-core/src/reflow.rs:416-464 | every sentence is a stretch of the text without white space at its ends, and none is empty unless there is nothing to cut |
| Reflows.CutsAreOutsideCode | rust/ocomment-core/src/reflow.rs:423-426 | no cut falls inside a code span |
| Reflows.MarkerOfItem | rust/ocomment-core/src/reflow.rs:130-144 | a list marker is the beginning of its line, and what stands for it on further lines is blank |
| Reflows.MarkerIsToken | rust/ocomment-core/src/reflow.rs:130-144 | the marker is the indentation, a token without a space, and all the white space behind it; on further lines the indentation stands again, and spaces for the rest of it |
| Reflows.Flush | rust/ocomment-core/src/reflow.rs:160-180 | what is held, joined and cut, behind the marker and then behind its width |
| Reflows.WrittenUnder | rust/ocomment-core/src/reflow.rs:160-180 | what is held is written behind the marker and then behind what stands for it, each time a stretch of the joined text without white space at its ends, and all of it on one line unless sentences are wanted |
| Reflows.TakeLine | rust/ocomment-core/src/reflow.rs:41-71 | a line is passed through, begins something, or goes behind what is held |
| Reflows.EndLine | rust/ocomment-core/src/reflow.rs:72-96 | a break somebody meant and the end of a paragraph end what is held; the item they are in goes on |
| Reflows.Reflow | rust/ocomment-core/src/reflow.rs:31-101 | the whole run, and no answer if and only if it is as the rule asks already |
| Reflows.PlacesPass | rust/ocomment-core/src/reflow.rs:41-71 | a line is written as it stands if and only if it is passed through, which is read off the lines alone; an indented line that would read as prose is |
| Reflows.ReflowKeeps | rust/ocomment-core/src/reflow.rs:7-14 | the characters but for white space are the same before and after; the lines that stand verbatim, and in order, are exactly those passed through: fences and what is inside them, and whatever neither reads as prose as it stands nor belongs to an item; without sentence breaks there are no more lines than before |
| Reflows.BreaksNobodyMeant | rust/ocomment-core/src/reflow.rs:16-22 | unwrapped, the output has one line for each group of lines, holding their characters and no others, and two lines that follow on one another are in one group if and only if nobody meant the break between them |
| Reflows.PlainBreaks | rust/ocomment-core/src/reflow.rs:16-22 | in plain prose a break is meant if and only if the line in front of it ends at one |
| Limits.BlankSeamFusesTokens | rust/ocomment-core/src/transform.rs:437-443 | the edits of `lines`, applied to two removed comments that touch with a blank at the seam, leave their neighbours touching, and the outline is lost |
| Limits.ThinCommentFusesTokens | rust/ocomment-core/src/transform.rs:780-820 | the edits of `columns`, applied to a comment of one zero-width character, leave its neighbours touching, and the outline is lost |
| Limits.TrimmingOverlaps | rust/ocomment-core/src/transform.rs:508-546 | a source and comments whose `compact` edits overlap |
| Limits.LoneReturnMovesLines | rust/ocomment-core/src/transform.rs:757-769 | the edits of `lines`, applied, make one of the two line endings of a comment, and the byte behind lands a line further up |
| Limits.BlankLineIsLost | rust/ocomment-core/src/transform.rs:552-563 | the edits of `compact`, applied, leave no blank line between code that had one |
| Limits.UnterminatedBlankStays | rust/ocomment-core/src/transform.rs:564-620 | a last blank line without a terminator is left |
| Limits.TrailingBlankIsLeft | rust/ocomment-core/src/transform.rs:666-712 | the edits of `compact`, applied to two removed comments at the end of a line, leave a blank there |
| Limits.RewriteLeavesBlankRun | rust/ocomment-core/src/transform.rs:552-585 | the edits of `compact`, applied, leave two blank lines where there was one on either side, behind a comment that is rewritten; with that comment kept they leave one |
| Limits.SwallowedLineIsWidened | rust/ocomment-core/src/transform.rs:501-504 | behind a rewritten comment the edit of a swallowed line takes the blank line below it too, which `lines` leaves |

## Left out

- ByteOffset: counts units and adds offsets in unbounded numbers, where the code counts UTF-16 and UTF-32 units in 32 bits; the two agree on lines of fewer than 2^32 units.
- SmallLexer.MeetsContract: the contract is discharged for one small scanner; that the scanners of the built-in languages meet it is what the repository's own property tests look for, and their source is not modelled.
- Profiles.ValidateProfile: of several errors of the same check (two bad tokens, two ambiguous pairs) it does not fix which is reported.
- Lines.LineEdits: the outline and the line numbers are stated for comments that are kept, or removed and no HTML comments (an HTML comment leaves nothing between its neighbours, and a rewrite puts its own bytes there); where bytes that stood apart come to spell U+2028 or U+2029, which takes a fusing run, line numbers are not stated, the CR and LF bytes are.
- Lines.LinesKeepSolid: for sources without U+2028 and U+2029, whose bytes the code takes for line terminators; so in all three layouts.
- CompactLines.CompactEdits: the outline is stated as for `lines`; that a comment alone on its lines goes with them, and that a blank line is left, where no line is swallowed and every removed comment ends in a visible byte with only blanks behind it. Where the output has blank lines at all is stated without that, unless bytes that stood apart come to spell U+2028 or U+2029.
- CompactTakes.LineEndsWithLast: where no line is swallowed, of a comment of one line or an HTML comment that shows something before a line ends in it, with something left in front of it on its line; a comment that runs over its line is `CompactTakes.CodeKeepsTerminator`.
- CompactLines.CompactNeverClamps: where no line is swallowed and every removed comment begins and ends on lines it shows something on; a comment that begins with a blank line of its own may give the clamp something to do.
- CompactLines.CompactLeavesMax: for sources of which no U+2028 or U+2029 is put together, and a removal with code on both sides and no other removal in the gap. It counts from line numbers, so the line a CR, LF pair swallows at the seam is named and not excluded.
- Columns.ColumnEdits: the width of a character is a parameter, not the tables of Unicode, and tabs and bytes that are no UTF-8 are as wide as in the code; the theorem of the columns is for comments that cut no character, with no continuation byte behind one that takes up no room.
- Collapse.RemovalIsLeftWithMax: for a removal alone between visible bytes that stay; two removals with only blanks between them may leave more than the larger number, each being measured in the source.
- Transactions.ApplyTransaction: the planned paths are taken to differ from each other and from temporary names, no other process writes to the files meanwhile, and a rename replaces its target, as it does on Unix. Of a run that overlooks a journal the planned files are taken to be no journals of each other: a file planned under the name of another's journal is overwritten when that one is moved aside.
- Extensions.Extension.AtMostOneServer: whether a stop or a failed start leaves its process running is a parameter of the step, with nothing said of when it does; the status bar and the listeners of the client are left out.
- Reflows.Reflow: whether a line is a fence, prose or a list item, how far a continuation may be indented, what is white space, and which words carry a full stop of their own are parameters (`Reading`); a space is taken to be white space.
- Scanners of the built-in languages, their restart rules, the contextual rules and the lines a removal must swallow: parameters. The lines to swallow are taken to hold their comment and to reach neither neighbour.
- Policies, tag conventions, protected patterns and the continuation of documentation comments in a profile's report: they classify comments that are found already.
- A rewrite without replacement bytes: the code then plans no edit for it; here every rewrite has its bytes.
- A profile's name and the reasons of its patterns enter as whether they are blank.
- Reading the shebang line and taking the base name of the executable.
- Style rules, advice, coverage, generated files, rendering, configuration, file discovery, the language server and the command line.
