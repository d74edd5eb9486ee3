# A model of MariaDB Connector/Python

This project models five parts of MariaDB Connector/Python and proves what they keep, undo
and agree on:

1. the SQL statement parser, which rewrites a statement in place, and the substitution of
   parameters in the text protocol (`mariadb/mariadb_parser.c`, `mariadb/cursors.py`);
2. the codecs for times, dates and integers (`mariadb/mariadb_codecs.c`);
3. the connection pool (`mariadb/connectionpool.py`);
4. two-phase commit (`mariadb/connections.py`);
5. fetching and scrolling in a result (`mariadb/mariadb_cursor.c`, `mariadb/cursors.py`).

`dafny verify dfyconfig.toml` checks everything. Nothing here is compiled or linked with the
connector.

## How it is organised

| file | content |
|---|---|
| `Seqs.dfy`, `Wrappers.dfy`, `Arith.dfy`, `Bytes.dfy` | sequences, `Option`, division, ASCII and digit runs |
| `Tokens.dfy`, `Scanner.dfy` | the pure tokenizer: a statement as text and placeholders |
| `Parser.dfy` | the in-place scanner as a class over a byte buffer, proved to refine the tokenizer |
| `Reparse.dfy`, `Conditional.dfy`, `SecondScan.dfy`, `Records.dfy` | scanning the rewritten statement again: when it gives the same tokens, and when the same record |
| `Recognition.dfy` | what is a placeholder, a conditional comment or a command, said on the text itself |
| `Regions.dfy`, `Limits.dfy` | literals and comments as a whole; inputs on which the code surprises |
| `Utf8.dfy`, `Substitution.dfy`, `Rendering.dfy`, `Execute.dfy` | UTF-8, splicing values in, reading them back, and what the bytes sent have to do with the statement |
| `Cursors.dfy` | the cursor: `execute()` with the record and the protocol flag it keeps between calls |
| `Decimal.dfy`, `TimeText.dfy`, `TimeDelta.dfy`, `TimeValues.dfy`, `TimeGrammar.dfy`, `Korr.dfy`, `Integers.dfy` | codecs |
| `PoolSpec.dfy`, `PoolRuns.dfy`, `Pool.dfy` | the pool as a value, its runs, and the class that refines it |
| `TwoPhaseSpec.dfy`, `TwoPhase.dfy` | two-phase commit as a state machine, and the class that refines it |
| `ResultSet.dfy` | fetch and scroll |

Code that changes buffers and fields in the source is a class or a method with loops here; each
such method is proved against a function on values, and the properties are proved of that
function.

## Main results

* The in-place scanner succeeds exactly when all placeholders have one style. Then the buffer,
  the offsets, the keys and the command are those of a left-to-right tokenizer of the untouched
  statement (`Parse`), and putting the spellings back at the offsets restores the statement byte
  for byte (`ParseUndone`, `SpellingsFromRecord`). What the tokenizer takes for a placeholder is
  said on the bytes alone, for every text and scanner state (`MarkSeen`, `PercentSeen`,
  `NamedSeen`), and so are the command of a statement (`CommandOfStatement`) and which
  conditional comments apply (`VersionApplies`).
* Whatever a cursor executed before, in text mode it sends the statement it is given with the
  i-th placeholder replaced by the i-th value, for ordinary values (`ExecuteSendsIntended`); a
  reader of SQL literals gets the i-th value back from it (`ExecuteReadsBack`). In
  general it does so exactly when every value has a text of its own and every one but the last is
  accounted for in bytes (`ExecuteExactly`). Both are about statements without a NUL byte and,
  where the parse is skipped, with the same record as a parse would give. A value without a text
  repeats the nearest one before it (`SentRepeats`, `IndicatorRepeats`).
* Bytes reach the text of a statement exactly when its placeholders are named, the text protocol
  is chosen, the entries looked at pass and one that is named is bytes (`BytesInText`); with no
  more entries than placeholders they never do (`NoBytesInText`).
* The rewritten statement has the same tokens, placeholders now question marks, exactly when
  every version number of a conditional comment keeps the bytes that must follow it
  (`FixedPoint`). It has the same record exactly when no comment that applies is swallowed in
  this way, or the first that is ends before the placeholders that are left and these stay the
  same (`RecordKept`, `CacheIsFresh`); at most six bytes are left (`LittleLeft`). Without
  conditional comments both always hold (`UnconditionalFits`).
* Given the same record, skipping the parse changes nothing that is sent, for all data, exactly
  when the style is not pyformat and the protocol flag left by the call before is the one the
  parse would set, if it counts at all (`CacheAgrees`, and `CacheAgreesOn` for each data).
* A timedelta survives binding and reading exactly when its seconds fit (`DeltaRoundTrip`); text
  and binary TIME agree (`TextAndBinaryAgree`). A text is read as a time, a date or a datetime
  exactly when it is one of a small grammar, and then denotes what its numbers say
  (`TimesAccepted`, `TimesAreThese`, `DatesAccepted`, `DateTimesAccepted`, `DatesAreThese`). Bulk integer columns decode exactly when one
  sign fits them all and no row is -1 (`BulkRoundTrip`).
* Every run of the pool, under every pattern of failures, is safe (`RunIsSafe`) and fair
  (`EveryOtherLeavesFirst`, `CountsWithinOne`). It never leaves a connection with an open
  transaction to be handed out, exactly when no caller adds one or opens a transaction on a
  connection already returned (`RunIsClean`).
* In every run of two-phase commit calls the state is consistent (`RunIsConsistent`), a commit or
  rollback names the xid it is given or else the connection's own (`CallsNameTheirXid`), and the
  XA statements follow the protocol exactly when no transaction that was rolled back is used
  again (`RunFollowsProtocol`).

## Where the code does not do what its documentation suggests

The model follows the code. These are the places where a promised property fails; each has a
lemma with the exact condition or an input that shows it.

* A quote byte flips its flag even inside a comment or another kind of literal, so an
  apostrophe in a comment hides the placeholders after it (`QuotedLiteral`, `BlockComment`,
  `LineComment`). Only the byte right behind `#` or `-- ` is not looked at.
* The version number of a conditional comment is no longer read when the rewrite has taken away
  the bytes that must follow it (`FixedPoint`, `ConditionalNotFixed`). That may be without
  consequence for the record (`RoomLostRecordKept`, `RecordKept`).
* The check that keeps bytes out of text mode looks at the first entries of a dictionary, not at
  the ones the placeholders name; bytes that get through shift later placeholders
  (`BytesReachText`, `BytesInText`, `SentIsIntended`).
* A pyformat statement that was parsed stays cached as pyformat when its rewritten text is
  executed, so that a list is refused which a new cursor accepts (`NamesStay`; `StaleNames` for
  every such statement, `CacheAgrees` for the condition).
* The protocol flag of the call before stays in force when the parse is skipped: after `%s` with
  bytes, `?` with None goes out in the binary protocol, while a new cursor sends it as text
  (`StaleProtocol`; `StaleFlag` for every such statement, `CacheAgreesOn` for the condition).
* An indicator other than NULL and DEFAULT raises an unassigned-variable error as the first value
  in text mode, and repeats the previous value otherwise (`SubstituteParameters`,
  `IndicatorRepeats`).
* A row equal to -1 marks a bulk column as unsigned (`BulkRoundTrip`).
* What follows the digits of a fraction, if it is not a digit, counts in the scale of the fraction:
  `.5 x` is 5 milliseconds (`FractionScaled`).
* `check_date` lets day 0 pass (`CheckedDates`, `DayZeroPasses`).
* Adding a connection that is already pooled breaks the pool (`AddTwiceBreaks`).
* A pooled connection is still open after `close()`; a transaction opened on it then is there when
  it is handed out again (`StepKeepsClean`).
* A successful `tpc_rollback` leaves the state at PREPARE, so a commit after it is sent
  (`RollbackThenCommit`, `RunFollowsProtocol`).

## Conventions

* The server version, `escape_string`, `str()` of a number, the clock, and the outcomes of ping,
  connect, reset, rollback, close and of every two-phase commit statement are parameters.
* The model of `execute()` ends with what is sent.
* `long` has 64 bits and `int` has 32. Overflow of a signed `int` is modelled as wrap-around.
* Pool methods are atomic steps.
* A Python string is a sequence of Unicode scalar values; UTF-8 is as in section 3 of RFC 3629.
* The two-phase commit methods follow "Optional Two-Phase Commit Extensions" of PEP 249.

## Model

| member | source | states |
|---|---|---|
| Scanner.TokenizeSource | mariadb/mariadb_parser.c:151-408 | the tokens of any text, read from any scanner state, spell out exactly that text |
| Tokens.OffsetsAddressMarks | mariadb/mariadb_parser.c:265-281 | recorded offsets are one per placeholder, strictly increasing, in range, and each addresses a `?` of the rewritten text |
| Tokens.UniformMarks | mariadb/mariadb_parser.c:267-274 | in a statement of one style every placeholder has that style, and there is no style exactly when there is no placeholder |
| Tokens.KeysOfMarks | mariadb/mariadb_parser.c:309-362 | the recorded keys are those of the named placeholders, one each and in order |
| Tokens.LengthAccount | mariadb/mariadb_parser.c:408 | the final length is the original length less the bytes removed |
| Tokens.FillIsInterleave | mariadb/mariadb_parser.c:265-362 | replacing the bytes at the recorded offsets of the rewritten text is replacing the placeholders of the original |
| Tokens.InterleaveSpellings | mariadb/mariadb_parser.c:283-362 | putting every spelling back in place of its placeholder gives the original text |
| Parser.StatementParser.constructor | mariadb/mariadb_parser.c:89-113 | a NUL-terminated copy of the statement, all flags clear and nothing recorded |
| Parser.StatementParser.CheckKeyword | mariadb/mariadb_parser.c:45-68 | true exactly for the keyword in any case, then a blank, then at least one more byte |
| Parser.StatementParser.DetectCommand | mariadb/mariadb_parser.c:386-403 | the first command of the table that the rest of the text starts with, unless one was found before |
| Parser.StatementParser.ReadVersion | mariadb/mariadb_parser.c:193-214 | the longest digit run and its value, saturating at the largest long |
| Parser.StatementParser.OpenBlock | mariadb/mariadb_parser.c:178-225 | how far an opening comment is read and whether a comment is entered, with the version test of conditional comments |
| Parser.StatementParser.FindKeyEnd | mariadb/mariadb_parser.c:309 | the first `)s` before the NUL, or none |
| Parser.StatementParser.Collapse | mariadb/mariadb_parser.c:357-359 | the spelling becomes one `?`, what was before stays, what was after moves up unchanged |
| Parser.StatementParser.TakeMark | mariadb/mariadb_parser.c:285-307 | refused exactly on a second style; otherwise recorded at the scan point and collapsed |
| Parser.StatementParser.TryPercent | mariadb/mariadb_parser.c:283-363 | takes `%s`, `%d` and `%(key)s` exactly where the tokenizer reads a placeholder |
| Parser.StatementParser.SkipLineIntro | mariadb/mariadb_parser.c:226-240 | how many bytes of `#` and `-- ` are read without a look at quotes |
| Parser.StatementParser.BlockByte | mariadb/mariadb_parser.c:241-252 | inside a block comment only star-slash ends it |
| Parser.StatementParser.LineByte | mariadb/mariadb_parser.c:253-262 | a line comment goes on until the end of the line |
| Parser.StatementParser.Iterate | mariadb/mariadb_parser.c:151-405 | one iteration keeps the invariant: what is behind renders the tokens consumed, what is ahead is a suffix of the input, the records describe the tokens; or it stops on a second style |
| Parser.StatementParser.Parse | mariadb/mariadb_parser.c:126-410 | succeeds exactly on non-empty statements of one style, and then holds the rewritten text, offsets, keys, style, count and command of the pure tokenizer |
| Regions.FlipParity | mariadb/mariadb_parser.c:158-167 | each literal flag is changed exactly when its quote occurs an odd number of times |
| Regions.QuotedLiteral | mariadb/mariadb_parser.c:158-173 | a quoted literal is plain text, and the scanner is outside again after it exactly when the other quotes in it are balanced |
| Regions.BlockComment | mariadb/mariadb_parser.c:175-252 | a block comment ends at its star-slash exactly when the quotes in it are balanced; otherwise the scanner is left inside a literal |
| Regions.LineComment | mariadb/mariadb_parser.c:226-262 | a line comment is text, its first byte unseen; it ends at its newline exactly when the quotes after that byte are balanced, and otherwise the scanner is left inside a literal |
| Regions.LineCommentAtEnd | mariadb/mariadb_parser.c:226-262 | a line comment at the end of the statement is text, whatever its quotes |
| Regions.EmptyLineComment | mariadb/mariadb_parser.c:226-262 | a newline right behind the introduction ends the comment |
| Regions.QuestionSeen | mariadb/mariadb_parser.c:265-281 | a `?` is a placeholder exactly outside literals and comments |
| Recognition.PercentSeen | mariadb/mariadb_parser.c:283-306 | a text that starts with `%s` or `%d` gives that placeholder exactly outside literals and comments and not behind a backslash |
| Recognition.NamedSeen | mariadb/mariadb_parser.c:307-362 | a text that starts with `%(` gives a named placeholder, its key the bytes up to the first `)s` without a NUL before it, exactly then too |
| Recognition.MarkSeen | mariadb/mariadb_parser.c:265-363 | in every state the next token is a placeholder if and only if the scanner is outside and the text starts with `?`, `%s`, `%d` or `%(` and such a key |
| Recognition.PlainSeen | mariadb/mariadb_parser.c:386-405 | outside, where no literal, comment or placeholder starts, the byte is text, it is remembered, and the first one decides the command |
| Recognition.MarkForgotten | mariadb/mariadb_parser.c:265-363 | a placeholder leaves the state as it was: the byte before it still counts as the last one |
| Recognition.EscapedPercent | mariadb/mariadb_parser.c:283 | a percent sign behind a backslash is text, whatever follows |
| Recognition.AlwaysApplies | mariadb/mariadb_parser.c:184-188 | a comment with a blank behind its exclamation mark is scanned as part of the statement |
| Recognition.AlwaysAppliesToMariaDB | mariadb/mariadb_parser.c:204-209 | and so is one with `M!` and a blank |
| Recognition.VersionApplies | mariadb/mariadb_parser.c:190-202 | a version number with room is part of the statement exactly when the server is as new and the number is not one of 50700 to 99999 |
| Recognition.VersionAppliesToMariaDB | mariadb/mariadb_parser.c:211-222 | behind `M!` exactly when the server is as new |
| Recognition.VersionWithoutRoom | mariadb/mariadb_parser.c:190-202 | a version number with fewer bytes behind it makes a comment that is skipped |
| Recognition.MariaDBSkipped | mariadb/mariadb_parser.c:204-225 | `M!` with neither a blank nor a version number with room makes a comment that is skipped |
| Recognition.CommandOfStatement | mariadb/mariadb_parser.c:386-403 | a statement that starts with plain text has command INSERT, UPDATE, REPLACE, DELETE, CALL or DO if and only if it starts with that word in any case, a blank and one more byte |
| Recognition.QuoteAtEnd | mariadb/mariadb_parser.c:158-167 | when a closing quote is the last byte, the NUL behind it counts as the first plain byte, if there was none |
| Reparse.PrefixKept | mariadb/mariadb_parser.c:283-362 | a prefix without `%` survives the rewrite, and is followed by something after it exactly when it was before |
| Reparse.NoCloseKept | mariadb/mariadb_parser.c:309 | the rewrite creates no `)s` |
| Conditional.OpenStable | mariadb/mariadb_parser.c:178-225 | an opening comment is read alike in the rewritten text exactly when a version number keeps the bytes that must follow it |
| SecondScan.StepStable | mariadb/mariadb_parser.c:151-405 | unless a version number loses its room, one step over the rewritten text reads the settled form of the same token and goes to the same state |
| SecondScan.FixedPoint | mariadb/mariadb_parser.c:151-408 | the rewritten text parses to the same tokens, placeholders now question marks, if and only if every version number keeps its room |
| SecondScan.SameEnd | mariadb/mariadb_parser.c:386-403 | under that condition the second scan ends in the same state, with the same command |
| SecondScan.UnconditionalFits | mariadb/mariadb_parser.c:178-225 | a statement without conditional comments meets the condition |
| Records.TightAlike | mariadb/mariadb_parser.c:190-202 | where a version number loses its room, the second scan reads alike exactly when the rest does from inside a comment |
| Records.LittleLeft | mariadb/mariadb_parser.c:190-202 | behind a version number without room at most six bytes are left, and a placeholder among them |
| Records.EndDecides | mariadb/mariadb_parser.c:241-252 | these read alike inside and outside a comment exactly when a star-slash comes before the placeholders, and from there on placeholders and command are the same |
| Records.RecordKept | mariadb/mariadb_parser.c:151-408 | the rewritten text leads to the same offsets and command if and only if no comment that applies is swallowed, or the first one ends like that |
| Utf8.EncodedLength | mariadb/cursors.py:137-138 | the encoding is at least as long as the text, and as long exactly for ASCII |
| Utf8.EncodeReads | mariadb/cursors.py:137-138 | the lead byte tells the length, the others are continuation bytes, and their payload bits in order are the scalar value |
| Utf8.EncodeAllReads | mariadb/cursors.py:137-138 | different texts have different encodings |
| Utf8.RewriteKeepsUtf8 | mariadb/mariadb_parser.c:283-362 | replacing placeholders by `?` keeps valid UTF-8 valid |
| Substitution.SpliceRight | mariadb/cursors.py:139-143 | splicing one after the other with a running difference is replacing all at once, if all widths but the last are byte lengths |
| Substitution.SpliceKeepsTail | mariadb/cursors.py:139-143 | with widths that are too small the text after the last offset stays in place and the length is still right |
| Substitution.SpliceWrong | mariadb/cursors.py:139-143 | one width that is too small before the last value makes the result differ |
| Substitution.Render | mariadb/cursors.py:115-138 | the text of a value and the width the loop accounts for |
| Substitution.SubstituteParameters | mariadb/cursors.py:100-144 | the loop computes the successive splices, and fails exactly when the first value is an unknown indicator |
| Rendering.ReadsBack | mariadb/cursors.py:115-138 | a reader of literals, which knows NULL, DEFAULT, numbers and quoted text, gets every value that has a text back from it, whatever escaping can be undone and closes no literal |
| Rendering.EscapingExists | mariadb/cursors.py:115-138 | backslash escaping is one that can be undone and closes no literal |
| Execute.ParseStatement | mariadb/mariadb_cursor.c:1000-1065 | hands over what a fresh parse yields, or nothing when it is refused |
| Execute.ParseUndone | mariadb/mariadb_cursor.c:1000-1065 | for every accepted statement the record restores it byte for byte and accounts for its length |
| Execute.SpellingsFromRecord | mariadb/mariadb_cursor.c:1039-1061 | the spellings are determined by style and keys, up to `%s` or `%d`; keys, offsets and placeholders agree in number |
| Execute.ParseKeepsUtf8 | mariadb/cursors.py:111 | the statement that is encoded again for the substitution is valid UTF-8 |
| Execute.CStringWhole | mariadb/cursors.py:111 | the statement read back as a C string is whole exactly when it has no NUL |
| Execute.CStringStops | mariadb/cursors.py:111 | otherwise it is what comes before the first NUL |
| Execute.ValueOfPlaceholder | mariadb/cursors.py:116-119 | placeholder i gets the i-th value of a sequence, or the value a dictionary has for the i-th key |
| Execute.CheckExecuteParams | mariadb/cursors.py:146-169 | accepts exactly data that gives every placeholder a value |
| Execute.CheckTextTypes | mariadb/mariadb_cursor.c:1309-1336 | true exactly when one of the inspected values is bytes or a date |
| Execute.OrdinaryValuesSent | mariadb/cursors.py:100-144 | for None, NULL, DEFAULT, ASCII numbers, dates and strings the substitution gives the original statement with the i-th placeholder replaced by the encoded i-th value |
| Execute.SentRepeats | mariadb/cursors.py:115-144 | for all values, the i-th placeholder gets the text of the nearest value up to the i-th that has one, if and only if every value but the last is accounted for in bytes |
| Execute.SentIsIntended | mariadb/cursors.py:111-144 | the bytes sent are the original with the i-th placeholder replaced by the i-th value if and only if every value has a text and every one but the last is accounted for in bytes |
| Execute.CacheIsFresh | mariadb/cursors.py:206-212 | for every accepted statement, parsing the rewritten text again gives the same text, offsets and command, as question marks, if and only if RecordFits holds; it does when all version numbers keep their room |
| Execute.SameFilling | mariadb/cursors.py:206-212 | then filling the placeholders of the rewritten text is filling those of the original |
| Cursors.Cursor.constructor | mariadb/mariadb_cursor.c:322 | a new cursor has no record and a cleared flag |
| Cursors.Cursor.ParseExecute | mariadb/cursors.py:196-221 | the record is kept on a cache hit and is a fresh parse otherwise; the flag; succeeds exactly when the data fits |
| Cursors.Cursor.ChooseProtocol | mariadb/cursors.py:282-300 | which protocol is used, from the data, the command, the flag and the configuration |
| Cursors.Cursor.Send | mariadb/cursors.py:302-313 | the values in the binary protocol, the splices in text, or the unassigned-variable error |
| Cursors.Cursor.Execute | mariadb/cursors.py:232-316 | what is kept and what is sent are, for every call, those of the specification, in which the record is that of the statement parsed last |
| Cursors.ExecuteSendsIntended | mariadb/cursors.py:232-316 | whatever was executed before, cache hit or not, for ordinary values the bytes sent as text are the statement given with the i-th placeholder replaced by the i-th value |
| Cursors.ExecuteReadsBack | mariadb/cursors.py:232-316 | and these bytes are the statement with one literal for each placeholder, the i-th of which is read back as the i-th value |
| Cursors.ProtocolOfNewCursor | mariadb/cursors.py:282-300 | a new cursor goes binary if and only if it is told to, reads from the server, has a CALL without data, or has data and one of the six commands or bytes or a date among the values looked at |
| Cursors.SixGoOutInBinary | mariadb/cursors.py:282-300 | INSERT, UPDATE, REPLACE, DELETE, CALL and DO, in any case and with data, are never sent as text by a new cursor |
| Cursors.BinarySends | mariadb/cursors.py:302-313 | in the binary protocol the statement sent is the rewritten one, from which the spellings restore the statement parsed, and the values are those of the sequence, or of the dictionary for the keys, in order |
| Cursors.ExecuteExactly | mariadb/cursors.py:232-316 | and for all values they are the intended ones if and only if every value has a text and every one but the last is accounted for in bytes; values without a text repeat the one before |
| Cursors.BytesInText | mariadb/cursors.py:297-300 | a text call has bytes at a placeholder if and only if placeholders are named, the flag and the configuration choose text, none of the first entries, one per placeholder, is bytes or a date, and a named entry is bytes |
| Cursors.NoBytesInText | mariadb/mariadb_cursor.c:1320-1334 | bytes never reach the text of a qmark or format statement, nor of a pyformat statement with a dictionary of at most as many entries as placeholders |
| Cursors.CacheAgreesOn | mariadb/cursors.py:206-217 | for each data, a cursor with the record and one without send the same if and only if, for pyformat, both refuse the data, and otherwise the flag left behind is the one the parse would set, if it is consulted |
| Cursors.CacheAgrees | mariadb/cursors.py:206-217 | they send the same for all data if and only if the style is not pyformat and the flag agrees or cannot count |
| Cursors.StaleFlag | mariadb/cursors.py:299-300 | every statement that reads in text, executed with bytes or a date, leaves the binary protocol behind for its rewritten text, which a new cursor sends as text, unless its first value has none |
| Cursors.StaleNames | mariadb/cursors.py:206-212 | for the rewritten text of every pyformat statement a list of as many values is refused by the cursor that has the record and accepted by a new one |
| Limits.ConditionalNotFixed | mariadb/mariadb_parser.c:181-222 | a version comment with a placeholder right after the number, whose rewritten form has no placeholder |
| Limits.BytesReachText | mariadb/mariadb_cursor.c:1320-1334 | a dictionary whose bytes are not inspected, and for which the statement sent is not the intended one |
| Limits.NamesStay | mariadb/cursors.py:206-212 | the rewritten text of a statement with two names and a list of two values: refused with the record, accepted without |
| Limits.IndicatorRepeats | mariadb/cursors.py:123-129 | a string and an unknown indicator for two placeholders: both get the string |
| Limits.StaleProtocol | mariadb/cursors.py:299-300 | after a format statement with bytes its rewritten text with None is sent in binary, by a new cursor as text |
| Limits.RoomLostRecordKept | mariadb/mariadb_parser.c:190-202 | a version number that loses its room, and a record that is the same nevertheless |
| Decimal.StrToULL | mariadb/mariadb_codecs.c:150-175 | the value of the digit prefix, an error exactly when it is empty or above 2^64-1, in 64-bit arithmetic that never overflows |
| Decimal.StrToUI | mariadb/mariadb_codecs.c:180-186 | the same at 2^32-1 |
| Decimal.ReadPadded | mariadb/mariadb_codecs.c:150-186 | a zero-padded number reads back as itself, up to the first non-digit |
| TimeText.ParseTime | mariadb/mariadb_codecs.c:200-255 | fails exactly on malformed or out-of-range fields, and gives the fields otherwise |
| TimeText.ParseFraction | mariadb/mariadb_codecs.c:228-240 | at most six characters count, scaled by how many there are |
| TimeText.ParseDate | mariadb/mariadb_codecs.c:308-337 | fails exactly on malformed or out-of-range fields; two-digit years are expanded |
| TimeText.StrToTime | mariadb/mariadb_codecs.c:339-417 | blanks are trimmed, the first separator decides, every failure gives a zeroed value |
| TimeDelta.FromDelta | mariadb/mariadb_codecs.c:126-148 | the fields of a timedelta, with the borrow for negative fractions, computed in wrapping 32-bit arithmetic |
| TimeDelta.ClockFields | mariadb/mariadb_codecs.c:126-148 | for every timedelta that survives, each field is in its range, the sign is that of the timedelta, and the fields add up to it |
| TimeDelta.ClockTotal | mariadb/mariadb_codecs.c:419-433 | on fields in range the timedelta is the signed microsecond total |
| TimeDelta.NormalUnique | mariadb/mariadb_codecs.c:432 | a timedelta in normal form is determined by its total |
| TimeDelta.DeltaRoundTrip | mariadb/mariadb_codecs.c:126-148 | reading back a bound timedelta is the identity if and only if its seconds fit an int, but for the most negative one without a fraction |
| TimeValues.CanonicalTimeRead | mariadb/mariadb_codecs.c:339-389 | the canonical text of a time, with any number of fraction digits, parses to its fields; digits beyond six are cut off |
| TimeValues.TextAndBinaryAgree | mariadb/mariadb_codecs.c:749-773 | text and binary form of a TIME give the same timedelta, the signed microsecond total, for 0, 8 and 12 byte rows |
| TimeValues.DateRoundTrip | mariadb/mariadb_codecs.c:308-337 | every Gregorian date of the years 1 to 9999 parses back to itself and passes the check |
| TimeValues.CheckedDates | mariadb/mariadb_codecs.c:257-277 | a parsed date with day at least 1 passes if and only if it is Gregorian; one with day 0 passes if and only if the month exists |
| TimeValues.DayZeroPasses | mariadb/mariadb_codecs.c:257-277 | the text of a day 0 parses and passes in every month |
| TimeGrammar.TimesAccepted | mariadb/mariadb_codecs.c:339-389 | three numbers with colons, with or without a sign, are a time of these numbers exactly up to 838, 59 and 59, and an error otherwise |
| TimeGrammar.TimesAreThese | mariadb/mariadb_codecs.c:339-389 | whatever is read as a time is such a text, with blanks around it |
| TimeGrammar.DatesAccepted | mariadb/mariadb_codecs.c:308-337 | three numbers with dashes are a date exactly up to 9999, 12 and 31, a year of two digits expanded, and an error otherwise |
| TimeGrammar.DateTimesAccepted | mariadb/mariadb_codecs.c:391-417 | a date, a blank and a time are a datetime exactly if the time is one and below 24 hours, and an error otherwise |
| TimeGrammar.DatesAreThese | mariadb/mariadb_codecs.c:391-417 | whatever is read as a date or datetime is such a text, a datetime exactly when a blank follows the date |
| TimeGrammar.DateTimeRoundTrip | mariadb/mariadb_codecs.c:339-417 | the canonical text of a datetime parses to its fields; 24 hours or more are an error |
| TimeGrammar.TwoDigitYear | mariadb/mariadb_codecs.c:308-337 | a two-digit year means 1970 to 2069 |
| TimeGrammar.BlanksIgnored | mariadb/mariadb_codecs.c:339-417 | blanks around a text change nothing |
| TimeGrammar.ParsedTimesPass | mariadb/mariadb_codecs.c:279-290 | the range check never refuses a time that was parsed |
| TimeGrammar.FractionScaled | mariadb/mariadb_codecs.c:228-240 | a fraction is scaled by the number of characters after the point, six at most, whether they are digits or not |
| Korr.StoredUnsigned | mariadb/mariadb_codecs.c:1353-1394 | the bytes stored denote the number modulo the width, also for negative numbers |
| Korr.ReadersAgree | include/mariadb_python.h:635-663 | the 2-, 4- and 8-byte readers give the little-endian value |
| Integers.BitLengthFits | mariadb/mariadb_codecs.c:1150-1162 | a magnitude is below 2^k if and only if its bit length is at most k |
| Integers.WidthIsSmallest | mariadb/mariadb_codecs.c:1085-1162 | an integer is bound in the smallest of 1, 2, 4 and 8 bytes that leaves room for a sign |
| Integers.BindBuffer.StoreInteger | mariadb/mariadb_codecs.c:1323-1394 | the low bytes of the converted value are stored, the other bytes of the buffer stay, and the unsigned flag is set for a top bit |
| Integers.ExecuteRoundTrip | mariadb/mariadb_codecs.c:1062-1087 | width, bytes and flag determine a bound integer if and only if it lies in [-2^63, 2^64) |
| Integers.ReaderRoundTrip | mariadb/mariadb_codecs.c:653-684 | the matching reader of the binary fetch returns the bound integer, for 2, 4 and 8 bytes |
| Integers.InferColumn | mariadb/mariadb_codecs.c:1088-1145 | type, flag and bits of a column, or a refusal, as the fold over its rows |
| Integers.NullsDoNotMatter | mariadb/mariadb_codecs.c:1117-1127 | rows without a value can be left out without changing what is inferred |
| Integers.InferInts | mariadb/mariadb_codecs.c:1101-1121 | a column of integers is accepted; it is unsigned exactly when a row is -1 or outside the signed range; its bits suffice for every row |
| Integers.ColumnWidthIsNeeded | mariadb/mariadb_codecs.c:1150-1162 | a column is wider than 1, 2 or 4 bytes only for a row that needs it |
| Integers.OneType | mariadb/mariadb_codecs.c:1088-1145 | a column with values of one type only has that type |
| Integers.FirstOtherType | mariadb/mariadb_codecs.c:1088-1145 | the first row of another type makes the column NewDecimal if the two are Double and NewDecimal, and refuses it otherwise |
| Integers.UnsupportedRow | mariadb/mariadb_codecs.c:1088-1145 | a value of no supported type refuses the column, unless Double and NewDecimal were mixed before |
| Integers.FlagStays | mariadb/mariadb_codecs.c:1353-1394 | storing the rows of an integer column never changes the flag inferred for it |
| Integers.BulkRoundTrip | mariadb/mariadb_codecs.c:1101-1163 | the flag stays, and one width and flag decode every row if and only if all rows are signed and none is -1, or all are unsigned |
| PoolSpec.AddKeepsValid | mariadb/connectionpool.py:162-197 | adding a connection that is not pooled keeps the pool valid and adds one unless it is full |
| PoolSpec.AddTwiceBreaks | mariadb/connectionpool.py:183-197 | with room left, adding keeps the pool valid if and only if the connection is not pooled yet |
| PoolSpec.ReplaceKeepsValid | mariadb/connectionpool.py:137-152 | a replacement keeps the pool valid and loses a connection exactly when connecting fails |
| PoolSpec.GetKeepsValid | mariadb/connectionpool.py:199-225 | what is handed out is used and not free; nothing is handed out exactly when nothing is free or a replacement fails |
| PoolSpec.CloseKeepsValid | mariadb/connectionpool.py:227-247 | after a close the connection is free without an open transaction, or out of the pool, and exactly when |
| PoolRuns.OthersUntouched | mariadb/connectionpool.py:137-247 | a step leaves every connection it is not about where it was, with its uses and its transaction |
| PoolRuns.AddOutcome | mariadb/connectionpool.py:162-197 | a connection that is added is the last of the free list; refused exactly when the pool is full |
| PoolRuns.GetOutcome | mariadb/connectionpool.py:199-225 | the first free connection is handed out and its uses counted, or a new one, used once, in its place |
| PoolRuns.CloseOutcome | mariadb/connectionpool.py:227-247 | a connection that comes back clean is free with its uses kept; one that fails is given up and a new one, not used so far, is free |
| PoolRuns.RunIsSafe | mariadb/connectionpool.py:137-247 | in every run free and used are distinct and disjoint, within the size, members and only members point back, and the total changes only as each step says |
| PoolRuns.StepKeepsClean | mariadb/connectionpool.py:227-247 | free connections stay without open transactions in every step except, exactly, a caller adding a dirty one or opening a transaction on one already returned |
| PoolRuns.RunIsClean | mariadb/connectionpool.py:227-247 | in a run no connection with an open transaction ever waits to be handed out if and only if no step is one of these |
| PoolRuns.RunKeepsOrder | mariadb/connectionpool.py:207-223 | two connections that stay free keep their order |
| PoolRuns.EveryOtherLeavesFirst | mariadb/connectionpool.py:207-247 | between the step that returns or adds a connection and the get that hands it out, every connection that was free before has left the free list |
| PoolRuns.PairRotates | mariadb/connectionpool.py:207-247 | taking a connection and returning it moves the head of the free list to its end and counts one use |
| PoolRuns.LoadIsEven | mariadb/connectionpool.py:207-247 | the state after any number of such pairs, in full rounds and a remainder |
| PoolRuns.CountsWithinOne | mariadb/connectionpool.py:219-223 | after any number of pairs the use counts differ by at most one |
| Pool.Connection.Rollback | mariadb/connections.py:176-192 | refused while a two-phase transaction is active; otherwise clears the transaction when it succeeds |
| Pool.ConnectionPool.AddConnection | mariadb/connectionpool.py:162-197 | the new pool is the one of the specification; refused exactly when full or when connecting fails |
| Pool.ConnectionPool.ReplaceConnection | mariadb/connectionpool.py:137-152 | the connection leaves the pool and a new one takes its place, or the pool shrinks |
| Pool.ConnectionPool.GetConnection | mariadb/connectionpool.py:199-225 | hands out the oldest free connection, or its replacement, as specified |
| Pool.ConnectionPool.CleanUp | mariadb/connectionpool.py:234-240 | reset, or rollback of an open transaction, and when it fails |
| Pool.ConnectionPool.CloseConnection | mariadb/connectionpool.py:227-247 | the connection returns to the end of the free list, or is replaced, as specified |
| TwoPhase.MakeXid | mariadb/connections.py:272-295 | refused exactly when an id is longer than 64 characters; both ids are kept, format id 0 becomes 1 and any other is kept |
| TwoPhase.Connection.DoCommit | mariadb/connections.py:164-174 | sends a plain COMMIT exactly when no two-phase transaction is active |
| TwoPhase.Connection.DoRollback | mariadb/connections.py:176-192 | sends a plain ROLLBACK exactly when no two-phase transaction is active |
| TwoPhase.Connection.DoTpcBegin | mariadb/connections.py:297-324 | success, new state and statement sent, for every reply |
| TwoPhase.Connection.DoTpcPrepare | mariadb/connections.py:381-417 | success exactly when both statements succeed in a started transaction; any failure forgets it |
| TwoPhase.Connection.EndIfOwed | mariadb/connections.py:356-364 | XA END is sent exactly when the transaction is not prepared; an error reply forgets it, a failure to send does not |
| TwoPhase.Connection.DoTpcCommit | mariadb/connections.py:326-379 | success, new state and statements sent, one phase exactly when not prepared |
| TwoPhase.Connection.DoTpcRollback | mariadb/connections.py:419-462 | success, new state and statements sent; success leaves the state at prepared |
| TwoPhaseSpec.StepAppends | mariadb/connections.py:297-462 | the log grows by exactly the statements of the call that reach the server |
| TwoPhaseSpec.PlainCalls | mariadb/connections.py:164-192 | plain commit and rollback send their statement on an open idle connection and change nothing else |
| TwoPhaseSpec.BeginOutcome | mariadb/connections.py:297-324 | a begin that succeeds makes the xid given the connection's own; one that fails leaves state and xid |
| TwoPhaseSpec.PrepareOutcome | mariadb/connections.py:381-417 | what a prepare says about the connection's own xid and leaves behind, for all replies |
| TwoPhaseSpec.CommitOutcome | mariadb/connections.py:326-379 | what a commit says about the xid given, or else the connection's own, and leaves behind, for all replies |
| TwoPhaseSpec.RollbackOutcome | mariadb/connections.py:419-462 | the same for a rollback |
| TwoPhaseSpec.RefusedCalls | mariadb/connections.py:297-462 | every other call changes nothing, and closing the connection keeps state, xid and log |
| TwoPhaseSpec.CallsNameTheirXid | mariadb/connections.py:326-462 | in every run each statement a commit or rollback adds to the log names the xid given, or without one the connection's own, and if all goes well the last one is the commit or rollback |
| TwoPhaseSpec.RunIsConsistent | mariadb/connections.py:297-462 | in every run the state is NONE exactly when there is no xid |
| TwoPhaseSpec.PlainOnlyWhenIdle | mariadb/connections.py:164-192 | in every run plain COMMIT and ROLLBACK are sent only by those calls, on an open connection in state NONE |
| TwoPhaseSpec.RunFollowsProtocol | mariadb/connections.py:297-462 | from a begin on, the XA statements are a prefix of a complete conversation about one xid if and only if no call reuses a transaction that was rolled back |
| TwoPhaseSpec.BeginStarts | mariadb/connections.py:315-324 | a successful begin starts such a conversation |
| TwoPhaseSpec.RollbackThenCommit | mariadb/connections.py:462 | after a successful rollback a commit of the same xid is sent |
| ResultSet.RunStaysInSync | mariadb/mariadb_cursor.c:815-901 | in every run of fetches and scrolls row_number is the position in the result |
| ResultSet.NoRowLost | mariadb/mariadb_cursor.c:1257-1307 | without scrolls the fetched rows are the result from the first position to the last, however they are chunked |
| ResultSet.AllMeansAll | mariadb/cursors.py:434-444 | a run that ends in fetchall has fetched every remaining row |
| ResultSet.ScrollBackUndoes | mariadb/cursors.py:449-487 | scrolling back by the number of rows fetched, or to the old row number, restores the cursor |
| ResultSet.ResultCursor.constructor | mariadb/mariadb_cursor.c:537-539 | a new result starts at row 0 |
| ResultSet.ResultCursor.DoFetchOne | mariadb/mariadb_cursor.c:844-880 | the next row and no more, or none at the end; refused exactly without a result |
| ResultSet.ResultCursor.FetchRows | mariadb/mariadb_cursor.c:1257-1307 | the next rows up to the limit converted to an unsigned number |
| ResultSet.ResultCursor.DoFetchMany | mariadb/cursors.py:410-432 | exactly as many rows as asked for, or arraysize for 0, but no more than are left; a negative size counts from 2^64 |
| ResultSet.ResultCursor.DoFetchAll | mariadb/cursors.py:434-444 | all remaining rows |
| ResultSet.ResultCursor.DoScroll | mariadb/cursors.py:449-487 | accepted exactly for a position in range of a buffered result, with relative 0 refused; a refusal changes nothing |

## Left out

- The batch branch of the parser (`mariadb/mariadb_parser.c:365-385`): its only caller passes 0.
- The growth of `keys`, allocation failures, reference counts and the global interpreter lock.
- `executemany()` statement rewriting, stored procedures, `nextset`, prepared cursors that reuse a statement, and the buffers of prepared parameters.
- The column type of a prepared statement that is executed again (`mariadb/mariadb_codecs.c:1128-1132`): columns start without a type.
- Floats, decimals, blobs, strings, DATE and DATETIME in the binary protocol, converters, metadata and named tuples: thin wrappers over library conversions.
- The signed one-byte reader (`mariadb/mariadb_codecs.c:646-652`) and the stripping of leading zeros in text integers (`mariadb/mariadb_codecs.c:484-493`).
- The end pointer that `parse_time` returns after a fraction: no caller uses it.
- The clean-up loop of the pool constructor (`mariadb/connectionpool.py:119-131`), pools without connection arguments, and threads inside pool methods: the capacity test at lines 183-188 is outside the lock.
- The client's two-phase state after a pool reset, and `close()` of a pooled connection as seen by the two-phase commit methods.
- Lone surrogates in Python strings, which have no UTF-8 encoding.
- Row limits that do not fit a `long long`.
- Server errors after `execute()` has sent a statement, some of which clear the record of the last parse.
- CheckTextTypes: a dictionary with fewer entries than placeholders ends the inspection, because the C loop goes on with a pointer that `PyDict_Next` no longer sets.
- CacheAgreesOn: for statements without a NUL byte only; with one, the text that the cursor compares a new statement with is cut off.
- ExecuteSendsIntended: on a cache hit it assumes the same record, for which CacheIsFresh gives the exact condition.
- OrdinaryValuesSent: for statements without a NUL byte only, because the statement is read back as a C string and a NUL cuts it off (CStringWhole).
- ReadsBack: assumes that the escaping of `escape_string` can be undone and leaves no quote that closes the literal, and that a number does not print as a quote, NULL or DEFAULT.
- SentIsIntended: assumes that a number prints as something that does not end in a question mark, because otherwise a misplaced value may by chance leave the right bytes.
- BytesReachText: one input rather than a family, because the family is given by BytesInText and SentIsIntended.
- RunFollowsProtocol: for runs without a second begin and without xid arguments, which start or name another transaction.
- EveryOtherLeavesFirst: assumes that the connection stays free in between; one that is replaced meanwhile is no longer in the pool.
- LineComment: for text on the line that opens nothing further, because another introduction skips another byte.
