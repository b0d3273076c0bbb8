# Activity argument parser

A Dafny model of `ActivityParser`, the part of the AthletiCLI command-line tracker that turns
the free-text arguments of the activity commands into values. An argument text is a sequence
of tagged fields, such as `caption/Morning run duration/01:00:00 distance/10000 datetime/2023-10-10 07:00`.
Each field's text runs from just after its tag to the next tag, or to the end of the text.

The model covers:

- the builders of whole records: `parseActivity`, `parseRunCycle`, `parseSwim` and
  `parseActivityGoal`. Each first checks that every tag is present, then slices and trims
  the field texts, then rejects empty ones, then reads each field;
- the change builders of the edit commands: `parseActivityChanges`, `parseRunCycleChanges`
  and `parseSwimChanges`. Here every field is optional, and each present field's text ends
  at the nearest present tag that follows it in declared order;
- the scalar readers: duration, distance, elevation, target, swimming style, sport, goal type
  and period;
- the index and edit-command splitting: `parseActivityIndex`, `parseActivityEditIndex` and the
  three `parse*Edit` wrappers;
- the detail flag of the activity list.

Java's behaviour is written out explicitly:

- `indexOf` is the first occurrence or -1.
- `trim` drops the characters up to `' '`.
- `Integer.parseInt` accepts an optional sign and decimal digits within the 32-bit range.
- Case mapping is ASCII.
- A `substring` whose bounds are out of range is the error `SliceOutOfBounds`, standing for
  the unchecked `StringIndexOutOfBoundsException`.
- Every `AthletiException` is a `Failure` carrying an `Error` that names the field and the
  kind of problem.

Modules:

| module | file | contents |
|---|---|---|
| `Wrappers` | `wrappers.dfy` | `Option`, `Result`, `Outcome` |
| `Text` | `text.dfy` | `indexOf`, `substring`, `trim`, case mapping |
| `Numbers` | `numbers.dfy` | `Integer.parseInt` and its inverse |
| `Clock` | `clock.dfy` | time and date-time formats |
| `Fields` | `fields.dfy` | fields, tags, errors, enumerations, the revision switch |
| `Scalars` | `scalars.dfy` | one reader per field |
| `Checks` | `checks.dfy` | presence and emptiness checks |
| `Records` | `records.dfy` | whole-record builders and the goal builder |
| `Changes` | `changes.dfy` | change builders |
| `EditArgs` | `edit_args.dfy` | index, split, edit wrappers, detail flag |
| `RoundTrips` | `round_trips.dfy` | written commands read back by the whole-record builders |

Three places in the code do something other than what the surrounding code evidently
intends (see "## Findings"). Each is modelled twice, selected by `Revision`:

- `AsWritten` follows the code line by line.
- `Intended` is the corrected rule.

The public builders (`ParseActivityChanges`, `ParseActivityGoal`, ...) use `Intended`. The
lemmas named `...AsWritten` exhibit what the code does instead.

A whole-record builder slices each field up to the next tag in declared order, so when the
tags stand in another order, that `substring` throws and the build aborts with
`SliceOutOfBounds`. `Records.SliceAndTrim` and `Records.ReadFields` state this: the texts are
read exactly when the tags occur in declared order.

The round trips of `RoundTrips` go the other way. A command written as a caption followed by
each required tag and its value, in declared order, builds exactly the record it was written
from. This rests on the tag spellings: each tag ends with its only `/`, holds no space, and
no tag of a command ends with another tag of that command. `RoundTrips.ActivityTagsApart` and
its siblings check the last condition on the literals.

## Model

| member | source | states |
|---|---|---|
| EditArgs.ParseActivityIndex | src/main/java/athleticli/parser/ActivityParser.java:23-32 | the index is the trimmed text read as a 32-bit integer; the result fails exactly when the trimmed text is not such a numeral, and then with the invalid-index error |
| EditArgs.IndexRoundTrip | src/main/java/athleticli/parser/ActivityParser.java:23-32 | every 32-bit integer, rendered and surrounded by any blanks, is read back as that index |
| EditArgs.NoDigitNoIndex | src/main/java/athleticli/parser/ActivityParser.java:23-32 | a text without any digit is always refused as an invalid index |
| EditArgs.SplitOnFirstSpace | src/main/java/athleticli/parser/ActivityParser.java:41-48 | `split(" ", 2)` gives two parts exactly when the text holds a space; the first part holds no space; the parts joined by a space are the text again |
| EditArgs.SplitJoin | src/main/java/athleticli/parser/ActivityParser.java:308 | splitting a head without spaces, a space and any tail gives back exactly the head and the tail |
| EditArgs.ParseActivityEditIndex | src/main/java/athleticli/parser/ActivityParser.java:306-312 | only the invalid-index error can come out, since the split always has a first part; on a text without a space the edit index is the plain index |
| EditArgs.ParseActivityEdit | src/main/java/athleticli/parser/ActivityParser.java:41-48 | the edit is refused as invalid exactly when the arguments hold no space |
| EditArgs.ParseRunCycleEdit | src/main/java/athleticli/parser/ActivityParser.java:274-281 | the run/cycle edit is refused as invalid exactly when the arguments hold no space |
| EditArgs.ParseSwimEdit | src/main/java/athleticli/parser/ActivityParser.java:290-297 | the swim edit is refused as invalid exactly when the arguments hold no space |
| EditArgs.ChangesNeverEditInvalid | src/main/java/athleticli/parser/ActivityParser.java:56-112 | no change builder raises the edit-invalid error, so in the edit wrappers that error means the missing space and nothing else |
| EditArgs.EditSplitsAtFirstSpace | src/main/java/athleticli/parser/ActivityParser.java:41-48 | for an index without spaces, a space and any changes, the index reader sees exactly the index and each change builder sees exactly the changes |
| EditArgs.EditIndexRoundTrip | src/main/java/athleticli/parser/ActivityParser.java:306-312 | a rendered 32-bit index followed by a space is read back, whatever the changes after it say |
| EditArgs.ParseActivityListDetail | src/main/java/athleticli/parser/ActivityParser.java:321-323 | the detailed view is asked for exactly when the lower-cased arguments contain the detail flag |
| EditArgs.DetailFlagFound | src/main/java/athleticli/parser/ActivityParser.java:321-323 | the flag is recognised wherever it stands and however it is cased |
| EditArgs.DetailIgnoresCase | src/main/java/athleticli/parser/ActivityParser.java:321-323 | upper-casing the arguments does not change the answer |
| EditArgs.NoDashNoDetail | src/main/java/athleticli/parser/ActivityParser.java:321-323 | arguments without a dash never ask for the detailed view |
| Scalars.ParseDuration | src/main/java/athleticli/parser/ActivityParser.java:365-373 | a duration is a valid time of day in the accepted format; every other text is refused as an invalid duration |
| Scalars.ParseDateTime | src/main/java/athleticli/parser/ActivityParser.java:103-109 | a start is a date of the proleptic Gregorian calendar, its day within the length of its month (February 29 only in leap years), with a valid time, in the accepted format; every other text is refused as an invalid date-time |
| Scalars.ParseDistance | src/main/java/athleticli/parser/ActivityParser.java:382-393 | a distance is a non-negative 32-bit integer; a non-numeral is refused as invalid and a negative numeral as negative, each exactly in its own case |
| Scalars.DistanceOfNumeral | src/main/java/athleticli/parser/ActivityParser.java:382-393 | a rendered integer is read back as the distance when it is not negative and refused as negative otherwise |
| Scalars.ParseTarget | src/main/java/athleticli/parser/ActivityParser.java:780-791 | a target is a non-negative 32-bit integer; a non-numeral is refused as invalid and a negative numeral as negative, each exactly in its own case |
| Scalars.TargetOfNumeral | src/main/java/athleticli/parser/ActivityParser.java:780-791 | a rendered integer is read back as the target when it is not negative and refused as negative otherwise |
| Scalars.ParseElevation | src/main/java/athleticli/parser/ActivityParser.java:736-744 | an elevation is any 32-bit integer, negative included; a non-numeral is refused as invalid |
| Scalars.ElevationOfNumeral | src/main/java/athleticli/parser/ActivityParser.java:736-744 | every rendered 32-bit integer is read back as the elevation |
| Scalars.ParseSwimmingStyle | src/main/java/athleticli/parser/ActivityParser.java:654-660 | the style read is the one whose name is the upper-cased text; a refusal means no style has that name |
| Scalars.SwimmingStyleIgnoresCase | src/main/java/athleticli/parser/ActivityParser.java:654-660 | every style is read back from its name, in upper or lower case |
| Scalars.ParseSport | src/main/java/athleticli/parser/ActivityParser.java:697-703 | the sport read is the one whose name is the upper-cased text; a refusal means no sport has that name |
| Scalars.SportIgnoresCase | src/main/java/athleticli/parser/ActivityParser.java:697-703 | every sport is read back from its name, in upper or lower case |
| Scalars.ParseGoalType | src/main/java/athleticli/parser/ActivityParser.java:752-758 | the goal type read is the one whose name is the upper-cased text; a refusal means no type has that name |
| Scalars.GoalTypeIgnoresCase | src/main/java/athleticli/parser/ActivityParser.java:752-758 | every goal type is read back from its name, in upper or lower case |
| Scalars.ParsePeriod | src/main/java/athleticli/parser/ActivityParser.java:766-772 | the period read is the one whose name is the upper-cased text; a refusal means no period has that name |
| Scalars.PeriodIgnoresCase | src/main/java/athleticli/parser/ActivityParser.java:766-772 | every period is read back from its name, in upper or lower case |
| Clock.TimeRoundTrip | src/main/java/athleticli/parser/ActivityParser.java:365-373 | every valid duration, written as `HH:mm:ss`, is read back unchanged |
| Clock.DateTimeRoundTrip | src/main/java/athleticli/parser/ActivityParser.java:103-109 | a date-time written as `yyyy-MM-dd HH:mm` is read back unchanged exactly when it is a valid calendar date and time, and refused otherwise |
| Clock.CalendarDays | src/main/java/athleticli/parser/ActivityParser.java:103-109 | February 31, April 31 and February 29 of a common year (1900, 2023) are refused; February 29 of 2000 is read |
| Clock.ShortTimeRoundTrip | src/main/java/athleticli/parser/ActivityParser.java:365-373 | a duration written as `HH:mm`, without seconds, is read back with zero seconds |
| Checks.CheckMissingTags | src/main/java/athleticli/parser/ActivityParser.java:403-414 | the presence check passes exactly when every tag occurs; otherwise it names the first absent tag in declared order |
| Checks.CheckMissingActivityGoalArguments | src/main/java/athleticli/parser/ActivityParser.java:713-727 | the check passes exactly when all four goal tags occur; an absent sport, period or target is reported under its own name; an absent type is reported as a missing target as written and as a missing type in the intended revision |
| Checks.CheckEmpty | src/main/java/athleticli/parser/ActivityParser.java:515-573 | a present field passes exactly when its trimmed text is not empty, and fails with the empty error of that field |
| Checks.CheckEmptyTexts | src/main/java/athleticli/parser/ActivityParser.java:501-507 | the emptiness check passes exactly when no text is empty; otherwise it names the first empty field in declared order |
| Records.SliceAndTrim | src/main/java/athleticli/parser/ActivityParser.java:339-349 | with every tag present, slicing succeeds exactly when the tags occur in declared order; each field's text then runs from just after its tag to the next tag, or the end, trimmed |
| Records.ReadFields | src/main/java/athleticli/parser/ActivityParser.java:336-349 | reading the texts reports the first absent tag first, then tags out of order, then the first empty text; it succeeds exactly when all texts are present and not empty |
| Records.FirstEmptyReported | src/main/java/athleticli/parser/ActivityParser.java:501-507 | when the tags are in order, the error is the empty error of the first field whose text is empty, caption first |
| Records.ParseActivity | src/main/java/athleticli/parser/ActivityParser.java:332-356 | an activity is built exactly when every field's text is present, not empty and read by its reader; it carries the caption and the read duration, distance and start; an absent tag is reported first, and any other presence, order or emptiness failure is passed on unchanged; after that the readers run in declared order (duration, distance, start) and the first that fails decides the error |
| Records.ParseRunCycle | src/main/java/athleticli/parser/ActivityParser.java:423-456 | a run or cycle, as asked, is built exactly when all five fields are present, not empty and read; the elevation is the one read; an absent tag is reported first and any other presence, order or emptiness failure is passed on unchanged; the readers then run in declared order (duration, distance, start, elevation) and the first that fails decides the error |
| Records.ParseSwim | src/main/java/athleticli/parser/ActivityParser.java:616-645 | a swim is built exactly when all five fields are present, not empty and read; the style is the one read; an absent tag is reported first and any other presence, order or emptiness failure is passed on unchanged; the readers then run in declared order (duration, distance, start, style) and the first that fails decides the error |
| Records.ReadGoalFields | src/main/java/athleticli/parser/ActivityParser.java:668-681 | the goal's texts are read exactly when all four tags occur in order; an absent tag is a missing error; tags out of order abort the slice |
| Records.ParseActivityGoalAs | src/main/java/athleticli/parser/ActivityParser.java:668-689 | a goal is built exactly when the four tags occur in order and each text is read by its reader; the target is never negative; an absent tag is reported as the presence check of the chosen revision names it, misordered tags abort the slicing, and once the tags are in order the result is that of the four readers run on the trimmed texts |
| Records.ReadGoal | src/main/java/athleticli/parser/ActivityParser.java:683-689 | the sport, type, period and target readers run in that order and the first that fails decides the error, which is only ever an invalid value or a negative target; a goal results exactly when all four succeed, holding the values they read |
| Records.GoalReadersInOrder | src/main/java/athleticli/parser/ActivityParser.java:683-689 | with the goal's tags in order, a failing sport reader decides the error, then a failing type reader, then period, then target, each read from its own trimmed text |
| Records.ParseActivityGoal | src/main/java/athleticli/parser/ActivityParser.java:668-689 | the first absent goal tag is reported under its own name; a goal built has a non-negative target |
| Changes.Set | src/main/java/athleticli/parser/ActivityParser.java:75-109 | recording a value sets that field's slot to it and leaves every other slot unchanged |
| Changes.EndIndex | src/main/java/athleticli/parser/ActivityParser.java:76-77 | a field's text ends at the offset of the nearest present tag after it in declared order, or at the end of the text |
| Changes.FieldStep | src/main/java/athleticli/parser/ActivityParser.java:75-109 | a field block does nothing when its tag is absent; otherwise it reads that field's value, or fails with the slice, empty or reader error |
| Changes.EndIndexIsNearest | src/main/java/athleticli/parser/ActivityParser.java:85-86 | when the present tags stand in declared order, a field's end offset is at most the offset of every present tag after it, so no field's text runs over a later tag |
| Changes.FieldStepReadsSpan | src/main/java/athleticli/parser/ActivityParser.java:75-92 | for a present tag, the field block aborts at the slice exactly when its span does not fit the text; within the text, it fails with that field's empty error exactly when the trimmed span is empty, and succeeds exactly when the field's reader accepts the trimmed span |
| Changes.Build | src/main/java/athleticli/parser/ActivityParser.java:56-112 | an edit is refused as empty exactly when no tag occurs; it succeeds exactly when some tag occurs and every field block succeeds |
| Changes.BuildNeverEditInvalid | src/main/java/athleticli/parser/ActivityParser.java:56-112 | a change builder's errors are those of its field blocks, or the empty edit |
| Changes.BuildSetsOccurringSlots | src/main/java/athleticli/parser/ActivityParser.java:56-112 | a successful edit sets a slot exactly when that field's tag occurs; a caption it sets is not empty and a distance it sets is not negative |
| Changes.BuildFillsSlots | src/main/java/athleticli/parser/ActivityParser.java:56-112 | a successful edit puts into each occurring field's slot the value its own field block read, and sets no other slot |
| Changes.BuildStopsAtFirstFailure | src/main/java/athleticli/parser/ActivityParser.java:56-112 | the first failing field block in declared order decides the error of the whole edit |
| Changes.OccurringFields | src/main/java/athleticli/parser/ActivityParser.java:56-112 | the slots of a change set are set exactly for the fields of the layout whose tags occur, field by field |
| Changes.NoTagsOfLayout | src/main/java/athleticli/parser/ActivityParser.java:69-71 | "no tag of the layout occurs" means exactly that each of its tags is absent |
| Changes.ParseActivityChanges | src/main/java/athleticli/parser/ActivityParser.java:56-112 | the edit is empty exactly when none of the four tags occurs; a successful edit sets exactly the slots whose tags occur, never elevation or style, with a non-empty caption and a non-negative distance |
| Changes.ParseRunCycleChanges | src/main/java/athleticli/parser/ActivityParser.java:120-188 | the edit is empty exactly when none of the five tags occurs; a successful edit sets exactly the slots whose tags occur, never the style |
| Changes.ParseSwimChanges | src/main/java/athleticli/parser/ActivityParser.java:196-265 | the edit is empty exactly when none of the five tags occurs; a successful edit sets exactly the slots whose tags occur, never the elevation |
| Changes.RevisionsAgree | src/main/java/athleticli/parser/ActivityParser.java:84-101 | when a present duration tag is followed by a distance tag, a present distance tag by a datetime tag, and no style tag occurs, the code as written and the intended rule build the same edit |
| Changes.AsWrittenCutsAtAbsentTag | src/main/java/athleticli/parser/ActivityParser.java:87-88 | as written, when the duration (or distance) tag is the first present one and the next tag in declared order is absent, the edit aborts at the slice, whatever follows |
| Changes.IntendedReadsLoneField | src/main/java/athleticli/parser/ActivityParser.java:84-92 | with the intended span, an edit holding a single tag reads that field from just after its tag to the end, and sets that slot or reports that field's error |
| Changes.ReadsLoneStyle | src/main/java/athleticli/parser/ActivityParser.java:256-262 | in a swim edit whose only tag is the style's, the intended rule reads from just after the style tag, while the code as written starts as many characters past the tag as the elevation tag is long |
| Changes.SwimStyleAsWritten | src/main/java/athleticli/parser/ActivityParser.java:256-262 | as written, the swim edit `style/freestyle` is refused as an invalid swimming style |
| Changes.SwimStyleIntended | src/main/java/athleticli/parser/ActivityParser.java:256-262 | with the intended offset, the same edit sets the style to freestyle and nothing else |
| Records.MissingTypeAsWritten | src/main/java/athleticli/parser/ActivityParser.java:713-727 | as written, a goal with a sport tag and no type tag is refused as missing its target, whether or not a target tag occurs |
| Records.MissingTypeIntended | src/main/java/athleticli/parser/ActivityParser.java:713-727 | with the intended check, the same goal is refused as missing its type |
| RoundTrips.FirstFound | src/main/java/athleticli/parser/ActivityParser.java:333-335 | after a prefix that holds no tag and ends with a space, `indexOf` finds each tag of a command exactly where it was written, when no tag of the command ends with another and the values hold no slash |
| RoundTrips.ComposedTexts | src/main/java/athleticli/parser/ActivityParser.java:339-347 | in such a command the tags are in declared order, every field's sliced and trimmed text is the value written for it, and the caption is the trimmed prefix |
| RoundTrips.WrittenCommand | src/main/java/athleticli/parser/ActivityParser.java:332-349 | a command written as an unpadded caption holding no tag, a space, and each tag with a plain value passes the presence, order and emptiness checks, with the caption and every text as written |
| RoundTrips.WrittenFields | src/main/java/athleticli/parser/ActivityParser.java:668-681 | a goal command written as its tags with plain values, without a caption, has its tags in order and every text as written |
| RoundTrips.ActivityRoundTrip | src/main/java/athleticli/parser/ActivityParser.java:332-356 | an activity written as its caption, then `duration/`, `distance/` and `datetime/` with the rendered values, is built back exactly |
| RoundTrips.RunCycleRoundTrip | src/main/java/athleticli/parser/ActivityParser.java:423-456 | a run or cycle written with its caption, duration, distance, start and any 32-bit elevation is built back exactly, as a run or a cycle as asked |
| RoundTrips.SwimRoundTrip | src/main/java/athleticli/parser/ActivityParser.java:616-645 | a swim written with its caption, duration, distance, start and the name of its style is built back exactly |
| RoundTrips.GoalRoundTrip | src/main/java/athleticli/parser/ActivityParser.java:668-689 | a goal written as `sport/`, `type/`, `period/` and `target/` with the names and a non-negative 32-bit target is built back exactly, in either revision of the presence check |

## Left out

- The tag literals and enumeration names come from `Parameter`, `Swim`, `ActivityGoal` and `Goal`. Those files are not part of this model. The literals used here (`caption/`, `duration/`, `distance/`, `datetime/`, `elevation/`, `style/`, `sport/`, `type/`, `period/`, `target/`, `-detail`) stand in for them. Most properties do not depend on the exact spelling. Three kinds do: the swim-style finding uses the lengths of `style/` and `elevation/`; `EditArgs.NoDashNoDetail` uses that the detail flag starts with `-`; and the round trips of `RoundTrips` use that each tag ends with its only `/`, holds no space, and does not end with another tag of its command.
- `Parser.parseDateTime` is not part of this model. `Clock.ParseDateTime` accepts exactly `yyyy-MM-dd HH:mm`, the format the tests use.
- Scalars.ParseDateTime: bounds the day by the length of its month, leap years included, the rule of the calendar. `Parser.parseDateTime` is not part of this model, and the resolver its `java.time` formatter uses may treat a day past the end of its month differently, for instance by moving it to the month's last day instead of refusing it.
- Clock.ParseLocalTime: accepts `HH:mm` and `HH:mm:ss` only, a subset of the `LocalTime.parse` ISO format; fractional seconds are not modelled.
- Scalars.ParseDuration: weaker than `LocalTime.parse`, because it inherits the simplified time format above.
- `Integer.parseInt` accepts non-ASCII Unicode digits and `toUpperCase` maps non-ASCII letters. Both are modelled for ASCII only.
- A Dafny `string` is a sequence of Unicode scalar values, while Java indexes UTF-16 code units. Offsets, lengths and `substring` bounds therefore agree with Java only for text without supplementary characters (those outside the Basic Multilingual Plane).
- Exception message texts are not modelled. An error names its field and kind (missing, empty, invalid, negative), which is what selects the message.
- The `ActivityChanges`, `Activity` and `ActivityGoal` classes are modelled as plain records. Their setters and constructors just store values. Applying a change set to a stored activity belongs to the edit commands, which are not part of this model.
- The first half of `parseActivityGoal`, the `indexOf` calls, is folded into `Records.ReadGoalFields`. There is no caption and no emptiness check there, and the model keeps that.
- The logging of the change builders is not modelled.

## Findings

| source | as written | input that shows it | evidently intended | confidence | as-written member | corrected member |
|---|---|---|---|---|---|---|
| src/main/java/athleticli/parser/ActivityParser.java:87-88 | the duration text is sliced up to `distanceIndex`, not the computed `endIndex`; likewise at 96-97 (distance up to `datetimeIndex`), 154-155, 163-164, 231-232 and 240-241 | the activity edit `duration/01:00:00`: `distanceIndex` is -1, so `substring` throws | each field's text ends at the nearest present tag after it, or at the end of the text (`endIndex`) | not executed | Changes.AsWrittenCutsAtAbsentTag | Changes.IntendedReadsLoneField |
| src/main/java/athleticli/parser/ActivityParser.java:257-258 | the swimming style's text starts `ELEVATION_SEPARATOR.length()` characters past its tag | the swim edit `style/freestyle` reads `style` and is refused as an invalid style | the text starts `SWIMMING_STYLE_SEPARATOR.length()` past the tag | not executed | Changes.SwimStyleAsWritten | Changes.SwimStyleIntended |
| src/main/java/athleticli/parser/ActivityParser.java:713-727 | the parameters are named (sport, target, period, value) while the caller passes (sport, type, period, target), and an absent type is reported with the target-missing message | a goal with `sport/` but no `type/` tag is refused as missing its target | an absent type tag is reported as a missing type | not executed | Records.MissingTypeAsWritten | Records.MissingTypeIntended |
