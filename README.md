# JDACommands command engine in Dafny

A model of the command-matching core of JDACommands, a command framework for
Discord bots. The model has three parts, each with its properties proved.

- **The table builder** (`CommandLoader.kt`, modules `CommandLoader` and
  `CommandOrdering`). It keeps each annotated command function whose
  parameter types all have a parser. It names the command (`"prefix name"`
  when its class has a prefix), decides whether the command is a remainder
  command, and splits the commands into an exact table and a remainder table.
  It then groups them by name and parameter count and stable-sorts each
  group with the parser-priority comparator.
- **The textual argument parsers** (`ArgumentParsers.kt`, module
  `ArgumentParsers`): integer, boolean and string, and the user, role and
  text channel mention patterns.
- **The dispatcher** (`CommandHandler.kt`, modules `CommandText` and
  `CommandHandling`):
  - the `!` gate and the split on `\s+`;
  - the exact lookup by the first token, and the remainder lookup from the
    token count down to one parameter;
  - the choice of reply;
  - instantiating the command's class and calling the function.

  The `CommandHandler` class keeps the tables as fields. Its methods keep
  the source's loops: the labelled candidate loop, the downward loop over
  parameter counts, and the reassigned `command` variable. Each method is
  proved to return what a specification function (`FindCommandSpec`,
  `FindRemainderSpec`, `Resolve`, `HandleSpec`, `Execute`) gives. The
  lemmas after the class state what those functions mean.

Module `CommandService` holds the parser registration order of the service:
Int, Double, User, Role, TextChannel, Boolean, String. It also holds the set
of commands the service binds for injection, and the start-up that builds
the handler.

`LoaderScenarios` and `HandlerScenarios` restate the repository's test cases
as lemmas about the model.

## Behaviour as implemented

The model follows the code where a fuller design of the engine would differ:

- Only the first token is looked up as a command name (`CommandHandler.kt:79`
  and `:105`). A prefixed name such as `prefix test` is built by the loader
  but can never be resolved.
- Preconditions are collected by the loader but never evaluated.
- The remainder lookup's failures ("No remainder command", "Failed to parse
  remainder") are never sent. Its result is kept only when it succeeds, so a
  failed lookup always replies with the exact lookup's error.
- A `@Remainder` mark on a parameter that is not a `String` is not an error.
  Such a command is simply an exact command.
- A null instance from the injector and a `ProvisionException` are both
  answered with "Failed to create instance " followed by the class's simple
  name.
- The loader keeps only public definition classes (`CommandLoader.kt:26`).
  The loader test declares its definitions `private` while expecting their
  commands. `LoaderScenarios.LoadedTestMapping` gives the definitions as
  public and reaches the expected tables; `PrivateDefinitionsIgnored` shows
  that private definitions leave no command at all.

## Model

| member | source | states |
|---|---|---|
| ArgumentParsers.ToIntOrNull | src/main/kotlin/com/loroxish/jda/commands/ArgumentParsers.kt:18 | a parsed integer lies in the 32-bit `Int` range |
| ArgumentParsers.IntParserAccepts | src/main/kotlin/com/loroxish/jda/commands/ArgumentParsers.kt:18 | the integer parser succeeds exactly on an optional `-`/`+` followed by one or more ASCII digits whose signed value fits in an `Int`, and then yields that signed value |
| ArgumentParsers.SignedDigitsParse | src/main/kotlin/com/loroxish/jda/commands/ArgumentParsers.kt:18 | a sign (or none) and a digit run parse to their signed value when it is in range, and to nothing otherwise |
| ArgumentParsers.NonDigitRejected | src/main/kotlin/com/loroxish/jda/commands/ArgumentParsers.kt:18 | any non-digit character, other than a leading sign with more text after it, makes integer parsing fail |
| ArgumentParsers.IntRoundTrip | src/main/kotlin/com/loroxish/jda/commands/ArgumentParsers.kt:18 | printing an integer and parsing it back returns it exactly when it is within `Int` range |
| ArgumentParsers.ToLowerCase | src/main/kotlin/com/loroxish/jda/commands/ArgumentParsers.kt:74 | lower-casing keeps the length and maps every character through the letter mapping |
| ArgumentParsers.ToBooleanOrNull | src/main/kotlin/com/loroxish/jda/commands/ArgumentParsers.kt:73-78 | the result is true exactly for text lower-casing to "true" or equal to "1", false exactly for "false" or "0"; anything else gives nothing |
| ArgumentParsers.BooleanIgnoresCase | src/main/kotlin/com/loroxish/jda/commands/ArgumentParsers.kt:73-78 | two texts that lower-case alike parse alike |
| ArgumentParsers.BooleanRoundTrip | src/main/kotlin/com/loroxish/jda/commands/ArgumentParsers.kt:73-78 | the printed form of a boolean, in any letter case, parses back to it |
| ArgumentParsers.MentionDigits | src/main/kotlin/com/loroxish/jda/commands/ArgumentParsers.kt:32 | a match returns a digit run, and the whole text is the opening, that run and `>` |
| ArgumentParsers.MentionDigitsOf | src/main/kotlin/com/loroxish/jda/commands/ArgumentParsers.kt:32 | the opening, a digit run and `>` always match, and capture that run |
| ArgumentParsers.UserMentionDigits | src/main/kotlin/com/loroxish/jda/commands/ArgumentParsers.kt:37 | a user mention match is `<@digits>` or `<@!digits>` in its entirety |
| ArgumentParsers.MentionedId | src/main/kotlin/com/loroxish/jda/commands/ArgumentParsers.kt:32 | the id read from the captured digits is a non-negative 64-bit `Long` |
| ArgumentParsers.ParseUser | src/main/kotlin/com/loroxish/jda/commands/ArgumentParsers.kt:30-34 | text that does not match the user pattern yields no user |
| ArgumentParsers.ParseRole | src/main/kotlin/com/loroxish/jda/commands/ArgumentParsers.kt:44-48 | text that does not match `<@&digits>` yields no role |
| ArgumentParsers.ParseTextChannel | src/main/kotlin/com/loroxish/jda/commands/ArgumentParsers.kt:59-63 | text that does not match `<@#digits>` yields no text channel |
| ArgumentParsers.UserMentionLooksUp | src/main/kotlin/com/loroxish/jda/commands/ArgumentParsers.kt:30-37 | `<@digits>` and `<@!digits>` with an id that fits in a `Long` give exactly the platform lookup of that id |
| ArgumentParsers.RoleMentionLooksUp | src/main/kotlin/com/loroxish/jda/commands/ArgumentParsers.kt:44-51 | `<@&digits>` gives exactly the platform role lookup of that id |
| ArgumentParsers.TextChannelMentionLooksUp | src/main/kotlin/com/loroxish/jda/commands/ArgumentParsers.kt:59-66 | `<@#digits>` gives exactly the platform text channel lookup of that id |
| ArgumentParsers.OverflowingMentionFails | src/main/kotlin/com/loroxish/jda/commands/ArgumentParsers.kt:30-62 | a digit run too large for a `Long` yields nothing from all three mention parsers, whatever the platform holds |
| ArgumentParsers.MentionPatternsExclusive | src/main/kotlin/com/loroxish/jda/commands/ArgumentParsers.kt:36-67 | no text is accepted by two of the user, role and text channel patterns |
| ArgumentParsers.ArgumentParser.ParseArgument | src/main/kotlin/com/loroxish/jda/commands/ArgumentParsers.kt:10-85 | a parsed value has the parser's own type, and the string parser returns its input unchanged and never fails |
| ArgumentParsers.BooleanParserTrueExamples | src/test/kotlin/com/loroxish/jda/commands/ArgumentParsersTest.kt:119-152 | "true", "TRUE" and "1" parse to true |
| ArgumentParsers.BooleanParserOtherExamples | src/test/kotlin/com/loroxish/jda/commands/ArgumentParsersTest.kt:128-171 | "false" and "0" parse to false, and "foo" fails |
| ArgumentParsers.UserParserExamples | src/test/kotlin/com/loroxish/jda/commands/ArgumentParsersTest.kt:31-53 | `<@!123>` and `<@123>` look up user 123 |
| ArgumentParsers.RoleAndTextChannelParserExamples | src/test/kotlin/com/loroxish/jda/commands/ArgumentParsersTest.kt:72-111 | `<@&123>` looks up role 123 and `<@#123>` looks up text channel 123 |
| CommandLoader.BuildPreconditionEvaluators | src/main/kotlin/com/loroxish/jda/commands/CommandLoader.kt:68-77 | the evaluators are exactly one per listed class that is public and has a public nullary constructor |
| CommandLoader.CheckFunctionForPreconditions | src/main/kotlin/com/loroxish/jda/commands/CommandLoader.kt:88-92 | the result is the union of the function's own instantiable evaluators and the definition's |
| CommandLoader.BuildParameterInfo | src/main/kotlin/com/loroxish/jda/commands/CommandLoader.kt:79-86 | one description per value parameter, in order, with its type and summary; an unnamed parameter is called "unknown" |
| CommandLoader.PairsOf | src/main/kotlin/com/loroxish/jda/commands/CommandLoader.kt:48-65 | the pairs are well formed, belong to the definition, and are exactly the commands built from its member functions |
| CommandLoader.BuildCommandInfoPairs | src/main/kotlin/com/loroxish/jda/commands/CommandLoader.kt:42-66 | the commands of one definition are well formed, belong to its class, and are exactly those built from its member functions |
| CommandLoader.CommandInfoPairs | src/main/kotlin/com/loroxish/jda/commands/CommandLoader.kt:24-34 | the pairs are well formed and are exactly the commands of the loadable definitions |
| CommandLoader.Kept | src/main/kotlin/com/loroxish/jda/commands/CommandLoader.kt:105 | exactly the pairs with the requested remainder flag |
| CommandLoader.Bucket | src/main/kotlin/com/loroxish/jda/commands/CommandLoader.kt:106-112 | exactly the commands listed under the name with the given parameter count |
| CommandLoader.GetCommandMap | src/main/kotlin/com/loroxish/jda/commands/CommandLoader.kt:99-114 | the table has an entry for exactly the names of the pairs with the requested remainder flag |
| CommandLoader.ParserTypes | src/main/kotlin/com/loroxish/jda/commands/CommandLoader.kt:22 | the type of each parser, in registration order |
| CommandLoader.ParserMap | src/main/kotlin/com/loroxish/jda/commands/CommandLoader.kt:39 | the parser map has a key for exactly the registered types, and each key is served by a parser of that type |
| CommandLoader.ParserMapLastWins | src/main/kotlin/com/loroxish/jda/commands/CommandLoader.kt:39 | a type is served by the last parser registered for it |
| CommandLoader.CommandMapEntry | src/main/kotlin/com/loroxish/jda/commands/CommandLoader.kt:99-114 | a listed command came from a pair with the table's flag, under its own name and parameter count |
| CommandLoader.CommandMapKeyedByArity | src/main/kotlin/com/loroxish/jda/commands/CommandLoader.kt:104-114 | every group is non-empty and holds only commands with its parameter count |
| CommandLoader.CommandMapComplete | src/main/kotlin/com/loroxish/jda/commands/CommandLoader.kt:104-114 | every pair with the table's flag is listed under its name and parameter count, so no command is lost |
| CommandLoader.CommandMapGroupContents | src/main/kotlin/com/loroxish/jda/commands/CommandLoader.kt:104-113 | a group is the sorted bucket and holds the same commands with the same multiplicities |
| CommandLoader.CommandMapSorted | src/main/kotlin/com/loroxish/jda/commands/CommandLoader.kt:113 | each group is ordered by the parser-priority comparator |
| CommandLoader.CommandMapStable | src/main/kotlin/com/loroxish/jda/commands/CommandLoader.kt:113 | commands with equal priority keys keep the order in which they were found |
| CommandLoader.LoadCommandMapping | src/main/kotlin/com/loroxish/jda/commands/CommandLoader.kt:17-40 | both loaded tables are keyed by parameter count, and the parser map has a key for exactly the registered types |
| CommandLoader.LoadedCommandPartition | src/main/kotlin/com/loroxish/jda/commands/CommandLoader.kt:36-39 | a loaded command is in the exact table exactly when it is not a remainder command, and in the remainder table exactly when it is |
| CommandLoader.CommandMapParsable | src/main/kotlin/com/loroxish/jda/commands/CommandLoader.kt:48-61 | a listed command has a registered type for each parameter, and a remainder command ends in a `String` |
| CommandLoader.LoadedCommandsParsable | src/main/kotlin/com/loroxish/jda/commands/CommandLoader.kt:36-39 | every parameter type of a loaded command has a parser in the loaded parser map |
| CommandLoader.LoadedCommandsSource | src/main/kotlin/com/loroxish/jda/commands/CommandLoader.kt:24-34 | the loaded commands are exactly the annotated, fully parsable member functions of the loadable definitions |
| CommandLoader.LoadedFunctionPlacement | src/main/kotlin/com/loroxish/jda/commands/CommandLoader.kt:42-66 | an annotated member function of a loadable definition yields a command exactly when every parameter type has a parser; that command, named by the prefix and the annotation, is in the remainder table exactly when its last parameter is a remainder `String`, and in the exact table exactly when it is not |
| CommandOrdering.IndexOf | src/main/kotlin/com/loroxish/jda/commands/CommandLoader.kt:122 | the first position of the type, or -1 exactly when it is absent |
| CommandOrdering.FirstDifferenceAntisymmetric | src/main/kotlin/com/loroxish/jda/commands/CommandLoader.kt:119-124 | swapping the keys negates the first difference |
| CommandOrdering.FirstDifferenceZero | src/main/kotlin/com/loroxish/jda/commands/CommandLoader.kt:119-124 | the first difference is 0 exactly when no zipped position differs |
| CommandOrdering.FirstDifferenceAt | src/main/kotlin/com/loroxish/jda/commands/CommandLoader.kt:119-124 | the first differing position decides the result |
| CommandOrdering.FirstDifferenceTransitive | src/main/kotlin/com/loroxish/jda/commands/CommandLoader.kt:119-124 | "no later than" is transitive on keys of equal length |
| CommandOrdering.FirstDifferenceDecided | src/main/kotlin/com/loroxish/jda/commands/CommandLoader.kt:119-124 | a non-zero first difference is the difference at a position before which the keys agree |
| CommandOrdering.CompareAntisymmetric | src/main/kotlin/com/loroxish/jda/commands/CommandLoader.kt:118-124 | `compare(a, b) == -compare(b, a)` |
| CommandOrdering.CompareZero | src/main/kotlin/com/loroxish/jda/commands/CommandLoader.kt:118-124 | the comparison is 0 exactly when no zipped parameter position has different type indices |
| CommandOrdering.CompareDecidedAt | src/main/kotlin/com/loroxish/jda/commands/CommandLoader.kt:118-124 | at the first differing position, the lower parser index sorts first |
| CommandOrdering.CompareTransitive | src/main/kotlin/com/loroxish/jda/commands/CommandLoader.kt:118-124 | on infos of one arity, "sorts no later than" is transitive |
| CommandOrdering.Compare | src/main/kotlin/com/loroxish/jda/commands/CommandLoader.kt:116-125 | two signatures with the same priority key (the same parser indices, position by position) compare equal, so the stable sort keeps them in discovery order; the full meaning of the result is stated by CompareZero and CompareDecidedAt |
| CommandOrdering.FirstDifferenceSelf | src/main/kotlin/com/loroxish/jda/commands/CommandLoader.kt:119-124 | a key never differs from itself |
| CommandOrdering.PriorityKeyInjective | src/main/kotlin/com/loroxish/jda/commands/CommandLoader.kt:122 | for parsable infos of one arity, equal keys mean equal type lists |
| CommandOrdering.InsertionPoint | src/main/kotlin/com/loroxish/jda/commands/CommandLoader.kt:113 | everything before the point sorts strictly before the element, and the element at the point does not |
| CommandOrdering.InsertPermutes | src/main/kotlin/com/loroxish/jda/commands/CommandLoader.kt:113 | insertion adds exactly the element |
| CommandOrdering.SortedWith | src/main/kotlin/com/loroxish/jda/commands/CommandLoader.kt:113 | sorting rearranges the bucket: the same commands with the same multiplicities |
| CommandOrdering.InsertSorted | src/main/kotlin/com/loroxish/jda/commands/CommandLoader.kt:113 | insertion keeps a bucket of one arity sorted |
| CommandOrdering.SortedWithSorted | src/main/kotlin/com/loroxish/jda/commands/CommandLoader.kt:113 | the sorted bucket is ordered by the comparator |
| CommandOrdering.WithKeyAppend | src/main/kotlin/com/loroxish/jda/commands/CommandLoader.kt:113 | selecting one key distributes over concatenation |
| CommandOrdering.NoEqualKeyBefore | src/main/kotlin/com/loroxish/jda/commands/CommandLoader.kt:113 | nothing before the insertion point shares the inserted element's key |
| CommandOrdering.SpliceStable | src/main/kotlin/com/loroxish/jda/commands/CommandLoader.kt:113 | placing an element where nothing before shares its key adds it to the front of its key's elements |
| CommandOrdering.InsertStable | src/main/kotlin/com/loroxish/jda/commands/CommandLoader.kt:113 | insertion puts the element first among the elements with its key and leaves other keys alone |
| CommandOrdering.SortedWithStable | src/main/kotlin/com/loroxish/jda/commands/CommandLoader.kt:113 | sorting is stable: the elements with any one key keep their original order |
| LoaderScenarios.BucketKeys | src/test/kotlin/com/loroxish/jda/commands/CommandLoaderTest.kt:77-104 | with the integer and then the string parser registered, `(Int, Int)`, `(Int, String)` and `(String, String)` have keys [0,0], [0,1] and [1,1] |
| LoaderScenarios.BucketComparisons | src/test/kotlin/com/loroxish/jda/commands/CommandLoaderTest.kt:77-104 | the comparator orders `(Int, Int)` before `(String, String)` and places `(Int, String)` between them |
| LoaderScenarios.TwoParameterBucketOrder | src/test/kotlin/com/loroxish/jda/commands/CommandLoaderTest.kt:77-104 | the two-parameter bucket found as `(Int, String)`, `(Int, Int)`, `(String, String)` is sorted to `(Int, Int)`, `(Int, String)`, `(String, String)` |
| LoaderScenarios.RemainderFlags | src/test/kotlin/com/loroxish/jda/commands/CommandLoaderTest.kt:145-161 | `(Int, @Remainder Int)` and `(@Remainder String, String)` are exact commands, while `(@Remainder String)` is a remainder command |
| LoaderScenarios.DoubleParameterFiltered | src/test/kotlin/com/loroxish/jda/commands/CommandLoaderTest.kt:157-158 | a `Double` command is dropped when only the integer and string parsers are registered |
| LoaderScenarios.PrefixedName | src/test/kotlin/com/loroxish/jda/commands/CommandLoaderTest.kt:112-117 | the class prefix `prefix` names the command `prefix test` |
| LoaderScenarios.TestFunctionCommands | src/test/kotlin/com/loroxish/jda/commands/CommandLoaderTest.kt:138-165 | the main definition yields seven commands in declaration order; `shouldBeFiltered` is dropped |
| LoaderScenarios.TestLoadability | src/test/kotlin/com/loroxish/jda/commands/CommandLoaderTest.kt:167-184 | the three definitions with a nullary or `@Inject` constructor are loaded, and the one whose only constructor takes a plain parameter is not |
| LoaderScenarios.TestCommandInfoPairs | src/test/kotlin/com/loroxish/jda/commands/CommandLoaderTest.kt:35-41 | the four definitions yield nine commands, the main definition's seven, then `(String, String)` and `prefix test` |
| LoaderScenarios.TestPairsSplit | src/test/kotlin/com/loroxish/jda/commands/CommandLoaderTest.kt:118-126 | only `testCommandWithRemainder` is a remainder command; the other eight are exact |
| LoaderScenarios.ExactNames | src/test/kotlin/com/loroxish/jda/commands/CommandLoaderTest.kt:51-117 | the exact table has the names `test`, `otherCommand` and `prefix test`, `test` with zero, one and two parameters and the others with none |
| LoaderScenarios.OneParameterBucketOrder | src/test/kotlin/com/loroxish/jda/commands/CommandLoaderTest.kt:62-76 | the one-parameter bucket keeps `(Int)` before `(String)` |
| LoaderScenarios.ExactTable | src/test/kotlin/com/loroxish/jda/commands/CommandLoaderTest.kt:51-117 | the exact table is the one the test expects |
| LoaderScenarios.RemainderTableBuilt | src/test/kotlin/com/loroxish/jda/commands/CommandLoaderTest.kt:118-126 | the remainder table lists only `(@Remainder String)` under `test` with one parameter |
| LoaderScenarios.TestParserMap | src/test/kotlin/com/loroxish/jda/commands/CommandLoaderTest.kt:127-129 | the parser map serves the integer type with the integer parser and the string type with the string parser |
| LoaderScenarios.LoadedTestMapping | src/test/kotlin/com/loroxish/jda/commands/CommandLoaderTest.kt:32-136 | loading the four definitions with the integer and string parsers gives exactly the expected exact table, remainder table and parser map |
| LoaderScenarios.PrivateDefinitionsIgnored | src/main/kotlin/com/loroxish/jda/commands/CommandLoader.kt:24-26 | definitions that are all non-public yield no commands |
| CommandService.RegisteredParsers | src/main/kotlin/com/loroxish/jda/commands/CommandService.kt:21-28 | the registered parser types are Int, Double, User, Role, TextChannel, Boolean and String, in that order |
| CommandService.RegisteredParserMap | src/main/kotlin/com/loroxish/jda/commands/CommandService.kt:19-28 | the parser map has keys for exactly the registered types, each served by its own parser |
| CommandService.RegisteredDistinct | src/main/kotlin/com/loroxish/jda/commands/CommandService.kt:21-28 | no type is registered twice, and no other type is registered |
| CommandService.RegisteredPriorities | src/main/kotlin/com/loroxish/jda/commands/CommandService.kt:21-28 | a type's priority is its place in the registration list, and a type without a parser has priority -1 |
| CommandService.TableCommandsOfPairs | src/main/kotlin/com/loroxish/jda/commands/CommandService.kt:34-35 | a table lists the descriptions of exactly the pairs with its remainder flag |
| CommandService.SplitByRemainder | src/main/kotlin/com/loroxish/jda/commands/CommandService.kt:34-38 | every description is in exactly the exact part or the remainder part |
| CommandService.LoadedRegisteredCommands | src/main/kotlin/com/loroxish/jda/commands/CommandService.kt:30-38 | the commands bound for injection are exactly the descriptions of the loaded commands of both tables |
| CommandService.CreateHandler | src/main/kotlin/com/loroxish/jda/commands/CommandService.kt:18-38 | the handler holds the loaded table for the registered parsers, and the injector |
| CommandText.WhitespaceStart | src/main/kotlin/com/loroxish/jda/commands/CommandHandler.kt:31 | the first whitespace character at or after the start, or the end of the text |
| CommandText.WhitespaceEnd | src/main/kotlin/com/loroxish/jda/commands/CommandHandler.kt:31 | the end of the whitespace run at the start |
| CommandText.Split | src/main/kotlin/com/loroxish/jda/commands/CommandHandler.kt:31 | at least one piece, every piece is free of whitespace, the first piece is the text up to the first whitespace, and only the first and last pieces can be empty |
| CommandText.SplitCollapse | src/main/kotlin/com/loroxish/jda/commands/CommandHandler.kt:31 | the pieces joined with single spaces are the text with each maximal whitespace run replaced by one space, so the text breaks exactly at its whitespace runs |
| CommandText.SplitKeepsText | src/main/kotlin/com/loroxish/jda/commands/CommandHandler.kt:31 | the pieces put together are the text with its whitespace removed |
| CommandText.SplitJoin | src/main/kotlin/com/loroxish/jda/commands/CommandHandler.kt:31 | splitting undoes joining with single spaces, for pieces with no whitespace and non-empty interior pieces |
| CommandText.RemovePrefixChars | src/main/kotlin/com/loroxish/jda/commands/CommandHandler.kt:27 | removing every `!` leaves nothing exactly when the text is made of `!`s only |
| CommandText.RemoveFirstPrefix | src/main/kotlin/com/loroxish/jda/commands/CommandHandler.kt:31 | removing the first `!` shortens the text by one, or leaves it as it is when it has none; text starting with `!` loses exactly that character |
| CommandText.RemoveFirstPrefixMeaning | src/main/kotlin/com/loroxish/jda/commands/CommandHandler.kt:31 | text containing `!` loses exactly the character at the first `!` and keeps everything before and after it |
| CommandText.CommandParts | src/main/kotlin/com/loroxish/jda/commands/CommandHandler.kt:31 | there is always at least one token, so the name lookup never indexes an empty list |
| CommandText.CommandPartsOfCommandText | src/main/kotlin/com/loroxish/jda/commands/CommandHandler.kt:31 | the name is the run of non-whitespace immediately after the `!`, and the tokens together are the rest of the text without its whitespace |
| CommandText.CommandPartsOfJoin | src/main/kotlin/com/loroxish/jda/commands/CommandHandler.kt:31 | `!` followed by tokens joined with single spaces gives back exactly those tokens |
| CommandHandling.Types | src/main/kotlin/com/loroxish/jda/commands/CommandHandler.kt:90 | the parameter types of the candidate, in order |
| CommandHandling.ParseArguments | src/main/kotlin/com/loroxish/jda/commands/CommandHandler.kt:93-97 | one value per parameter when parsing succeeds |
| CommandHandling.ParseArgumentsMeaning | src/main/kotlin/com/loroxish/jda/commands/CommandHandler.kt:93-97 | parsing succeeds exactly when every input parses with its parameter's parser, a type without a parser failing, and the values are those parses in order |
| CommandHandling.ParseArgumentsAccepts | src/main/kotlin/com/loroxish/jda/commands/CommandHandler.kt:93-97 | parsing succeeds exactly when the candidate accepts the inputs, and then yields their values |
| CommandHandling.FirstMatch | src/main/kotlin/com/loroxish/jda/commands/CommandHandler.kt:89-99 | the match found lies within the remaining candidates |
| CommandHandling.FirstMatchFound | src/main/kotlin/com/loroxish/jda/commands/CommandHandler.kt:89-98 | the match found parses, and every candidate passed over does not |
| CommandHandling.FirstMatchNone | src/main/kotlin/com/loroxish/jda/commands/CommandHandler.kt:89-100 | nothing is found exactly when no remaining candidate parses |
| CommandHandling.FirstMatchSkips | src/main/kotlin/com/loroxish/jda/commands/CommandHandler.kt:95 | a candidate with an input that fails to parse is passed over |
| CommandHandling.Select | src/main/kotlin/com/loroxish/jda/commands/CommandHandler.kt:89-100 | a failure carries the given message; a selected candidate is one of the candidates, with one value per input |
| CommandHandling.SelectMeaning | src/main/kotlin/com/loroxish/jda/commands/CommandHandler.kt:89-100 | selection succeeds exactly when some candidate accepts, returning the first such candidate with its parsed values, and otherwise fails with the given message |
| CommandHandling.SelectFound | src/main/kotlin/com/loroxish/jda/commands/CommandHandler.kt:89-98 | a candidate whose inputs all parse, with only non-matching candidates before it, is selected with those values |
| CommandHandling.FindCommandErrors | src/main/kotlin/com/loroxish/jda/commands/CommandHandler.kt:77-100 | an unknown name gives "Command not found"; a known name with no or an empty bucket for the token count gives "Incorrect number of parameters"; a bucket where nothing parses gives "No command with matching parameter types"; these are the only errors |
| CommandHandling.FindCommandMatch | src/main/kotlin/com/loroxish/jda/commands/CommandHandler.kt:89-98 | an exact match is the first candidate of the name's bucket for the token count that accepts the inputs, with their parsed values |
| CommandHandling.FindCommandSpec | src/main/kotlin/com/loroxish/jda/commands/CommandHandler.kt:77-101 | the exact lookup fails only with "Command not found", "Incorrect number of parameters" or "No command with matching parameter types", and succeeds only with a candidate of the name's bucket for the token count, with one value per input |
| CommandHandling.RemainderArguments | src/main/kotlin/com/loroxish/jda/commands/CommandHandler.kt:121-126 | an `n`-parameter remainder command gets the first `n - 1` inputs, then the rest joined by single spaces |
| CommandHandling.RemainderFitsSelect | src/main/kotlin/com/loroxish/jda/commands/CommandHandler.kt:111-137 | an arity fits exactly when its bucket exists, is non-empty and its selection succeeds |
| CommandHandling.LargestFit | src/main/kotlin/com/loroxish/jda/commands/CommandHandler.kt:109-115 | the largest fitting arity from the start down to 1, with none larger fitting, or 0 |
| CommandHandling.RemainderSearchLargest | src/main/kotlin/com/loroxish/jda/commands/CommandHandler.kt:109-139 | the remainder search answers with the selection at the largest fitting arity, and with "Failed to parse remainder" when none fits |
| CommandHandling.RemainderSearchMeaning | src/main/kotlin/com/loroxish/jda/commands/CommandHandler.kt:109-139 | the search succeeds exactly when some arity from the token count down to 1 fits, and then answers at the largest one; its only error is "Failed to parse remainder" |
| CommandHandling.RemainderSearch | src/main/kotlin/com/loroxish/jda/commands/CommandHandler.kt:109-139 | the search fails only with "Failed to parse remainder", and succeeds with a candidate of the bucket for an arity between 1 and the start, with one value per parameter |
| CommandHandling.FindRemainderMeaning | src/main/kotlin/com/loroxish/jda/commands/CommandHandler.kt:103-140 | "No remainder command" exactly when the name has no remainder commands; with no inputs it fails; a success is a candidate of its bucket with 1 to the number of inputs parameters, given the first inputs and then the rest joined |
| CommandHandling.FindRemainderSpec | src/main/kotlin/com/loroxish/jda/commands/CommandHandler.kt:103-140 | the remainder lookup fails only with "No remainder command" or "Failed to parse remainder", always fails with no inputs, and succeeds with a candidate of the name's remainder bucket for an arity between 1 and the number of inputs |
| CommandHandling.ResolveExactFirst | src/main/kotlin/com/loroxish/jda/commands/CommandHandler.kt:32-38 | an exact match always wins; without remainder commands only the exact lookup counts; a changed result is a remainder success |
| CommandHandling.ResolveFailure | src/main/kotlin/com/loroxish/jda/commands/CommandHandler.kt:32-40 | on failure the error is the exact lookup's, never a remainder lookup message |
| CommandHandling.Resolve | src/main/kotlin/com/loroxish/jda/commands/CommandHandler.kt:32-38 | resolution fails only with an exact lookup message, and succeeds with a candidate of the exact or the remainder bucket for the name and its parameter count, which is at most the number of inputs |
| CommandHandling.ContextOf | src/main/kotlin/com/loroxish/jda/commands/CommandHandler.kt:63-69 | the context has a guild exactly for guild messages, and carries the event's channel, author and message |
| CommandHandling.HandleIgnored | src/main/kotlin/com/loroxish/jda/commands/CommandHandler.kt:22-29 | an event is ignored with no reply exactly when its author is a bot, its text does not start with `!`, or the text is `!`s only |
| CommandHandling.HandleReplied | src/main/kotlin/com/loroxish/jda/commands/CommandHandler.kt:39-44 | a reply without a call is the exact lookup's error, or "Failed to create instance " and the simple class name when the injector gives no instance; remainder messages are never sent |
| CommandHandling.HandleInvoked | src/main/kotlin/com/loroxish/jda/commands/CommandHandler.kt:41-50 | the command function is called exactly when a command resolves and the injector provides an instance; the call is on that instance with the parsed arguments; a thrown message is replied, and nothing else is |
| CommandHandling.Execute | src/main/kotlin/com/loroxish/jda/commands/CommandHandler.kt:39-52 | a lookup error is replied as it is; a call happens only for a resolved command whose instance is provided, on that instance with the parsed arguments; a reply for a resolved command is the instantiation failure with the simple class name |
| CommandHandling.HandleSpec | src/main/kotlin/com/loroxish/jda/commands/CommandHandler.kt:21-53 | an event from a bot is ignored; remainder lookup messages are never replied; a call is on an instance the injector holds and has the given outcome |
| CommandHandling.CommandHandler.constructor | src/main/kotlin/com/loroxish/jda/commands/CommandHandler.kt:9-15 | the handler keeps the two tables, the parser map and the injector |
| CommandHandling.CommandHandler.FindCommand | src/main/kotlin/com/loroxish/jda/commands/CommandHandler.kt:77-101 | the loop returns what the exact lookup specification gives |
| CommandHandling.CommandHandler.FindRemainderCommand | src/main/kotlin/com/loroxish/jda/commands/CommandHandler.kt:103-140 | the downward loop over arities returns what the remainder lookup specification gives |
| CommandHandling.CommandHandler.MatchCandidates | src/main/kotlin/com/loroxish/jda/commands/CommandHandler.kt:89-99 | the labelled candidate loop returns the first candidate whose inputs all parse, or the failure message |
| CommandHandling.CommandHandler.ResolveCommand | src/main/kotlin/com/loroxish/jda/commands/CommandHandler.kt:32-38 | the exact lookup, replaced by the remainder lookup only when that one succeeds and remainder commands exist |
| CommandHandling.CommandHandler.CreateDefinitionInstance | src/main/kotlin/com/loroxish/jda/commands/CommandHandler.kt:55-75 | a provided instance is returned with the event's context attached; a null or failed provision gives nothing |
| CommandHandling.CommandHandler.ExecuteCommand | src/main/kotlin/com/loroxish/jda/commands/CommandHandler.kt:39-52 | an error is sent; a resolved command whose instance is provided is called with the context set; otherwise the instantiation failure is sent; the channel gets exactly the replies and no other instance changes |
| CommandHandling.CommandHandler.HandleCommand | src/main/kotlin/com/loroxish/jda/commands/CommandHandler.kt:21-53 | the outcome is the gate, resolution and execution in that order, the channel receives exactly that outcome's replies, and only the invoked instance gets a new context |
| Platform.MessageChannel.SendMessage | src/main/kotlin/com/loroxish/jda/commands/CommandHandler.kt:40 | the text is appended to what the channel was sent |
| CommandDefinitions.BaseCommandDefinition.SetContext | src/main/kotlin/com/loroxish/jda/commands/BaseCommandDefinition.kt:9-11 | the instance holds the given context |
| HandlerScenarios.Table | src/test/kotlin/com/loroxish/jda/commands/CommandHandlerTest.kt:97-145 | both tables of the test mapping are keyed by parameter count |
| HandlerScenarios.ParsesOne | src/test/kotlin/com/loroxish/jda/commands/CommandHandlerTest.kt:89-90 | "1" parses to 1 and "foo" is not an integer |
| HandlerScenarios.NoParamCommand | src/test/kotlin/com/loroxish/jda/commands/CommandHandlerTest.kt:150-160 | `!test` resolves to the no-parameter command |
| HandlerScenarios.IntIntCommand | src/test/kotlin/com/loroxish/jda/commands/CommandHandlerTest.kt:162-172 | `!test 1 1` resolves to `(Int, Int)` with 1 and 1 |
| HandlerScenarios.IntStringCommand | src/test/kotlin/com/loroxish/jda/commands/CommandHandlerTest.kt:174-184 | `!test 1 foo` passes over `(Int, Int)` and resolves to `(Int, String)` with 1 and "foo" |
| HandlerScenarios.IntStringRemainderCommand | src/test/kotlin/com/loroxish/jda/commands/CommandHandlerTest.kt:186-196 | `!test 1 foo bar star` resolves to remainder `(Int, String)` with 1 and "foo bar star" |
| HandlerScenarios.StringRemainderRejectsTwo | src/test/kotlin/com/loroxish/jda/commands/CommandHandlerTest.kt:198-208 | split as "foo" and "bar star", remainder `(Int, String)` does not apply |
| HandlerScenarios.StringRemainderCommand | src/test/kotlin/com/loroxish/jda/commands/CommandHandlerTest.kt:198-208 | `!test foo bar star` resolves to remainder `(String)` with "foo bar star" |
| HandlerScenarios.UnknownCommand | src/test/kotlin/com/loroxish/jda/commands/CommandHandlerTest.kt:210-221 | `!othercommand` gives "Command not found" |
| HandlerScenarios.IntStringRemainderTokens | src/test/kotlin/com/loroxish/jda/commands/CommandHandlerTest.kt:186-196 | the text `!test 1 foo bar star` splits into `test`, `1`, `foo`, `bar`, `star` |
| HandlerScenarios.BareCommandText | src/test/kotlin/com/loroxish/jda/commands/CommandHandlerTest.kt:150-160 | `!test` is command text whose only token is `test` |
| HandlerScenarios.InstantiationFailure | src/test/kotlin/com/loroxish/jda/commands/CommandHandlerTest.kt:223-235 | when provisioning fails, `!test` is answered with "Failed to create instance MockDefinition" |

## Left out

- `DoubleParser`: floating-point parsing is not modelled. The text-to-double conversion is a parameter of the parser.
- The platform client (JDA): the lookups of users, roles and text channels by id are parameters (`Platform.Jda`). Entities are opaque handles.
- Reflection in the loader:
  - Definition classes, their constructors, annotations and member functions are given as descriptors (`DefinitionDescriptor`, `FunctionDescriptor`). Reflection gives no defined member order, so the descriptor order is used.
  - Precondition evaluator classes are given as `EvaluatorClass` values, and an instance is identified by its class name.
- `CommandInfo` has no preconditions field (`PublicCommandDataTypes.kt:10-15`), although `CommandLoader.kt:60` passes one. The model computes `CheckFunctionForPreconditions` but does not store it in the command.
- `Prefix` and `Precondition` are not declared in `CommandAnnotations.kt`. They appear here only as descriptor fields.
- Precondition evaluation: the handler never calls it, so neither does the model.
- Guice:
  - The injector is a map from class to provision outcome: an instance, null, or a `ProvisionException`. The model also gives a class missing from that map the outcome `ProvisionFailed`; this only makes the map total and is not what Guice does, which creates an unbound concrete class just in time or throws a `ConfigurationException`. Just-in-time bindings and `ConfigurationException` are not modelled.
  - Exceptions from the injector other than `ProvisionException` would propagate out of `handleCommand`; they are not modelled.
- `KFunction.call`:
  - The call's result is a parameter: it returns normally or throws a target exception with or without a message.
  - The command function's own effects, such as its replies through `BaseCommandDefinition.reply`, are not modelled.
  - A null `targetException` is folded into a target exception without a message.
  - Other exceptions from the call are not modelled.
- `queue()` is asynchronous; the model records each sent text in the channel's `sent` list immediately, in order.
- Unicode:
  - `toIntOrNull` is modelled on ASCII digits; the JVM also accepts other Unicode decimal digits.
  - `toLowerCase` is modelled on ASCII letters; the only texts it must recognise are `true` and `false`.
- `CommandContext` omits its platform client field; the rest of the context is modelled.
- The remainder arguments for a parameter count are built once for the whole bucket. The source rebuilds the same values for each candidate, and the inner loop's `break` after the last parameter has no further effect.
- `CommandService`:
  - Attaching and detaching the listener is not modelled. Note that `removeCommandListener` (`CommandService.kt:47-49`) calls `addEventListener`.
  - The child injector and its `@Commands` binding are not modelled; `RegisteredCommands` is the set that binding provides.
- `HandlerScenarios`: the tests mock the integer parser to return 1 for "1" and null otherwise, and the string parser to return its input. The scenarios use the real integer and string parsers, which agree with the mocks on every input used.
- `HandlerScenarios` states the invocation tests through `Resolve`. `HandleInvoked` connects a resolved command to the call.
- Per-event concurrency: each event is handled on its own.
