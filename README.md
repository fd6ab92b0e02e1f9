# Accordion generator, modelled in Dafny

`accordion_generator.py` is a command-line script. It asks for questions and
multi-line answers, converts a small Markdown-like dialect into HTML and writes
a Bootstrap accordion. The dialect covers links `[text](url)`, bold `**text**`,
headings `#`, `##` and `###`, and `-` list items. Given the argument `links`,
it instead converts one block of text, handling only links and list items.
This project models the parts of the script that compute. It proves what the
code guarantees about them.

- `Text` (text.dfy) holds the Python string operations the script relies on,
  each with its Python meaning:
  - `str.isspace`, `startswith` and slicing;
  - `strip`, proved to remove exactly the surrounding whitespace;
  - `splitlines`, with every Python line boundary and `\r\n` counted as one;
  - `join`;
  - the decimal form an f-string gives an index.
- `Inline` (inline.dfy) holds the three regular-expression rewrites: links,
  bold, and the url rewrite of `format_answer`. Each pattern's possible
  matches are defined on their own, for example `IsLink(s, j, k)`. The scanner
  the rewrite uses is then proved to pick the match Python's engine picks:
  leftmost and shortest for the lazy `.*?` groups, longest for `[^\s]+`.
- `Lists` (lists.dfy) holds the list bookkeeping shared by both loops. Each
  line becomes one `Fragment`: a heading, a list item or a plain line. `<ul>`
  and `</ul>` are fragments too. `Machine` is the `in_list` state machine.
  `CloseOff` adds the final `</ul>`. `Bracketing` is an independent
  description of a correct placement of bracket fragments. The machine is
  proved to produce a bracketing, and to be the only one. These facts are
  about the fragments the loops build. A typed line that reads `<ul>` is a
  plain-line fragment and does not count as a bracket.
- `Converter` (converter.dfy) holds the two line loops as methods:
  - `ConvertAnswer`, for an answer of `generate_accordion`;
  - `ConvertLinks`, for the `links` command.

  Each loop is proved equal to the function `ConvertText`, and the loop body
  is a method of its own.
- `Accordion` (accordion.dfy) holds the rest of `generate_accordion`:
  - the image snippets appended to an answer;
  - the ids `heading{i}` and `collapse{i}`;
  - the class that expands only the first item;
  - the item f-string;
  - the wrapper `<div>`;
  - the final `''.join`.

  It also holds the choice of the accordion's identifier in `main`. The item
  f-string is modelled as its ten fixed pieces, `ItemSkeleton`, with nine slots
  between them. `Assemble` is proved over any skeleton, and `GenerateAccordion`
  applies it to the generator's own.
- `Input` (input.dfy) holds `get_multiline_input`. The lines the user types
  are a sequence. Reading stops at the first two consecutive empty lines, and
  the non-empty lines read before them are joined with line feeds.

The model keeps these behaviours of the code:

- `generate_accordion` does not reject an empty identifier, zero items or a
  blank answer. A blank identifier is replaced in `main`. A blank question is
  asked again, which is a prompt left out below.
- As written, `aria-controls` names the heading id and not the collapsible
  part. The model keeps it so.
- `format_answer` is defined but never called by the script. It is modelled
  on its own.
- `format_answer` rewrites a url that starts inside a word: `xhttp://a`
  becomes `x<img src="http://a" alt="Image" />`. It also rewrites a url that
  already stands inside a tag, such as the `src` of an `<img>`.

## Model

| member | source | states |
|---|---|---|
| Text.TakeSlice | accordion_generator.py:201 | `s[:n] + s[n:] == s`, and `s[:n]` has `n` characters, or all of `s` when it is shorter |
| Text.TrimLeftSpec | accordion_generator.py:91 | `lstrip` keeps a suffix that does not start with whitespace and drops only whitespace |
| Text.TrimRightSpec | accordion_generator.py:91 | `rstrip` keeps a prefix that does not end with whitespace and drops only whitespace |
| Text.StripSpec | accordion_generator.py:91 | `strip` gives the slice of `s` with only whitespace around it and none at its own ends; it is empty exactly when `s` is all whitespace |
| Text.LineEnd | accordion_generator.py:79 | the first line boundary at or after `from`, with none before it, or the end of the string |
| Text.SplitLines | accordion_generator.py:79 | no line of `splitlines` holds a line boundary, and there are no lines exactly when the text is empty |
| Text.SplitAfterLine | accordion_generator.py:79 | a boundary-free line followed by a line feed is the first line of `splitlines`, followed by the lines of what comes after |
| Text.FeedSplit | accordion_generator.py:79 | a lone line feed splits into one empty line |
| Text.FinalFeedSplit | accordion_generator.py:79 | a final line feed ends the last line and starts none after it |
| Text.TrailingFeedsSplit | accordion_generator.py:79 | a second final line feed adds exactly one empty line |
| Text.SplitJoin | accordion_generator.py:39 | splitting lines joined with `\n` gives them back, when none holds a boundary and the last is not empty |
| Text.NatToString | accordion_generator.py:131-132 | the decimal form of an index is never empty |
| Text.ParseNatToString | accordion_generator.py:131-132 | the decimal form of `n` reads back as `n` |
| Text.NatToStringInjective | accordion_generator.py:131-132 | distinct indices have distinct decimal forms |
| Inline.Find | accordion_generator.py:81 | where a lazy `.*?` can stop: the place found is an occurrence of the pattern that follows |
| Inline.FindSpec | accordion_generator.py:81 | that occurrence is the first one reachable without crossing a line feed, and none is found only when no such occurrence exists |
| Inline.MatchLinkShortest | accordion_generator.py:81 | the link match taken is a match with the shortest label and then the shortest url, and there is none exactly when the pattern cannot match |
| Inline.SubLinksKeepsPlainText | accordion_generator.py:81 | a line with no `[` comes through the link rewrite unchanged |
| Inline.SubLinksFirst | accordion_generator.py:176-177 | a first character other than `[` stays first after the link rewrite |
| Inline.SubLinksNoFeed | accordion_generator.py:81 | the link rewrite introduces no line feed |
| Inline.MatchBoldShortest | accordion_generator.py:84 | the bold match taken is the shortest, and there is none exactly when the pattern cannot match |
| Inline.SubBoldKeepsPlainText | accordion_generator.py:84 | a line with no `**` comes through the bold rewrite unchanged |
| Inline.SubBoldNoFeed | accordion_generator.py:84 | the bold rewrite introduces no line feed |
| Inline.AtSlice | accordion_generator.py:84 | an occurrence of a pattern inside a slice is an occurrence in the whole string |
| Inline.AtTail | accordion_generator.py:84 | an occurrence past a prefix is an occurrence in what follows it |
| Inline.BoldFreeSlice | accordion_generator.py:84 | a slice of a string with no bold match has none either |
| Inline.BoldFreeAfter | accordion_generator.py:84 | a prefix with no `**` of its own keeps a string free of bold matches |
| Inline.AtPair | accordion_generator.py:84 | `**` starts at `p` exactly when the characters at `p` and `p + 1` are both `*` |
| Inline.NoPairInside | accordion_generator.py:84 | a `<strong>` element around text with no `**` holds no `**` |
| Inline.AtInside | accordion_generator.py:84 | a `**` in text wrapped by `*`-free tags lies in the text |
| Inline.BoldFreeWrap | accordion_generator.py:84 | wrapping text with no bold match in `*`-free tags leaves it with none |
| Inline.SubBoldKeepsBoldFree | accordion_generator.py:84 | a line with no bold match comes through the bold rewrite unchanged |
| Inline.SubBoldMakesBoldFree | accordion_generator.py:84 | the bold rewrite of a line leaves no bold match |
| Inline.SubBoldIdempotent | accordion_generator.py:84 | a second bold rewrite leaves the first one's output unchanged |
| Inline.RunEnd | accordion_generator.py:19 | the end of the maximal run of non-whitespace starting at `from` |
| Inline.MatchUrlLongest | accordion_generator.py:19-21 | the url match taken is an `http://` or `https://` match and the longest one, and there is none exactly when the pattern cannot match |
| Inline.FormatAnswerKeepsPlainText | accordion_generator.py:17-22 | text holding neither `http://` nor `https://` comes through `format_answer` unchanged |
| Lists.MachineSnoc | accordion_generator.py:79-112 | one more line runs one more loop step from the state the earlier lines left |
| Lists.NestAppend | accordion_generator.py:79-116 | reading the nesting of two runs of fragments reads the first run, then the second from where the first ended |
| Lists.UnbracketAppend | accordion_generator.py:79-116 | removing brackets from two runs removes them from each run |
| Lists.NestCounts | accordion_generator.py:79-116 | a well-nested run holds as many `<ul>` as `</ul>`, allowing for a list open at either end |
| Lists.StepNests | accordion_generator.py:87-112 | one loop step moves `in_list` to its new value and adds exactly the line's fragment besides the brackets |
| Lists.MachineTrail | accordion_generator.py:102-110 | `in_list` is set exactly when the last line was a list item, and the processed lines end with that line's fragment |
| Lists.MachineNests | accordion_generator.py:79-112 | the processed lines are well nested and end inside a list exactly when `in_list` is set |
| Lists.MachineKeeps | accordion_generator.py:79-112 | removing the brackets from the processed lines gives the lines' fragments back, in order |
| Lists.MachineRuns | accordion_generator.py:79-112 | in the processed lines no list is empty and no two lists touch |
| Lists.CloseOffBrackets | accordion_generator.py:79-116 | after the final `</ul>` the result is a bracketing of the fragments, with as many `<ul>` as `</ul>` |
| Lists.MachineUnique | accordion_generator.py:79-116 | any well-nested placement with no empty or touching list is what the loop produces |
| Lists.BracketingUnique | accordion_generator.py:79-116 | a sequence is a bracketing of the fragments if and only if it is the loop's output |
| Converter.RenderAll | accordion_generator.py:89-116 | one processed line per fragment |
| Converter.BreakFeedsKeepsLine | accordion_generator.py:112 | the `<br />` rewrite leaves a string without a line feed unchanged |
| Converter.Contents | accordion_generator.py:79 | one fragment per input line |
| Converter.ContentsAt | accordion_generator.py:79-112 | fragment `i` is what line `i` becomes |
| Converter.LineFragmentsHaveNoBrackets | accordion_generator.py:87-112 | no input line becomes a bracket on its own |
| Converter.ConvertBalanced | accordion_generator.py:79-116 | the fragments both loops build are a bracketing of the lines' fragments: lists never nest, items stand inside a list and everything else outside, no list is empty or touches another, and there are as many `<ul>` fragments as `</ul>` fragments |
| Converter.ConvertIsTheBracketing | accordion_generator.py:166-188 | both loops' output is the only such bracketing |
| Converter.ConvertEmpty | accordion_generator.py:119 | an empty answer converts to the empty string |
| Converter.HeadingPrecedence | accordion_generator.py:87-106 | a line is a heading exactly when it starts with `#`; its level counts up to three leading `#` and its text is what follows them, stripped; a line is a list item exactly when it starts with `-` and not `#` |
| Converter.ClassifyPlain | accordion_generator.py:107-112 | a line starting with neither `#` nor `-` is kept as it stands |
| Converter.RewriteNoFeed | accordion_generator.py:81-84 | the two rewrites introduce no line feed |
| Converter.PlainLineKept | accordion_generator.py:112 | a plain answer line is kept exactly as the rewrites leave it, because the `<br />` rewrite never fires on a line of `splitlines` |
| Converter.StripBoldFree | accordion_generator.py:91-106 | the stripped text of a heading or item has no bold match when its line had none |
| Converter.PlainHtmlStable | accordion_generator.py:79-112 | a plain converted line converts again to itself |
| Converter.ItemHtmlStable | accordion_generator.py:102-110 | a converted list item converts again to itself, as a plain line |
| Converter.HeadingHtmlStable | accordion_generator.py:87-101 | a converted heading converts again to itself, as a plain line |
| Converter.TagStable | accordion_generator.py:89-116 | a tag such as `<ul>` converts again to itself, as a plain line |
| Converter.BracketsStable | accordion_generator.py:89-116 | the `<ul>` and `</ul>` lines convert again to themselves |
| Converter.ConvertedLineStable | accordion_generator.py:79-112 | converting a converted line again gives it back, as a plain line, when its html holds no `[` |
| Converter.NonItemsPass | accordion_generator.py:87-116 | lines none of which is a list item pass the loop unchanged: `in_list` stays unset and no `<ul>` or `</ul>` is added, not even at the end |
| Converter.PlainLinesConvert | accordion_generator.py:79-116 | a plain line, alone or followed by an empty line, converts to itself |
| Converter.TrailingEmptyLineNotStable | accordion_generator.py:79-119 | an answer ending in an empty line loses that line on a second conversion |
| Converter.RewriteKeepsMarkupFreeLine | accordion_generator.py:81-84 | a line with neither `[` nor `**` reaches the classification as typed |
| Converter.LinksModeDash | accordion_generator.py:171-177 | the `-` test before the link rewrite agrees with the same test after it, and the item text is the rewritten rest of the line, stripped |
| Converter.RenderAllAppend | accordion_generator.py:89-116 | rendering two runs of fragments renders each run |
| Converter.HeadingTags | accordion_generator.py:91-101 | heading levels 1 to 3 render as `<h1>` to `<h3>` around the text |
| Converter.HeadingTag | accordion_generator.py:91-101 | a heading of level `n` renders with the tag `h` followed by `n` |
| Converter.RenderStep | accordion_generator.py:87-112 | what one loop step appends to the processed lines |
| Converter.LoopStep | accordion_generator.py:79-112 | the loop state after one more line, from the state before it |
| Converter.LoopEnd | accordion_generator.py:115-116 | closing a list still open at the end gives the rendering of the closed fragments |
| Converter.AnswerLine | accordion_generator.py:87-112 | one pass of the answer loop's body appends exactly the line's step and sets `in_list` to its new value |
| Converter.ConvertAnswer | accordion_generator.py:76-119 | the answer loop returns `ConvertText(Full, answer)`, which the lemmas above characterise |
| Converter.LinksLine | accordion_generator.py:171-184 | one pass of the links loop's body appends exactly the line's step and sets `in_list` to its new value |
| Converter.ConvertLinks | accordion_generator.py:166-191 | the links loop returns `ConvertText(LinksOnly, input)` |
| Accordion.ImageTagsAppend | accordion_generator.py:126-128 | the snippets of two runs of urls are the snippets of each run in order, and nothing else |
| Accordion.ImageTagsSingle | accordion_generator.py:128 | one url adds exactly its own snippet |
| Accordion.AppendImages | accordion_generator.py:124-128 | the image loop appends the snippets of the urls in order, and with no url leaves the answer unchanged |
| Accordion.IdsDistinct | accordion_generator.py:131-132 | distinct indices give distinct heading ids and distinct collapse ids, and no heading id is a collapse id |
| Accordion.FillSnoc | accordion_generator.py:138-153 | each value lands between the pieces on either side of it |
| Accordion.Bodies | accordion_generator.py:76-128 | one item body per entry |
| Accordion.Items | accordion_generator.py:131-135 | one item per entry |
| Accordion.RenderItems | accordion_generator.py:138-153 | one rendered item per item |
| Accordion.ItemsSnoc | accordion_generator.py:64 | one more entry adds its item, numbered by its position, at the end |
| Accordion.RenderAppend | accordion_generator.py:138-153 | rendering two runs of items renders each run in turn |
| Accordion.BodiesAppend | accordion_generator.py:64-128 | the bodies of two runs of entries are the bodies of each run |
| Accordion.EntryBecomesItem | accordion_generator.py:119-135 | item `i` has the ids numbered `i`, entry `i`'s question, and as its body that entry's converted answer followed by its image snippets |
| Accordion.ItemIdsDistinct | accordion_generator.py:131-132 | no two items share a heading id or a collapse id, and no heading id is a collapse id |
| Accordion.OnlyFirstShown | accordion_generator.py:135 | an item's class is `accordion-collapse collapse show` exactly when it is the first item, and `accordion-collapse collapse` otherwise |
| Accordion.AccordionFrame | accordion_generator.py:62-157 | the output is the wrapper opening, then the items in order, then `</div>`; with no entries it is just the opening and `</div>` |
| Accordion.AnswerWithoutImages | accordion_generator.py:124 | with no images, an item's body is just the converted answer |
| Accordion.BuildItem | accordion_generator.py:73-153 | one pass of the item loop gives the entry's body and the item filled with index `i` |
| Accordion.Assemble | accordion_generator.py:61-157 | the loop's output, on any item skeleton, is the accordion defined by `AccordionWith` |
| Accordion.GenerateAccordion | accordion_generator.py:61-157 | `generate_accordion` returns `AccordionHtml`, the accordion on the generator's own item skeleton |
| Accordion.ChooseIdSpec | accordion_generator.py:197-201 | a blank identifier is replaced by the first four characters of the generated one, and any other is kept exactly as typed |
| Input.PairFrom | accordion_generator.py:29-34 | the first pair of consecutive empty lines at or after `from`, or none |
| Input.StopAt | accordion_generator.py:29-34 | reading stops at the line completing the first pair of consecutive empty lines, and at no earlier line; it does not stop when there is no pair |
| Input.StopAtFirstPair | accordion_generator.py:29-34 | the first pair is where reading stops |
| Input.NonEmptyKeepsNoEmpty | accordion_generator.py:35-37 | no empty line is kept |
| Input.NonEmptyFromInput | accordion_generator.py:35-37 | only typed lines are kept |
| Input.NonEmptyKeepsAll | accordion_generator.py:35-37 | non-empty lines are all kept, in order |
| Input.NonEmptyAppend | accordion_generator.py:35-37 | filtering two runs of lines filters each run in turn |
| Input.CollectLines | accordion_generator.py:24-39 | the reading loop returns `Collect(input)`: the non-empty lines before the first pair, joined with `\n` |
| Input.CollectIgnoresRest | accordion_generator.py:32-33 | lines typed after the stopping pair make no difference |
| Input.CollectTypedLines | accordion_generator.py:29-39 | non-empty lines followed by two empty lines give those lines joined with `\n`, and the empty string when there are none |
| Input.CollectSplits | accordion_generator.py:39 | the collected text splits back into exactly the kept lines, none of them empty |

## Left out

- Prompts, re-prompts and validation loops are not modelled: the question
  loop (lines 65-70), `get_positive_integer` and `get_non_negative_integer`.
  An entry's question, answer and image urls are given as values, as they
  stand once the user's input has been accepted.
- The `y/n` answer to the image question is not modelled. An entry with no
  images stands for any answer whose stripped, lower-cased form is not `y`,
  and also for `y` followed by zero images.
- `uuid.uuid4()` is randomness. `ChooseId` takes the generated identifier as a
  parameter.
- Console output, the file written by `main`, and the `sys.argv` test that
  chooses between the two modes are not modelled.
- Input.CollectLines: when the input ends before two consecutive empty lines,
  Python's `input()` raises `EOFError`. The model returns None there.
- Python's regular-expression engine is modelled only for the three patterns
  the script uses, by a scanner proved against each pattern's possible
  matches. It is not a general engine.
- A typed line that reads `<ul>` or `</ul>` is kept as a plain line. It is
  not counted as a bracket, so the `<ul>` and `</ul>` count holds for the
  fragments and not for the output text.
- Converting an answer a second time is proved to give back each line,
  as `ConvertedLineStable` and `BracketsStable` state. It does not give back
  every whole answer. A final empty line is dropped on the second pass, as
  `TrailingEmptyLineNotStable` shows. A link whose label or url holds `[` may
  also match again.
- Characters are Unicode code points, as in Python's `str`. Encodings and
  surrogate pairs are not modelled.
- Accordion.GenerateAccordion: its contract is stated through `AccordionHtml`.
  The structure of the output (wrapper, items in order, ids, classes, bodies)
  is proved over an arbitrary item skeleton, through `AccordionFrame`,
  `EntryBecomesItem`, `ItemIdsDistinct` and `OnlyFirstShown`. No lemma spells
  out the generator's own skeleton text character by character.
