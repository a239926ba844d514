# Discord command bot: verified model of its decision and text-shaping rules

The bot (`bot.py`) answers slash commands on Discord. Most commands fetch JSON from a
third-party API and format it into an embed. This project models the rules that decide
what the command handlers do once the Discord objects are replaced by plain values.
Strings become `string`, integers become `int`, flags become `bool`, and channels and
roles become lists of names. Each rule is proved against what the code promises.

- **Calculator** (`Calculator`, `/kalkulator`). Spaces are stripped and the text is
  validated against `^[0-9+\-*/.()√π^% ]+$`. Then `√` becomes the name `sqrt`, `π`
  the literal `3.14159265359` and `^` the operator `**`, and the text goes to `eval`.
  `sqrt` works only before `(`: `√16` reaches `eval` as the undefined name `sqrt16`,
  and `2π` as the single literal `23.14159265359`. The reply shows the original text with
  `*`→`×`, `/`→`÷`, `sqrt`→`√` and `3.14159265359`→`π`.
- **Random number** (`RandomNumber`, `/acakangka`). The bounds are put in order.
  Spans over 1,000,000 are refused. The number of possible values is reported.
- **Ping** (`Ping`). The latency is sorted into four statuses, each with a label and a
  colour.
- **Anime and quote embeds** (`EmbedFields`). A synopsis over 500 characters is cut to
  500 characters plus `...`. Genres are capped at 5, studios at 3 and quote tags at 3.
- **User info** (`UserInfo`). The roles field skips `@everyone`, shows at most 10
  roles and then adds an `... and N more` marker. The key-permissions list has a fixed
  order of six names and shows at most five.
- **Welcome and goodbye** (`MemberEvents`). The channel is the first text channel whose
  lower-cased name contains a keyword. Otherwise it is the system channel. Otherwise it
  is the first text channel.

`PyStr` models the Python built-ins these rules use: `str.replace`, `str.join`,
`str.lower`, the substring test `in`, slicing `[:n]` and `str(n)` for counts.
`Wrappers` holds `Option` and `Result`.

Python's `eval` is not modelled as an arithmetic evaluator: `Calculator.Kalkulator`
takes it as a parameter, a function from the rewritten text to its outcome. The draw
of `random.randint` is an arbitrary choice inside the range it documents.
The code has no tokenizer or parser; Python's `eval` does the arithmetic.

## Model

| member | source | states |
|---|---|---|
| `Calculator.Kalkulator` | bot.py:739-854 | Invalid characters are reported exactly when validation fails. Otherwise the oracle gets the space-stripped, rewritten text. Each outcome maps to its reply: a value, `ZeroDivisionError`, `ValueError` or any other exception. A result's display text has no `*` or `/`. |
| `Calculator.StripSpaces` | bot.py:743 | Definition of `operasi.replace(" ", "")`; its properties are `PyStr.ReplaceCharRemoves`, `PyStr.ReplaceCharKeepsOther` and `Calculator.TabRejected`. |
| `Calculator.PatternMatches` | bot.py:742-745 | Definition of `allowed_chars.match` as a greedy run followed by `$`; its properties are `Calculator.GreedyRunSuffices` and `Calculator.AcceptedIff`. |
| `Calculator.Accepted` | bot.py:742-745 | Definition of the validation test on the space-stripped text; its properties are `Calculator.AcceptedIff`, `Calculator.AcceptedCharacters` and `Calculator.OneTrailingNewline`. |
| `Calculator.Rewrite` | bot.py:765-767 | Definition of the three replacements in source order; its properties are `Calculator.RewriteIsPerCharacter`, `Calculator.RewriteRemovesSymbols` and `Calculator.RewriteOrderIrrelevant`. |
| `Calculator.Display` | bot.py:798-803 | Definition of the display chain; its properties are `Calculator.DisplayHasNoStarOrSlash`, `Calculator.DisplayKeepsSpaces` and `Calculator.DisplayOfAccepted`. |
| `Calculator.AllowedRunLength` | bot.py:742 | The greedy `[...]+` consumes a prefix of allowed characters and stops at the first character outside the class. |
| `Calculator.GreedyRunSuffices` | bot.py:742-745 | Backtracking adds nothing: any split into an allowed run and an end anchor is found by the greedy run. |
| `Calculator.AcceptedIff` | bot.py:742-745 | Input is accepted iff the space-stripped text is non-empty and all allowed, or is such a text followed by one newline. |
| `Calculator.AcceptedCharacters` | bot.py:742-745 | Every character of accepted input is a space, an allowed character or the final newline. |
| `Calculator.RejectsForeignCharacter` | bot.py:742-745 | Any character outside the class, other than the space and a newline, gets the input rejected. |
| `Calculator.TabRejected` | bot.py:743-745 | Only the ASCII space is stripped, so text containing a tab is rejected. |
| `Calculator.OneTrailingNewline` | bot.py:742-745 | `$` tolerates one trailing newline after accepted text, but not two. |
| `Calculator.RewriteIsPerCharacter` | bot.py:765-767 | The rewrite equals rewriting each character on its own. `√`→`sqrt`, `π`→`3.14159265359`, `^`→`**`, and every other character is kept, in order. |
| `Calculator.RewriteRemovesSymbols` | bot.py:765-767 | After the rewrite the text contains no `√`, `π` or `^`. |
| `Calculator.RewriteOrderIrrelevant` | bot.py:765-767 | All six orders of the three replacements give the same text. |
| `Calculator.EvaluatorAlphabet` | bot.py:742-785 | Accepted input reaches `eval` made only of allowed characters, the letters of `sqrt` and a final newline. It has no `√`, `π`, `^` or space. |
| `Calculator.ExpandEachSource` | bot.py:765-767 | Each character of the rewritten text comes from one character of the input. |
| `Calculator.DisplayHasNoStarOrSlash` | bot.py:798-803 | The display text never contains `*` or `/`, whatever the input. |
| `Calculator.DisplayKeepsSpaces` | bot.py:798-803 | The display is built from the original text: it has as many spaces as the input. |
| `Calculator.DisplayOfAccepted` | bot.py:798-803 | On accepted input the `sqrt`→`√` step changes nothing. Only a literally typed `3.14159265359` becomes `π`. |
| `Calculator.ExampleAccepted` | bot.py:758 | `2+3*4` from the help text is accepted. |
| `Calculator.ExampleRejected` | bot.py:742-745 | `2;3` is rejected. |
| `Calculator.ExampleRewrite` | bot.py:765-767 | `√16+5^2` from the help text reaches `eval` as `sqrt16+5**2`. |
| `Calculator.RootBeforeNumeralIsName` | bot.py:765-785 | As written, a `√` with a numeral after it leaves a `sqrt` that is not called: the `t` is followed by the numeral, not by `(`. |
| `Calculator.IntendedRewrite` | bot.py:765-767 | Corrected rewrite: `√` before a numeral becomes `sqrt(numeral)`; its properties are `Calculator.IntendedRewriteCallsSqrt` and `Calculator.IntendedAgreesWithoutRoot`. |
| `Calculator.IntendedRewriteCallsSqrt` | bot.py:758-785 | On validated text where every `√` is followed by a numeral or `(`, the corrected rewrite calls every `sqrt` it produces. |
| `Calculator.IntendedAgreesWithoutRoot` | bot.py:765-767 | On text without `√`, the corrected rewrite and the code's rewrite agree. |
| `Calculator.ExampleIntendedRewrite` | bot.py:758 | The help text's `√16+5^2` becomes `sqrt(16)+5**2` under the corrected rewrite. |
| `Calculator.ExamplePiAfterDigit` | bot.py:766 | `2π` reaches `eval` as the one literal `23.14159265359`, not as a product. |
| `RandomNumber.AcakAngka` | bot.py:861-912 | Refused iff the span exceeds 1,000,000. Otherwise the bounds end up ordered, with the low one equal to one of the inputs. The draw lies in the range, and `total_possibilities` is the size of the range, between 1 and 1,000,001. |
| `RandomNumber.IntRange` | bot.py:883 | Definition of the set of integers from `lo` to `hi`; its properties are `RandomNumber.IntRangeMembers` and `RandomNumber.RangeSize`. |
| `RandomNumber.IntRangeMembers` | bot.py:883 | The range set holds exactly the integers `randint(lo, hi)` may return. |
| `RandomNumber.RangeSize` | bot.py:896 | `max_val - min_val + 1` is the number of integers in the range. |
| `RandomNumber.WidestServedRangeExceedsMessage` | bot.py:868-871 | A span of exactly 1,000,000 is served, and its range holds 1,000,001 values, one more than the refusal message announces. |
| `RandomNumber.IntendedTooLarge` | bot.py:868-871 | Corrected test: a range is refused iff it holds more than 1,000,000 values. |
| `RandomNumber.IntendedDiffersOnlyAtWidestSpan` | bot.py:868 | The code's test and the corrected one disagree only on a span of exactly 1,000,000. |
| `Ping.Classify` | bot.py:949-960 | Total over integers: `<100` Excellent, `<200` Good, `<300` Fair, else Poor. Each status comes with its label and colour (0x00FF00, 0xFFFF00, 0xFFA500, 0xFF0000). |
| `Ping.ClassifyMonotone` | bot.py:949-960 | A higher latency never gives a better status. |
| `Ping.ColourDeterminesStatus` | bot.py:949-960 | The four colours are distinct, so the colour identifies the status. |
| `EmbedFields.SynopsisDescription` | bot.py:214-218 | A missing synopsis gives the placeholder text and a `null` one gives no description. A text of at most 500 characters is kept unchanged. A longer one becomes its first 500 characters plus `...`, 503 characters in all. |
| `EmbedFields.SynopsisIdempotent` | bot.py:214-218 | Cutting a description that was already cut changes nothing. |
| `EmbedFields.SynopsisBounded` | bot.py:214-218 | No description is longer than 503 characters. |
| `EmbedFields.IntendedSynopsisDescription` | bot.py:214-218 | Corrected rule: the placeholder text for a missing or `null` synopsis, never longer than 503 characters, and otherwise the same as the code. |
| `EmbedFields.NullSynopsisLosesPlaceholder` | bot.py:214-218 | As written, a `null` synopsis gives no description where the placeholder was intended. |
| `EmbedFields.IntendedDiffersOnlyOnNull` | bot.py:214-218 | The code and the corrected rule differ exactly on a `null` synopsis. |
| `EmbedFields.GenreField` | bot.py:280-282 | The field exists iff the genre list is non-empty. It joins the first five genres, and its text is a prefix of the text of all genres. |
| `EmbedFields.StudioField` | bot.py:285-287 | The same rule with the first three studios. |
| `EmbedFields.TagsField` | bot.py:344-347 | The field exists iff the answer has a `tags` key, even when the list is empty. It joins the first three tags, a prefix of all tags. |
| `PyStr.Take` | bot.py:281 | `xs[:n]` is a prefix of `xs` of length `min(n, len(xs))`. |
| `PyStr.JoinTakeIsPrefix` | bot.py:282 | Joining a capped list gives the start of joining the whole list. |
| `PyStr.Replace` | bot.py:743-803 | Definition of `str.replace`: left to right, without overlaps; its properties are `PyStr.ReplaceAbsent`, `PyStr.ReplaceCharRemoves`, `PyStr.ReplaceKeepsAbsent`, `PyStr.ReplaceKeepsCount`, `PyStr.ReplaceCharKeepsOther` and `PyStr.ReplaceCharCommute`. |
| `PyStr.Join` | bot.py:282 | Definition of `sep.join(parts)`; its property is `PyStr.JoinTakeIsPrefix`. |
| `PyStr.Contains` | bot.py:1176-1177 | Definition of the substring test `in`; its properties are `PyStr.ContainsFromOccurrence` and `PyStr.OccurrenceFromContains`. |
| `PyStr.ReplaceCharCommute` | bot.py:765-767 | Two single-character replacements commute when neither one introduces the other's target. |
| `PyStr.ReplaceAbsent` | bot.py:801 | A pattern whose first character does not occur is never replaced. |
| `PyStr.ReplaceCharRemoves` | bot.py:765-767 | Replacing a character by text without it removes every occurrence. |
| `PyStr.ReplaceKeepsAbsent` | bot.py:798-803 | A replacement never introduces a character found in neither the text nor the replacement. |
| `PyStr.ReplaceKeepsCount` | bot.py:798-803 | A replacement whose pattern and replacement lack a character keeps that character's count. |
| `PyStr.ReplaceCharKeepsOther` | bot.py:743 | Removing spaces keeps every other character. |
| `PyStr.Lower` | bot.py:1177 | `lower()` keeps the length and lowers each ASCII letter in place. |
| `PyStr.ContainsFromOccurrence` | bot.py:1176-1177 | `needle in haystack` holds when the needle occurs at some index. |
| `PyStr.OccurrenceFromContains` | bot.py:1176-1177 | `needle in haystack` holds only when the needle occurs at some index. |
| `PyStr.NatToString` | bot.py:1123 | `str(n)` is a non-empty string of decimal digits. |
| `PyStr.NatToStringRoundTrip` | bot.py:1123 | Reading back `str(n)` gives `n`. |
| `PyStr.NatToStringInjective` | bot.py:1126 | Different counts are never shown alike. |
| `UserInfo.RolesField` | bot.py:1120-1129 | The field exists iff the user has a role besides `@everyone`. Up to 10 roles, it shows the roles after the first, in order. Beyond that, it shows roles 2 to 11 and an `... and N more` marker, where N is the number of roles left out. It has at most 11 entries. The title counts `n - 1` roles, and the `"No roles"` branch is never taken. |
| `UserInfo.MarkerCountsOmitted` | bot.py:1122-1123 | The marker's count `n - 11` is exactly the number of roles left out, and it reads back as that number. |
| `UserInfo.RolesTitleCountsAllRoles` | bot.py:1121-1126 | The number in the title reads back as the count of roles besides `@everyone`, so it exceeds the 11 entries shown once more than 11 are left. |
| `UserInfo.RolesTitle` | bot.py:1126 | Definition of `f"🎭 Roles ({count})"`; its property is `UserInfo.RolesTitleCountsAllRoles`. |
| `UserInfo.MoreMarker` | bot.py:1123 | Definition of `f"... and {omitted} more"`; its property is `UserInfo.MarkerCountsOmitted`. |
| `UserInfo.Selected` | bot.py:1134-1147 | Selecting names by flags keeps at most as many names as there are flags. |
| `UserInfo.KeyPermissionsField` | bot.py:1133-1152 | The successive appends build exactly the names whose flags are set, in the fixed order. The field exists iff that list is non-empty and joins its first five names. |
| `UserInfo.SelectedSix` | bot.py:1134-1147 | Selecting over six names is six successive conditional appends. |
| `UserInfo.SelectedMembers` | bot.py:1134-1147 | A name is listed iff its flag is set. |
| `UserInfo.SelectedIsSubsequence` | bot.py:1134-1147 | The listed names are a subsequence of the fixed order. |
| `UserInfo.KeyPermsWrittenOut` | bot.py:1134-1147 | The key-permission list written out over the six flags. |
| `UserInfo.KeyPermListedIffFlag` | bot.py:1134-1147 | Each of the six key permissions is listed iff its flag is set. |
| `UserInfo.KeyPermsFieldIffAnyFlag` | bot.py:1149-1152 | The field is added iff at least one of the six flags is set. |
| `UserInfo.AllKeyPermsDropsBan` | bot.py:1149-1152 | With all six flags set, the field shows the first five names and drops "Ban Members". |
| `UserInfo.FewKeyPermsAllShown` | bot.py:1149-1152 | With any flag unset, every listed name is shown. |
| `MemberEvents.NameMatches` | bot.py:1176-1179 | Definition of `any(name in channel.name.lower() for name in keywords)`; its properties are `PyStr.Lower`, `PyStr.ContainsFromOccurrence` and `PyStr.OccurrenceFromContains`. |
| `MemberEvents.FirstMatch` | bot.py:1175-1181 | Reference search: the index of a channel whose lower-cased name contains a keyword, with no earlier channel matching; or none when no channel matches. |
| `MemberEvents.SelectChannel` | bot.py:1175-1187 | The `for … break` loop picks the first matching channel. Without a match it takes the system channel, then `text_channels[0]`. With no channels and no system channel it fails, as the `IndexError` caught at bot.py:1231 and bot.py:1274. |
| `MemberEvents.WelcomeChannel` | bot.py:1175-1187 | Join uses welcome/general/lobby/main. The first matching channel is chosen. Without a match it is the system channel, then `text_channels[0]`, and it is missing only when the guild has neither. |
| `MemberEvents.GoodbyeChannel` | bot.py:1242-1253 | The same choice and fallback order with goodbye/leave/general/lobby. |

## Findings

| source | as written | input that shows it | evidently intended | confidence | as-written member | corrected member |
|---|---|---|---|---|---|---|
| bot.py:214-218 | `anime.get("synopsis", "Tidak ada sinopsis tersedia.")` falls back only when the key is missing. | An anime whose JSON has `"synopsis": null` gets an embed with no description. | The placeholder "Tidak ada sinopsis tersedia." whenever there is no synopsis. | medium, not executed | `EmbedFields.NullSynopsisLosesPlaceholder` | `EmbedFields.IntendedSynopsisDescription` |
| bot.py:765-785 | `√` is replaced by the bare name `sqrt`, with no call parentheses. | The help text's own example `/kalkulator √16 + 5^2` (bot.py:758) reaches `eval` as `sqrt16+5**2`. `sqrt16` is undefined, so the NameError ends in the generic "Error dalam Kalkulasi" reply. | `√16` is `sqrt(16)`. | high, not executed | `Calculator.RootBeforeNumeralIsName` | `Calculator.IntendedRewriteCallsSqrt` |
| bot.py:868-871 | A range is refused only when `abs(max_val - min_val) > 1000000`. | `/acakangka 0 1000000` is served with 1,000,001 possible values, while the refusal says "Range maksimal adalah 1,000,000 angka". | At most 1,000,000 values are offered. | low, not executed | `RandomNumber.WidestServedRangeExceedsMessage` | `RandomNumber.IntendedTooLarge` |

## Left out

- `eval`, `math.sqrt` and the restricted namespace (bot.py:770-785) are Python's own evaluator over floats. They are the parameter `evaluate` of `Calculator.Kalkulator`.
- Result formatting with `is_integer` and `round(result, 8)` (bot.py:788-792) and the scientific notation (bot.py:811-814) are float formatting. They are folded into the oracle's `Value(formatted)`.
- `Calculator.IntendedRewrite` corrects only the root sign. `2π` is glued to the digit before it in the same way, but no help-text example writes it, so no corrected form is given. `Calculator.Kalkulator` keeps the code's rewrite.
- `Ping.Classify` takes the latency already rounded; `round(bot.latency * 1000)` (bot.py:946) reads the SDK and is not modelled.
- `RandomNumber.AcakAngka` does not render the `{:,}` thousands separators (bot.py:888-899), which are presentation only.
- `MemberEvents.SelectChannel` lowers ASCII letters only; Python's `str.lower` covers all of Unicode.
- `Calculator.Kalkulator` does not model the Discord message options; the reply datatype stands for the embed sent.
- `UserInfo.RolesField` and `UserInfo.KeyPermissionsField` assume a `discord.Member`; the `hasattr` checks (bot.py:1120, 1132) for plain users are not modelled.
- `EmbedFields.GenreField` and `EmbedFields.StudioField` take a plain list. A missing key, `null` and an empty list are all falsy and give no field, so they share the empty list. A `null` tags value in the quote answer (which would raise) is not modelled.
- HTTP and JSON plumbing (`fetch_api`, bot.py:88-106), and the request flow of the meme, quote, catfact, dog, anime, weather and crypto commands, are network I/O.
- Weather and crypto number formatting (bot.py:491-505, 1422-1467) is float formatting.
- The welcome banner (bot.py:40-84) is drawn by an image library.
- Embeds, sending, command sync and the server-info counts (bot.py:980-993) are Discord SDK calls.
- `random.choice` of greetings and fallback quotes (bot.py:381, 926) has nothing to verify.
- The error handlers (bot.py:1280-1335) only shorten `str(error)` and send it.
