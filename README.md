# Menu voice assistant: dialogue core and menu post-cleaning

This project models two pieces of a bilingual (Arabic/English) restaurant-menu
editor in Dafny and proves properties of them.

- **The voice agent `MyAgent`** (`src/voice_assistant.py`). It is a slot-filling
  state machine. It turns spoken turns into add, update and delete commands on
  the menu-edit channel, and emits a command only after the user confirms with
  "yes". It also finds the item a user names by fuzzy bilingual matching
  against the current menu snapshot, and it renders the next question or the
  confirmation summary.
- **The post-cleaning step of the menu extractor** (`src/extract_menu.py`).
  This step takes the rows a document extractor produced, removes the
  `*_citations` keys, normalizes the four text fields, reads the price, drops
  empty rows, and returns `{"items": [...]}`.

Layout, leaf first:

| file | module | what it holds |
|---|---|---|
| `wrappers.dfy` | `Wrappers` | `Option` |
| `chars.dfy` | `Chars` | the character classes behind `\s`, `\w`, `\d`, `lower()` |
| `text.dfy` | `Text` | `strip()`, `re.sub(r"\s+", " ", ...)`, `split()`, `in` on strings |
| `numbers.dfy` | `Numbers` | the scan `[-+]?\d+(?:\.\d+)?` and the exact value `float()` reads |
| `json.dfy` | `JsonValues` | decoded JSON values, `dict.get`, Python truthiness |
| `menu_model.dfy` | `MenuModel` | the five menu fields, their order, edit payloads |
| `utterance.dfy` | `Utterance` | the text helpers of `MyAgent`: normalizer, yes/no, intents, price, value cleaner, field choice |
| `menu_match.dfy` | `MenuMatch` | `_find_menu_item_match` as a specification |
| `commands.dfy` | `MenuCommands` | the payloads of the three tools and of the two guided flows |
| `flow.dfy` | `DialogueFlow` | the flow state, one user turn (`Turn`), the reply (`Render`) and their properties |
| `agent.dfy` | `VoiceAssistant` | class `MyAgent`, whose methods update its fields and are proved equal to the specification functions |
| `extract.dfy` | `MenuExtraction` | `_strip_citations`, `_normalize_text`, `_parse_price` and the cleaning loop |

The agent is a class whose fields the source updates in place: the menu
snapshot, the active flow, the forced reply and whether a participant is
attached. The field `published` records what went out on the menu-edit
channel.

Every method states its new state in terms of a specification function of the
old state. The properties of the dialogue are proved about those functions:

- a command is published only on a "yes" at a confirmation step;
- "cancel"/"stop" always ends the flow;
- the add flow asks the fields in order and skips filled ones;
- the flow invariant is preserved by every turn.

Python crashes that the code can reach (an `AttributeError` on a non-dict menu
snapshot or on a non-string item name) are modelled as an explicit `Raises` /
`Raised` outcome. After one, the session is left unchanged.

Inside the guided flows, the status string returned by
`_send_menu_edit` is discarded, so "Menu edit channel is not available yet."
is never spoken there. The flow still says "Item added successfly thank you!."
or "Item updated." even when nothing was published. Only the three tools
return the status.

## Model

| member | source | states |
|---|---|---|
| Text.Strip | src/voice_assistant.py:88 | `strip()` leaves a text no longer than its input with no whitespace at either end |
| Text.CollapseStripIsJoinSplit | src/voice_assistant.py:88 | stripping then collapsing whitespace runs equals joining the whitespace-separated words with single spaces |
| Text.SplitJoinRoundTrip | src/voice_assistant.py:171-172 | splitting words joined by single spaces gives back the same words |
| Text.JoinWordsShape | src/voice_assistant.py:88 | joined words are single-spaced and empty exactly when there are no words |
| Text.SplitEmptyIffBlank | src/voice_assistant.py:150-151 | a text has no words exactly when it is all whitespace |
| Text.ContainsTransitive | src/voice_assistant.py:168 | substring containment is transitive |
| Numbers.TokenAt | src/voice_assistant.py:110 | the token read at a match start is well formed, spells the text at that position, and is maximal: no digit follows it, and no `.digit` follows a token without a fraction |
| Numbers.FindNumberFrom | src/voice_assistant.py:110 | `re.search` finds the leftmost position where a number starts, or reports that there is none |
| Numbers.FirstNumberIffDigit | src/voice_assistant.py:110-112 | a number is found exactly when the text holds a decimal digit |
| JsonValues.Lookup | src/voice_assistant.py:157-158 | `dict.get` finds a value exactly when the key is present, and the value is the one stored under that key |
| MenuModel.FieldOrderRanks | src/voice_assistant.py:182 | the field order holds five fields and each field sits at the position of its rank, so each appears exactly once |
| Utterance.NormalizeShape | src/voice_assistant.py:86-88 | normalized text is single-spaced and holds only spaces and lower-case word or Arabic-block characters |
| Utterance.NormalizeEmptyIff | src/voice_assistant.py:86-88 | normalization gives the empty text exactly when every character is blanked or is whitespace |
| Utterance.NormalizeIdempotent | src/voice_assistant.py:86-88 | normalizing twice is normalizing once |
| Utterance.NormalizedNonEmptyHasContent | src/voice_assistant.py:247-249 | a text whose normalization is non-empty is not blank after `strip()` |
| Utterance.YesNoIgnoreSurface | src/voice_assistant.py:90-101 | the yes/no answer depends only on the normalized text |
| Utterance.WholeWordInOneWord | src/voice_assistant.py:90-101 | inside a run of word characters `\b…\b` can only match the whole run |
| Utterance.OneWordMatchesIff | src/voice_assistant.py:90-101 | a text of word characters holds one of the words as a whole word exactly when it is one of them |
| Utterance.OneWordYesNo | src/voice_assistant.py:90-101 | an utterance normalizing to one word is a yes exactly when the word is a yes word, and a no exactly when it is a no word |
| Utterance.NormalizeLowerWord | src/voice_assistant.py:86-88 | a word of lower-case ASCII letters normalizes to itself |
| Utterance.YesInsideWordIgnored | src/voice_assistant.py:90-101 | "eyes", holding "yes" and "y" only inside a word, is neither a yes nor a no |
| Utterance.PunctuatedYes | src/voice_assistant.py:86-97 | "OK." is a yes: it is lowered and the full stop is blanked and stripped |
| Utterance.ParsePrice | src/voice_assistant.py:109-116 | a price is read exactly when the utterance holds a decimal digit |
| Utterance.AddIntentIff | src/voice_assistant.py:118-120 | the add intent holds exactly when the normalized text contains "add" or "new item" ("add item" adds nothing) |
| Utterance.AddInsideWordIsAddIntent | src/voice_assistant.py:118-120 | "add" inside a longer word (e.g. "address") also counts as the add intent |
| Utterance.AddQuestionInjective | src/voice_assistant.py:126-134 | each field has its own add-flow question |
| Utterance.CleanValueOccursIn | src/voice_assistant.py:136-141 | the cleaned value is a contiguous part of what was said |
| Utterance.CleanValueEdges | src/voice_assistant.py:136-141 | the cleaned value is empty or starts with a letter or digit and does not end in whitespace |
| Utterance.FieldChoice | src/voice_assistant.py:189-201 | a chosen field's phrase occurs in the normalized text |
| Utterance.FieldChoiceIsFirstMentioned | src/voice_assistant.py:189-201 | when a field's phrase occurs, a field is chosen and it is that one or one checked earlier |
| MenuMatch.Score | src/voice_assistant.py:167-175 | a score above 3 needs a name and query with neither inside the other; the preferred language always scores at least 1 |
| MenuMatch.IsExactIff | src/voice_assistant.py:157-166 | an item is an exact hit exactly when its normalized Arabic or English name equals the query |
| MenuMatch.ExactMatchWins | src/voice_assistant.py:164-166 | an exact hit ends the search with that item when no earlier item crashes or hits |
| MenuMatch.UnreadableNameRaises | src/voice_assistant.py:157-158 | reaching an item whose name is truthy but not a string raises, when no earlier item crashes or hits |
| MenuMatch.BestScoreWins | src/voice_assistant.py:167-179 | without exact hits, the result is the first item with the highest score above the running best, or the running best when none beats it |
| MenuMatch.ScanIsPick | src/voice_assistant.py:154-179 | over items that neither raise nor hit exactly, the scan ends on what `PickBest` keeps from the items' scores, or on nothing when that score is 0 |
| MenuMatch.PickKeeps | src/voice_assistant.py:176-178 | when no score beats the running score, the running best and its score are kept |
| MenuMatch.PickFirst | src/voice_assistant.py:176-178 | when some score beats the running score, the kept item is the first of highest score, with that score: a later tie does not replace it |
| MenuMatch.MatchMenuNothing | src/voice_assistant.py:143-151 | no result for an empty snapshot, for `items` that is not a list, or for a query that normalizes to nothing; a truthy non-dict snapshot raises |
| MenuMatch.MatchMenuFound | src/voice_assistant.py:143-179 | a found item is one of the snapshot's items and has a non-empty readable name |
| MenuMatch.MatchMenuExact | src/voice_assistant.py:154-166 | the first exact hit is returned when the items before it neither crash nor hit |
| MenuMatch.MatchMenuBest | src/voice_assistant.py:152-179 | without crashes or exact hits, nothing is found exactly when every score is 0; otherwise the result is the first item of highest score |
| MenuMatch.MatchMenuScans | src/voice_assistant.py:143-154 | with a dict snapshot whose `items` is a list and a query that normalizes to something, the matcher is the scan of that list from no best and score 0 |
| MenuCommands.Given | src/voice_assistant.py:449-452 | `value or None`: a string is kept exactly when it is non-empty |
| MenuCommands.MatchFor | src/voice_assistant.py:471-478 | `"ar"` matches by Arabic name only, `"en"` by English name only, anything else by both, always with the given name |
| MenuCommands.AddPayload | src/voice_assistant.py:435-456 | `add_menu_item` sends every text field, an empty argument as null, and the price as given |
| MenuCommands.UpdatePayload | src/voice_assistant.py:458-493 | `update_menu_item` targets the item by `MatchFor` and changes exactly the non-empty text arguments and the given price |
| MenuCommands.DeletePayload | src/voice_assistant.py:495-512 | `delete_menu_item` targets the item by `MatchFor` |
| MenuCommands.FlowAddIsToolAdd | src/voice_assistant.py:219-229 | the add flow publishes what `add_menu_item` would for the collected values |
| MenuCommands.FlowUpdateIsToolUpdate | src/voice_assistant.py:298-302 | the edit flow publishes what `update_menu_item` would with the flow's language code |
| DialogueFlow.FirstMissing | src/voice_assistant.py:183-187 | the scan returns a missing field preceded only by filled ones, or reports that none is missing |
| DialogueFlow.NextMissing | src/voice_assistant.py:181-187 | the next field asked is missing and every field before it in the order is filled; none is asked exactly when all five are filled |
| DialogueFlow.HearCoherent | src/voice_assistant.py:206-207 | an utterance whose normalization is non-empty is not blank once stripped |
| DialogueFlow.MatchableHasName | src/voice_assistant.py:157-163 | an item the matcher can return has a non-empty Arabic or English name |
| DialogueFlow.MatchedNameIsAName | src/voice_assistant.py:266-272 | the target name taken from a matched item is one of its non-empty names, and is the spoken language's name when that one is non-empty |
| DialogueFlow.StoreAddAnswerEffect | src/voice_assistant.py:240-249 | an add-flow answer changes only the pending field; the field stays missing exactly when the answer holds nothing to store |
| DialogueFlow.StoreEditAnswerEffect | src/voice_assistant.py:284-293 | an edit-flow answer sets only the pending field and never to an empty text |
| DialogueFlow.NextMissingOfNoFields | src/voice_assistant.py:314-325 | a fresh add flow asks for the Arabic name first |
| DialogueFlow.TurnKeepsValid | src/voice_assistant.py:203-336 | every turn that does not raise keeps the flow invariant (the add flow's pending field is the next missing one; the edit flow's step agrees with what is set) |
| DialogueFlow.CommandOnlyOnYes | src/voice_assistant.py:214-311 | a command is emitted exactly on a "yes" that is not a cancel, given at an add or edit confirmation step |
| DialogueFlow.CancelEndsFlow | src/voice_assistant.py:209-212 | "cancel" or "stop" on its own ends any flow, publishes nothing and forces "Okay, cancelled.", for every utterance that normalizes to it |
| DialogueFlow.ConfirmNeither | src/voice_assistant.py:236-310 | at an add or edit confirmation, an answer that is neither yes nor no leaves the flow exactly as it was, publishes nothing and asks "Please confirm with yes or no." |
| DialogueFlow.FlowEndsOnlyByAnswer | src/voice_assistant.py:209-311 | an active flow ends exactly on "cancel"/"stop" or on a yes/no at its confirmation step; otherwise it stays in its mode |
| DialogueFlow.IdleTurnStarts | src/voice_assistant.py:313-335 | with no flow, the add intent starts the fresh add flow (all five fields missing, the Arabic name asked first), else the edit intent starts the fresh edit flow at the target step, else no flow starts; nothing is published and the forced reply is untouched |
| DialogueFlow.AddedItemIsComplete | src/voice_assistant.py:217-232 | an add command carries exactly the collected fields, and all five are filled |
| DialogueFlow.UpdateCommandShape | src/voice_assistant.py:296-305 | a "yes" at the edit confirmation emits an update that targets the item by its spoken language's name and changes at most the chosen field |
| DialogueFlow.AddFlowAdvances | src/voice_assistant.py:240-257 | before confirmation an add turn emits nothing, changes only the pending field, asks the same field again exactly when the answer was not stored, and otherwise asks the next missing one |
| DialogueFlow.EditTurnBeforeConfirm | src/voice_assistant.py:259-295 | before confirmation an edit turn stays in the edit flow and moves at most one step forward; an answered value always moves to confirmation |
| DialogueFlow.EditFlowSteps | src/voice_assistant.py:259-311 | an edit flow ends only from its confirmation step |
| DialogueFlow.TargetStepStays | src/voice_assistant.py:261-277 | at the target step the flow and forced reply stay exactly as they were if and only if the answer normalizes to nothing |
| DialogueFlow.FieldChoiceStays | src/voice_assistant.py:278-282 | at the field-choice step the flow stays exactly as it was if and only if no field is recognised; a recognised field becomes pending and the flow moves to the value step |
| DialogueFlow.TargetStepEffect | src/voice_assistant.py:261-277 | naming the target raises only when the matcher raises; otherwise it records the spoken language and the matched item's name, or the cleaned words when nothing matched, and moves to the field choice |
| DialogueFlow.RenderDelegatesIff | src/voice_assistant.py:338-413 | the language model answers exactly when there is no forced reply and no flow |
| DialogueFlow.RenderAsksNextMissing | src/voice_assistant.py:362-363 | an add flow that is not confirming asks the question of its next missing field, and no other field has that question |
| DialogueFlow.ForcedReplySpokenOnce | src/voice_assistant.py:339-343 | a forced reply is spoken in place of everything else and only once |
| VoiceAssistant.Delivered | src/voice_assistant.py:425-433 | a command goes out exactly when there is one and a participant is attached |
| VoiceAssistant.MyAgent.constructor | src/voice_assistant.py:29-38 | a new agent has no menu, no flow, no forced reply, no participant and has published nothing |
| VoiceAssistant.MyAgent.SetMenuContext | src/voice_assistant.py:415-417 | the snapshot is replaced wholesale and nothing else changes |
| VoiceAssistant.MyAgent.AttachLocalParticipant | src/voice_assistant.py:419-420 | the participant is attached and nothing else changes |
| VoiceAssistant.MyAgent.SendMenuEdit | src/voice_assistant.py:425-433 | publishes the payload when attached and reports "Done.", else publishes nothing and reports the channel unavailable |
| VoiceAssistant.MyAgent.FindMenuItemMatch | src/voice_assistant.py:143-179 | the loop returns exactly the specified match outcome |
| VoiceAssistant.MyAgent.ScanCandidateNames | src/voice_assistant.py:164-178 | the inner loop over an item's names agrees with the specified candidate scan |
| VoiceAssistant.MyAgent.NextMissingAddField | src/voice_assistant.py:181-187 | the loop returns the next missing field in order |
| VoiceAssistant.MyAgent.OnUserTurnCompleted | src/voice_assistant.py:203-336 | the new flow, forced reply and published commands are those of `Turn` on the old state; a raising turn changes nothing; the flow invariant is kept |
| VoiceAssistant.MyAgent.LlmNode | src/voice_assistant.py:338-413 | the reply is `Render` of the old state, and a spoken forced reply is consumed |
| VoiceAssistant.MyAgent.AddMenuItem | src/voice_assistant.py:435-456 | publishes `AddPayload` of the arguments when attached and leaves the flow alone |
| VoiceAssistant.MyAgent.UpdateMenuItem | src/voice_assistant.py:458-493 | publishes `UpdatePayload` of the arguments when attached |
| VoiceAssistant.MyAgent.DeleteMenuItem | src/voice_assistant.py:495-512 | publishes `DeletePayload` of the arguments when attached |
| MenuExtraction.KeptMembers | src/extract_menu.py:33-39 | the kept members are members of the object and none has a key ending in `_citations` |
| MenuExtraction.StripRemovesCitations | src/extract_menu.py:28-42 | after cleaning, no object at any depth has a `_citations` key |
| MenuExtraction.StripWithoutCitations | src/extract_menu.py:28-42 | a value without citation keys is returned unchanged |
| MenuExtraction.StripIdempotent | src/extract_menu.py:28-42 | cleaning twice is cleaning once |
| MenuExtraction.KeptLookup | src/extract_menu.py:33-39 | after dropping citation members, a citation key is absent and every other key finds what it found before |
| MenuExtraction.StripCitationsShape | src/extract_menu.py:28-42 | an object keeps every non-citation key with its cleaned value and loses the citation keys; a list keeps length and order, element by element cleaned; anything else is unchanged |
| MenuExtraction.NormalizeText | src/extract_menu.py:45-50 | `None` stays `None`; a result is non-empty and single-spaced |
| MenuExtraction.NormalizeTextWords | src/extract_menu.py:45-50 | the result is `None` exactly for a blank text, and otherwise consists of the same words joined by single spaces |
| MenuExtraction.TranslateDigit | src/extract_menu.py:14 | translating an Arabic-Indic digit keeps it a digit of the same value and leaves no Arabic-Indic digit |
| MenuExtraction.PriceText | src/extract_menu.py:72-75 | the scanned text holds no `,`, no `٫` and no Arabic-Indic digit, and is no longer than its input |
| MenuExtraction.PriceTextChar | src/extract_menu.py:72-75 | one character is dropped if it is `,`, becomes `.` if it is `٫`, and is otherwise digit-translated |
| MenuExtraction.PriceTextAppend | src/extract_menu.py:72-75 | the translation of a concatenation is the concatenation of the translations |
| MenuExtraction.PriceTextDigits | src/extract_menu.py:72-78 | the translated text holds a digit exactly when the original did |
| MenuExtraction.StripKeepsDigits | src/extract_menu.py:68-70 | `strip()` keeps every digit |
| MenuExtraction.PriceFromText | src/extract_menu.py:68-85 | a price is read from a text exactly when it holds a decimal digit |
| MenuExtraction.ParsePrice | src/extract_menu.py:53-85 | `None` gives none, a number its own value, a boolean 1 or 0, and a string a price exactly when it holds a digit |
| MenuExtraction.PriceQar12 | src/extract_menu.py:55-57 | "QAR 12" reads as 12: the number is found past a currency label |
| MenuExtraction.PriceArabic | src/extract_menu.py:55-57 | "١٢٫٥٠" reads as 12.5: Arabic-Indic digits and the Arabic decimal separator are understood |
| MenuExtraction.PriceTwelveFifty | src/extract_menu.py:55-57 | "12.50" reads as 12.5 |
| MenuExtraction.TwelvePointToken | src/extract_menu.py:77 | a text starting "12." and two digits, then its end or a non-digit, scans to the token 12 with that two-digit fraction |
| MenuExtraction.PriceTwelveQr | src/extract_menu.py:55-57 | "12.00 QR" reads as 12.0: the token ends at the space and its zero fraction adds nothing |
| MenuExtraction.PriceThousands | src/extract_menu.py:55-57 | "12,000" reads as 12000: thousands separators are dropped |
| MenuExtraction.RowJson | src/extract_menu.py:198-205 | a written row has exactly the five keys, in field order |
| MenuExtraction.KeptRow | src/extract_menu.py:185-206 | a row that contributes a record contributes a non-blank one |
| MenuExtraction.KeepRowsAppend | src/extract_menu.py:184-206 | rows are cleaned independently and keep their input order |
| MenuExtraction.KeepRowsNotBlank | src/extract_menu.py:194-206 | whatever holds of every record a single row can contribute holds of every record kept |
| MenuExtraction.CleanRowsKept | src/extract_menu.py:194-196 | no kept row is empty |
| MenuExtraction.KeepRowsShorter | src/extract_menu.py:184-206 | there are never more rows out than in |
| MenuExtraction.CleanRowsOne | src/extract_menu.py:185-206 | one extracted row yields its cleaned record exactly when it is an object that is not empty once cleaned |
| MenuExtraction.CleanRowsPrefix | src/extract_menu.py:184-206 | cleaning one more extracted row appends its record, when it keeps one, after the records of the rows before it |
| MenuExtraction.ExtractedShape | src/extract_menu.py:178-208 | the result raises exactly when the decoded extraction is not an object; otherwise it is `{"items": [...]}` with at most one five-key, non-empty record per extracted row, in order |
| MenuExtraction.PostClean | src/extract_menu.py:178-208 | the cleaning loop returns exactly the specified result |

## Left out

- The speech pipeline, LiveKit session, room and worker set-up (`src/voice_assistant.py:515` onward), `on_enter`, and `_build_instructions`/`update_instructions` (the prompt text) are not modelled. `SetMenuContext` does not model the prompt rebuild.
- The language-model answer when no flow is active is the constant `Delegate`; its content is outside this system.
- JSON serialization of published payloads and the transport's `publish_data` are left out. `published` records the payload value that would be serialized.
- Floating point: prices are the exact rational value of the matched token. Rounding by `float()` and the `str()` rendering of floats in summaries are not modelled; a summary carries the price as an `Amount` part.
- Unicode: `lower()`, `\w` and `re.I` are modelled for ASCII, Latin-1 and the Arabic block only. `\d` and `\s` are modelled for ASCII, Arabic-Indic and extended Arabic-Indic digits and for Python's whitespace set. Other scripts' digits and letters are not.
- MenuExtraction.NormalizeText: how `str()` prints a number, a boolean, a list or an object is the caller-supplied `show` parameter, not Python's exact rendering. MenuExtraction.ParsePrice takes the same parameter for lists and objects.
- MenuExtraction.ParsePrice: an integer too large for a float makes `float(value)` raise `OverflowError`, which the source turns into `None` (src/extract_menu.py:63-66). The model gives `Some(n)` for every number. `JNum` also cannot hold the NaN or Infinity that `json.loads` accepts, so those inputs are not modelled.
- VoiceAssistant.MyAgent.OnUserTurnCompleted: takes the turn's text as a string; the `text_content or ""` step for a missing text is not modelled.
- Utterance.AddQuestion: its fallback "Please provide the value." for an unknown key cannot arise, because a field is one of five values. The same holds for the edit flow's "Please provide the new value.": the flow invariant always gives a pending field at that step.
- A turn is modelled on a pre-read record (`Heard`) of every helper's view of the utterance. This is the same as calling the helpers as the code does, because they are pure functions of the text.
- Dictionaries are association lists and lookups take the first entry under a key. A decoded JSON object has unique keys, so this matches `dict.get`.
- The document conversion of the extractor is not part of this model: the Datalab call, polling, file handling, the command line and the API route (`src/extract_menu.py:88-176`, `211-245`), as well as `json.loads` of its output (line 177) (the model starts from the decoded value).
- The `await` points of the agent are modelled as sequential steps. Concurrent turns are not modelled.
